/** Small extension methods over dnlib's objects that the transforms rely on:
    flow-control and operand tests, in-place instruction replacement, list
    appends, the "was this definition trimmed" decision, and the walk over the
    `#US` user-string heap (ECMA-335 Partition II, section 24.2.4). */
module DnLibExtensions {
  import opened Wrappers
  import opened Cil
  import StackHelper

  // ----- Flow control and operands -----

  /** Control never continues with the next instruction. */
  predicate IsUnconditional(flow: FlowControl) {
    flow == Branch || flow == Return || flow == Throw
  }

  /** The operand refers to one instruction or to a list of them. */
  predicate IsBranch(instr: Instr) {
    instr.operand.Target? || instr.operand.Targets?
  }

  /** The stack analyser's successor rules agree with `IsUnconditional`: an
      instruction of any other kind (a `jmp` aside) falls through to the next
      index, while an unconditional one reaches at most its own branch target. */
  lemma UnconditionalMeansNoFallThrough(instrs: seq<Instr>, i: nat)
    requires i < |instrs| && instrs[i].code != Jmp
    requires StackHelper.Successors(instrs, i).Ok?
    ensures !IsUnconditional(instrs[i].Flow()) ==> i + 1 in StackHelper.Successors(instrs, i).value
    ensures IsUnconditional(instrs[i].Flow()) ==>
      var succ := StackHelper.Successors(instrs, i).value;
      |succ| <= 1 &&
      (|succ| == 1 ==> instrs[i].operand.Target? && Some(succ[0]) == IndexOf(instrs, instrs[i].operand.target))
  {
  }

  /** Every instruction whose branches the stack analyser follows carries a
      branch operand. */
  lemma BranchFlowIsBranch(instrs: seq<Instr>, i: nat)
    requires i < |instrs| && StackHelper.Successors(instrs, i).Ok?
    ensures instrs[i].Flow() == Branch || instrs[i].Flow() == CondBranch ==> IsBranch(instrs[i])
  {
  }

  // ----- Replace -----

  /** `instr.Replace(other)`: the object keeps its identity and takes the
      other's opcode (and with it the stack effect), operand, offset and
      sequence point. */
  function Replace(instr: Instr, other: Instr): (r: Instr)
    ensures r.id == instr.id
    ensures r.code == other.code && r.operand == other.operand
    ensures r.offset == other.offset && r.sequencePoint == other.sequencePoint
  {
    Instr(instr.id, other.code, other.operand, other.offset, other.sequencePoint, other.pushes, other.pops)
  }

  /** Replacing an instruction of a list in place keeps every reference valid:
      the identities are unchanged, so each lookup finds the same position. */
  lemma ReplaceKeepsReferences(instrs: seq<Instr>, k: nat, other: Instr)
    requires k < |instrs|
    ensures Ids(instrs[k := Replace(instrs[k], other)]) == Ids(instrs)
    ensures forall id :: IndexOf(instrs[k := Replace(instrs[k], other)], id) == IndexOf(instrs, id)
  {
    var after := instrs[k := Replace(instrs[k], other)];
    forall id ensures IndexOf(after, id) == IndexOf(instrs, id) {
      SameIdsSameIndex(after, instrs, id);
    }
  }

  lemma SameIdsSameIndex(a: seq<Instr>, b: seq<Instr>, id: InstrId)
    requires |a| == |b| && forall k :: 0 <= k < |a| ==> a[k].id == b[k].id
    ensures IndexOf(a, id) == IndexOf(b, id)
  {
    match IndexOf(a, id)
    case None =>
    case Some(j) =>
  }

  // ----- Append / AddRange -----

  /** A list that the source appends to in place. */
  class MutableList<T> {
    var items: seq<T>

    constructor (items: seq<T>)
      ensures this.items == items
    {
      this.items := items;
    }

    /** `list.Append(inst)`: adds the element and hands the same one back. */
    method Append(x: T) returns (r: T)
      modifies this
      ensures items == old(items) + [x]
      ensures r == x
    {
      items := items + [x];
      r := x;
    }

    /** `list.AddRange(list2)`: adds every element of `source` in order. */
    method AddRange(source: seq<T>)
      modifies this
      ensures items == old(items) + source
    {
      for k := 0 to |source|
        invariant items == old(items) + source[..k]
      {
        items := items + [source[k]];
      }
    }
  }

  // ----- WasTrimmed -----

  /** A module: its top-level type definitions, by identity. */
  datatype ModuleDef = ModuleDef(types: seq<nat>)

  /** A member definition: a type, method, field, property or event. */
  datatype MemberDef = MemberDef(id: nat, isType: bool, owner: Option<ModuleDef>, declaringType: Option<nat>)

  /** The definition is no longer part of the module: it has no module, or it
      is a top-level definition that the module's type list does not hold. */
  predicate WasTrimmed(member: MemberDef) {
    if member.owner.None? then true
    else if member.declaringType.Some? then false
    else if !member.isType then true
    else member.id !in member.owner.value.types
  }

  /** Only definitions that belong to a module and are reachable from it --
      through a declaring type or the module's type list -- survive. */
  lemma WasTrimmedCases(member: MemberDef)
    ensures !WasTrimmed(member) <==>
      member.owner.Some? &&
      (member.declaringType.Some? || (member.isType && member.id in member.owner.value.types))
  {
  }

  // ----- The #US heap walk -----

  type Byte = x: int | 0 <= x < 0x100

  /** A UTF-16 code unit. */
  type Unit = x: int | 0 <= x < 0x1_0000

  /** The largest value a compressed unsigned integer can hold, plus one. */
  const CompressedLimit: nat := 0x2000_0000

  /** A compressed unsigned integer at the start of `b` (ECMA-335 Partition II,
      section 23.2): its value and its size in bytes, or None when the prefix
      is not a valid encoding or runs past the end. */
  function DecodeCompressed(b: seq<Byte>): (r: Option<(nat, nat)>)
    ensures r.Some? ==> r.value.0 < CompressedLimit
    ensures r.Some? ==> (r.value.1 == 1 || r.value.1 == 2 || r.value.1 == 4) && r.value.1 <= |b|
  {
    if |b| == 0 then None
    else if b[0] < 0x80 then Some((b[0], 1))
    else if b[0] < 0xC0 then
      if |b| < 2 then None else Some(((b[0] as int - 0x80) * 0x100 + b[1], 2))
    else if b[0] < 0xE0 then
      if |b| < 4 then None
      else Some(((b[0] as int - 0xC0) * 0x100_0000 + b[1] as int * 0x1_0000 + b[2] as int * 0x100 + b[3], 4))
    else None
  }

  /** The shortest compressed encoding of v. */
  function EncodeCompressed(v: nat): (r: seq<Byte>)
    requires v < CompressedLimit
  {
    if v < 0x80 then [v]
    else if v < 0x4000 then [0x80 + v / 0x100, v % 0x100]
    else [0xC0 + v / 0x100_0000, (v / 0x1_0000) % 0x100, (v / 0x100) % 0x100, v % 0x100]
  }

  /** Decoding an encoded value gives it back and consumes exactly its bytes,
      whatever follows. */
  lemma CompressedRoundTrip(v: nat, rest: seq<Byte>)
    requires v < CompressedLimit
    ensures DecodeCompressed(EncodeCompressed(v) + rest) == Some((v, |EncodeCompressed(v)|))
  {
    var b := EncodeCompressed(v) + rest;
    if v < 0x80 {
    } else if v < 0x4000 {
      assert v == (v / 0x100) * 0x100 + v % 0x100;
    } else {
      assert b[0] == 0xC0 + v / 0x100_0000 && b[1] == (v / 0x1_0000) % 0x100;
      assert b[2] == (v / 0x100) % 0x100 && b[3] == v % 0x100;
      FourBytes(v);
    }
  }

  /** The four base-256 digits of v, most significant first, give v back. */
  lemma FourBytes(v: nat)
    ensures v == (v / 0x100_0000) * 0x100_0000 + ((v / 0x1_0000) % 0x100) * 0x1_0000
                 + ((v / 0x100) % 0x100) * 0x100 + v % 0x100
  {
    var q0, q1, q2 := v / 0x100_0000, v / 0x1_0000, v / 0x100;
    assert v == q2 * 0x100 + v % 0x100;
    assert q2 == q1 * 0x100 + q2 % 0x100;
    assert q1 == q0 * 0x100 + q1 % 0x100;
  }

  /** `ReadUtf16String(chars)`: `chars` code units of two bytes each, low byte
      first, from the start of `b`. */
  function ReadUtf16(b: seq<Byte>, chars: nat): (r: seq<Unit>)
    requires 2 * chars <= |b|
    ensures |r| == chars
  {
    if chars == 0 then [] else [b[0] as int + 0x100 * b[1] as int] + ReadUtf16(b[2..], chars - 1)
  }

  /** UTF-16LE encoding of a string. */
  function Utf16Bytes(s: seq<Unit>): (r: seq<Byte>)
    ensures |r| == 2 * |s|
  {
    if |s| == 0 then [] else [s[0] % 0x100, s[0] / 0x100] + Utf16Bytes(s[1..])
  }

  /** Reading back the units of an encoded string gives the string, whatever
      follows it. */
  lemma {:induction false} Utf16RoundTrip(s: seq<Unit>, rest: seq<Byte>)
    ensures ReadUtf16(Utf16Bytes(s) + rest, |s|) == s
  {
    if |s| > 0 {
      var b := Utf16Bytes(s) + rest;
      assert b[2..] == Utf16Bytes(s[1..]) + rest;
      Utf16RoundTrip(s[1..], rest);
    }
  }

  /** The one-element list of an accepted string, or nothing. */
  function Accepted(s: seq<Unit>, rejected: iset<seq<Unit>>): seq<seq<Unit>> {
    if (s !in rejected) then [s] else []
  }

  /** The entry at `pos`: a compressed length, then `length / 2` UTF-16 code
      units read from the bytes that follow. The result is the units and the
      position after them, or None where the walk stops: at the end, at an
      unreadable length, or at a length longer than what is left. */
  function Entry(h: seq<Byte>, pos: nat): (r: Option<(seq<Unit>, nat)>)
    ensures r.Some? ==> pos < r.value.1 <= |h|
  {
    if pos >= |h| then None
    else
      var prefix := DecodeCompressed(h[pos..]);
      if prefix.None? then None
      else
        var (length, size) := prefix.value;
        if |h| - pos - size < length then None
        else Some((ReadUtf16(h[pos + size..], length / 2), pos + size + 2 * (length / 2)))
  }

  /** The strings `ReadAll` yields from the heap bytes `h`, reading from
      position `pos`. `rejected` tells which unit sequences the string
      conversion accepts: a rejected one is skipped. */
  function Walk(h: seq<Byte>, pos: nat, rejected: iset<seq<Unit>>): seq<seq<Unit>>
    decreases |h| - pos
  {
    match Entry(h, pos)
    case None => []
    case Some((str, next)) => Accepted(str, rejected) + Walk(h, next, rejected)
  }

  /** One step of the walk, once the length prefix at `pos` is known. */
  lemma EntryAt(h: seq<Byte>, pos: nat, length: nat, size: nat)
    requires pos < |h| && DecodeCompressed(h[pos..]) == Some((length, size))
    ensures |h| - pos - size < length ==> Entry(h, pos) == None
    ensures |h| - pos - size >= length ==>
      2 * (length / 2) <= |h| - pos - size &&
      Entry(h, pos) == Some((ReadUtf16(h[pos + size..], length / 2), pos + size + 2 * (length / 2)))
  {
  }

  lemma WalkFrom(h: seq<Byte>, pos: nat, str: seq<Unit>, next: nat, rejected: iset<seq<Unit>>)
    requires Entry(h, pos) == Some((str, next))
    ensures Walk(h, pos, rejected) == Accepted(str, rejected) + Walk(h, next, rejected)
  {
  }

  lemma AppendAssoc<T>(a: seq<T>, b: seq<T>, c: seq<T>)
    ensures (a + b) + c == a + (b + c)
  {
  }

  /** One round of `ReadAll`'s loop: read the length, check that it fits, read
      the string. */
  method ReadEntry(heap: seq<Byte>, pos: nat, ghost rejected: iset<seq<Unit>>) returns (r: Option<(seq<Unit>, nat)>)
    requires pos < |heap|
    ensures r == Entry(heap, pos)
    ensures r.None? ==> Walk(heap, pos, rejected) == []
    ensures r.Some? ==> Walk(heap, pos, rejected) == Accepted(r.value.0, rejected) + Walk(heap, r.value.1, rejected)
  {
    var prefix := DecodeCompressed(heap[pos..]);
    if prefix.None? {
      return None;
    }
    var (length, size) := prefix.value;
    EntryAt(heap, pos, length, size);
    if |heap| - pos - size < length {
      return None;
    }
    var str := ReadUtf16(heap[pos + size..], length / 2);
    return Some((str, pos + size + 2 * (length / 2)));
  }

  /** `ReadAll`: the loop advancing a reader over the heap. */
  method ReadAll(heap: seq<Byte>, rejected: iset<seq<Unit>>) returns (strings: seq<seq<Unit>>)
    ensures strings == Walk(heap, 0, rejected)
  {
    var pos := 0;
    strings := [];
    while pos < |heap|
      invariant 0 <= pos <= |heap|
      invariant strings + Walk(heap, pos, rejected) == Walk(heap, 0, rejected)
      decreases |heap| - pos
    {
      var entry := ReadEntry(heap, pos, rejected);
      if entry.None? {
        break;
      }
      var (str, next) := entry.value;
      AppendAssoc(strings, Accepted(str, rejected), Walk(heap, next, rejected));
      if (str !in rejected) {
        assert Accepted(str, rejected) == [str];
        strings := strings + [str];
      } else {
        assert Accepted(str, rejected) == [];
        assert strings + [] == strings;
      }
      pos := next;
    }
  }

  /** `ToHashSet`: the distinct strings of the walk. */
  method ToHashSet(heap: seq<Byte>, rejected: iset<seq<Unit>>) returns (r: set<seq<Unit>>)
    ensures forall s :: s in r <==> s in Walk(heap, 0, rejected)
  {
    var all := ReadAll(heap, rejected);
    r := set s | s in all;
  }

  /** A user string as the heap stores it: the length of its UTF-16 bytes plus
      one, the bytes, and a final flag byte (0 or 1). */
  function Blob(s: seq<Unit>, flag: Byte): seq<Byte>
    requires 2 * |s| + 1 < CompressedLimit
  {
    EncodeCompressed(2 * |s| + 1) + Utf16Bytes(s) + [flag]
  }

  /** Where a blob followed by any bytes puts its length, its string and its
      flag, as the walk reads them. */
  lemma BlobLayout(s: seq<Unit>, flag: Byte, rest: seq<Byte>)
    requires 2 * |s| + 1 < CompressedLimit
    ensures var b := Blob(s, flag) + rest; var size := |EncodeCompressed(2 * |s| + 1)|;
      |Blob(s, flag)| == size + 2 * |s| + 1 &&
      DecodeCompressed(b) == Some((2 * |s| + 1, size)) &&
      ReadUtf16(b[size..], |s|) == s &&
      b[size + 2 * |s|] == flag
  {
    var e := EncodeCompressed(2 * |s| + 1);
    var u := Utf16Bytes(s);
    var b := Blob(s, flag) + rest;
    assert b == e + (u + ([flag] + rest));
    CompressedRoundTrip(2 * |s| + 1, u + ([flag] + rest));
    assert b[|e|..] == u + ([flag] + rest);
    Utf16RoundTrip(s, [flag] + rest);
  }

  /** Only `length / 2` units are read: for the odd length 2n + 1 that a
      stored string of n units carries, the entry ends on the string's final
      byte rather than after it. */
  lemma EntryOfString(h: seq<Byte>, pos: nat, s: seq<Unit>, size: nat)
    requires pos + size + 2 * |s| < |h|
    requires DecodeCompressed(h[pos..]) == Some((2 * |s| + 1, size))
    requires ReadUtf16(h[pos + size..], |s|) == s
    ensures Entry(h, pos) == Some((s, pos + size + 2 * |s|))
  {
    assert (2 * |s| + 1) / 2 == |s|;
    EntryAt(h, pos, 2 * |s| + 1, size);
  }

  /** The walk then takes the final flag byte (0 or 1) for the next length: it
      yields the string, then one empty string (none when the flag is 1 and
      ends the heap), and carries on right after the flag. */
  lemma WalkString(h: seq<Byte>, pos: nat, s: seq<Unit>, next: nat, flag: Byte, rejected: iset<seq<Unit>>)
    requires Entry(h, pos) == Some((s, next))
    requires next < |h| && h[next] == flag <= 1
    ensures Walk(h, pos, rejected) ==
      Accepted(s, rejected)
      + ((if flag == 1 && next + 1 == |h| then [] else Accepted([], rejected)) + Walk(h, next + 1, rejected))
  {
    var rest := (if flag == 1 && next + 1 == |h| then [] else Accepted([], rejected)) + Walk(h, next + 1, rejected);
    assert Walk(h, next, rejected) == rest by {
      FlagStep(h, next, rejected);
    }
    assert Walk(h, pos, rejected) == Accepted(s, rejected) + Walk(h, next, rejected) by {
      WalkFrom(h, pos, s, next, rejected);
    }
  }

  /** A flag byte read as a length: 0, or 1 with at least one byte after it,
      gives an empty string; a final 1 ends the walk. */
  lemma FlagStep(h: seq<Byte>, pos: nat, rejected: iset<seq<Unit>>)
    requires pos < |h| && h[pos] <= 1
    ensures Walk(h, pos, rejected) ==
      (if h[pos] == 1 && pos + 1 == |h| then [] else Accepted([], rejected)) + Walk(h, pos + 1, rejected)
  {
    assert DecodeCompressed(h[pos..]) == Some((h[pos] as nat, 1));
    EntryAt(h, pos, h[pos], 1);
    if h[pos] == 1 && pos + 1 == |h| {
      assert Walk(h, pos, rejected) == [];
    } else {
      assert ReadUtf16(h[pos + 1..], 0) == [];
      WalkFrom(h, pos, [], pos + 1, rejected);
    }
  }

  /** A string the conversion rejects never comes out of the walk. */
  lemma {:induction false} WalkSkipsRejected(h: seq<Byte>, pos: nat, rejected: iset<seq<Unit>>, x: seq<Unit>)
    requires x in rejected
    ensures x !in Walk(h, pos, rejected)
    decreases |h| - pos
  {
    match Entry(h, pos)
    case None =>
    case Some((str, next)) =>
      WalkSkipsRejected(h, next, rejected, x);
  }


  /** A blob stored at `pos` is one entry of the walk, which ends on the
      blob's flag byte; the bytes after the flag are untouched. */
  lemma BlobEntry(h: seq<Byte>, pos: nat, s: seq<Unit>, flag: Byte, rest: seq<Byte>)
    requires 2 * |s| + 1 < CompressedLimit
    requires pos <= |h| && h[pos..] == Blob(s, flag) + rest
    ensures var next := pos + |Blob(s, flag)| - 1;
      next < |h| && Entry(h, pos) == Some((s, next)) && h[next] == flag && h[next + 1..] == rest
  {
    var b := Blob(s, flag) + rest;
    var size := |EncodeCompressed(2 * |s| + 1)|;
    var next := pos + size + 2 * |s|;
    assert |Blob(s, flag)| == size + 2 * |s| + 1 &&
      DecodeCompressed(h[pos..]) == Some((2 * |s| + 1, size)) &&
      ReadUtf16(h[pos + size..], |s|) == s && h[next] == flag by {
      BlobLayout(s, flag, rest);
      assert h[pos + size..] == b[size..];
      assert h[next] == b[size + 2 * |s|];
    }
    EntryOfString(h, pos, s, size);
    assert h[next + 1..] == b[|Blob(s, flag)|..] == rest;
  }

  /** A `#US` heap as a compiler writes it: the empty blob (a single 0 byte)
      and then one blob per string. */
  function UserStringHeap(ss: seq<seq<Unit>>, flags: seq<Byte>): seq<Byte>
    requires |flags| == |ss|
    requires forall k :: 0 <= k < |ss| ==> 2 * |ss[k]| + 1 < CompressedLimit
  {
    [0] + Blobs(ss, flags)
  }

  function Blobs(ss: seq<seq<Unit>>, flags: seq<Byte>): seq<Byte>
    requires |flags| == |ss|
    requires forall k :: 0 <= k < |ss| ==> 2 * |ss[k]| + 1 < CompressedLimit
  {
    if |ss| == 0 then [] else Blob(ss[0], flags[0]) + Blobs(ss[1..], flags[1..])
  }

  /** Blob k of a run that ends the heap starts at `starts[k]`, is one entry
      of the walk ending on its flag byte, and is followed by blob k + 1. */
  ghost predicate Layout(h: seq<Byte>, starts: seq<nat>, ss: seq<seq<Unit>>, flags: seq<Byte>)
    requires |flags| == |ss| && |starts| == |ss| + 1
  {
    starts[|ss|] == |h| &&
    forall k :: 0 <= k < |ss| ==> BlobAt(h, starts[k], ss[k], flags[k], starts[k + 1])
  }

  /** The walk reads `s` from `start` and stops on the flag byte just before
      `end`. */
  ghost predicate BlobAt(h: seq<Byte>, start: nat, s: seq<Unit>, flag: Byte, end: nat) {
    0 < end <= |h| && Entry(h, start) == Some((s, end - 1)) && h[end - 1] == flag <= 1
  }

  lemma {:induction false} BlobsLayout(h: seq<Byte>, pos: nat, ss: seq<seq<Unit>>, flags: seq<Byte>)
    returns (starts: seq<nat>)
    requires |flags| == |ss|
    requires forall k :: 0 <= k < |ss| ==> 2 * |ss[k]| + 1 < CompressedLimit && flags[k] <= 1
    requires pos <= |h| && h[pos..] == Blobs(ss, flags)
    ensures |starts| == |ss| + 1 && starts[0] == pos
    ensures Layout(h, starts, ss, flags)
    decreases |ss|
  {
    if |ss| == 0 {
      assert |h[pos..]| == 0;
      return [pos];
    }
    var rest := Blobs(ss[1..], flags[1..]);
    var next := pos + |Blob(ss[0], flags[0])|;
    assert next - 1 < |h| && Entry(h, pos) == Some((ss[0], next - 1)) && h[next - 1] == flags[0] && h[next..] == rest by {
      BlobEntry(h, pos, ss[0], flags[0], rest);
    }
    var tail := BlobsLayout(h, next, ss[1..], flags[1..]);
    starts := [pos] + tail;
    forall k | 0 <= k < |ss|
      ensures BlobAt(h, starts[k], ss[k], flags[k], starts[k + 1])
    {
      if k > 0 {
        assert starts[k] == tail[k - 1] && starts[k + 1] == tail[k];
        assert ss[k] == ss[1..][k - 1] && flags[k] == flags[1..][k - 1];
      }
    }
  }

  /** Blob by blob, the walk yields each string if accepted, then the empty
      string unless the blob's flag 1 ends the heap. */
  ghost predicate Yields(h: seq<Byte>, starts: seq<nat>, ss: seq<seq<Unit>>, flags: seq<Byte>, rejected: iset<seq<Unit>>)
    requires |flags| == |ss| && |starts| == |ss| + 1
  {
    forall k :: 0 <= k < |ss| ==>
      Walk(h, starts[k], rejected) ==
        Accepted(ss[k], rejected)
        + ((if flags[k] == 1 && starts[k + 1] == |h| then [] else Accepted([], rejected)) + Walk(h, starts[k + 1], rejected))
  }

  lemma LayoutYields(h: seq<Byte>, starts: seq<nat>, ss: seq<seq<Unit>>, flags: seq<Byte>, rejected: iset<seq<Unit>>)
    requires |flags| == |ss| && |starts| == |ss| + 1
    requires Layout(h, starts, ss, flags)
    ensures Yields(h, starts, ss, flags, rejected)
  {
    forall k | 0 <= k < |ss|
      ensures Walk(h, starts[k], rejected) ==
        Accepted(ss[k], rejected)
        + ((if flags[k] == 1 && starts[k + 1] == |h| then [] else Accepted([], rejected)) + Walk(h, starts[k + 1], rejected))
    {
      WalkString(h, starts[k], ss[k], starts[k + 1] - 1, flags[k], rejected);
    }
  }

  /** A chain of walk results, each the accepted string k, then at most the
      empty string, then the next result: from link i on it holds exactly
      the accepted strings among those stored, and otherwise only the empty
      string. */
  lemma {:induction false} ChainFinds(ws: seq<seq<seq<Unit>>>, ts: seq<seq<seq<Unit>>>, ss: seq<seq<Unit>>,
                                      rejected: iset<seq<Unit>>, x: seq<Unit>, i: nat)
    requires |ws| == |ss| + 1 && |ts| == |ss| && i <= |ss| && ws[|ss|] == []
    requires forall k :: 0 <= k < |ss| ==> ws[k] == Accepted(ss[k], rejected) + (ts[k] + ws[k + 1])
    requires forall k :: 0 <= k < |ss| ==> ts[k] == [] || ts[k] == Accepted([], rejected)
    ensures x in ws[i] ==> x !in rejected && (x == [] || x in ss[i..])
    ensures x !in rejected && x in ss[i..] ==> x in ws[i]
    decreases |ss| - i
  {
    if i < |ss| {
      ChainFinds(ws, ts, ss, rejected, x, i + 1);
      assert ss[i..] == [ss[i]] + ss[i + 1..];
    }
  }

  /** Reading a well-formed heap recovers every stored string the conversion
      accepts, and nothing else but the empty string (when accepted). */
  lemma UserStringsRecovered(ss: seq<seq<Unit>>, flags: seq<Byte>, rejected: iset<seq<Unit>>)
    requires |flags| == |ss|
    requires forall k :: 0 <= k < |ss| ==> 2 * |ss[k]| + 1 < CompressedLimit && flags[k] <= 1
    ensures forall x :: x in Walk(UserStringHeap(ss, flags), 0, rejected) <==> x !in rejected && (x == [] || x in ss)
  {
    var h := UserStringHeap(ss, flags);
    assert Walk(h, 0, rejected) == Accepted([], rejected) + Walk(h, 1, rejected) by {
      FlagStep(h, 0, rejected);
    }
    assert h[1..] == Blobs(ss, flags);
    var starts := BlobsLayout(h, 1, ss, flags);
    LayoutYields(h, starts, ss, flags, rejected);
    var ws := seq(|ss| + 1, k requires 0 <= k < |ss| + 1 => Walk(h, starts[k], rejected));
    var ts := seq(|ss|, k requires 0 <= k < |ss| =>
      if flags[k] == 1 && starts[k + 1] == |h| then [] else Accepted([], rejected));
    assert ws[|ss|] == [];
    forall x
      ensures x in Walk(h, 0, rejected) <==> x !in rejected && (x == [] || x in ss)
    {
      ChainFinds(ws, ts, ss, rejected, x, 0);
      assert ss[0..] == ss;
    }
  }
}
