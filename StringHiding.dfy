/** The StringHiding feature: the string literals of the obfuscated methods
    are packed into one byte buffer, a static constructor decodes the buffer
    into one static field per string, and every `ldstr` becomes a load of the
    field that holds its string.

    Strings are sequences of UTF-16 code units. The buffer is modelled before
    Deflate compression: the decoder's inflating copy is taken as filling its
    pointer's memory with exactly the packed bytes. */
module StringHiding {
  import opened Wrappers
  import opened Cil
  import opened BoundedInts
  import DnLibExtensions

  type Byte = x: int | 0 <= x < 0x100

  /** A .NET string. */
  type Text = seq<CodeUnit>

  /** The largest buffer the decoder may `localloc` on the stack. */
  const OneMiB: int := 1024 * 1024

  /** The longest byte array .NET allocates (`Array.MaxLength`). A
      `MemoryStream` cannot grow its buffer past it: a write that would end
      beyond it throws (an `OutOfMemoryException` up to int.MaxValue, an
      `IOException` "Stream was too long" past it). */
  const MaxStreamLength: int := 0x7FFF_FFC7

  /** Why Execute gives up: a stream write would grow the buffer past
      `MaxStreamLength`, a key is added to the dictionary twice, or the stack
      buffer would exceed 1 MiB. */
  datatype HidingError = StreamTooLong | DuplicateKey | OverOneMiB

  predicate Distinct<T(==)>(xs: seq<T>) {
    forall i, j :: 0 <= i < j < |xs| ==> xs[i] != xs[j]
  }

  // ----- IsAscii -----

  predicate AllAscii(s: Text) {
    forall i :: 0 <= i < |s| ==> s[i] <= 127
  }

  /** `IsAscii`: the scan stops at the first code unit above 127. */
  method IsAscii(s: Text) returns (b: bool)
    ensures b <==> AllAscii(s)
  {
    for i := 0 to |s|
      invariant forall j :: 0 <= j < i ==> s[j] <= 127
    {
      if s[i] > 127 {
        return false;
      }
    }
    return true;
  }

  // ----- The bytes of one entry -----

  /** The string Encode writes: a NUL is appended unless it holds one already. */
  function Terminated(s: Text): Text {
    if 0 in s then s else s + [0]
  }

  lemma TerminatedAscii(s: Text)
    requires AllAscii(s)
    ensures AllAscii(Terminated(s))
  {
    if 0 !in s {
      var t := s + [0];
      forall i | 0 <= i < |t|
        ensures t[i] <= 127
      {
        if i < |s| {
          assert t[i] == s[i];
        }
      }
    }
  }

  /** `Encoding.ASCII.GetBytes` on an ASCII string: one byte per code unit. */
  function AsciiBytes(s: Text): (r: seq<Byte>)
    requires AllAscii(s)
    ensures |r| == |s|
  {
    if s == [] then [] else [s[0] as Byte] + AsciiBytes(s[1..])
  }

  /** The UTF-16LE bytes of the code units themselves, two per unit, low byte
      first. On a string without lone surrogates this is what
      `Encoding.Unicode.GetBytes` returns; see `Utf16BytesAsWritten`. */
  function Utf16Bytes(s: Text): (r: seq<Byte>)
    ensures |r| == 2 * |s|
  {
    if s == [] then [] else [s[0] % 256, s[0] / 256] + Utf16Bytes(s[1..])
  }

  /** The bytes of `s` as one entry, every code unit kept: the encoding the
      decoder reads back losslessly (see `EntryRoundTrip`). Encode itself
      writes `EntryBytesAsWritten`. */
  function EntryBytes(s: Text): (r: seq<Byte>)
    ensures |r| == (if AllAscii(s) then 1 else 2) * |Terminated(s)|
  {
    if AllAscii(s) then TerminatedAscii(s); AsciiBytes(Terminated(s)) else Utf16Bytes(Terminated(s))
  }

  /** The dictionary value Encode records for a string (the `Field` slot is
      not part of it: see `FieldTable`). */
  datatype EncodedString = EncodedString(isAscii: bool, offset: int, length: int, hasNull: bool)

  /** The record for `s` written at `offset`. */
  function Entry(s: Text, offset: int): EncodedString {
    EncodedString(AllAscii(s), offset, |EntryBytesAsWritten(s)|, 0 in s)
  }

  /** An entry is one byte per unit when ASCII and two otherwise, counting the
      appended NUL, so UTF-16 entries have even length and no entry is empty. */
  lemma EntryLength(s: Text)
    ensures Entry(s, 0).length == (if AllAscii(s) then 1 else 2) * |Terminated(s)|
    ensures Entry(s, 0).length > 0
    ensures !Entry(s, 0).isAscii ==> Entry(s, 0).length % 2 == 0
  {
  }

  // ----- Encode -----

  /** Encode's outputs: the buffer, the dictionary's keys in insertion order
      (its enumeration order), and the dictionary. */
  datatype Packing = Packing(data: seq<Byte>, order: seq<Text>, values: map<Text, EncodedString>)

  /** What `Encode` computes for `strings`, processed in order: the entry is
      written with `Encoding.Unicode`'s replacement fallback, the write fails
      when the stream would grow past `MaxStreamLength`, the offset is the
      stream position before the write (its checked cast to int cannot fail,
      see `PackedOffsetsFit`), and `Dictionary.Add`, after the write, refuses
      a key it already holds. */
  function Packed(strings: seq<Text>): Result<Packing, HidingError>
    decreases |strings|
  {
    if strings == [] then Ok(Packing([], [], map[]))
    else
      var prev :- Packed(strings[..|strings| - 1]);
      var s := strings[|strings| - 1];
      if |prev.data| + |EntryBytesAsWritten(s)| > MaxStreamLength then Err(StreamTooLong)
      else if s in prev.values then Err(DuplicateKey)
      else Ok(Packing(prev.data + EntryBytesAsWritten(s), prev.order + [s], prev.values[s := Entry(s, |prev.data|)]))
  }

  /** The entries of `strings` laid end to end: a reference for the buffer
      that does not mention the dictionary. */
  function Bytes(strings: seq<Text>): seq<Byte>
    decreases |strings|
  {
    if strings == [] then [] else Bytes(strings[..|strings| - 1]) + EntryBytesAsWritten(strings[|strings| - 1])
  }

  /** Every string has the record it would get if written right after all
      earlier strings. */
  ghost predicate Placed(values: map<Text, EncodedString>, strings: seq<Text>) {
    forall k :: 0 <= k < |strings| ==> strings[k] in values && values[strings[k]] == Entry(strings[k], |Bytes(strings[..k])|)
  }

  /** Every write of `strings`, the last included, ends within the stream's
      maximum length; since the layout only grows, this is a bound on the
      whole layout. */
  predicate WritesFit(strings: seq<Text>) {
    |Bytes(strings)| <= MaxStreamLength
  }

  lemma PlacedSnoc(values: map<Text, EncodedString>, pre: seq<Text>, s: Text)
    requires Placed(values, pre) && s !in values
    ensures Placed(values[s := Entry(s, |Bytes(pre)|)], pre + [s])
  {
    var strings := pre + [s];
    var vs := values[s := Entry(s, |Bytes(pre)|)];
    forall k | 0 <= k < |strings|
      ensures strings[k] in vs && vs[strings[k]] == Entry(strings[k], |Bytes(strings[..k])|)
    {
      if k < |pre| {
        assert strings[k] == pre[k] && strings[..k] == pre[..k];
        assert pre[k] in values;
      } else {
        assert strings[..k] == pre;
      }
    }
  }

  /** The buffer is the entries laid end to end and the keys are the strings
      in order. */
  lemma {:induction false} PackedData(strings: seq<Text>)
    requires Packed(strings).Ok?
    ensures Packed(strings).value.data == Bytes(strings)
    ensures Packed(strings).value.order == strings
    decreases |strings|
  {
    if strings != [] {
      var n := |strings|;
      var pre := strings[..n - 1];
      assert strings == pre + [strings[n - 1]];
      PackedData(pre);
    }
  }

  /** Each string is a key, nothing else is, and Encode never succeeds on a
      repeated string. */
  lemma {:induction false} PackedKeys(strings: seq<Text>)
    requires Packed(strings).Ok?
    ensures Packed(strings).value.values.Keys == set s | s in strings
    ensures Distinct(strings)
    decreases |strings|
  {
    if strings != [] {
      var n := |strings|;
      var pre := strings[..n - 1];
      var s := strings[n - 1];
      assert strings == pre + [s];
      PackedKeys(pre);
      DistinctSnoc(pre, s);
    }
  }

  /** Each string's record: its offset is the total length of the entries
      before it. */
  lemma {:induction false} PackedPlaced(strings: seq<Text>)
    requires Packed(strings).Ok?
    ensures Placed(Packed(strings).value.values, strings)
    decreases |strings|
  {
    if strings != [] {
      var n := |strings|;
      var pre := strings[..n - 1];
      var s := strings[n - 1];
      assert strings == pre + [s];
      PackedPlaced(pre);
      PackedData(pre);
      PlacedSnoc(Packed(pre).value.values, pre, s);
    }
  }

  lemma DistinctSnoc<T>(pre: seq<T>, x: T)
    ensures Distinct(pre + [x]) <==> Distinct(pre) && x !in pre
  {
    var xs := pre + [x];
    if Distinct(xs) {
      forall i, j | 0 <= i < j < |pre|
        ensures pre[i] != pre[j]
      {
        assert xs[i] == pre[i] && xs[j] == pre[j];
      }
      forall i | 0 <= i < |pre|
        ensures pre[i] != x
      {
        assert xs[i] == pre[i] && xs[|pre|] == x;
      }
    }
  }

  lemma WritesFitSnoc(pre: seq<Text>, s: Text)
    ensures |Bytes(pre + [s])| == |Bytes(pre)| + |EntryBytesAsWritten(s)|
    ensures WritesFit(pre + [s]) ==> WritesFit(pre)
  {
    assert (pre + [s])[..|pre|] == pre;
  }

  /** Encode succeeds exactly when the strings are distinct and no write
      grows the stream past its maximum length. */
  lemma {:induction false} PackedOkIff(strings: seq<Text>)
    ensures Packed(strings).Ok? <==> Distinct(strings) && WritesFit(strings)
    decreases |strings|
  {
    if strings != [] {
      var n := |strings|;
      var pre := strings[..n - 1];
      var s := strings[n - 1];
      assert strings == pre + [s];
      PackedOkIff(pre);
      DistinctSnoc(pre, s);
      WritesFitSnoc(pre, s);
      if Packed(pre).Ok? {
        PackedKeys(pre);
        PackedData(pre);
      }
    }
  }

  /** A successful encoding's buffer is within the stream's maximum length,
      so every recorded offset and length fits in an int and the `checked`
      cast of the stream position never throws. */
  lemma PackedOffsetsFit(strings: seq<Text>, k: nat)
    requires Packed(strings).Ok? && k < |strings|
    ensures |Packed(strings).value.data| <= MaxStreamLength < Int32Max
    ensures strings[k] in Packed(strings).value.values
    ensures var e := Packed(strings).value.values[strings[k]];
      0 <= e.offset <= e.offset + e.length <= MaxStreamLength
  {
    PackedOkIff(strings);
    PackedData(strings);
    PackedEntryAt(strings, k);
  }

  /** On distinct strings the only way Encode fails is a write past the
      stream's maximum length. */
  lemma {:induction false} PackedDistinctError(strings: seq<Text>)
    requires Distinct(strings) && Packed(strings).Err?
    ensures Packed(strings).error == StreamTooLong
    decreases |strings|
  {
    var n := |strings|;
    var pre := strings[..n - 1];
    var s := strings[n - 1];
    assert strings == pre + [s];
    DistinctSnoc(pre, s);
    if Packed(pre).Err? {
      PackedDistinctError(pre);
    } else {
      PackedKeys(pre);
    }
  }

  lemma PrefixSnoc<T>(xs: seq<T>, i: nat)
    requires i < |xs|
    ensures xs[..i + 1] == xs[..i] + [xs[i]]
    ensures xs[..i + 1][..i] == xs[..i]
  {
  }

  /** One more string packed after the first i. */
  lemma PackedSnoc(strings: seq<Text>, i: nat)
    requires i < |strings| && Packed(strings[..i]).Ok?
    ensures var prev := Packed(strings[..i]).value; var s := strings[i];
      Packed(strings[..i + 1])
      == if |prev.data| + |EntryBytesAsWritten(s)| > MaxStreamLength then Err(StreamTooLong)
         else if s in prev.values then Err(DuplicateKey)
         else Ok(Packing(prev.data + EntryBytesAsWritten(s), prev.order + [s], prev.values[s := Entry(s, |prev.data|)]))
  {
    PrefixSnoc(strings, i);
  }

  /** Once a prefix fails, Encode fails with the same error. */
  lemma {:induction false} PackedErrorPersists(strings: seq<Text>, i: nat)
    requires i <= |strings| && Packed(strings[..i]).Err?
    ensures Packed(strings) == Packed(strings[..i])
    decreases |strings|
  {
    if i < |strings| {
      var pre := strings[..|strings| - 1];
      assert pre[..i] == strings[..i];
      PackedErrorPersists(pre, i);
    } else {
      assert strings[..i] == strings;
    }
  }

  /** `Encode`: one pass over the strings, appending each entry to the
      stream and recording it in the dictionary. */
  method Encode(strings: seq<Text>) returns (r: Result<Packing, HidingError>)
    ensures r == Packed(strings)
  {
    var data: seq<Byte> := [];
    var order: seq<Text> := [];
    var values: map<Text, EncodedString> := map[];
    for i := 0 to |strings|
      invariant Packed(strings[..i]) == Ok(Packing(data, order, values))
    {
      var str := strings[i];
      var ascii := IsAscii(str);
      var hasNull := 0 in str;
      var str2 := str;
      if !hasNull {
        str2 := str2 + [0];
      }
      var buffer: seq<Byte>;
      if ascii {
        TerminatedAscii(str);
        buffer := AsciiBytes(str2);
      } else {
        buffer := Utf16BytesAsWritten(str2);
      }
      assert buffer == EntryBytesAsWritten(str);
      PackedSnoc(strings, i);
      var offset := |data|;
      if |data| + |buffer| > MaxStreamLength {
        PackedErrorPersists(strings, i + 1);
        return Err(StreamTooLong);
      }
      data := data + buffer;
      var encoded := EncodedString(ascii, offset, |buffer|, hasNull);
      if str in values {
        PackedErrorPersists(strings, i + 1);
        return Err(DuplicateKey);
      }
      values := values[str := encoded];
      order := order + [str];
    }
    assert strings[..|strings|] == strings;
    return Ok(Packing(data, order, values));
  }

  lemma {:induction false} BytesPrefix(strings: seq<Text>, k: nat)
    requires k <= |strings|
    ensures |Bytes(strings[..k])| <= |Bytes(strings)|
    ensures Bytes(strings)[..|Bytes(strings[..k])|] == Bytes(strings[..k])
    decreases |strings|
  {
    if k < |strings| {
      var pre := strings[..|strings| - 1];
      assert pre[..k] == strings[..k];
      BytesPrefix(pre, k);
    } else {
      assert strings[..k] == strings;
    }
  }

  /** In the reference layout the k-th entry's bytes follow those of the
      entries before it. */
  lemma BytesSlice(strings: seq<Text>, k: nat)
    requires k < |strings|
    ensures |Bytes(strings[..k + 1])| == |Bytes(strings[..k])| + |EntryBytesAsWritten(strings[k])| <= |Bytes(strings)|
    ensures Bytes(strings)[|Bytes(strings[..k])|..|Bytes(strings[..k + 1])|] == EntryBytesAsWritten(strings[k])
  {
    PrefixSnoc(strings, k);
    var before := Bytes(strings[..k]);
    var upTo := Bytes(strings[..k + 1]);
    assert upTo == before + EntryBytesAsWritten(strings[k]);
    BytesPrefix(strings, k + 1);
    var all := Bytes(strings);
    assert all[..|upTo|] == upTo;
    assert all[|before|..|upTo|] == upTo[|before|..];
  }

  /** The k-th string's bytes sit in the buffer at the offset recorded for
      it. */
  lemma PackedEntryAt(strings: seq<Text>, k: nat)
    requires Packed(strings).Ok? && k < |strings|
    ensures strings[k] in Packed(strings).value.values
    ensures var p := Packed(strings).value; var e := p.values[strings[k]];
      && e == Entry(strings[k], e.offset)
      && 0 <= e.offset && e.offset + e.length <= |p.data|
      && p.data[e.offset..e.offset + e.length] == EntryBytesAsWritten(strings[k])
  {
    PackedData(strings);
    PackedValue(strings, k);
    BytesSlice(strings, k);
  }

  /** The entries tile the buffer: the first starts at 0, each next one
      starts where the previous one ends, and the last one ends the buffer. */
  lemma PackedTiles(strings: seq<Text>, k: nat)
    requires Packed(strings).Ok? && k < |strings|
    ensures strings[k] in Packed(strings).value.values
    ensures var p := Packed(strings).value; var e := p.values[strings[k]];
      && (k == 0 ==> e.offset == 0)
      && (k + 1 < |strings| ==> strings[k + 1] in p.values && p.values[strings[k + 1]].offset == e.offset + e.length)
      && (k + 1 == |strings| ==> e.offset + e.length == |p.data|)
  {
    PackedData(strings);
    var p := Packed(strings).value;
    assert strings[k] in p.values && p.values[strings[k]] == Entry(strings[k], |Bytes(strings[..k])|) by {
      PackedPlaced(strings);
    }
    if k + 1 < |strings| {
      assert strings[k + 1] in p.values && p.values[strings[k + 1]] == Entry(strings[k + 1], |Bytes(strings[..k + 1])|) by {
        PackedPlaced(strings);
      }
    }
    PrefixSnoc(strings, k);
    if k == 0 {
      assert strings[..0] == [];
    }
    if k + 1 == |strings| {
      assert strings[..k + 1] == strings;
    }
  }

  // ----- Deduplication and collection -----

  /** `Distinct(StringComparer.Ordinal)`: each string once, at its first
      occurrence. */
  function Dedup(xs: seq<Text>): seq<Text>
    decreases |xs|
  {
    if xs == [] then []
    else
      var d := Dedup(xs[..|xs| - 1]);
      if xs[|xs| - 1] in d then d else d + [xs[|xs| - 1]]
  }

  /** Deduplication keeps exactly the strings present, each once, and leaves a
      list without repeats as it is. */
  lemma {:induction false} DedupMeaning(xs: seq<Text>)
    ensures Distinct(Dedup(xs))
    ensures forall s :: s in Dedup(xs) <==> s in xs
    ensures Distinct(xs) ==> Dedup(xs) == xs
    decreases |xs|
  {
    if xs != [] {
      var pre := xs[..|xs| - 1];
      var x := xs[|xs| - 1];
      assert xs == pre + [x];
      DedupMeaning(pre);
      DistinctSnoc(Dedup(pre), x);
      DistinctSnoc(pre, x);
    }
  }

  /** The string operands of a body, in order. */
  function LiteralsOf(body: seq<Instr>): seq<Text>
    decreases |body|
  {
    if body == [] then []
    else
      LiteralsOf(body[..|body| - 1])
      + match body[|body| - 1].operand
        case Str(t) => [t]
        case _ => []
  }

  /** The string operands of every body, method by method. */
  function Literals(bodies: seq<seq<Instr>>): seq<Text>
    decreases |bodies|
  {
    if bodies == [] then [] else Literals(bodies[..|bodies| - 1]) + LiteralsOf(bodies[|bodies| - 1])
  }

  /** Every string operand of a body is collected. */
  lemma {:induction false} LiteralsOfComplete(body: seq<Instr>, k: nat)
    requires k < |body| && body[k].operand.Str?
    ensures body[k].operand.text in LiteralsOf(body)
    decreases |body|
  {
    var pre := body[..|body| - 1];
    if k < |pre| {
      assert pre[k] == body[k];
      LiteralsOfComplete(pre, k);
    }
  }

  /** Only string operands of the body are collected. */
  lemma {:induction false} LiteralsOfSound(body: seq<Instr>, s: Text) returns (k: nat)
    requires s in LiteralsOf(body)
    ensures k < |body| && body[k].operand == Str(s)
    decreases |body|
  {
    var pre := body[..|body| - 1];
    if s in LiteralsOf(pre) {
      k := LiteralsOfSound(pre, s);
      assert pre[k] == body[k];
    } else {
      k := |body| - 1;
    }
  }

  /** Every string operand of every body is collected. */
  lemma {:induction false} LiteralsComplete(bodies: seq<seq<Instr>>, b: nat, k: nat)
    requires b < |bodies| && k < |bodies[b]| && bodies[b][k].operand.Str?
    ensures bodies[b][k].operand.text in Literals(bodies)
    decreases |bodies|
  {
    var pre := bodies[..|bodies| - 1];
    if b < |pre| {
      assert pre[b] == bodies[b];
      LiteralsComplete(pre, b, k);
    } else {
      LiteralsOfComplete(bodies[b], k);
    }
  }

  /** Only string operands of the bodies are collected. */
  lemma {:induction false} LiteralsSound(bodies: seq<seq<Instr>>, s: Text) returns (b: nat, k: nat)
    requires s in Literals(bodies)
    ensures b < |bodies| && k < |bodies[b]| && bodies[b][k].operand == Str(s)
    decreases |bodies|
  {
    var pre := bodies[..|bodies| - 1];
    if s in Literals(pre) {
      b, k := LiteralsSound(pre, s);
      assert pre[b] == bodies[b];
    } else {
      b := |bodies| - 1;
      k := LiteralsOfSound(bodies[b], s);
    }
  }

  // ----- Reading the buffer back -----

  /** The code units of ASCII bytes, one per byte. `new string(sbyte*, ...)`
      is modelled on ASCII bytes only: a byte above 127 leaves the result
      open (None). */
  function AsciiText(bytes: seq<Byte>): Option<Text>
    decreases |bytes|
  {
    if bytes == [] then Some([])
    else if bytes[0] > 127 then None
    else
      match AsciiText(bytes[1..])
      case None => None
      case Some(t) => Some([bytes[0] as CodeUnit] + t)
  }

  /** The ASCII bytes before the first NUL; None if the bytes end first. */
  function AsciiZText(bytes: seq<Byte>): Option<Text>
    decreases |bytes|
  {
    if bytes == [] then None
    else if bytes[0] == 0 then Some([])
    else if bytes[0] > 127 then None
    else
      match AsciiZText(bytes[1..])
      case None => None
      case Some(t) => Some([bytes[0] as CodeUnit] + t)
  }

  /** The code unit of a little-endian byte pair. */
  function UnitOf(lo: Byte, hi: Byte): CodeUnit {
    lo as int + 256 * (hi as int)
  }

  /** The code units of UTF-16LE bytes, low byte first. */
  function Utf16Text(bytes: seq<Byte>): Option<Text>
    decreases |bytes|
  {
    if bytes == [] then Some([])
    else if |bytes| < 2 then None
    else
      match Utf16Text(bytes[2..])
      case None => None
      case Some(t) => Some([UnitOf(bytes[0], bytes[1])] + t)
  }

  /** The UTF-16LE code units before the first zero unit; None if the bytes
      end first. */
  function Utf16ZText(bytes: seq<Byte>): Option<Text>
    decreases |bytes|
  {
    if |bytes| < 2 then None
    else if UnitOf(bytes[0], bytes[1]) == 0 then Some([])
    else
      match Utf16ZText(bytes[2..])
      case None => None
      case Some(t) => Some([UnitOf(bytes[0], bytes[1])] + t)
  }

  /** The four string constructors the decoder calls. */
  datatype StringCtor =
    | AsciiSpan  // new string(sbyte* p, int start, int length)
    | AsciiZ     // new string(sbyte* p)
    | Utf16Span  // new string(char* p, int start, int length)
    | Utf16Z     // new string(char* p)

  /** The string a constructor builds from the memory `mem` at pointer `p`;
      the `Span` forms count `start` and `count` in bytes (ASCII) or in
      chars (UTF-16). None: a read outside the memory, or bytes the model
      leaves open. */
  function StringAt(c: StringCtor, p: int, start: int, count: int, mem: seq<Byte>): Option<Text> {
    match c
    case AsciiSpan =>
      var q := p + start;
      if 0 <= q && 0 <= count && q + count <= |mem| then AsciiText(mem[q..q + count]) else None
    case AsciiZ =>
      if 0 <= p <= |mem| then AsciiZText(mem[p..]) else None
    case Utf16Span =>
      var q := p + 2 * start;
      if 0 <= q && 0 <= count && q + 2 * count <= |mem| then Utf16Text(mem[q..q + 2 * count]) else None
    case Utf16Z =>
      if 0 <= p <= |mem| then Utf16ZText(mem[p..]) else None
  }

  /** The constructor Execute picks for an entry. */
  function CtorOf(e: EncodedString): StringCtor {
    if e.isAscii then (if e.hasNull then AsciiSpan else AsciiZ)
    else (if e.hasNull then Utf16Span else Utf16Z)
  }

  /** The length argument Execute passes: the byte count for ASCII, half of
      it for UTF-16. */
  function SpanOf(e: EncodedString): int {
    if e.isAscii then e.length else e.length / 2
  }

  lemma {:induction false} AsciiBytesAppend(a: Text, b: Text)
    requires AllAscii(a) && AllAscii(b) && AllAscii(a + b)
    ensures AsciiBytes(a + b) == AsciiBytes(a) + AsciiBytes(b)
    decreases |a|
  {
    if a != [] {
      assert (a + b)[1..] == a[1..] + b;
      AsciiBytesAppend(a[1..], b);
    } else {
      assert a + b == b;
    }
  }

  lemma {:induction false} Utf16BytesAppend(a: Text, b: Text)
    ensures Utf16Bytes(a + b) == Utf16Bytes(a) + Utf16Bytes(b)
    decreases |a|
  {
    if a != [] {
      assert (a + b)[1..] == a[1..] + b;
      Utf16BytesAppend(a[1..], b);
    } else {
      assert a + b == b;
    }
  }

  /** ASCII bytes read back as the string they encode. */
  lemma {:induction false} AsciiRoundTrip(s: Text)
    requires AllAscii(s)
    ensures AsciiText(AsciiBytes(s)) == Some(s)
    decreases |s|
  {
    if s != [] {
      AsciiRoundTrip(s[1..]);
      assert [s[0]] + s[1..] == s;
    }
  }

  /** A NUL-free ASCII string followed by a NUL reads back as itself,
      whatever follows. */
  lemma {:induction false} AsciiZRoundTrip(s: Text, rest: seq<Byte>)
    requires AllAscii(s) && 0 !in s
    ensures AsciiZText(AsciiBytes(s) + [0] + rest) == Some(s)
    decreases |s|
  {
    if s == [] {
      assert AsciiBytes(s) + [0] + rest == [0] + rest;
    } else {
      assert (AsciiBytes(s) + [0] + rest)[1..] == AsciiBytes(s[1..]) + [0] + rest;
      AsciiZRoundTrip(s[1..], rest);
      assert [s[0]] + s[1..] == s;
    }
  }

  /** UTF-16LE bytes read back as the code units they encode. */
  lemma {:induction false} Utf16RoundTrip(s: Text)
    ensures Utf16Text(Utf16Bytes(s)) == Some(s)
    decreases |s|
  {
    if s != [] {
      var bytes := Utf16Bytes(s);
      assert bytes[2..] == Utf16Bytes(s[1..]);
      Utf16RoundTrip(s[1..]);
      assert UnitOf(bytes[0], bytes[1]) == s[0];
      assert [s[0]] + s[1..] == s;
    }
  }

  /** A string without zero units followed by a zero unit reads back as
      itself, whatever follows. */
  lemma {:induction false} Utf16ZRoundTrip(s: Text, rest: seq<Byte>)
    requires 0 !in s
    ensures Utf16ZText(Utf16Bytes(s) + [0, 0] + rest) == Some(s)
    decreases |s|
  {
    var bytes := Utf16Bytes(s) + [0, 0] + rest;
    if s == [] {
      assert bytes == [0, 0] + rest;
    } else {
      assert bytes[2..] == Utf16Bytes(s[1..]) + [0, 0] + rest;
      assert UnitOf(bytes[0], bytes[1]) == s[0];
      Utf16ZRoundTrip(s[1..], rest);
      assert [s[0]] + s[1..] == s;
    }
  }

  lemma AsciiZEntry(s: Text, rest: seq<Byte>)
    requires AllAscii(s) && 0 !in s
    ensures AsciiZText(EntryBytes(s) + rest) == Some(s)
  {
    TerminatedAscii(s);
    assert AllAscii([0]);
    AsciiBytesAppend(s, [0]);
    assert AsciiBytes([0]) == [0];
    AsciiZRoundTrip(s, rest);
  }

  lemma Utf16ZEntry(s: Text, rest: seq<Byte>)
    requires !AllAscii(s) && 0 !in s
    ensures Utf16ZText(EntryBytes(s) + rest) == Some(s)
  {
    Utf16BytesAppend(s, [0]);
    assert Utf16Bytes([0]) == [0, 0];
    Utf16ZRoundTrip(s, rest);
  }

  /** Round trip of one entry: with the pointer at the entry's offset, the
      constructor Execute picks for it, given the length argument Execute
      passes, builds the original string. The NUL-free forms stop at the
      appended NUL; strings holding a NUL are read by their length. */
  lemma EntryRoundTrip(mem: seq<Byte>, e: EncodedString, s: Text)
    requires e == Entry(s, e.offset)
    requires 0 <= e.offset && e.offset + e.length <= |mem|
    requires mem[e.offset..e.offset + e.length] == EntryBytes(s)
    ensures StringAt(CtorOf(e), e.offset, 0, SpanOf(e), mem) == Some(s)
  {
    if e.hasNull {
      if e.isAscii {
        AsciiSpanEntry(mem, e, s);
      } else {
        Utf16SpanEntry(mem, e, s);
      }
    } else {
      ZEntry(mem, e, s);
    }
  }

  /** An ASCII string holding a NUL, read by its length. */
  lemma AsciiSpanEntry(mem: seq<Byte>, e: EncodedString, s: Text)
    requires e == Entry(s, e.offset) && e.hasNull && e.isAscii
    requires 0 <= e.offset && e.offset + e.length <= |mem|
    requires mem[e.offset..e.offset + e.length] == EntryBytes(s)
    ensures StringAt(CtorOf(e), e.offset, 0, SpanOf(e), mem) == Some(s)
  {
    assert Terminated(s) == s;
    assert e.length == |s|;
    assert CtorOf(e) == AsciiSpan && SpanOf(e) == |s|;
    AsciiRoundTrip(s);
  }

  /** A UTF-16 string holding a NUL, read by its length in chars. */
  lemma Utf16SpanEntry(mem: seq<Byte>, e: EncodedString, s: Text)
    requires e == Entry(s, e.offset) && e.hasNull && !e.isAscii
    requires 0 <= e.offset && e.offset + e.length <= |mem|
    requires mem[e.offset..e.offset + e.length] == EntryBytes(s)
    ensures StringAt(CtorOf(e), e.offset, 0, SpanOf(e), mem) == Some(s)
  {
    assert Terminated(s) == s && EntryBytes(s) == Utf16Bytes(s);
    assert e.length == 2 * |s|;
    assert CtorOf(e) == Utf16Span && SpanOf(e) == |s|;
    Utf16RoundTrip(s);
  }

  /** A NUL-free string, read up to the appended NUL. */
  lemma ZEntry(mem: seq<Byte>, e: EncodedString, s: Text)
    requires e == Entry(s, e.offset) && !e.hasNull
    requires 0 <= e.offset && e.offset + e.length <= |mem|
    requires mem[e.offset..e.offset + e.length] == EntryBytes(s)
    ensures StringAt(CtorOf(e), e.offset, 0, SpanOf(e), mem) == Some(s)
  {
    var o := e.offset;
    var bytes := EntryBytes(s);
    assert e.length == |bytes|;
    var rest := mem[o + |bytes|..];
    assert mem[o..] == bytes + rest;
    if AllAscii(s) {
      AsciiZEntry(s, rest);
    } else {
      Utf16ZEntry(s, rest);
    }
  }

  /** Round trip of Encode: every string reads back from the buffer at the
      offset recorded for it, with its lone surrogates replaced by U+FFFD
      (so exactly as itself when it has none, by `SanitizedKeeps`). */
  lemma PackedRoundTrip(strings: seq<Text>, k: nat)
    requires Packed(strings).Ok? && k < |strings|
    ensures strings[k] in Packed(strings).value.values
    ensures var p := Packed(strings).value; var e := p.values[strings[k]];
      StringAt(CtorOf(e), e.offset, 0, SpanOf(e), p.data) == Some(Sanitized(strings[k]))
  {
    PackedEntryAt(strings, k);
    var p := Packed(strings).value;
    var e := p.values[strings[k]];
    var t := Sanitized(strings[k]);
    assert e == Entry(t, e.offset) && p.data[e.offset..e.offset + e.length] == EntryBytes(t) by {
      SanitizedEntry(strings[k], e.offset);
    }
    EntryRoundTrip(p.data, e, t);
  }

  // ----- Lone surrogates -----

  predicate IsHighSurrogate(c: CodeUnit) {
    0xD800 <= c <= 0xDBFF
  }

  predicate IsLowSurrogate(c: CodeUnit) {
    0xDC00 <= c <= 0xDFFF
  }

  /** Every high surrogate is followed by a low one and every low surrogate
      follows a high one. */
  predicate NoLoneSurrogates(s: Text) {
    && (forall i :: 0 <= i < |s| && IsHighSurrogate(s[i]) ==> i + 1 < |s| && IsLowSurrogate(s[i + 1]))
    && (forall i :: 0 <= i < |s| && IsLowSurrogate(s[i]) ==> 0 < i && IsHighSurrogate(s[i - 1]))
  }

  /** The code units `Encoding.Unicode` encodes: its replacement fallback
      turns every lone surrogate into U+FFFD. */
  function Sanitized(s: Text): (r: Text)
    ensures |r| == |s|
    decreases |s|
  {
    if s == [] then []
    else if IsHighSurrogate(s[0]) && |s| >= 2 && IsLowSurrogate(s[1]) then [s[0], s[1]] + Sanitized(s[2..])
    else if IsHighSurrogate(s[0]) || IsLowSurrogate(s[0]) then [0xFFFD] + Sanitized(s[1..])
    else [s[0]] + Sanitized(s[1..])
  }

  /** `Encoding.Unicode.GetBytes` as Encode calls it. */
  function Utf16BytesAsWritten(s: Text): (r: seq<Byte>)
    ensures |r| == 2 * |s|
  {
    Utf16Bytes(Sanitized(s))
  }

  /** The bytes Encode writes for `s`, with the replacement fallback. */
  function EntryBytesAsWritten(s: Text): (r: seq<Byte>)
    ensures |r| == (if AllAscii(s) then 1 else 2) * |Terminated(s)|
  {
    if AllAscii(s) then TerminatedAscii(s); AsciiBytes(Terminated(s)) else Utf16BytesAsWritten(Terminated(s))
  }

  /** As written, a string made of one lone high surrogate is stored as
      U+FFFD, so the decoder hands back a different string. */
  lemma LoneSurrogateAsWritten()
    ensures EntryBytesAsWritten([0xD800]) == [0xFD, 0xFF, 0, 0]
    ensures Utf16ZText(EntryBytesAsWritten([0xD800])) == Some([0xFFFD])
  {
    var u: Text := [0xD800];
    assert u[0] > 127;
    assert Terminated(u) == [0xD800, 0];
    var t: Text := [0xD800, 0];
    assert Sanitized(t[1..]) == [0] by {
      assert t[1..] == [0];
    }
    assert Sanitized(t) == [0xFFFD, 0];
    assert Utf16Bytes([0]) == [0, 0];
    var bytes: seq<Byte> := [0xFD, 0xFF, 0, 0];
    assert bytes[2..] == [0, 0];
    assert Utf16ZText(bytes[2..]) == Some([]);
    var fffd: Text := [0xFFFD];
    assert UnitOf(bytes[0], bytes[1]) == 0xFFFD;
    assert [UnitOf(bytes[0], bytes[1])] + [] == fffd;
  }

  /** On strings without lone surrogates the fallback never fires, so the
      corrected `Utf16Bytes` and the library agree there. */
  lemma {:induction false} SanitizedKeeps(s: Text)
    requires NoLoneSurrogates(s)
    ensures Sanitized(s) == s
    decreases |s|
  {
    if s != [] {
      if IsHighSurrogate(s[0]) {
        assert IsLowSurrogate(s[1]);
        var rest := s[2..];
        forall i | 0 <= i < |rest| && IsLowSurrogate(rest[i])
          ensures 0 < i && IsHighSurrogate(rest[i - 1])
        {
          assert s[i + 2] == rest[i];
        }
        forall i | 0 <= i < |rest| && IsHighSurrogate(rest[i])
          ensures i + 1 < |rest| && IsLowSurrogate(rest[i + 1])
        {
          assert s[i + 2] == rest[i];
        }
        SanitizedKeeps(rest);
        assert s == [s[0], s[1]] + rest;
      } else {
        assert !IsLowSurrogate(s[0]);
        var rest := s[1..];
        forall i | 0 <= i < |rest| && IsLowSurrogate(rest[i])
          ensures 0 < i && IsHighSurrogate(rest[i - 1])
        {
          assert s[i + 1] == rest[i];
        }
        forall i | 0 <= i < |rest| && IsHighSurrogate(rest[i])
          ensures i + 1 < |rest| && IsLowSurrogate(rest[i + 1])
        {
          assert s[i + 1] == rest[i];
        }
        SanitizedKeeps(rest);
        assert s == [s[0]] + rest;
      }
    }
  }

  /** Without lone surrogates, what Encode writes is the corrected entry. */
  lemma EntryBytesAgree(s: Text)
    requires NoLoneSurrogates(s)
    ensures EntryBytesAsWritten(s) == EntryBytes(s)
  {
    if !AllAscii(s) {
      var t := Terminated(s);
      forall i | 0 <= i < |t| && IsHighSurrogate(t[i])
        ensures i + 1 < |t| && IsLowSurrogate(t[i + 1])
      {
        assert i < |s|;
      }
      forall i | 0 <= i < |t| && IsLowSurrogate(t[i])
        ensures 0 < i && IsHighSurrogate(t[i - 1])
      {
        assert i < |s|;
      }
      SanitizedKeeps(t);
    }
  }

  /** The fallback touches surrogates only, each becoming U+FFFD; every
      other code unit is kept. */
  lemma {:induction false} SanitizedAt(s: Text)
    ensures forall i :: 0 <= i < |s| ==>
      Sanitized(s)[i] == s[i] || (Sanitized(s)[i] == 0xFFFD && (IsHighSurrogate(s[i]) || IsLowSurrogate(s[i])))
    decreases |s|
  {
    if s != [] {
      var r := Sanitized(s);
      if IsHighSurrogate(s[0]) && |s| >= 2 && IsLowSurrogate(s[1]) {
        var rest := s[2..];
        SanitizedAt(rest);
        forall i | 2 <= i < |s|
          ensures r[i] == Sanitized(rest)[i - 2] && s[i] == rest[i - 2]
        {
        }
      } else {
        var rest := s[1..];
        SanitizedAt(rest);
        forall i | 1 <= i < |s|
          ensures r[i] == Sanitized(rest)[i - 1] && s[i] == rest[i - 1]
        {
        }
      }
    }
  }

  /** The fallback neither adds nor removes NULs or non-ASCII units. */
  lemma SanitizedShape(s: Text)
    ensures 0 in Sanitized(s) <==> 0 in s
    ensures AllAscii(Sanitized(s)) <==> AllAscii(s)
  {
    SanitizedAt(s);
    var r := Sanitized(s);
    if 0 in r {
      var i :| 0 <= i < |r| && r[i] == 0;
      assert s[i] == 0;
    }
    if 0 in s {
      var i :| 0 <= i < |s| && s[i] == 0;
      assert r[i] == 0;
    }
    if !AllAscii(r) {
      var i :| 0 <= i < |r| && r[i] > 127;
      assert s[i] > 127;
    }
    if !AllAscii(s) {
      var i :| 0 <= i < |s| && s[i] > 127;
      assert r[i] > 127;
    }
  }

  /** Appending a NUL commutes with the fallback: a high surrogate at the end
      is lone either way. */
  lemma {:induction false} SanitizedSnocNul(s: Text)
    ensures Sanitized(s + [0]) == Sanitized(s) + [0]
    decreases |s|
  {
    var t := s + [0];
    if s == [] {
      assert Sanitized(t[1..]) == [];
    } else if IsHighSurrogate(s[0]) && |s| >= 2 && IsLowSurrogate(s[1]) {
      assert t[2..] == s[2..] + [0];
      SanitizedSnocNul(s[2..]);
    } else if IsHighSurrogate(s[0]) && |s| == 1 {
      assert t == [s[0], 0];
      assert Sanitized(t[1..]) == [0] by {
        assert t[1..] == [0];
        assert Sanitized([0][1..]) == [];
      }
    } else {
      assert t[1..] == s[1..] + [0];
      SanitizedSnocNul(s[1..]);
    }
  }

  /** What Encode writes for `s` is the lossless entry of the string with its
      lone surrogates replaced, recorded the same way. */
  lemma SanitizedEntry(s: Text, offset: int)
    ensures EntryBytesAsWritten(s) == EntryBytes(Sanitized(s))
    ensures Entry(s, offset) == Entry(Sanitized(s), offset)
  {
    SanitizedShape(s);
    if AllAscii(s) {
      assert NoLoneSurrogates(s);
      SanitizedKeeps(s);
    } else if 0 !in s {
      SanitizedSnocNul(s);
    }
  }

  // ----- The decoder -----

  /** The instructions of the static constructor that decodes the buffer,
      as Execute emits them (`Emit.Load(int)`, `localloc`,
      `Marshal.AllocHGlobal`, `stloc ptr`, `ldloc ptr`, the inflating copy,
      `add`, `dup`, `newobj string::.ctor`, `stsfld`, `Marshal.FreeHGlobal`,
      `ret`). */
  datatype DecoderOp =
    | LoadConst(value: int)
    | LocAlloc
    | AllocHGlobal
    | StorePtr
    | LoadPtr
    | Inflate
    | AddOp
    | DupOp
    | NewString(ctor: StringCtor)
    | StoreField(field: nat)
    | FreeHGlobal
    | ReturnOp

  /** A value on the decoder's evaluation stack. */
  datatype Value = IntV(n: int) | PtrV(at: int) | StrV(text: Text)

  /** The evaluation stack, top first. */
  datatype Stack = Empty | Push(top: Value, below: Stack)

  /** The decoder's state: the `ptr` local, the evaluation stack and the
      string fields assigned so far. Pointers are offsets into the allocated
      memory, which holds the packed bytes once inflated. */
  datatype Machine = Machine(ptr: Value, stack: Stack, fields: map<nat, Text>)

  /** Allocation pops the size and pushes a pointer to the start. */
  function Allocate(m: Machine, mem: seq<Byte>): Option<Machine> {
    match m.stack
    case Push(IntV(size), below) =>
      if size == |mem| then Some(m.(stack := Push(PtrV(0), below))) else None
    case _ => None
  }

  /** A string constructor: pops the pointer (and, for the `Span` forms, the
      start and the length) and pushes the string read. */
  function Construct(c: StringCtor, m: Machine, mem: seq<Byte>): Option<Machine> {
    if c.AsciiZ? || c.Utf16Z? then
      match m.stack
      case Push(PtrV(p), below) =>
        (match StringAt(c, p, 0, 0, mem)
         case None => None
         case Some(t) => Some(m.(stack := Push(StrV(t), below))))
      case _ => None
    else
      match m.stack
      case Push(IntV(count), Push(IntV(start), Push(PtrV(p), below))) =>
        (match StringAt(c, p, start, count, mem)
         case None => None
         case Some(t) => Some(m.(stack := Push(StrV(t), below))))
      case _ => None
  }

  /** One instruction; None when its operands are missing or of the wrong
      kind, or the string read fails. `Marshal.FreeHGlobal` accepts only the
      address `Marshal.AllocHGlobal` returned (offset 0); any other pointer
      is an invalid handle and the call throws. */
  function Step(op: DecoderOp, m: Machine, mem: seq<Byte>): Option<Machine> {
    match op
    case LoadConst(v) => Some(m.(stack := Push(IntV(v), m.stack)))
    case LocAlloc => Allocate(m, mem)
    case AllocHGlobal => Allocate(m, mem)
    case StorePtr =>
      (match m.stack
       case Push(v, below) => Some(m.(ptr := v, stack := below))
       case Empty => None)
    case LoadPtr => Some(m.(stack := Push(m.ptr, m.stack)))
    case Inflate => Some(m)
    case AddOp =>
      (match m.stack
       case Push(IntV(d), Push(PtrV(p), below)) => Some(m.(stack := Push(PtrV(p + d), below)))
       case _ => None)
    case DupOp =>
      (match m.stack
       case Push(v, below) => Some(m.(stack := Push(v, Push(v, below))))
       case Empty => None)
    case NewString(c) => Construct(c, m, mem)
    case StoreField(f) =>
      (match m.stack
       case Push(StrV(t), below) => Some(m.(stack := below, fields := m.fields[f := t]))
       case _ => None)
    case FreeHGlobal =>
      (match m.stack
       case Push(PtrV(at), below) => if at == 0 then Some(m.(stack := below)) else None
       case _ => None)
    case ReturnOp => Some(m)
  }

  /** Running a sequence of instructions. */
  function Run(ops: seq<DecoderOp>, m: Machine, mem: seq<Byte>): Option<Machine>
    decreases |ops|
  {
    if ops == [] then Some(m)
    else
      match Step(ops[0], m, mem)
      case None => None
      case Some(next) => Run(ops[1..], next, mem)
  }

  lemma {:induction false} RunAppend(a: seq<DecoderOp>, b: seq<DecoderOp>, m: Machine, mem: seq<Byte>)
    ensures Run(a + b, m, mem) == match Run(a, m, mem) case None => None case Some(mid) => Run(b, mid, mem)
    decreases |a|
  {
    if a == [] {
      assert a + b == b;
    } else {
      assert (a + b)[1..] == a[1..] + b;
      match Step(a[0], m, mem)
      case None =>
      case Some(next) => RunAppend(a[1..], b, next, mem);
    }
  }

  /** `ptr += offset - current`: the pointer is loaded, and moved only when
      the difference is not zero. */
  function MoveOps(delta: int): seq<DecoderOp> {
    [LoadPtr] + if delta != 0 then [LoadConst(delta), AddOp, DupOp, StorePtr] else []
  }

  /** The constructor call for an entry: with start 0 and the length when the
      string holds a NUL, on the pointer alone otherwise. */
  function NewStringOps(e: EncodedString): seq<DecoderOp> {
    if e.hasNull then [LoadConst(0), LoadConst(SpanOf(e)), NewString(CtorOf(e))] else [NewString(CtorOf(e))]
  }

  /** One pass of Execute's loop over the encoded strings, for entry `e`
      with the pointer bookkeeping variable at `current`. */
  function Segment(e: EncodedString, current: int, field: nat): seq<DecoderOp> {
    MoveOps(e.offset - current) + NewStringOps(e) + [StoreField(field)]
  }

  /** The value of `current` when the loop reaches entry k. */
  function Cursor(entries: seq<EncodedString>, k: nat): int
    requires k <= |entries|
  {
    if k == 0 then 0 else entries[k - 1].offset
  }

  /** The instructions the loop emits for `entries`; the k-th entry's string
      goes to field `firstField + k`. */
  function StringOps(entries: seq<EncodedString>, firstField: nat): seq<DecoderOp>
    decreases |entries|
  {
    if entries == [] then []
    else
      var n := |entries|;
      StringOps(entries[..n - 1], firstField) + Segment(entries[n - 1], Cursor(entries, n - 1), firstField + n - 1)
  }

  /** Allocation of `dataLength` bytes into `ptr`, then the inflating copy. */
  function Prologue(dataLength: int, useHeapAlloc: bool): seq<DecoderOp> {
    [LoadConst(dataLength), if useHeapAlloc then AllocHGlobal else LocAlloc, StorePtr, Inflate]
  }

  /** Freeing heap memory, then `ret`. */
  function Epilogue(useHeapAlloc: bool): seq<DecoderOp> {
    (if useHeapAlloc then [LoadPtr, FreeHGlobal] else []) + [ReturnOp]
  }

  /** The static constructor's body: without heap allocation a buffer over
      1 MiB is refused. */
  function DecoderBody(dataLength: int, entries: seq<EncodedString>, useHeapAlloc: bool, firstField: nat): Result<seq<DecoderOp>, HidingError> {
    if !useHeapAlloc && dataLength > OneMiB then Err(OverOneMiB)
    else Ok(Prologue(dataLength, useHeapAlloc) + StringOps(entries, firstField) + Epilogue(useHeapAlloc))
  }

  lemma AppendAssoc<T>(a: seq<T>, b: seq<T>, c: seq<T>)
    ensures a + b + c == a + (b + c)
  {
  }

  lemma StringOpsSnoc(entries: seq<EncodedString>, k: nat, firstField: nat)
    requires k < |entries|
    ensures StringOps(entries[..k + 1], firstField) == StringOps(entries[..k], firstField) + Segment(entries[k], Cursor(entries, k), firstField + k)
  {
    PrefixSnoc(entries, k);
    assert Cursor(entries[..k + 1], k) == Cursor(entries, k);
  }

  /** The emission of the static constructor's body in Execute: the
      `current` bookkeeping loop emits exactly `StringOps`, and afterwards
      `current` is the last entry's offset. */
  method EmitDecoder(dataLength: int, entries: seq<EncodedString>, useHeapAlloc: bool, firstField: nat)
    returns (r: Result<seq<DecoderOp>, HidingError>)
    ensures r == DecoderBody(dataLength, entries, useHeapAlloc, firstField)
  {
    var body := [LoadConst(dataLength)];
    if useHeapAlloc {
      body := body + [AllocHGlobal];
    } else {
      if dataLength > OneMiB {
        return Err(OverOneMiB);
      }
      body := body + [LocAlloc];
    }
    body := body + [StorePtr, Inflate];
    ghost var prologue := body;
    assert prologue == Prologue(dataLength, useHeapAlloc);
    var current := 0;
    for k := 0 to |entries|
      invariant body == prologue + StringOps(entries[..k], firstField)
      invariant current == Cursor(entries, k)
    {
      var e := entries[k];
      var segment := [LoadPtr];
      if e.offset != current {
        segment := segment + [LoadConst(e.offset - current), AddOp, DupOp, StorePtr];
        current := e.offset;
      }
      if e.isAscii {
        if e.hasNull {
          segment := segment + [LoadConst(0), LoadConst(e.length), NewString(AsciiSpan)];
        } else {
          segment := segment + [NewString(AsciiZ)];
        }
      } else {
        if e.hasNull {
          segment := segment + [LoadConst(0), LoadConst(e.length / 2), NewString(Utf16Span)];
        } else {
          segment := segment + [NewString(Utf16Z)];
        }
      }
      segment := segment + [StoreField(firstField + k)];
      assert segment == Segment(e, Cursor(entries, k), firstField + k);
      StringOpsSnoc(entries, k, firstField);
      AppendAssoc(prologue, StringOps(entries[..k], firstField), segment);
      body := body + segment;
    }
    assert entries[..|entries|] == entries;
    body := body + Epilogue(useHeapAlloc);
    return Ok(body);
  }

  /** Running starts with the first instruction's step. */
  lemma RunCons(op: DecoderOp, rest: seq<DecoderOp>, m: Machine, next: Machine, mem: seq<Byte>)
    requires Step(op, m, mem) == Some(next)
    ensures Run([op] + rest, m, mem) == Run(rest, next, mem)
  {
    assert ([op] + rest)[1..] == rest;
  }

  /** Running a concatenation whose first part reaches `mid`. */
  lemma RunThen(a: seq<DecoderOp>, b: seq<DecoderOp>, m: Machine, mid: Machine, mem: seq<Byte>)
    requires Run(a, m, mem) == Some(mid)
    ensures Run(a + b, m, mem) == Run(b, mid, mem)
  {
    RunAppend(a, b, m, mem);
  }

  /** Moving the pointer: whatever `current` is, the pointer ends at the
      entry's offset, with one copy of it on the stack. */
  lemma MoveRuns(current: int, offset: int, F: map<nat, Text>, mem: seq<Byte>)
    ensures Run(MoveOps(offset - current), Machine(PtrV(current), Empty, F), mem) == Some(Machine(PtrV(offset), Push(PtrV(offset), Empty), F))
  {
    var m0 := Machine(PtrV(current), Empty, F);
    var m1 := Machine(PtrV(current), Push(PtrV(current), Empty), F);
    if offset != current {
      var d := offset - current;
      var m2 := Machine(PtrV(current), Push(IntV(d), Push(PtrV(current), Empty)), F);
      var m3 := Machine(PtrV(current), Push(PtrV(offset), Empty), F);
      var m4 := Machine(PtrV(current), Push(PtrV(offset), Push(PtrV(offset), Empty)), F);
      var m5 := Machine(PtrV(offset), Push(PtrV(offset), Empty), F);
      var t4: seq<DecoderOp> := [StorePtr] + [];
      var t3 := [DupOp] + t4;
      var t2 := [AddOp] + t3;
      var t1 := [LoadConst(d)] + t2;
      assert MoveOps(d) == [LoadPtr] + t1;
      RunCons(StorePtr, [], m4, m5, mem);
      RunCons(DupOp, t4, m3, m4, mem);
      RunCons(AddOp, t3, m2, m3, mem);
      RunCons(LoadConst(d), t2, m1, m2, mem);
      RunCons(LoadPtr, t1, m0, m1, mem);
    } else {
      assert MoveOps(0) == [LoadPtr] + [];
      RunCons(LoadPtr, [], m0, m1, mem);
    }
  }

  /** The constructor call pops the pointer (and its start and length) and
      pushes the string the memory holds there. */
  lemma NewStringRuns(e: EncodedString, s: Text, ptr: Value, F: map<nat, Text>, mem: seq<Byte>)
    requires StringAt(CtorOf(e), e.offset, 0, SpanOf(e), mem) == Some(s)
    ensures Run(NewStringOps(e), Machine(ptr, Push(PtrV(e.offset), Empty), F), mem) == Some(Machine(ptr, Push(StrV(s), Empty), F))
  {
    var m0 := Machine(ptr, Push(PtrV(e.offset), Empty), F);
    if e.hasNull {
      var m1 := Machine(ptr, Push(IntV(0), Push(PtrV(e.offset), Empty)), F);
      var m2 := Machine(ptr, Push(IntV(SpanOf(e)), Push(IntV(0), Push(PtrV(e.offset), Empty))), F);
      var m3 := Machine(ptr, Push(StrV(s), Empty), F);
      var t2: seq<DecoderOp> := [NewString(CtorOf(e))] + [];
      var t1 := [LoadConst(SpanOf(e))] + t2;
      assert NewStringOps(e) == [LoadConst(0)] + t1;
      RunCons(NewString(CtorOf(e)), [], m2, m3, mem);
      RunCons(LoadConst(SpanOf(e)), t2, m1, m2, mem);
      RunCons(LoadConst(0), t1, m0, m1, mem);
    } else {
      assert NewStringOps(e) == [NewString(CtorOf(e))] + [];
      RunCons(NewString(CtorOf(e)), [], m0, Machine(ptr, Push(StrV(s), Empty), F), mem);
    }
  }

  /** One pass of the loop leaves the pointer at the entry's offset, the
      stack empty, and the entry's string in its field. */
  lemma SegmentRuns(e: EncodedString, s: Text, current: int, field: nat, F: map<nat, Text>, mem: seq<Byte>)
    requires StringAt(CtorOf(e), e.offset, 0, SpanOf(e), mem) == Some(s)
    ensures Run(Segment(e, current, field), Machine(PtrV(current), Empty, F), mem) == Some(Machine(PtrV(e.offset), Empty, F[field := s]))
  {
    var m0 := Machine(PtrV(current), Empty, F);
    var m1 := Machine(PtrV(e.offset), Push(PtrV(e.offset), Empty), F);
    var m2 := Machine(PtrV(e.offset), Push(StrV(s), Empty), F);
    MoveRuns(current, e.offset, F, mem);
    NewStringRuns(e, s, PtrV(e.offset), F, mem);
    RunAppend(MoveOps(e.offset - current), NewStringOps(e), m0, mem);
    RunAppend(MoveOps(e.offset - current) + NewStringOps(e), [StoreField(field)], m0, mem);
    assert [StoreField(field)] == [StoreField(field)] + [];
    RunCons(StoreField(field), [], m2, Machine(PtrV(e.offset), Empty, F[field := s]), mem);
  }

  /** The fields after storing `texts` into `firstField`, `firstField + 1`,
      ... in turn. */
  function Assign(F: map<nat, Text>, firstField: nat, texts: seq<Text>): map<nat, Text>
    decreases |texts|
  {
    if texts == [] then F
    else
      var n := |texts|;
      Assign(F, firstField, texts[..n - 1])[firstField + n - 1 := texts[n - 1]]
  }

  /** After the stores, field `firstField + k` holds the k-th text and every
      other field is as before. */
  lemma {:induction false} AssignMeaning(F: map<nat, Text>, firstField: nat, texts: seq<Text>)
    ensures forall g: nat :: firstField <= g < firstField + |texts| ==>
              g in Assign(F, firstField, texts) && Assign(F, firstField, texts)[g] == texts[g - firstField]
    ensures forall g: nat :: g < firstField || g >= firstField + |texts| ==> (g in Assign(F, firstField, texts) <==> g in F)
    ensures forall g: nat :: g in F && (g < firstField || g >= firstField + |texts|) ==> Assign(F, firstField, texts)[g] == F[g]
    decreases |texts|
  {
    if texts != [] {
      var n := |texts|;
      var pre := texts[..n - 1];
      AssignMeaning(F, firstField, pre);
      forall i | 0 <= i < n - 1
        ensures pre[i] == texts[i]
      {
      }
    }
  }

  /** Every entry reads back as its text from the memory. */
  ghost predicate ReadsBack(mem: seq<Byte>, entries: seq<EncodedString>, texts: seq<Text>) {
    && |texts| == |entries|
    && forall k :: 0 <= k < |entries| ==> StringAt(CtorOf(entries[k]), entries[k].offset, 0, SpanOf(entries[k]), mem) == Some(texts[k])
  }

  /** The loop's instructions for the first k entries, started with the
      pointer at the buffer and nothing on the stack, store the first k texts
      and leave the pointer at the k-th entry's cursor. */
  lemma {:induction false} StringOpsRunPrefix(entries: seq<EncodedString>, texts: seq<Text>, firstField: nat, F: map<nat, Text>, mem: seq<Byte>, k: nat)
    requires ReadsBack(mem, entries, texts) && k <= |entries|
    ensures Run(StringOps(entries[..k], firstField), Machine(PtrV(0), Empty, F), mem)
            == Some(Machine(PtrV(Cursor(entries, k)), Empty, Assign(F, firstField, texts[..k])))
    decreases k
  {
    if k > 0 {
      StringOpsRunPrefix(entries, texts, firstField, F, mem, k - 1);
      StringOpsRunStep(entries, texts, firstField, F, mem, k - 1);
    }
  }

  /** One more pass of the loop, after the first k. */
  lemma StringOpsRunStep(entries: seq<EncodedString>, texts: seq<Text>, firstField: nat, F: map<nat, Text>, mem: seq<Byte>, k: nat)
    requires k < |entries| == |texts|
    requires StringAt(CtorOf(entries[k]), entries[k].offset, 0, SpanOf(entries[k]), mem) == Some(texts[k])
    requires Run(StringOps(entries[..k], firstField), Machine(PtrV(0), Empty, F), mem)
             == Some(Machine(PtrV(Cursor(entries, k)), Empty, Assign(F, firstField, texts[..k])))
    ensures Run(StringOps(entries[..k + 1], firstField), Machine(PtrV(0), Empty, F), mem)
            == Some(Machine(PtrV(Cursor(entries, k + 1)), Empty, Assign(F, firstField, texts[..k + 1])))
  {
    var e := entries[k];
    var before := Assign(F, firstField, texts[..k]);
    var mid := Machine(PtrV(Cursor(entries, k)), Empty, before);
    var last := Segment(e, Cursor(entries, k), firstField + k);
    SegmentRuns(e, texts[k], Cursor(entries, k), firstField + k, before, mem);
    StringOpsSnoc(entries, k, firstField);
    AssignSnoc(F, firstField, texts, k);
    RunThen(StringOps(entries[..k], firstField), last, Machine(PtrV(0), Empty, F), mid, mem);
  }

  /** The stores for the first k + 1 texts are those for the first k, then one. */
  lemma AssignSnoc(F: map<nat, Text>, firstField: nat, texts: seq<Text>, k: nat)
    requires k < |texts|
    ensures Assign(F, firstField, texts[..k + 1]) == Assign(F, firstField, texts[..k])[firstField + k := texts[k]]
  {
    assert texts[..k + 1][..k] == texts[..k];
  }

  /** The loop's instructions, started with the pointer at the buffer and
      nothing on the stack, store the k-th text into field `firstField + k`
      and leave the pointer at the last entry's offset. */
  lemma StringOpsRun(entries: seq<EncodedString>, texts: seq<Text>, firstField: nat, F: map<nat, Text>, mem: seq<Byte>)
    requires ReadsBack(mem, entries, texts)
    ensures Run(StringOps(entries, firstField), Machine(PtrV(0), Empty, F), mem)
            == Some(Machine(PtrV(Cursor(entries, |entries|)), Empty, Assign(F, firstField, texts)))
  {
    StringOpsRunPrefix(entries, texts, firstField, F, mem, |entries|);
    assert entries[..|entries|] == entries && texts[..|texts|] == texts;
  }

  /** The prologue allocates the buffer and stores its address in `ptr`. */
  lemma PrologueRuns(useHeapAlloc: bool, mem: seq<Byte>)
    ensures Run(Prologue(|mem|, useHeapAlloc), Machine(IntV(0), Empty, map[]), mem) == Some(Machine(PtrV(0), Empty, map[]))
  {
    if useHeapAlloc {
      AllocationRuns(AllocHGlobal, mem);
    } else {
      AllocationRuns(LocAlloc, mem);
    }
  }

  /** Either allocation, followed by the store into `ptr` and the inflating
      copy. */
  lemma AllocationRuns(alloc: DecoderOp, mem: seq<Byte>)
    requires alloc == AllocHGlobal || alloc == LocAlloc
    ensures Run([LoadConst(|mem|), alloc, StorePtr, Inflate], Machine(IntV(0), Empty, map[]), mem) == Some(Machine(PtrV(0), Empty, map[]))
  {
    var m0 := Machine(IntV(0), Empty, map[]);
    var m1 := Machine(IntV(0), Push(IntV(|mem|), Empty), map[]);
    var m2 := Machine(IntV(0), Push(PtrV(0), Empty), map[]);
    var m3 := Machine(PtrV(0), Empty, map[]);
    var t3: seq<DecoderOp> := [Inflate] + [];
    var t2 := [StorePtr] + t3;
    var t1 := [alloc] + t2;
    assert [LoadConst(|mem|), alloc, StorePtr, Inflate] == [LoadConst(|mem|)] + t1;
    assert Step(alloc, m1, mem) == Some(m2);
    RunCons(Inflate, [], m3, m3, mem);
    RunCons(StorePtr, t3, m2, m3, mem);
    RunCons(alloc, t2, m1, m2, mem);
    RunCons(LoadConst(|mem|), t1, m0, m1, mem);
  }

  /** The epilogue frees heap memory and returns, leaving the fields alone;
      with heap allocation it fails unless `ptr` is back at the address
      allocated, since it frees `ptr` as the loop left it. */
  lemma EpilogueRuns(useHeapAlloc: bool, at: int, F: map<nat, Text>, mem: seq<Byte>)
    ensures Run(Epilogue(useHeapAlloc), Machine(PtrV(at), Empty, F), mem)
            == if useHeapAlloc && at != 0 then None else Some(Machine(PtrV(at), Empty, F))
  {
    var m0 := Machine(PtrV(at), Empty, F);
    var t2: seq<DecoderOp> := [ReturnOp] + [];
    RunCons(ReturnOp, [], m0, m0, mem);
    if useHeapAlloc {
      var m1 := Machine(PtrV(at), Push(PtrV(at), Empty), F);
      var t1 := [FreeHGlobal] + t2;
      assert Epilogue(useHeapAlloc) == [LoadPtr] + t1;
      RunCons(LoadPtr, t1, m0, m1, mem);
      if at == 0 {
        RunCons(FreeHGlobal, t2, m1, m0, mem);
      } else {
        assert t1[0] == FreeHGlobal && Step(FreeHGlobal, m1, mem) == None;
      }
    } else {
      assert Epilogue(useHeapAlloc) == t2;
    }
  }

  /** The whole static constructor: started on the packed buffer, it ends
      with an empty stack and the k-th text in field `firstField + k`, unless
      heap memory is freed through a pointer the loop moved. */
  lemma DecoderRuns(entries: seq<EncodedString>, texts: seq<Text>, useHeapAlloc: bool, firstField: nat, mem: seq<Byte>)
    requires ReadsBack(mem, entries, texts)
    requires DecoderBody(|mem|, entries, useHeapAlloc, firstField).Ok?
    ensures Run(DecoderBody(|mem|, entries, useHeapAlloc, firstField).value, Machine(IntV(0), Empty, map[]), mem)
            == if useHeapAlloc && Cursor(entries, |entries|) != 0 then None
               else Some(Machine(PtrV(Cursor(entries, |entries|)), Empty, Assign(map[], firstField, texts)))
  {
    var pro := Prologue(|mem|, useHeapAlloc);
    var mid := StringOps(entries, firstField);
    var epi := Epilogue(useHeapAlloc);
    PrologueRuns(useHeapAlloc, mem);
    StringOpsRun(entries, texts, firstField, map[], mem);
    EpilogueRuns(useHeapAlloc, Cursor(entries, |entries|), Assign(map[], firstField, texts), mem);
    RunAppend(pro, mid, Machine(IntV(0), Empty, map[]), mem);
    RunAppend(pro + mid, epi, Machine(IntV(0), Empty, map[]), mem);
  }

  // ----- Execute: collect, encode, emit, replace -----

  /** The records of a packing in key order, as Execute's `encoded` list
      holds them. */
  function Entries(p: Packing): (r: seq<EncodedString>)
    requires forall s :: s in p.order ==> s in p.values
    ensures |r| == |p.order|
    ensures forall k :: 0 <= k < |p.order| ==> r[k] == p.values[p.order[k]]
  {
    seq(|p.order|, k requires 0 <= k < |p.order| => p.values[p.order[k]])
  }

  /** The field created for each string: one new field per record, numbered
      from `firstField` in key order. */
  function FieldTable(strings: seq<Text>, firstField: nat): map<Text, nat>
    decreases |strings|
  {
    if strings == [] then map[]
    else
      var n := |strings|;
      FieldTable(strings[..n - 1], firstField)[strings[n - 1] := firstField + n - 1]
  }

  /** With distinct strings, the k-th string's field is `firstField + k`, and
      the table has no other keys. */
  lemma {:induction false} FieldTableMeaning(strings: seq<Text>, firstField: nat)
    requires Distinct(strings)
    ensures FieldTable(strings, firstField).Keys == set s | s in strings
    ensures forall k :: 0 <= k < |strings| ==> strings[k] in FieldTable(strings, firstField) && FieldTable(strings, firstField)[strings[k]] == firstField + k
    decreases |strings|
  {
    if strings != [] {
      var n := |strings|;
      var pre := strings[..n - 1];
      assert strings == pre + [strings[n - 1]];
      assert Distinct(pre);
      FieldTableMeaning(pre, firstField);
      forall k | 0 <= k < n - 1
        ensures strings[k] == pre[k] && strings[k] != strings[n - 1]
      {
      }
    }
  }

  /** Every key of the packing is in its dictionary. */
  lemma PackedOrderKeys(strings: seq<Text>)
    requires Packed(strings).Ok?
    ensures forall s :: s in Packed(strings).value.order ==> s in Packed(strings).value.values
  {
    PackedData(strings);
    PackedKeys(strings);
  }

  /** The strings as the decoder rebuilds them from what Encode wrote. */
  function Stored(strings: seq<Text>): (r: seq<Text>)
    ensures |r| == |strings|
    ensures forall k :: 0 <= k < |strings| ==> r[k] == Sanitized(strings[k])
  {
    seq(|strings|, k requires 0 <= k < |strings| => Sanitized(strings[k]))
  }

  /** Every record of the packing reads back, from the buffer, as its string
      through the replacement fallback. */
  lemma PackedReadsBack(strings: seq<Text>)
    requires Packed(strings).Ok?
    ensures forall s :: s in Packed(strings).value.order ==> s in Packed(strings).value.values
    ensures ReadsBack(Packed(strings).value.data, Entries(Packed(strings).value), Stored(strings))
  {
    PackedOrderKeys(strings);
    PackedData(strings);
    var p := Packed(strings).value;
    var es := Entries(p);
    forall k | 0 <= k < |es|
      ensures StringAt(CtorOf(es[k]), es[k].offset, 0, SpanOf(es[k]), p.data) == Some(Stored(strings)[k])
    {
      PackedRoundTrip(strings, k);
    }
  }

  /** The loop leaves `ptr` at the last entry's offset, which is the start of
      the buffer exactly when there is a single string. */
  lemma PackedLastOffset(strings: seq<Text>)
    requires Packed(strings).Ok? && strings != []
    ensures Packed(strings).value.order == strings
    ensures forall s :: s in Packed(strings).value.order ==> s in Packed(strings).value.values
    ensures Cursor(Entries(Packed(strings).value), |strings|) == 0 <==> |strings| == 1
  {
    var n := |strings|;
    PackedCursor(strings);
    if n == 1 {
      assert strings[..0] == [];
    } else {
      BytesNonEmpty(strings, n - 1);
    }
  }

  /** The last cursor is the length of the entries before the last one. */
  lemma PackedCursor(strings: seq<Text>)
    requires Packed(strings).Ok? && strings != []
    ensures Packed(strings).value.order == strings
    ensures forall s :: s in Packed(strings).value.order ==> s in Packed(strings).value.values
    ensures Cursor(Entries(Packed(strings).value), |strings|) == |Bytes(strings[..|strings| - 1])|
  {
    PackedOrderKeys(strings);
    PackedData(strings);
    PackedValue(strings, |strings| - 1);
  }

  /** The k-th string's record: its offset is the length of the entries
      before it. */
  lemma PackedValue(strings: seq<Text>, k: nat)
    requires Packed(strings).Ok? && k < |strings|
    ensures strings[k] in Packed(strings).value.values
    ensures Packed(strings).value.values[strings[k]] == Entry(strings[k], |Bytes(strings[..k])|)
  {
    PackedPlaced(strings);
  }

  /** No entry is empty, so a nonempty prefix has bytes. */
  lemma BytesNonEmpty(strings: seq<Text>, k: nat)
    requires 1 <= k <= |strings|
    ensures |Bytes(strings[..k])| > 0
  {
    var pre := strings[..k];
    BytesPrefix(pre, 1);
    assert pre[..1] == strings[..1];
    assert strings[..1][..0] == [];
    assert Bytes(strings[..1]) == Bytes([]) + EntryBytesAsWritten(strings[0]);
  }

  /** What Execute adds to the module: the decompressed buffer, the static
      constructor's instructions, and the field created for each string. */
  datatype Hidden = Hidden(data: seq<Byte>, decoder: seq<DecoderOp>, fieldOf: map<Text, nat>)

  /** The unique string literals of the bodies, in first-occurrence order. */
  function Collected(bodies: seq<seq<Instr>>): seq<Text> {
    Dedup(Literals(bodies))
  }

  /** Execute on the bodies of the methods that have the feature and were not
      trimmed: `None` when they hold no string literal; otherwise the packed
      buffer, the decoder and the field table, or the exception Execute
      throws. */
  function Hiding(bodies: seq<seq<Instr>>, useHeapAlloc: bool, firstField: nat): Result<Option<Hidden>, HidingError> {
    var strings := Collected(bodies);
    if strings == [] then Ok(None)
    else
      var p :- Packed(strings);
      PackedOrderKeys(strings);
      var decoder :- DecoderBody(|p.data|, Entries(p), useHeapAlloc, firstField);
      Ok(Some(Hidden(p.data, decoder, FieldTable(strings, firstField))))
  }

  /** The failure cases of Execute: nothing is done exactly when no body has a
      string literal; duplicate keys cannot arise after deduplication; the
      stream write fails exactly when the whole buffer would be longer than
      `MaxStreamLength`; and the 1 MiB check fails only for stack allocation
      of a buffer longer than 1 MiB. */
  lemma HidingOutcomes(bodies: seq<seq<Instr>>, useHeapAlloc: bool, firstField: nat)
    ensures Hiding(bodies, useHeapAlloc, firstField) == Ok(None) <==> Literals(bodies) == []
    ensures Hiding(bodies, useHeapAlloc, firstField) != Err(DuplicateKey)
    ensures Hiding(bodies, useHeapAlloc, firstField) == Err(StreamTooLong) <==> !WritesFit(Collected(bodies))
    ensures Hiding(bodies, useHeapAlloc, firstField) == Err(OverOneMiB)
            <==> WritesFit(Collected(bodies)) && !useHeapAlloc && |Bytes(Collected(bodies))| > OneMiB
  {
    var strings := Collected(bodies);
    DedupMeaning(Literals(bodies));
    if strings == [] {
      assert WritesFit(strings);
    } else {
      assert strings[0] in Literals(bodies);
      PackedOkIff(strings);
      if Packed(strings).Ok? {
        PackedData(strings);
        HidingValue(bodies, useHeapAlloc, firstField);
      } else {
        PackedDistinctError(strings);
      }
    }
  }

  /** Execute's result once the strings are packed: the decoder's outcome
      decides it. */
  lemma HidingValue(bodies: seq<seq<Instr>>, useHeapAlloc: bool, firstField: nat)
    requires Collected(bodies) != [] && Packed(Collected(bodies)).Ok?
    ensures var p := Packed(Collected(bodies)).value;
      && (forall s :: s in p.order ==> s in p.values)
      && var d := DecoderBody(|p.data|, Entries(p), useHeapAlloc, firstField);
         Hiding(bodies, useHeapAlloc, firstField)
         == if d.Err? then Err(d.error) else Ok(Some(Hidden(p.data, d.value, FieldTable(Collected(bodies), firstField))))
  {
    PackedOrderKeys(Collected(bodies));
  }

  /** The literal of an instruction, once Execute has run, reads the field
      holding it (`instr.Replace(Emit.Load(field))`); other instructions stay
      as they are. */
  function Hide(instr: Instr, fieldOf: map<Text, nat>): Instr {
    match instr.operand
    case Str(s) =>
      if s in fieldOf then DnLibExtensions.Replace(instr, Instr(0, Ldsfld, FieldDef(fieldOf[s]), 0, None, 1, Pop(0)))
      else instr
    case _ => instr
  }

  /** Hiding keeps the instruction's identity, so branches and handlers that
      point at it still do, and leaves no literal the table covers. */
  lemma HideMeaning(instr: Instr, fieldOf: map<Text, nat>)
    ensures Hide(instr, fieldOf).id == instr.id
    ensures instr.operand.Str? && instr.operand.text in fieldOf
            ==> Hide(instr, fieldOf).code == Ldsfld && Hide(instr, fieldOf).operand == FieldDef(fieldOf[instr.operand.text])
    ensures !(instr.operand.Str? && instr.operand.text in fieldOf) ==> Hide(instr, fieldOf) == instr
  {
  }

  /** The replacement loop over one body, in place. */
  method HideLiterals(body: array<Instr>, fieldOf: map<Text, nat>)
    modifies body
    ensures forall k :: 0 <= k < body.Length ==> body[k] == Hide(old(body[k]), fieldOf)
  {
    for i := 0 to body.Length
      invariant forall k :: 0 <= k < i ==> body[k] == Hide(old(body[k]), fieldOf)
      invariant forall k :: i <= k < body.Length ==> body[k] == old(body[k])
    {
      body[i] := Hide(body[i], fieldOf);
    }
  }

  /** A body after hiding holds no string literal any more. */
  lemma {:induction false} HiddenBodyHasNoLiterals(body: seq<Instr>, fieldOf: map<Text, nat>)
    requires forall s :: s in LiteralsOf(body) ==> s in fieldOf
    ensures LiteralsOf(seq(|body|, k requires 0 <= k < |body| => Hide(body[k], fieldOf))) == []
    decreases |body|
  {
    var hidden := seq(|body|, k requires 0 <= k < |body| => Hide(body[k], fieldOf));
    if body != [] {
      var n := |body|;
      var pre := body[..n - 1];
      assert LiteralsOf(body) == LiteralsOf(pre) + match body[n - 1].operand case Str(t) => [t] case _ => [];
      HiddenBodyHasNoLiterals(pre, fieldOf);
      assert hidden[..n - 1] == seq(|pre|, k requires 0 <= k < |pre| => Hide(pre[k], fieldOf));
      if body[n - 1].operand.Str? {
        assert body[n - 1].operand.text in LiteralsOf(body);
      }
    }
  }

  /** After Execute, every string literal of every body has a field and the
      instruction now loads that field. */
  lemma HidingReplacesStrings(bodies: seq<seq<Instr>>, useHeapAlloc: bool, firstField: nat, h: Hidden, b: nat, k: nat)
    requires Hiding(bodies, useHeapAlloc, firstField) == Ok(Some(h))
    requires b < |bodies| && k < |bodies[b]| && bodies[b][k].operand.Str?
    ensures var s := bodies[b][k].operand.text;
      && s in h.fieldOf
      && Hide(bodies[b][k], h.fieldOf).code == Ldsfld
      && Hide(bodies[b][k], h.fieldOf).operand == FieldDef(h.fieldOf[s])
  {
    var j := CollectedIndex(bodies, b, k);
    HidingFieldOf(bodies, useHeapAlloc, firstField, h, j);
    HideMeaning(bodies[b][k], h.fieldOf);
  }

  /** End to end: the static constructor runs through exactly when the
      buffer is on the stack or there is a single string (heap memory is
      freed through the moved pointer otherwise), and then the field of every
      string literal holds that string, lone surrogates replaced, so the
      string itself when it has none. */
  lemma HidingPreservesStrings(bodies: seq<seq<Instr>>, useHeapAlloc: bool, firstField: nat, h: Hidden, b: nat, k: nat)
    requires Hiding(bodies, useHeapAlloc, firstField) == Ok(Some(h))
    requires b < |bodies| && k < |bodies[b]| && bodies[b][k].operand.Str?
    ensures var s := bodies[b][k].operand.text;
      && s in h.fieldOf
      && var run := Run(h.decoder, Machine(IntV(0), Empty, map[]), h.data);
         && (run.Some? <==> !useHeapAlloc || |Collected(bodies)| == 1)
         && (run.Some? ==> h.fieldOf[s] in run.value.fields && run.value.fields[h.fieldOf[s]] == Sanitized(s))
         && (run.Some? && NoLoneSurrogates(s) ==> run.value.fields[h.fieldOf[s]] == s)
  {
    var s := bodies[b][k].operand.text;
    var j := CollectedIndex(bodies, b, k);
    HidingField(bodies, useHeapAlloc, firstField, h, j);
    if NoLoneSurrogates(s) {
      SanitizedKeeps(s);
    }
  }

  /** Execute does something whenever some body holds a string literal. */
  lemma HidingHasFields(bodies: seq<seq<Instr>>, useHeapAlloc: bool, firstField: nat, b: nat, k: nat)
    requires Hiding(bodies, useHeapAlloc, firstField).Ok?
    requires b < |bodies| && k < |bodies[b]| && bodies[b][k].operand.Str?
    ensures Hiding(bodies, useHeapAlloc, firstField).value.Some?
  {
    var j := CollectedIndex(bodies, b, k);
    HidingTable(bodies, useHeapAlloc, firstField);
  }

  /** Every string literal is among the collected strings. */
  lemma CollectedIndex(bodies: seq<seq<Instr>>, b: nat, k: nat) returns (j: nat)
    requires b < |bodies| && k < |bodies[b]| && bodies[b][k].operand.Str?
    ensures j < |Collected(bodies)| && Collected(bodies)[j] == bodies[b][k].operand.text
  {
    LiteralsComplete(bodies, b, k);
    DedupMeaning(Literals(bodies));
    j :| 0 <= j < |Collected(bodies)| && Collected(bodies)[j] == bodies[b][k].operand.text;
  }

  /** The j-th collected string gets field `firstField + j`. */
  lemma HidingFieldOf(bodies: seq<seq<Instr>>, useHeapAlloc: bool, firstField: nat, h: Hidden, j: nat)
    requires Hiding(bodies, useHeapAlloc, firstField) == Ok(Some(h)) && j < |Collected(bodies)|
    ensures Collected(bodies)[j] in h.fieldOf && h.fieldOf[Collected(bodies)[j]] == firstField + j
  {
    HidingTable(bodies, useHeapAlloc, firstField);
    DedupMeaning(Literals(bodies));
    FieldTableAt(Collected(bodies), firstField, j);
  }

  /** The field of the j-th collected string, once the static constructor
      has run. */
  lemma HidingField(bodies: seq<seq<Instr>>, useHeapAlloc: bool, firstField: nat, h: Hidden, j: nat)
    requires Hiding(bodies, useHeapAlloc, firstField) == Ok(Some(h))
    requires j < |Collected(bodies)|
    ensures var s := Collected(bodies)[j];
      && s in h.fieldOf
      && var run := Run(h.decoder, Machine(IntV(0), Empty, map[]), h.data);
         && (run.Some? <==> !useHeapAlloc || |Collected(bodies)| == 1)
         && (run.Some? ==> h.fieldOf[s] in run.value.fields && run.value.fields[h.fieldOf[s]] == Sanitized(s))
  {
    HidingFieldOf(bodies, useHeapAlloc, firstField, h, j);
    HidingRuns(bodies, useHeapAlloc, firstField, h);
    AssignAt(map[], firstField, Stored(Collected(bodies)), j);
  }

  /** When there are strings and Execute succeeds, it creates the field table
      numbered from `firstField`. */
  lemma HidingTable(bodies: seq<seq<Instr>>, useHeapAlloc: bool, firstField: nat)
    requires Hiding(bodies, useHeapAlloc, firstField).Ok? && Collected(bodies) != []
    ensures Hiding(bodies, useHeapAlloc, firstField).value.Some?
    ensures Hiding(bodies, useHeapAlloc, firstField).value.value.fieldOf == FieldTable(Collected(bodies), firstField)
  {
    HidingValue(bodies, useHeapAlloc, firstField);
  }

  /** Running the emitted static constructor on the buffer succeeds exactly
      when the buffer is on the stack or there is a single string, and then
      field `firstField + k` holds the k-th collected string as stored. */
  lemma HidingRuns(bodies: seq<seq<Instr>>, useHeapAlloc: bool, firstField: nat, h: Hidden)
    requires Hiding(bodies, useHeapAlloc, firstField) == Ok(Some(h))
    ensures var run := Run(h.decoder, Machine(IntV(0), Empty, map[]), h.data);
      && (run.Some? <==> !useHeapAlloc || |Collected(bodies)| == 1)
      && (run.Some? ==> run.value.fields == Assign(map[], firstField, Stored(Collected(bodies))))
  {
    var strings := Collected(bodies);
    var p := HidingParts(bodies, useHeapAlloc, firstField, h);
    var m := Machine(PtrV(Cursor(Entries(p), |strings|)), Empty, Assign(map[], firstField, Stored(strings)));
    assert Run(h.decoder, Machine(IntV(0), Empty, map[]), h.data) == if useHeapAlloc && |strings| > 1 then None else Some(m) by {
      PackedDecoderRuns(strings, useHeapAlloc, firstField, p, h.decoder);
    }
  }

  /** What a successful Execute is made of: the packing of the collected
      strings and the decoder emitted for it. */
  lemma HidingParts(bodies: seq<seq<Instr>>, useHeapAlloc: bool, firstField: nat, h: Hidden) returns (p: Packing)
    requires Hiding(bodies, useHeapAlloc, firstField) == Ok(Some(h))
    ensures Collected(bodies) != [] && Packed(Collected(bodies)) == Ok(p) && h.data == p.data
    ensures p.order == Collected(bodies) && forall s :: s in p.order ==> s in p.values
    ensures DecoderBody(|p.data|, Entries(p), useHeapAlloc, firstField) == Ok(h.decoder)
  {
    p := Packed(Collected(bodies)).value;
    HidingValue(bodies, useHeapAlloc, firstField);
    PackedData(Collected(bodies));
  }

  /** The decoder emitted for a packing, run on its buffer, stores the k-th
      string as stored into field `firstField + k`; with heap allocation and
      more than one string, freeing the moved pointer fails. */
  lemma PackedDecoderRuns(strings: seq<Text>, useHeapAlloc: bool, firstField: nat, p: Packing, decoder: seq<DecoderOp>)
    requires Packed(strings) == Ok(p)
    requires p.order == strings && forall s :: s in p.order ==> s in p.values
    requires DecoderBody(|p.data|, Entries(p), useHeapAlloc, firstField) == Ok(decoder)
    ensures Run(decoder, Machine(IntV(0), Empty, map[]), p.data)
            == if useHeapAlloc && |strings| > 1 then None
               else Some(Machine(PtrV(Cursor(Entries(p), |strings|)), Empty, Assign(map[], firstField, Stored(strings))))
  {
    PackedReadsBack(strings);
    PackedData(strings);
    DecoderRuns(Entries(p), Stored(strings), useHeapAlloc, firstField, p.data);
    if strings != [] {
      PackedLastOffset(strings);
    }
  }

  /** One field of Assign. */
  lemma AssignAt(F: map<nat, Text>, firstField: nat, texts: seq<Text>, j: nat)
    requires j < |texts|
    ensures firstField + j in Assign(F, firstField, texts) && Assign(F, firstField, texts)[firstField + j] == texts[j]
  {
    AssignMeaning(F, firstField, texts);
    assert firstField <= firstField + j < firstField + |texts|;
  }

  /** One entry of the field table. */
  lemma FieldTableAt(strings: seq<Text>, firstField: nat, j: nat)
    requires Distinct(strings) && j < |strings|
    ensures strings[j] in FieldTable(strings, firstField) && FieldTable(strings, firstField)[strings[j]] == firstField + j
  {
    FieldTableMeaning(strings, firstField);
  }
}
