/** Name generation for the renaming feature: every name over an alphabet,
    shortest first, and the search for the first name that is not in use. */
module NamingHelper {
  import opened Wrappers

  // ----- Schemes and alphabets -----

  /** The naming scheme. Any other value of the enumeration is Unknown. */
  datatype NamingScheme = Invalid | Default | Unknown(value: int)

  /** `n` consecutive characters starting at `first`. */
  function CharRange(first: char, n: nat): (r: seq<char>)
    requires first as int + n <= 0xD800
    ensures |r| == n && forall k :: 0 <= k < n ==> r[k] as int == first as int + k
  {
    seq(n, k requires 0 <= k < n => (first as int + k) as char)
  }

  /** [a-zA-Z0-9_], in that order. */
  const LegalChars: seq<char> := CharRange('a', 26) + CharRange('A', 26) + CharRange('0', 10) + ['_']

  /** Space . : ! ? & ( ) ` ' " * / U+037E (Greek question mark) ; U+001B (escape). */
  const IllegalChars: seq<char> :=
    [' ', '.', ':', '!', '?', '&', '(', ')', '`', '\'', '"', '*', '/', 0x37E as char, ';', 0x1B as char]

  predicate DistinctChars(chars: seq<char>) {
    forall i, j :: 0 <= i < j < |chars| ==> chars[i] != chars[j]
  }

  /** The alphabet and the minimum length of a scheme. */
  datatype Config = Config(chars: seq<char>, minLength: nat)

  /** The constructor's two switches: the illegal alphabet from length 0,
      the legal one from length 1, and an out-of-range error otherwise. */
  function SchemeConfig(scheme: NamingScheme): (r: Result<Config, string>)
    ensures r.Ok? <==> !scheme.Unknown?
    ensures r.Ok? ==> |r.value.chars| > 0 && DistinctChars(r.value.chars)
    ensures scheme == Default ==> r == Ok(Config(LegalChars, 1))
    ensures scheme == Invalid ==> r == Ok(Config(IllegalChars, 0))
  {
    match scheme
    case Invalid => IllegalCharsDistinct(); Ok(Config(IllegalChars, 0))
    case Default => LegalCharsDistinct(); Ok(Config(LegalChars, 1))
    case Unknown(_) => Err("scheme")
  }

  lemma LegalCharsDistinct()
    ensures |LegalChars| == 63 && DistinctChars(LegalChars)
  {
    var lower, upper, digits := CharRange('a', 26), CharRange('A', 26), CharRange('0', 10);
    assert LegalChars == lower + upper + digits + ['_'];
    forall i, j | 0 <= i < j < |LegalChars|
      ensures LegalChars[i] != LegalChars[j]
    {
      // The four parts occupy the disjoint code ranges 97-122, 65-90, 48-57 and 95.
      assert 97 <= LegalChars[i] as int <= 122 <==> i < 26;
      assert 65 <= LegalChars[i] as int <= 90 <==> 26 <= i < 52;
      assert 48 <= LegalChars[i] as int <= 57 <==> 52 <= i < 62;
    }
  }

  lemma IllegalCharsDistinct()
    ensures |IllegalChars| == 16 && DistinctChars(IllegalChars)
  {
  }

  // ----- Combinations with repetition -----

  function Pow(b: nat, n: nat): nat {
    if n == 0 then 1 else b * Pow(b, n - 1)
  }

  /** Each shorter name with `c` appended. */
  function Suffixed(shorter: seq<string>, c: char): (r: seq<string>)
    ensures |r| == |shorter| && forall k :: 0 <= k < |shorter| ==> r[k] == shorter[k] + [c]
  {
    seq(|shorter|, k requires 0 <= k < |shorter| => shorter[k] + [c])
  }

  /** For each character in alphabet order, every shorter name in its order
      with that character appended. */
  function ForEachChar(chars: seq<char>, shorter: seq<string>): seq<string> {
    if |chars| == 0 then []
    else ForEachChar(chars[..|chars| - 1], shorter) + Suffixed(shorter, chars[|chars| - 1])
  }

  /** CombinationsWithRepetition(length): the empty name for length 0,
      otherwise ForEachChar over the names one shorter. */
  function Combinations(chars: seq<char>, length: nat): seq<string> {
    if length == 0 then [""] else ForEachChar(chars, Combinations(chars, length - 1))
  }

  /** A name lies in ForEachChar exactly when it ends in a character of the
      alphabet after one of the shorter names. */
  lemma {:induction false} ForEachCharMembers(chars: seq<char>, shorter: seq<string>, s: string)
    ensures s in ForEachChar(chars, shorter) <==>
      |s| > 0 && s[|s| - 1] in chars && s[..|s| - 1] in shorter
    decreases |chars|
  {
    if |chars| > 0 {
      var init, c := chars[..|chars| - 1], chars[|chars| - 1];
      ForEachCharMembers(init, shorter, s);
      assert chars == init + [c];
      if s in Suffixed(shorter, c) {
        var k :| 0 <= k < |shorter| && Suffixed(shorter, c)[k] == s;
        assert s[..|s| - 1] == shorter[k];
      }
      if |s| > 0 && s[|s| - 1] == c && s[..|s| - 1] in shorter {
        var k :| 0 <= k < |shorter| && shorter[k] == s[..|s| - 1];
        assert Suffixed(shorter, c)[k] == s;
      }
    }
  }

  /** The names of a length are exactly the strings of that length over the
      alphabet. */
  lemma {:induction false} CombinationsMembers(chars: seq<char>, length: nat, s: string)
    ensures s in Combinations(chars, length) <==>
      |s| == length && forall i :: 0 <= i < |s| ==> s[i] in chars
  {
    if length > 0 {
      ForEachCharMembers(chars, Combinations(chars, length - 1), s);
      if |s| > 0 {
        CombinationsMembers(chars, length - 1, s[..|s| - 1]);
        assert forall i :: 0 <= i < |s| - 1 ==> s[..|s| - 1][i] == s[i];
      }
    }
  }

  /** There are |chars|^length names of each length. */
  lemma {:induction false} CombinationsCount(chars: seq<char>, length: nat)
    ensures |Combinations(chars, length)| == Pow(|chars|, length)
  {
    if length > 0 {
      CombinationsCount(chars, length - 1);
      ForEachCharCount(chars, Combinations(chars, length - 1));
    }
  }

  lemma {:induction false} ForEachCharCount(chars: seq<char>, shorter: seq<string>)
    ensures |ForEachChar(chars, shorter)| == |chars| * |shorter|
    decreases |chars|
  {
    if |chars| > 0 {
      ForEachCharCount(chars[..|chars| - 1], shorter);
      BlockArithmetic(|chars| - 1, 0, |chars|, |shorter|);
    }
  }

  /** Block c of n blocks of size m starts at c * m and the last one right
      after the first n - 1. */
  lemma BlockArithmetic(c: nat, k: nat, n: nat, m: nat)
    requires c < n
    ensures (n - 1) * m + m == n * m
    ensures k < m ==> c * m + k < n * m
    ensures k < m && c < n - 1 ==> c * m + k < (n - 1) * m
    ensures c == n - 1 ==> c * m + k - (n - 1) * m == k
  {
    if k < m && c < n - 1 {
      assert (c + 1) * m <= (n - 1) * m;
    }
  }

  /** Within one length the last character varies slowest: the name at
      position c * |shorter| + k is shorter name k followed by character c. */
  lemma {:induction false} ForEachCharOrder(chars: seq<char>, shorter: seq<string>, c: nat, k: nat)
    requires c < |chars| && k < |shorter|
    ensures c * |shorter| + k < |ForEachChar(chars, shorter)|
    ensures ForEachChar(chars, shorter)[c * |shorter| + k] == shorter[k] + [chars[c]]
    decreases |chars|
  {
    var init := chars[..|chars| - 1];
    ForEachCharCount(init, shorter);
    ForEachCharCount(chars, shorter);
    BlockArithmetic(c, k, |chars|, |shorter|);
    if c < |chars| - 1 {
      ForEachCharOrder(init, shorter, c, k);
    }
  }

  predicate Distinct(names: seq<string>) {
    forall i, j :: 0 <= i < j < |names| ==> names[i] != names[j]
  }

  lemma {:induction false} ForEachCharDistinct(chars: seq<char>, shorter: seq<string>)
    requires DistinctChars(chars) && Distinct(shorter)
    ensures Distinct(ForEachChar(chars, shorter))
    decreases |chars|
  {
    if |chars| > 0 {
      var init, c := chars[..|chars| - 1], chars[|chars| - 1];
      var front, back := ForEachChar(init, shorter), Suffixed(shorter, c);
      ForEachCharDistinct(init, shorter);
      forall i, j | 0 <= i < j < |front + back|
        ensures (front + back)[i] != (front + back)[j]
      {
        if j >= |front| && i < |front| {
          // A name of the front part ends in a character before c.
          var s := front[i];
          ForEachCharMembers(init, shorter, s);
          assert s[|s| - 1] != c;
        } else if i >= |front| {
          assert back[i - |front|][..|shorter[i - |front|]|] == shorter[i - |front|];
          assert back[j - |front|][..|shorter[j - |front|]|] == shorter[j - |front|];
        }
      }
    }
  }

  /** Over an alphabet without repeats no name of a length is produced twice. */
  lemma {:induction false} CombinationsDistinct(chars: seq<char>, length: nat)
    requires DistinctChars(chars)
    ensures Distinct(Combinations(chars, length))
  {
    if length > 0 {
      CombinationsDistinct(chars, length - 1);
      ForEachCharDistinct(chars, Combinations(chars, length - 1));
    }
  }

  // ----- The endless enumeration -----

  lemma {:induction false} PowPositive(b: nat, n: nat)
    requires b > 0
    ensures Pow(b, n) > 0
  {
    if n > 0 {
      PowPositive(b, n - 1);
    }
  }

  /** Name number `index` of CombinationsWithRepetition() when it starts at
      `length`: the lengths are enumerated in increasing order, each in full. */
  function NameAt(chars: seq<char>, length: nat, index: nat): string
    requires |chars| > 0
    decreases index
  {
    CombinationsCount(chars, length);
    PowPositive(|chars|, length);
    var names := Combinations(chars, length);
    if index < |names| then names[index] else NameAt(chars, length + 1, index - |names|)
  }

  /** Names never get shorter along the enumeration, and none is shorter than
      where it started. */
  lemma {:induction false} NameAtLengths(chars: seq<char>, length: nat, i: nat, j: nat)
    requires |chars| > 0 && i <= j
    ensures length <= |NameAt(chars, length, i)| <= |NameAt(chars, length, j)|
    decreases j
  {
    CombinationsCount(chars, length);
    PowPositive(|chars|, length);
    var names := Combinations(chars, length);
    if j < |names| {
      CombinationsMembers(chars, length, names[i]);
      CombinationsMembers(chars, length, names[j]);
    } else if i < |names| {
      CombinationsMembers(chars, length, names[i]);
      NameAtLengths(chars, length + 1, j - |names|, j - |names|);
    } else {
      NameAtLengths(chars, length + 1, i - |names|, j - |names|);
    }
  }

  /** Over an alphabet without repeats the enumeration never repeats a name. */
  lemma {:induction false} NameAtDistinct(chars: seq<char>, length: nat, i: nat, j: nat)
    requires |chars| > 0 && DistinctChars(chars) && i < j
    ensures NameAt(chars, length, i) != NameAt(chars, length, j)
    decreases i
  {
    CombinationsCount(chars, length);
    PowPositive(|chars|, length);
    var names := Combinations(chars, length);
    if j < |names| {
      CombinationsDistinct(chars, length);
    } else if i < |names| {
      CombinationsMembers(chars, length, names[i]);
      NameAtLengths(chars, length + 1, j - |names|, j - |names|);
    } else {
      NameAtDistinct(chars, length + 1, i - |names|, j - |names|);
    }
  }

  /** Where the names of length `n` begin when the enumeration starts at
      `length`. */
  function BlockStart(chars: seq<char>, length: nat, n: nat): nat
    requires length <= n
    decreases n - length
  {
    if n == length then 0 else Pow(|chars|, length) + BlockStart(chars, length + 1, n)
  }

  /** The names of length n form one block, in CombinationsWithRepetition(n)
      order, after every shorter name. */
  lemma {:induction false} NameAtBlock(chars: seq<char>, length: nat, n: nat, k: nat)
    requires |chars| > 0 && length <= n && k < |Combinations(chars, n)|
    ensures NameAt(chars, length, BlockStart(chars, length, n) + k) == Combinations(chars, n)[k]
    decreases n - length
  {
    CombinationsCount(chars, length);
    CombinationsCount(chars, n);
    if n > length {
      NameAtBlock(chars, length + 1, n, k);
    }
  }

  // ----- The two schemes -----

  /** Default names are never empty. */
  lemma DefaultNamesNotEmpty(index: nat)
    ensures NameAt(LegalChars, 1, index) != ""
  {
    LegalCharsDistinct();
    NameAtLengths(LegalChars, 1, index, index);
  }

  /** The Invalid scheme starts with the empty name and never produces it
      again. */
  lemma InvalidEmptyOnlyFirst(index: nat)
    ensures NameAt(IllegalChars, 0, 0) == ""
    ensures index > 0 ==> NameAt(IllegalChars, 0, index) != ""
  {
    IllegalCharsDistinct();
    if index > 0 {
      NameAtDistinct(IllegalChars, 0, 0, index);
    }
  }

  // ----- The stateful generator -----

  /** The helper struct: an alphabet, a minimum length and the enumerator's
      position in the endless enumeration. */
  class NameGenerator {
    const chars: seq<char>
    const minLength: nat
    var position: nat

    constructor (config: Config)
      requires |config.chars| > 0
      ensures chars == config.chars && minLength == config.minLength && position == 0
    {
      chars := config.chars;
      minLength := config.minLength;
      position := 0;
    }

    /** GetNextName: the enumerator always has a next name; take it. */
    method GetNextName() returns (name: string)
      requires |chars| > 0
      modifies this
      ensures name == NameAt(chars, minLength, old(position))
      ensures position == old(position) + 1
    {
      name := NameAt(chars, minLength, position);
      position := position + 1;
    }
  }

  // ----- Names in use -----

  /** What a definition being renamed collides with. Methods, fields and
      generic parameters collide with the other definitions of their kind
      on the same owner; properties and events with those of the same
      signature or event type; a nested type with every nested type of its
      declaring type, itself included; a top-level type with the given set
      of used names or, without one, with the module's top-level types in
      the global namespace. */
  datatype RenameTarget =
    | MethodTarget(otherMethods: seq<string>)
    | FieldTarget(otherFields: seq<string>)
    | PropertyTarget(sameSignature: seq<string>)
    | EventTarget(sameEventType: seq<string>)
    | TypeTarget(nested: bool, nestedInParent: seq<string>, usedTypeNames: Option<set<string>>, globalTypes: seq<string>)
    | GenericParamTarget(otherParams: seq<string>)
    | UnknownTarget

  /** IsNameIsUse / IsTypeNameInUse; an unknown kind of definition is an
      argument error. */
  function InUse(target: RenameTarget, name: string): (r: Result<bool, string>)
    ensures r.Err? <==> target.UnknownTarget?
    ensures r.Ok? ==> (r.value <==> name in UsedNames(target))
  {
    match target
    case MethodTarget(others) => Ok(name in others)
    case FieldTarget(others) => Ok(name in others)
    case PropertyTarget(same) => Ok(name in same)
    case EventTarget(same) => Ok(name in same)
    case TypeTarget(nested, siblings, used, global) =>
      if nested then Ok(name in siblings)
      else if used.Some? then Ok(name in used.value)
      else Ok(name in global)
    case GenericParamTarget(others) => Ok(name in others)
    case UnknownTarget => Err("member")
  }

  /** The finite set of names a target collides with. */
  function UsedNames(target: RenameTarget): set<string> {
    match target
    case MethodTarget(others) => set s | s in others
    case FieldTarget(others) => set s | s in others
    case PropertyTarget(same) => set s | s in same
    case EventTarget(same) => set s | s in same
    case TypeTarget(nested, siblings, used, global) =>
      if nested then set s | s in siblings
      else if used.Some? then used.value
      else set s | s in global
    case GenericParamTarget(others) => set s | s in others
    case UnknownTarget => {}
  }

  /** The first `count` names of the enumeration. */
  function FirstNames(chars: seq<char>, length: nat, count: nat): (r: set<string>)
    requires |chars| > 0
  {
    set i | 0 <= i < count :: NameAt(chars, length, i)
  }

  lemma {:induction false} FirstNamesSize(chars: seq<char>, length: nat, count: nat)
    requires |chars| > 0 && DistinctChars(chars)
    ensures |FirstNames(chars, length, count)| == count
  {
    if count > 0 {
      var name := NameAt(chars, length, count - 1);
      FirstNamesSize(chars, length, count - 1);
      assert FirstNames(chars, length, count) == FirstNames(chars, length, count - 1) + {name};
      forall i | 0 <= i < count - 1
        ensures NameAt(chars, length, i) != name
      {
        NameAtDistinct(chars, length, i, count - 1);
      }
    }
  }

  /** Rename: draw names until one is not in use. The search ends because
      the names drawn are all different and only finitely many are in use. */
  method Rename(target: RenameTarget, scheme: NamingScheme) returns (r: Result<string, string>)
    ensures r.Err? <==> scheme.Unknown? || target.UnknownTarget?
    ensures r.Ok? ==> SchemeConfig(scheme).Ok? && FirstUnused(SchemeConfig(scheme).value, UsedNames(target), r.value)
  {
    var config := SchemeConfig(scheme);
    if config.Err? {
      return Err(config.error);
    }
    var naming := new NameGenerator(config.value);
    var used := UsedNames(target);
    ghost var chars, length := config.value.chars, config.value.minLength;
    while true
      invariant naming.chars == chars && naming.minLength == length
      invariant forall i :: 0 <= i < naming.position ==> NameAt(chars, length, i) in used
      invariant naming.position <= |used|
      decreases |used| - naming.position
    {
      ghost var drawn := naming.position;
      var name := naming.GetNextName();
      var inUse := InUse(target, name);
      if inUse.Err? {
        return Err(inUse.error);
      }
      if !inUse.value {
        assert FirstUnused(config.value, used, name) by {
          assert NameAt(chars, length, drawn) == name;
        }
        return Ok(name);
      }
      FirstNamesSize(chars, length, drawn + 1);
      assert FirstNames(chars, length, drawn + 1) <= used;
      SetSizeBound(FirstNames(chars, length, drawn + 1), used);
    }
  }

  /** `name` is the first name of the enumeration that is not in `used`. */
  ghost predicate FirstUnused(config: Config, used: set<string>, name: string)
    requires |config.chars| > 0
  {
    exists k: nat :: NameAt(config.chars, config.minLength, k) == name && name !in used
      && forall i :: 0 <= i < k ==> NameAt(config.chars, config.minLength, i) in used
  }

  lemma SetSizeBound(small: set<string>, large: set<string>)
    requires small <= large
    ensures |small| <= |large|
  {
    assert large == small + (large - small);
  }
}
