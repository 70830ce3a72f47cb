/** The obfuscation-feature flags and their textual form, as written in the
    `Feature` string of an `[Obfuscation]` attribute: a list of feature names or
    numbers separated by ';' or ','. */
module FeatureExtensions {
  import opened Wrappers
  import opened BoundedInts

  /** A VilensFeature value: a [Flags] enumeration over a 32-bit integer,
      modelled as the set of positions of its one bits, so that `|` is union,
      `&` intersection and `& ~` difference. */
  type Features = set<nat>

  const NoFeatures: Features := {}
  const Renaming: Features := {0}
  const AttributeCleaning: Features := {1}
  const PropertyInline: Features := {2}
  const Corruption: Features := {3}
  const ControlFlow: Features := {4}
  const Trimming: Features := {5}
  const StringHiding: Features := {6}
  const All: Features := {0, 1, 2, 3, 4, 5, 6}

  /** The flags of a 32-bit pattern given as a number in [0, 2^32). */
  function BitsOf(n: nat): (f: Features)
    ensures forall i :: i in f ==> i < 32
  {
    set i | 0 <= i < 32 && (n / Pow2(i)) % 2 == 1
  }

  lemma AllIsEveryFeature()
    ensures All == Renaming + AttributeCleaning + PropertyInline + Corruption + ControlFlow + Trimming + StringHiding
  {
  }

  // ----- HasFeatures -----

  /** (granted & requested) == requested: whether a definition whose feature set
      is `granted` has every feature in `requested`. */
  predicate HasFeatures(granted: Features, requested: Features) {
    granted * requested == requested
  }

  /** HasFeatures is containment: every requested flag is granted. */
  lemma HasFeaturesIsContainment(granted: Features, requested: Features)
    ensures HasFeatures(granted, requested) <==> forall i :: i in requested ==> i in granted
  {
    if forall i :: i in requested ==> i in granted {
      assert granted * requested == requested;
    }
  }

  // ----- Splitting on ';' and ',' -----

  predicate IsSeparator(c: char) {
    c == ';' || c == ','
  }

  predicate NoSeparator(s: string) {
    forall k :: 0 <= k < |s| ==> !IsSeparator(s[k])
  }

  /** The position of the first separator, or |s| when there is none. */
  function FirstSeparator(s: string): (i: nat)
    ensures i <= |s|
    ensures NoSeparator(s[..i])
    ensures i < |s| ==> IsSeparator(s[i])
  {
    if |s| == 0 || IsSeparator(s[0]) then 0
    else
      var i := FirstSeparator(s[1..]);
      assert s[1..][..i] == s[1..i + 1];
      i + 1
  }

  /** String.Split([';', ','], StringSplitOptions.RemoveEmptyEntries): the
      maximal separator-free pieces of `s`, empty pieces dropped. */
  function Split(s: string): (r: seq<string>)
    ensures forall k :: 0 <= k < |r| ==> r[k] != [] && NoSeparator(r[k])
    decreases |s|
  {
    if |s| == 0 then []
    else
      var i := FirstSeparator(s);
      (if i == 0 then [] else [s[..i]]) + (if i == |s| then [] else Split(s[i + 1..]))
  }

  /** Every character of a piece is a character of the input. */
  lemma {:induction false} SplitChars(s: string)
    ensures forall k, c :: 0 <= k < |Split(s)| && c in Split(s)[k] ==> c in s
    decreases |s|
  {
    if |s| > 0 {
      var i := FirstSeparator(s);
      if i < |s| {
        SplitChars(s[i + 1..]);
      }
      assert forall c :: c in s[..i] || (i < |s| && c in s[i + 1..]) ==> c in s;
    }
  }

  function Concat(ss: seq<string>): string {
    if |ss| == 0 then [] else ss[0] + Concat(ss[1..])
  }

  /** `s` with every separator deleted. */
  function WithoutSeparators(s: string): (r: string) {
    if |s| == 0 then []
    else if IsSeparator(s[0]) then WithoutSeparators(s[1..])
    else [s[0]] + WithoutSeparators(s[1..])
  }

  /** Deleting the separators of `s` keeps its first separator-free run
      and drops the separator that ends it. */
  lemma {:induction false} WithoutSeparatorsAt(s: string, i: nat)
    requires i < |s| && NoSeparator(s[..i]) && IsSeparator(s[i])
    ensures WithoutSeparators(s) == s[..i] + WithoutSeparators(s[i + 1..])
    decreases i
  {
    if i > 0 {
      var t := s[1..];
      assert !IsSeparator(s[..i][0]);
      var u, v := t[..i - 1], s[..i];
      forall k | 0 <= k < |u|
        ensures !IsSeparator(u[k])
      {
        assert u[k] == v[k + 1];
      }
      assert t[i - 1] == s[i];
      WithoutSeparatorsAt(t, i - 1);
      assert t[i..] == s[i + 1..];
      assert WithoutSeparators(s) == [s[0]] + WithoutSeparators(t);
      assert [s[0]] + t[..i - 1] == s[..i];
    }
  }

  lemma {:induction false} WithoutSeparatorsIdentity(s: string)
    requires NoSeparator(s)
    ensures WithoutSeparators(s) == s
    decreases |s|
  {
    if |s| > 0 {
      WithoutSeparatorsIdentity(s[1..]);
    }
  }

  /** No character is lost or invented by the split: the pieces, laid end to
      end, are the input with its separators deleted. */
  lemma {:induction false} SplitKeepsText(s: string)
    ensures Concat(Split(s)) == WithoutSeparators(s)
    decreases |s|
  {
    if |s| > 0 {
      var i := FirstSeparator(s);
      if i == |s| {
        assert s[..i] == s;
        assert Split(s) == [s];
        assert Concat([s]) == s + Concat([]);
        WithoutSeparatorsIdentity(s);
      } else {
        var rest := s[i + 1..];
        SplitKeepsText(rest);
        WithoutSeparatorsAt(s, i);
        if i == 0 {
          assert Split(s) == Split(rest);
          assert s[..i] + WithoutSeparators(rest) == WithoutSeparators(rest);
        } else {
          var t := Split(rest);
          assert Split(s) == [s[..i]] + t;
          assert ([s[..i]] + t)[1..] == t;
        }
      }
    }
  }

  // ----- String.Trim -----

  /** char.IsWhiteSpace: the Unicode space separators plus the ASCII and
      Latin-1 control characters that count as white space. */
  predicate IsWhiteSpace(c: char) {
    ('\t' <= c <= '\r') || c == ' ' || c == '\U{0085}' || c == '\U{00A0}' || c == '\U{1680}'
    || ('\U{2000}' <= c <= '\U{200A}') || c == '\U{2028}' || c == '\U{2029}' || c == '\U{202F}'
    || c == '\U{205F}' || c == '\U{3000}'
  }

  predicate AllWhiteSpace(s: string) {
    forall k :: 0 <= k < |s| ==> IsWhiteSpace(s[k])
  }

  function TrimStart(s: string): string {
    if |s| > 0 && IsWhiteSpace(s[0]) then TrimStart(s[1..]) else s
  }

  function TrimEnd(s: string): string {
    if |s| > 0 && IsWhiteSpace(s[|s| - 1]) then TrimEnd(s[..|s| - 1]) else s
  }

  /** String.Trim: `s` without its leading and trailing white space. */
  function Trim(s: string): string {
    TrimEnd(TrimStart(s))
  }

  lemma {:induction false} TrimStartMeaning(s: string)
    ensures var r := TrimStart(s);
      |r| <= |s| && r == s[|s| - |r|..] && AllWhiteSpace(s[..|s| - |r|]) && (r == [] || !IsWhiteSpace(r[0]))
  {
    if |s| > 0 && IsWhiteSpace(s[0]) {
      TrimStartMeaning(s[1..]);
      var r := TrimStart(s);
      assert s[..|s| - |r|] == [s[0]] + s[1..][..|s| - 1 - |r|];
    } else {
      assert s[..0] == [];
    }
  }

  lemma {:induction false} TrimEndMeaning(s: string)
    ensures var r := TrimEnd(s);
      |r| <= |s| && r == s[..|r|] && AllWhiteSpace(s[|r|..]) && (r == [] || !IsWhiteSpace(r[|r| - 1]))
  {
    if |s| > 0 && IsWhiteSpace(s[|s| - 1]) {
      TrimEndMeaning(s[..|s| - 1]);
      var r := TrimEnd(s);
      assert s[|r|..] == s[..|s| - 1][|r|..] + [s[|s| - 1]];
    } else {
      assert s[|s|..] == [];
    }
  }

  /** Trim removes white space from both ends and nothing else; its result is
      empty exactly for an all-white-space input. */
  lemma TrimMeaning(s: string)
    ensures exists i, j :: 0 <= i <= j <= |s| && Trim(s) == s[i..j] && AllWhiteSpace(s[..i]) && AllWhiteSpace(s[j..])
    ensures Trim(s) == [] || (!IsWhiteSpace(Trim(s)[0]) && !IsWhiteSpace(Trim(s)[|Trim(s)| - 1]))
    ensures Trim(s) == [] <==> AllWhiteSpace(s)
  {
    var i, j := TrimSpan(s);
    if Trim(s) == [] {
      forall m | 0 <= m < |s|
        ensures IsWhiteSpace(s[m])
      {
        if m < i {
          assert s[..i][m] == s[m];
        } else {
          assert s[j..][m - j] == s[m];
        }
      }
    } else {
      assert Trim(s)[0] == s[i];
    }
  }

  /** Trim(s) is the slice of `s` between its leading and its trailing white
      space, and starts and ends with a character that is not white space. */
  lemma TrimSpan(s: string) returns (i: nat, j: nat)
    ensures i <= j <= |s| && Trim(s) == s[i..j] && AllWhiteSpace(s[..i]) && AllWhiteSpace(s[j..])
    ensures Trim(s) == [] || (!IsWhiteSpace(Trim(s)[0]) && !IsWhiteSpace(Trim(s)[|Trim(s)| - 1]))
  {
    var t := TrimStart(s);
    TrimStartMeaning(s);
    TrimEndMeaning(t);
    i := |s| - |t|;
    var r := TrimEnd(t);
    j := i + |r|;
    assert r == s[i..j];
    assert s[j..] == t[|r|..];
    assert r != [] ==> r[0] == s[i];
  }

  /** A token with no white space at either end is its own trim. */
  lemma TrimUntouched(s: string)
    requires s != [] && !IsWhiteSpace(s[0]) && !IsWhiteSpace(s[|s| - 1])
    ensures Trim(s) == s
  {
  }

  // ----- Enum.TryParse<VilensFeature>(token, ignoreCase: true) -----

  /** Ordinal upper-casing of the ASCII letters. */
  function Upper(c: char): char {
    if 'a' <= c <= 'z' then (c as int - 32) as char else c
  }

  /** The first `n` characters of `a` and `b` agree up to case. */
  predicate SameLettersUpTo(a: string, b: string, n: nat)
    requires n <= |a| && n <= |b|
  {
    n == 0 || (Upper(a[n - 1]) == Upper(b[n - 1]) && SameLettersUpTo(a, b, n - 1))
  }

  /** Ordinal case-insensitive equality of `a` with `name`, whose length `n`
      is passed alongside it. */
  predicate EqualsIgnoreCase(a: string, name: string, n: nat)
    requires |name| == n
  {
    |a| == n && SameLettersUpTo(a, name, n)
  }

  /** The declared names of VilensFeature and their values. */
  function Named(t: string): (r: Option<Features>)
    ensures r.Some? ==> r.value <= All
  {
    if EqualsIgnoreCase(t, "None", 4) then Some(NoFeatures)
    else if EqualsIgnoreCase(t, "Renaming", 8) then Some(Renaming)
    else if EqualsIgnoreCase(t, "AttributeCleaning", 17) then Some(AttributeCleaning)
    else if EqualsIgnoreCase(t, "PropertyInline", 14) then Some(PropertyInline)
    else if EqualsIgnoreCase(t, "Corruption", 10) then Some(Corruption)
    else if EqualsIgnoreCase(t, "ControlFlow", 11) then Some(ControlFlow)
    else if EqualsIgnoreCase(t, "Trimming", 8) then Some(Trimming)
    else if EqualsIgnoreCase(t, "StringHiding", 12) then Some(StringHiding)
    else if EqualsIgnoreCase(t, "All", 3) then Some(All)
    else None
  }

  predicate IsDigit(c: char) {
    '0' <= c <= '9'
  }

  /** The decimal value of a digit string. */
  function DigitsValue(ds: string): (v: nat)
    requires forall k :: 0 <= k < |ds| ==> IsDigit(ds[k])
  {
    if |ds| == 0 then 0
    else
      var d := ds[|ds| - 1];
      assert IsDigit(d);
      10 * DigitsValue(ds[..|ds| - 1]) + (d as int - '0' as int)
  }

  /** Enum.TryParse on a number: an optional sign and at least one decimal
      digit, accepted when the value fits in an int; the flags are the value's
      32-bit two's-complement pattern. */
  function ParseNumber(t: string): (r: Option<Features>)
    ensures r.Some? ==> |t| > 0 && (IsDigit(t[0]) || t[0] == '-' || t[0] == '+')
  {
    var signed := |t| > 0 && (t[0] == '-' || t[0] == '+');
    var ds := if signed then t[1..] else t;
    if |ds| == 0 || !(forall k :: 0 <= k < |ds| ==> IsDigit(ds[k])) then None
    else
      var negative := signed && t[0] == '-';
      var n: int := DigitsValue(ds);
      var v := if negative then -n else n;
      if IsInt32(v) then Some(BitsOf(WrapUInt32(v))) else None
  }

  datatype ParseError =
    | NoTokens               // Aggregate without a seed on an empty sequence
    | CannotParse(token: string)

  /** ParseOne: a trimmed token that is a number or a feature name. */
  function ParseOne(token: string): (r: Result<Features, ParseError>)
    ensures r.Err? ==> r.error == CannotParse(token)
    ensures Trim(token) == [] ==> r.Err?
  {
    var t := Trim(token);
    match ParseNumber(t)
    case Some(f) => Ok(f)
    case None =>
      match Named(t)
      case Some(f) => Ok(f)
      case None => Err(CannotParse(token))
  }

  // ----- Aggregating with | -----

  /** The union of a list of feature sets: a flag is set when some member
      sets it. */
  function OrAll(fs: seq<Features>): Features {
    if |fs| == 0 then NoFeatures else OrAll(fs[..|fs| - 1]) + fs[|fs| - 1]
  }

  lemma {:induction false} OrAllMembers(fs: seq<Features>)
    ensures forall i :: i in OrAll(fs) <==> exists k :: 0 <= k < |fs| && i in fs[k]
  {
    if |fs| > 0 {
      var init := fs[..|fs| - 1];
      OrAllMembers(init);
      assert forall k :: 0 <= k < |init| ==> init[k] == fs[k];
    }
  }

  /** The union depends only on which feature sets occur: neither their order
      nor their repetition matters. */
  lemma OrAllOnlyDependsOnElements(xs: seq<Features>, ys: seq<Features>)
    requires forall f :: f in xs <==> f in ys
    ensures OrAll(xs) == OrAll(ys)
  {
    OrAllMembers(xs);
    OrAllMembers(ys);
    forall i | i in OrAll(xs)
      ensures i in OrAll(ys)
    {
      var k :| 0 <= k < |xs| && i in xs[k];
      assert xs[k] in ys;
    }
    forall i | i in OrAll(ys)
      ensures i in OrAll(xs)
    {
      var k :| 0 <= k < |ys| && i in ys[k];
      assert ys[k] in xs;
    }
  }

  /** Aggregate((a, b) => a | b) without a seed: the first element is the start
      value, so an empty sequence is an error. */
  function AggregateOr(fs: seq<Features>): (r: Result<Features, ParseError>)
    ensures r.Err? <==> |fs| == 0
  {
    if |fs| == 0 then Err(NoTokens)
    else if |fs| == 1 then Ok(fs[0])
    else match AggregateOr(fs[..|fs| - 1])
      case Ok(a) => Ok(a + fs[|fs| - 1])
      case Err(e) => Err(e)
  }

  /** The seedless aggregate is the union whenever there is something to
      aggregate. */
  lemma {:induction false} AggregateIsUnion(fs: seq<Features>)
    requires |fs| > 0
    ensures AggregateOr(fs) == Ok(OrAll(fs))
  {
    var init := fs[..|fs| - 1];
    if |fs| == 1 {
      assert init == [];
      assert OrAll(fs) == NoFeatures + fs[0] == fs[0];
    } else {
      AggregateIsUnion(init);
    }
  }

  /** Select(ParseOne) evaluated in order; the first token that does not parse
      is the error. */
  function ParseEach(tokens: seq<string>): (r: Result<seq<Features>, ParseError>)
    ensures r.Ok? ==> |r.value| == |tokens|
  {
    if |tokens| == 0 then Ok([])
    else match ParseOne(tokens[0])
      case Err(e) => Err(e)
      case Ok(f) =>
        match ParseEach(tokens[1..])
        case Err(e) => Err(e)
        case Ok(fs) => Ok([f] + fs)
  }

  /** ParseEach succeeds exactly when every token parses, with their values in
      order; otherwise it reports a token that does not parse. */
  lemma {:induction false} ParseEachMeaning(tokens: seq<string>)
    ensures ParseEach(tokens).Ok? <==> forall k :: 0 <= k < |tokens| ==> ParseOne(tokens[k]).Ok?
    ensures ParseEach(tokens).Ok? ==> forall k :: 0 <= k < |tokens| ==> ParseOne(tokens[k]) == Ok(ParseEach(tokens).value[k])
  {
    if |tokens| > 0 {
      ParseEachMeaning(tokens[1..]);
      assert forall k :: 1 <= k < |tokens| ==> tokens[1..][k - 1] == tokens[k];
    }
  }

  /** A failing ParseEach names a token that does not parse. */
  lemma {:induction false} ParseEachError(tokens: seq<string>)
    requires ParseEach(tokens).Err?
    ensures exists k :: 0 <= k < |tokens| && ParseOne(tokens[k]).Err? && ParseEach(tokens).error == CannotParse(tokens[k])
  {
    if ParseOne(tokens[0]).Err? {
      assert ParseOne(tokens[0]).error == CannotParse(tokens[0]);
    } else {
      ParseEachError(tokens[1..]);
      var k :| 0 <= k < |tokens| - 1 && ParseOne(tokens[1..][k]).Err? && ParseEach(tokens[1..]).error == CannotParse(tokens[1..][k]);
      assert tokens[1..][k] == tokens[k + 1];
    }
  }

  /** FeatureExtensions.Parse as written: split, parse each token, then the
      seedless aggregate. */
  function ParseAsWritten(value: string): (r: Result<Features, ParseError>) {
    var tokens := Split(value);
    if |tokens| == 0 then Err(NoTokens)
    else match ParseEach(tokens)
      case Err(e) => Err(e)
      case Ok(fs) => AggregateOr(fs)
  }

  /** What ParseAsWritten computes: the union of the parsed tokens; an error
      exactly when there is no token or some token does not parse. */
  lemma ParseAsWrittenMeaning(value: string)
    ensures ParseAsWritten(value).Ok? <==> |Split(value)| > 0 && ParseEach(Split(value)).Ok?
    ensures ParseAsWritten(value).Ok? ==> ParseAsWritten(value).value == OrAll(ParseEach(Split(value)).value)
  {
    var tokens := Split(value);
    if |tokens| > 0 && ParseEach(tokens).Ok? {
      AggregateIsUnion(ParseEach(tokens).value);
    }
  }

  /** The first separator of `s` is at `i`. */
  lemma {:induction false} FirstSeparatorIs(s: string, i: nat)
    requires i <= |s| && NoSeparator(s[..i]) && (i < |s| ==> IsSeparator(s[i]))
    ensures FirstSeparator(s) == i
  {
    var j := FirstSeparator(s);
  }

  /** A string made only of separators and white space. */
  predicate Blank(s: string) {
    forall c :: c in s ==> IsSeparator(c) || IsWhiteSpace(c)
  }

  /** The first `n` characters of `s` are separators or white space. */
  predicate BlankUpTo(s: string, n: nat)
    requires n <= |s|
  {
    n == 0 || ((IsSeparator(s[n - 1]) || IsWhiteSpace(s[n - 1])) && BlankUpTo(s, n - 1))
  }

  lemma {:induction false} BlankByCharacters(s: string, n: nat)
    requires n <= |s| && BlankUpTo(s, n)
    ensures Blank(s[..n])
  {
    if n > 0 {
      BlankByCharacters(s, n - 1);
      assert s[..n] == s[..n - 1] + [s[n - 1]];
    }
  }

  /** Every token of a blank string is white space. */
  lemma BlankTokens(s: string)
    requires Blank(s)
    ensures forall k :: 0 <= k < |Split(s)| ==> AllWhiteSpace(Split(s)[k])
  {
    var ts := Split(s);
    SplitChars(s);
    forall k, j | 0 <= k < |ts| && 0 <= j < |ts[k]|
      ensures IsWhiteSpace(ts[k][j])
    {
      assert ts[k][j] in ts[k];
    }
  }

  /** As written, a string with nothing but separators and white space is an
      error: with no token the seedless aggregate fails, and otherwise the first
      token trims to "", which is neither a number nor a name. */
  lemma BlankFailsAsWritten(s: string)
    requires Blank(s)
    ensures ParseAsWritten(s).Err?
  {
    BlankTokens(s);
    var tokens := Split(s);
    if |tokens| > 0 {
      TrimMeaning(tokens[0]);
    }
  }

  /** The two inputs the tests expect to read as None, which the code as written
      rejects. */
  lemma TestedBlanksFailAsWritten()
    ensures ParseAsWritten("") == Err(NoTokens)
    ensures ParseAsWritten("  ,;\n \r").Err?
  {
    var s := "  ,;\n \r";
    BlankByCharacters(s, 7);
    assert s[..7] == s;
    BlankFailsAsWritten(s);
  }

  // ----- The evidently intended parser -----

  /** The tokens that are not blank. */
  function NonBlank(tokens: seq<string>): (r: seq<string>)
    ensures forall k :: 0 <= k < |r| ==> !AllWhiteSpace(r[k])
    ensures forall t :: t in r ==> t in tokens
    ensures forall t :: t in tokens && !AllWhiteSpace(t) ==> t in r
  {
    if |tokens| == 0 then []
    else (if AllWhiteSpace(tokens[0]) then [] else [tokens[0]]) + NonBlank(tokens[1..])
  }

  /** The parser the tests expect: blank tokens are skipped and the union starts
      from None, so a string with nothing to parse means no feature. */
  function Parse(value: string): (r: Result<Features, ParseError>) {
    match ParseEach(NonBlank(Split(value)))
    case Err(e) => Err(e)
    case Ok(fs) => Ok(OrAll(fs))
  }

  lemma {:induction false} NonBlankIdentity(tokens: seq<string>)
    requires forall k :: 0 <= k < |tokens| ==> !AllWhiteSpace(tokens[k])
    ensures NonBlank(tokens) == tokens
    decreases |tokens|
  {
    if |tokens| > 0 {
      NonBlankIdentity(tokens[1..]);
    }
  }

  lemma {:induction false} NonBlankOfBlanks(tokens: seq<string>)
    requires forall k :: 0 <= k < |tokens| ==> AllWhiteSpace(tokens[k])
    ensures NonBlank(tokens) == []
    decreases |tokens|
  {
    if |tokens| > 0 {
      NonBlankOfBlanks(tokens[1..]);
    }
  }

  /** Wherever the parser as written succeeds, the corrected one gives the same
      result. */
  lemma ParseExtendsAsWritten(value: string)
    requires ParseAsWritten(value).Ok?
    ensures Parse(value) == ParseAsWritten(value)
  {
    var tokens := Split(value);
    var fs := ParseEach(tokens).value;
    ParseEachMeaning(tokens);
    forall k | 0 <= k < |tokens|
      ensures !AllWhiteSpace(tokens[k])
    {
      TrimMeaning(tokens[k]);
    }
    NonBlankIdentity(tokens);
    AggregateIsUnion(fs);
  }

  /** The corrected parser reads a string with nothing but separators and
      white space, "" included, as None. */
  lemma BlankParsesAsNone(s: string)
    requires Blank(s)
    ensures Parse(s) == Ok(NoFeatures)
  {
    BlankTokens(s);
    NonBlankOfBlanks(Split(s));
  }

  lemma TestedBlanksParseAsNone()
    ensures Parse("") == Ok(NoFeatures)
    ensures Parse("  ,;\n \r") == Ok(NoFeatures)
  {
    BlankParsesAsNone("");
    var s := "  ,;\n \r";
    BlankByCharacters(s, 7);
    assert s[..7] == s;
    BlankParsesAsNone(s);
  }

  /** Splitting at a first token `a` followed by ';'. */
  lemma SplitFirst(a: string, b: string)
    requires a != [] && NoSeparator(a)
    ensures Split(a + [';'] + b) == [a] + Split(b)
  {
    var s := a + [';'] + b;
    assert s[..|a|] == a;
    FirstSeparatorIs(s, |a|);
    assert s[|a| + 1..] == b;
  }

  /** A token without separators is split into itself. */
  lemma SplitSingle(s: string)
    requires s != [] && NoSeparator(s)
    ensures Split(s) == [s]
  {
    assert s[..|s|] == s;
    FirstSeparatorIs(s, |s|);
  }

  /** The first `n` characters of `s` are not separators. */
  predicate NoSeparatorUpTo(s: string, n: nat)
    requires n <= |s|
  {
    n == 0 || (!IsSeparator(s[n - 1]) && NoSeparatorUpTo(s, n - 1))
  }

  lemma {:induction false} NoSeparatorByCharacters(s: string, n: nat)
    requires n <= |s| && NoSeparatorUpTo(s, n)
    ensures NoSeparator(s[..n])
  {
    if n > 0 {
      NoSeparatorByCharacters(s, n - 1);
      assert s[..n] == s[..n - 1] + [s[n - 1]];
    }
  }

  /** A token that is a feature name, as it can stand in a list. */
  predicate NameToken(t: string) {
    t != [] && NoSeparator(t) && !IsWhiteSpace(t[0]) && !IsWhiteSpace(t[|t| - 1])
    && !IsDigit(t[0]) && t[0] != '-' && t[0] != '+' && Named(t).Some?
  }

  lemma NameTokenParses(t: string)
    requires NameToken(t)
    ensures ParseOne(t) == Ok(Named(t).value)
    ensures !AllWhiteSpace(t)
  {
    TrimUntouched(t);
    assert !IsWhiteSpace(t[0]);
  }

  /** A single name parses to its flags. */
  lemma ParseName(t: string)
    requires NameToken(t)
    ensures Parse(t) == Ok(Named(t).value)
  {
    SplitSingle(t);
    NameTokenParses(t);
    NonBlankIdentity([t]);
    var f := Named(t).value;
    assert [t][1..] == [];
    assert [f] + [] == [f];
    assert ParseEach([t]) == Ok([f]);
    var none: seq<Features> := [];
    assert [f][..0] == none;
    assert OrAll([f]) == NoFeatures + f == f;
  }

  /** A single name parses to its flags as written too. */
  lemma ParseNameAsWritten(t: string)
    requires NameToken(t)
    ensures ParseAsWritten(t) == Ok(Named(t).value)
  {
    SplitSingle(t);
    NameTokenParses(t);
    var f := Named(t).value;
    assert [t][1..] == [];
    assert [f] + [] == [f];
    assert ParseEach([t]) == Ok([f]);
  }

  /** Two names separated by ';' parse to the union of their flags. */
  lemma ParseNamePair(a: string, b: string)
    requires NameToken(a) && NameToken(b)
    ensures Parse(a + [';'] + b) == Ok(Named(a).value + Named(b).value)
  {
    SplitFirst(a, b);
    SplitSingle(b);
    NameTokenParses(a);
    NameTokenParses(b);
    NonBlankIdentity([a, b]);
    var f, g := Named(a).value, Named(b).value;
    assert [a, b][1..] == [b];
    assert [b][1..] == [];
    assert [g] + [] == [g];
    assert ParseEach([b]) == Ok([g]);
    assert [f] + [g] == [f, g];
    assert ParseEach([a, b]) == Ok([f, g]);
    assert [f, g][..1] == [f];
    var none: seq<Features> := [];
    assert [f][..0] == none;
    assert OrAll([f, g]) == OrAll([f]) + g;
    assert OrAll([f]) == NoFeatures + f == f;
  }

  /** The examples the source's tests state for non-blank input. */
  lemma ParseNone()
    ensures Parse("none") == Ok(NoFeatures)
  {
    var t := "none";
    NoSeparatorByCharacters(t, 4);
    assert t[..4] == t;
    ParseName(t);
  }

  lemma ParseAll()
    ensures Parse("All") == Ok(All)
  {
    var t := "All";
    NoSeparatorByCharacters(t, 3);
    assert t[..3] == t;
    ParseName(t);
  }

  lemma ParseRenaming()
    ensures Parse("renaming") == Ok(Renaming)
  {
    var t := "renaming";
    NoSeparatorByCharacters(t, 8);
    assert t[..8] == t;
    ParseName(t);
  }

  lemma NamedRenamingAndControlFlow()
    ensures Named("Renaming") == Some(Renaming)
    ensures Named("controlFlow") == Some(ControlFlow)
  {
    assert SameLettersUpTo("Renaming", "Renaming", 8);
    assert SameLettersUpTo("controlFlow", "ControlFlow", 6);
    assert SameLettersUpTo("controlFlow", "ControlFlow", 11);
  }

  lemma ParseRenamingAndControlFlow()
    ensures Parse("Renaming;controlFlow") == Ok(Renaming + ControlFlow)
  {
    var a, b := "Renaming", "controlFlow";
    assert "Renaming;controlFlow" == a + [';'] + b;
    NoSeparatorByCharacters(a, 8);
    assert a[..8] == a;
    NoSeparatorByCharacters(b, 11);
    assert b[..11] == b;
    NamedRenamingAndControlFlow();
    ParseNamePair(a, b);
  }
}
