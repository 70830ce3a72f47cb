/** The feature map: which obfuscation features apply to each definition of a
    module, from the [Obfuscation] attributes on the assembly, the module, the
    (possibly nested) types and their members. */
module FeatureMap {
  import opened Wrappers
  import opened FeatureExtensions

  // ----- Attributes -----

  /** A named argument of a custom attribute, as the metadata stores it. */
  datatype PropertyArg =
    | ApplyToMembersArg(applyToMembers: bool)
    | FeatureArg(feature: Option<string>)
    | ExcludeArg(exclude: bool)
    | StripAfterObfuscationArg(strip: bool)
    | OtherArg(name: string)

  /** A custom attribute of a definition; `id` is its identity, `isObfuscation`
      whether its type is System.Reflection.ObfuscationAttribute. */
  datatype CustomAttr = CustomAttr(id: nat, isObfuscation: bool, properties: seq<PropertyArg>)

  /** An ObfuscationAttribute; a `None` feature is a null Feature string. */
  datatype ObfuscationAttr = ObfuscationAttr(applyToMembers: bool, exclude: bool, feature: Option<string>, strip: bool)

  /** A freshly constructed ObfuscationAttribute: the framework's defaults. */
  const Defaults := ObfuscationAttr(true, true, Some("all"), true)

  /** The attribute after its named arguments are applied in order. */
  function ApplyProperties(a: ObfuscationAttr, props: seq<PropertyArg>): (r: ObfuscationAttr)
    decreases |props|
  {
    if |props| == 0 then a
    else
      var p := props[|props| - 1];
      var b := ApplyProperties(a, props[..|props| - 1]);
      match p
      case ApplyToMembersArg(v) => b.(applyToMembers := v)
      case FeatureArg(f) => b.(feature := f)
      case ExcludeArg(v) => b.(exclude := v)
      case StripAfterObfuscationArg(v) => b.(strip := v)
      case OtherArg(_) => b
  }

  /** Reads an ObfuscationAttribute out of its custom attribute: start from the
      defaults and let every named argument overwrite its property. */
  method ParseAttribute(custom: CustomAttr) returns (attribute: ObfuscationAttr)
    ensures attribute == ApplyProperties(Defaults, custom.properties)
  {
    attribute := Defaults;
    var i := 0;
    while i < |custom.properties|
      invariant 0 <= i <= |custom.properties|
      invariant attribute == ApplyProperties(Defaults, custom.properties[..i])
    {
      assert custom.properties[..i + 1][..i] == custom.properties[..i];
      match custom.properties[i] {
        case ApplyToMembersArg(v) => attribute := attribute.(applyToMembers := v);
        case FeatureArg(f) => attribute := attribute.(feature := f);
        case ExcludeArg(v) => attribute := attribute.(exclude := v);
        case StripAfterObfuscationArg(v) => attribute := attribute.(strip := v);
        case OtherArg(_) =>
      }
      i := i + 1;
    }
    assert custom.properties[..i] == custom.properties;
  }

  predicate SetsExclude(p: PropertyArg) {
    p.ExcludeArg?
  }

  /** A property no argument names keeps its value; the last argument naming
      Exclude decides it. */
  lemma {:induction false} ExcludeIsLastArgument(a: ObfuscationAttr, props: seq<PropertyArg>)
    ensures (forall k :: 0 <= k < |props| ==> !SetsExclude(props[k])) ==> ApplyProperties(a, props).exclude == a.exclude
    ensures |props| > 0 && props[|props| - 1].ExcludeArg? ==> ApplyProperties(a, props).exclude == props[|props| - 1].exclude
    decreases |props|
  {
    if |props| > 0 {
      var init := props[..|props| - 1];
      ExcludeIsLastArgument(a, init);
      assert forall k :: 0 <= k < |init| ==> init[k] == props[k];
    }
  }

  // ----- Combining a parent's features with a child's attributes -----

  /** The flags an attribute names: a null Feature means every feature. */
  function FeatureFlags(attribute: ObfuscationAttr): (r: Result<Features, ParseError>)
    ensures attribute.feature.None? ==> r == Ok(All)
  {
    if attribute.feature.None? then Ok(All) else ParseAsWritten(attribute.feature.value)
  }

  /** One attribute applied to the parent's features: an Exclude attribute takes
      its flags away, any other adds them; no attribute changes nothing. */
  function CombineAttr(parent: Features, child: Option<ObfuscationAttr>): (r: Result<Features, ParseError>)
    ensures r.Err? <==> child.Some? && FeatureFlags(child.value).Err?
    ensures child.None? ==> r == Ok(parent)
    ensures r.Ok? && child.Some? ==>
              forall i :: i in r.value <==>
                if child.value.exclude then i in parent && i !in FeatureFlags(child.value).value
                else i in parent || i in FeatureFlags(child.value).value
  {
    match child
    case None => Ok(parent)
    case Some(attribute) =>
      match FeatureFlags(attribute)
      case Err(e) => Err(e)
      case Ok(flags) => if attribute.exclude then Ok(parent - flags) else Ok(parent + flags)
  }

  /** Whether an attribute takes part in the fold: every attribute does for the
      definition itself, only ApplyToMembers ones for what it passes down. */
  predicate Applies(attribute: ObfuscationAttr, useApplyToMembers: bool) {
    attribute.applyToMembers || !useApplyToMembers
  }

  /** The attributes of one definition folded left over the parent's features;
      the first flag string that does not parse stops the fold. */
  function CombineFold(parent: Features, attrs: seq<ObfuscationAttr>, useApplyToMembers: bool): (r: Result<Features, ParseError>)
    decreases |attrs|
  {
    if |attrs| == 0 then Ok(parent)
    else
      var next := if Applies(attrs[0], useApplyToMembers) then CombineAttr(parent, Some(attrs[0])) else Ok(parent);
      match next
      case Err(e) => Err(e)
      case Ok(flags) => CombineFold(flags, attrs[1..], useApplyToMembers)
  }

  /** Folding over two lists of attributes is folding over the first, then over
      the second from where the first ended. */
  lemma {:induction false} CombineFoldAppend(parent: Features, a: seq<ObfuscationAttr>, b: seq<ObfuscationAttr>, use: bool)
    ensures CombineFold(parent, a + b, use) ==
              match CombineFold(parent, a, use)
              case Err(e) => Err(e)
              case Ok(f) => CombineFold(f, b, use)
    decreases |a|
  {
    if |a| > 0 {
      assert (a + b)[0] == a[0];
      assert (a + b)[1..] == a[1..] + b;
      var next := if Applies(a[0], use) then CombineAttr(parent, Some(a[0])) else Ok(parent);
      if next.Ok? {
        CombineFoldAppend(next.value, a[1..], b, use);
      }
    } else {
      assert a + b == b;
    }
  }

  /** The attributes that apply to members. */
  function ApplyingToMembers(attrs: seq<ObfuscationAttr>): (r: seq<ObfuscationAttr>)
    ensures forall k :: 0 <= k < |r| ==> r[k].applyToMembers
    ensures |r| <= |attrs|
  {
    if |attrs| == 0 then []
    else (if attrs[0].applyToMembers then [attrs[0]] else []) + ApplyingToMembers(attrs[1..])
  }

  /** What a definition passes down is its own fold restricted to the
      ApplyToMembers attributes. */
  lemma {:induction false} InheritedIsFilteredFold(parent: Features, attrs: seq<ObfuscationAttr>)
    ensures CombineFold(parent, attrs, true) == CombineFold(parent, ApplyingToMembers(attrs), false)
    decreases |attrs|
  {
    if |attrs| > 0 {
      var rest := ApplyingToMembers(attrs[1..]);
      if attrs[0].applyToMembers {
        assert ApplyingToMembers(attrs) == [attrs[0]] + rest;
        assert ([attrs[0]] + rest)[1..] == rest;
        match CombineAttr(parent, Some(attrs[0]))
        case Err(_) =>
        case Ok(f) => InheritedIsFilteredFold(f, attrs[1..]);
      } else {
        assert ApplyingToMembers(attrs) == rest;
        InheritedIsFilteredFold(parent, attrs[1..]);
      }
    }
  }

  /** When every attribute applies to members, a definition passes down exactly
      the features it has itself. */
  lemma {:induction false} SelfIsInheritedWhenAllApply(parent: Features, attrs: seq<ObfuscationAttr>)
    requires forall k :: 0 <= k < |attrs| ==> attrs[k].applyToMembers
    ensures CombineFold(parent, attrs, true) == CombineFold(parent, attrs, false)
    decreases |attrs|
  {
    if |attrs| > 0 {
      match CombineAttr(parent, Some(attrs[0]))
      case Err(_) =>
      case Ok(f) => SelfIsInheritedWhenAllApply(f, attrs[1..]);
    }
  }

  /** Exclude attributes only take features away; others only add them. */
  lemma {:induction false} CombineFoldDirection(parent: Features, attrs: seq<ObfuscationAttr>, use: bool)
    ensures CombineFold(parent, attrs, use).Ok? && (forall k :: 0 <= k < |attrs| ==> attrs[k].exclude) ==>
              CombineFold(parent, attrs, use).value <= parent
    ensures CombineFold(parent, attrs, use).Ok? && (forall k :: 0 <= k < |attrs| ==> !attrs[k].exclude) ==>
              parent <= CombineFold(parent, attrs, use).value
    decreases |attrs|
  {
    if |attrs| > 0 {
      var next := if Applies(attrs[0], use) then CombineAttr(parent, Some(attrs[0])) else Ok(parent);
      if next.Ok? {
        CombineFoldDirection(next.value, attrs[1..], use);
        assert forall k :: 1 <= k < |attrs| ==> attrs[1..][k - 1] == attrs[k];
      }
    }
  }

  /** The fold fails exactly when an applying attribute's flags do not parse. */
  lemma {:induction false} CombineFoldFails(parent: Features, attrs: seq<ObfuscationAttr>, use: bool)
    ensures CombineFold(parent, attrs, use).Err? <==>
              exists k :: 0 <= k < |attrs| && Applies(attrs[k], use) && FeatureFlags(attrs[k]).Err?
    decreases |attrs|
  {
    if |attrs| > 0 {
      var next := if Applies(attrs[0], use) then CombineAttr(parent, Some(attrs[0])) else Ok(parent);
      var rest := attrs[1..];
      if next.Err? {
        assert Applies(attrs[0], use) && FeatureFlags(attrs[0]).Err?;
      } else {
        assert !(Applies(attrs[0], use) && FeatureFlags(attrs[0]).Err?);
        CombineFoldFails(next.value, rest, use);
        assert CombineFold(parent, attrs, use) == CombineFold(next.value, rest, use);
        if exists k :: 0 <= k < |attrs| && Applies(attrs[k], use) && FeatureFlags(attrs[k]).Err? {
          var k :| 0 <= k < |attrs| && Applies(attrs[k], use) && FeatureFlags(attrs[k]).Err?;
          assert rest[k - 1] == attrs[k];
        }
        if exists k :: 0 <= k < |rest| && Applies(rest[k], use) && FeatureFlags(rest[k]).Err? {
          var k :| 0 <= k < |rest| && Applies(rest[k], use) && FeatureFlags(rest[k]).Err?;
          assert attrs[k + 1] == rest[k];
        }
      }
    }
  }

  /** The features a fresh attribute with these named arguments describes. */
  function AttributeOf(props: seq<PropertyArg>): ObfuscationAttr {
    ApplyProperties(Defaults, props)
  }

  /** Feature strings "all" and "All" both name every feature. */
  lemma ParseAllLowerCase()
    ensures ParseAsWritten("all") == Ok(All)
  {
    var t := "all";
    NoSeparatorByCharacters(t, 3);
    assert t[..3] == t;
    assert SameLettersUpTo(t, "All", 3);
    ParseNameAsWritten(t);
  }

  /** The attributes of the test classes: [Obfuscation()] and
      [Obfuscation(Exclude = true)] are the defaults, Exclude = false differs
      only in Exclude, and all of them name every feature. */
  lemma TestAttributes()
    ensures AttributeOf([]) == Defaults
    ensures AttributeOf([ExcludeArg(true)]) == Defaults
    ensures AttributeOf([ExcludeArg(false)]) == Defaults.(exclude := false)
    ensures FeatureFlags(Defaults) == Ok(All)
    ensures FeatureFlags(Defaults.(exclude := false)) == Ok(All)
  {
    ParseAllLowerCase();
    assert [ExcludeArg(true)][..0] == [];
    assert [ExcludeArg(false)][..0] == [];
  }

  /** Folding a single attribute is combining with it, when it applies. */
  lemma CombineFoldSingle(parent: Features, a: ObfuscationAttr, use: bool)
    ensures CombineFold(parent, [a], use) == if Applies(a, use) then CombineAttr(parent, Some(a)) else Ok(parent)
  {
    assert [a][1..] == [];
  }

  /** [Obfuscation()] with no arguments keeps the defaults (Exclude, every
      feature), so it turns off whatever the parent had. */
  lemma EmptyAttributeTurnsEverythingOff(parent: Features)
    requires parent <= All
    ensures CombineAttr(parent, Some(AttributeOf([]))) == Ok(NoFeatures)
  {
    TestAttributes();
    assert parent - All == NoFeatures;
  }

  /** ExcludedClass: a type without attributes under a module with every
      feature; its members with Exclude = true and with [Obfuscation()] lose
      every feature, those with Exclude = false or no attribute keep them. */
  lemma ExcludedClassMembers()
    ensures CombineFold(All, [AttributeOf([ExcludeArg(true)])], false) == Ok(NoFeatures)
    ensures CombineFold(All, [AttributeOf([ExcludeArg(false)])], false) == Ok(All)
    ensures CombineFold(All, [], false) == Ok(All)
    ensures CombineFold(All, [AttributeOf([])], false) == Ok(NoFeatures)
  {
    TestAttributes();
    CombineFoldSingle(All, Defaults, false);
    CombineFoldSingle(All, Defaults.(exclude := false), false);
    assert All - All == NoFeatures;
    assert All + All == All;
  }

  /** ExcludedClass2: the type carries Exclude = true, which applies to its
      members; only a member with Exclude = false gets its features back. */
  lemma ExcludedClass2Members()
    ensures CombineFold(All, [AttributeOf([ExcludeArg(true)])], true) == Ok(NoFeatures)
    ensures CombineFold(NoFeatures, [AttributeOf([ExcludeArg(true)])], false) == Ok(NoFeatures)
    ensures CombineFold(NoFeatures, [AttributeOf([ExcludeArg(false)])], false) == Ok(All)
    ensures CombineFold(NoFeatures, [], false) == Ok(NoFeatures)
    ensures CombineFold(NoFeatures, [AttributeOf([])], false) == Ok(NoFeatures)
  {
    TestAttributes();
    CombineFoldSingle(All, Defaults, true);
    CombineFoldSingle(NoFeatures, Defaults, false);
    CombineFoldSingle(NoFeatures, Defaults.(exclude := false), false);
    assert All - All == NoFeatures;
    assert NoFeatures - All == NoFeatures;
    assert NoFeatures + All == All;
  }

  // ----- The definitions of a module and the inheritance chain -----

  /** The definitions that can carry custom attributes; OtherDef stands for
      any other kind of definition. */
  datatype Def = AssemblyDef | ModuleDef | TypeDef(index: nat) | MemberDef(index: nat) | OtherDef

  /** A module: for each type its declaring type (None for a top-level type),
      for each member its declaring type, and the custom attributes of every
      definition. */
  datatype ModuleInfo = ModuleInfo(
    declaringTypes: seq<Option<nat>>,
    memberTypes: seq<nat>,
    customAttributes: map<Def, seq<CustomAttr>>)

  function AttributesOf(cas: map<Def, seq<CustomAttr>>, d: Def): seq<CustomAttr> {
    if d in cas then cas[d] else []
  }

  /** No custom attribute object is shared: an identity occurs once. */
  predicate DistinctIds(cas: map<Def, seq<CustomAttr>>) {
    forall d1, d2, p1, p2 ::
      d1 in cas && d2 in cas && 0 <= p1 < |cas[d1]| && 0 <= p2 < |cas[d2]| && cas[d1][p1].id == cas[d2][p2].id ==>
        d1 == d2 && p1 == p2
  }

  /** Types are numbered so that a declaring type comes before the types
      nested in it (metadata nesting has no cycle, so such a numbering exists),
      and every member's declaring type exists. */
  predicate WellFormed(m: ModuleInfo) {
    (forall i :: 0 <= i < |m.declaringTypes| && m.declaringTypes[i].Some? ==> m.declaringTypes[i].value < i)
    && (forall j :: 0 <= j < |m.memberTypes| ==> m.memberTypes[j] < |m.declaringTypes|)
    && DistinctIds(m.customAttributes)
  }

  predicate InModule(m: ModuleInfo, d: Def) {
    match d
    case TypeDef(i) => i < |m.declaringTypes|
    case MemberDef(j) => j < |m.memberTypes|
    case _ => true
  }

  /** The ObfuscationAttributes among custom attributes, in order. */
  function ObfuscationAttrs(cas: seq<CustomAttr>): (r: seq<ObfuscationAttr>)
    ensures |r| <= |cas|
  {
    if |cas| == 0 then []
    else
      var c := cas[|cas| - 1];
      ObfuscationAttrs(cas[..|cas| - 1]) + (if c.isObfuscation then [AttributeOf(c.properties)] else [])
  }

  function OwnAttrs(m: ModuleInfo, d: Def): seq<ObfuscationAttr> {
    ObfuscationAttrs(AttributesOf(m.customAttributes, d))
  }

  /** The module's features: the defaults, then the assembly's attributes,
      then the module's own. */
  function ModuleFeatures(m: ModuleInfo, defaults: Features): Result<Features, ParseError> {
    match CombineFold(defaults, OwnAttrs(m, AssemblyDef), false)
    case Err(e) => Err(e)
    case Ok(f) => CombineFold(f, OwnAttrs(m, ModuleDef), false)
  }

  /** A type's own features and the features it passes down; its parent is its
      declaring type's passed-down features, or the module's for a top-level
      type. */
  function TypeFeatures(m: ModuleInfo, defaults: Features, i: nat): Result<(Features, Features), ParseError>
    requires WellFormed(m) && i < |m.declaringTypes|
    decreases i
  {
    var parent :=
      match m.declaringTypes[i]
      case Some(t) => (match TypeFeatures(m, defaults, t) case Err(e) => Err(e) case Ok(p) => Ok(p.1))
      case None => ModuleFeatures(m, defaults);
    match parent
    case Err(e) => Err(e)
    case Ok(p) =>
      match CombineFold(p, OwnAttrs(m, TypeDef(i)), false)
      case Err(e) => Err(e)
      case Ok(self) =>
        match CombineFold(p, OwnAttrs(m, TypeDef(i)), true)
        case Err(e) => Err(e)
        case Ok(inherited) => Ok((self, inherited))
  }

  /** A member's features: its declaring type's passed-down features with the
      member's own attributes applied. */
  function MemberFeatures(m: ModuleInfo, defaults: Features, j: nat): Result<Features, ParseError>
    requires WellFormed(m) && j < |m.memberTypes|
  {
    match TypeFeatures(m, defaults, m.memberTypes[j])
    case Err(e) => Err(e)
    case Ok(p) => CombineFold(p.1, OwnAttrs(m, MemberDef(j)), false)
  }

  /** The features of any definition; an assembly has its module's. */
  function DefFeatures(m: ModuleInfo, defaults: Features, d: Def): Result<Features, ParseError>
    requires WellFormed(m) && InModule(m, d)
  {
    match d
    case AssemblyDef => ModuleFeatures(m, defaults)
    case ModuleDef => ModuleFeatures(m, defaults)
    case TypeDef(i) => (match TypeFeatures(m, defaults, i) case Err(e) => Err(e) case Ok(p) => Ok(p.0))
    case MemberDef(j) => MemberFeatures(m, defaults, j)
    case OtherDef => Ok(NoFeatures)
  }

  /** Every ObfuscationAttribute on a type or a member excludes. */
  ghost predicate ExcludeOnlyBelowModule(m: ModuleInfo) {
    forall d: Def :: (d.TypeDef? || d.MemberDef?) ==>
      forall k :: 0 <= k < |OwnAttrs(m, d)| ==> OwnAttrs(m, d)[k].exclude
  }

  /** Where types and members only exclude, no type has a feature its module
      lacks, however deep it is nested. */
  lemma {:induction false} ExcludeOnlyTypesStayWithinModule(m: ModuleInfo, defaults: Features, i: nat)
    requires WellFormed(m) && i < |m.declaringTypes| && ExcludeOnlyBelowModule(m)
    requires TypeFeatures(m, defaults, i).Ok? && ModuleFeatures(m, defaults).Ok?
    ensures TypeFeatures(m, defaults, i).value.0 <= ModuleFeatures(m, defaults).value
    ensures TypeFeatures(m, defaults, i).value.1 <= ModuleFeatures(m, defaults).value
    decreases i
  {
    var attrs := OwnAttrs(m, TypeDef(i));
    var p: Features;
    match m.declaringTypes[i] {
      case Some(t) =>
        ExcludeOnlyTypesStayWithinModule(m, defaults, t);
        p := TypeFeatures(m, defaults, t).value.1;
      case None =>
        p := ModuleFeatures(m, defaults).value;
    }
    CombineFoldDirection(p, attrs, false);
    CombineFoldDirection(p, attrs, true);
  }

  /** ... and neither has any member. */
  lemma ExcludeOnlyMembersStayWithinModule(m: ModuleInfo, defaults: Features, j: nat)
    requires WellFormed(m) && j < |m.memberTypes| && ExcludeOnlyBelowModule(m)
    requires MemberFeatures(m, defaults, j).Ok? && ModuleFeatures(m, defaults).Ok?
    ensures MemberFeatures(m, defaults, j).value <= ModuleFeatures(m, defaults).value
  {
    var t := m.memberTypes[j];
    ExcludeOnlyTypesStayWithinModule(m, defaults, t);
    CombineFoldDirection(TypeFeatures(m, defaults, t).value.1, OwnAttrs(m, MemberDef(j)), false);
  }

  // ----- Removing attributes after obfuscation -----

  /** The custom attributes with the given identities deleted, order kept. */
  function Without(cas: seq<CustomAttr>, ids: set<nat>): (r: seq<CustomAttr>)
    ensures |r| <= |cas|
  {
    if |cas| == 0 then []
    else (if cas[0].id in ids then [] else [cas[0]]) + Without(cas[1..], ids)
  }

  /** Without keeps exactly the attributes whose identity is not deleted. */
  lemma {:induction false} WithoutMeaning(cas: seq<CustomAttr>, ids: set<nat>)
    ensures forall c :: c in Without(cas, ids) <==> c in cas && c.id !in ids
    decreases |cas|
  {
    if |cas| > 0 {
      WithoutMeaning(cas[1..], ids);
      assert cas == [cas[0]] + cas[1..];
    }
  }

  /** Every definition's custom attributes without the given identities. */
  function Stripped(cas: map<Def, seq<CustomAttr>>, ids: set<nat>): map<Def, seq<CustomAttr>> {
    map d | d in cas :: Without(cas[d], ids)
  }

  /** List.Remove: the list without its first attribute of identity `id`, and
      whether there was one. */
  function RemoveFirst(cas: seq<CustomAttr>, id: nat): (r: (seq<CustomAttr>, bool)) {
    if |cas| == 0 then (cas, false)
    else if cas[0].id == id then (cas[1..], true)
    else
      var (rest, found) := RemoveFirst(cas[1..], id);
      ([cas[0]] + rest, found)
  }

  /** Remove reports success exactly when an attribute of that identity is in
      the list. */
  lemma {:induction false} RemoveFirstFinds(cas: seq<CustomAttr>, id: nat)
    ensures RemoveFirst(cas, id).1 <==> exists p :: 0 <= p < |cas| && cas[p].id == id
    decreases |cas|
  {
    if |cas| > 0 {
      RemoveFirstFinds(cas[1..], id);
      assert forall p :: 1 <= p < |cas| ==> cas[1..][p - 1] == cas[p];
      if RemoveFirst(cas, id).1 && cas[0].id != id {
        var p :| 0 <= p < |cas| - 1 && cas[1..][p].id == id;
        assert cas[p + 1].id == id;
      }
    }
  }

  /** The attribute `id` is one of the custom attributes of `d`. */
  ghost predicate IsOn(cas: map<Def, seq<CustomAttr>>, d: Def, id: nat) {
    exists p :: 0 <= p < |AttributesOf(cas, d)| && AttributesOf(cas, d)[p].id == id
  }

  /** The removal queue after reading the attributes `cas` of `d`: each
      ObfuscationAttribute asking to be stripped is added unless already there. */
  function Queue(toRemove: map<nat, Def>, d: Def, cas: seq<CustomAttr>): map<nat, Def> {
    if |cas| == 0 then toRemove
    else
      var q := Queue(toRemove, d, cas[..|cas| - 1]);
      var c := cas[|cas| - 1];
      if c.isObfuscation && AttributeOf(c.properties).strip && c.id !in q then q[c.id := d] else q
  }

  /** Reading attributes only adds to the queue: an attribute already queued
      keeps its owner, so it is queued at most once; an attribute is queued
      afterwards exactly when it was before or is a stripped one just read. */
  lemma {:induction false} QueueMeaning(toRemove: map<nat, Def>, d: Def, cas: seq<CustomAttr>)
    ensures forall id :: id in toRemove ==> id in Queue(toRemove, d, cas) && Queue(toRemove, d, cas)[id] == toRemove[id]
    ensures forall id :: id in Queue(toRemove, d, cas) <==>
              id in toRemove || exists p :: 0 <= p < |cas| && cas[p].id == id && cas[p].isObfuscation && AttributeOf(cas[p].properties).strip
    decreases |cas|
  {
    if |cas| > 0 {
      var init := cas[..|cas| - 1];
      QueueMeaning(toRemove, d, init);
      assert forall p :: 0 <= p < |init| ==> init[p] == cas[p];
    }
  }

  lemma {:induction false} WithoutAbsent(cas: seq<CustomAttr>, ids: set<nat>, id: nat)
    requires forall p :: 0 <= p < |cas| ==> cas[p].id != id
    ensures Without(cas, ids + {id}) == Without(cas, ids)
    decreases |cas|
  {
    if |cas| > 0 {
      WithoutAbsent(cas[1..], ids, id);
    }
  }

  /** Removing the first attribute `id` after deleting other identities is
      deleting `id` as well, when identities are distinct. */
  lemma {:induction false} RemoveFirstIsWithout(cas: seq<CustomAttr>, ids: set<nat>, id: nat, p: nat)
    requires p < |cas| && cas[p].id == id && id !in ids
    requires forall p1, p2 :: 0 <= p1 < |cas| && 0 <= p2 < |cas| && cas[p1].id == cas[p2].id ==> p1 == p2
    ensures RemoveFirst(Without(cas, ids), id) == (Without(cas, ids + {id}), true)
    decreases |cas|
  {
    var rest := cas[1..];
    var w := Without(cas, ids);
    if p == 0 {
      assert forall q :: 0 <= q < |rest| ==> rest[q].id == cas[q + 1].id;
      WithoutAbsent(rest, ids, id);
      assert w == [cas[0]] + Without(rest, ids);
      assert w[0] == cas[0] && w[1..] == Without(rest, ids);
      assert cas[0].id in ids + {id};
      assert Without(cas, ids + {id}) == Without(rest, ids + {id});
    } else {
      assert cas[0].id != id;
      assert forall q :: 0 <= q < |rest| ==> rest[q] == cas[q + 1];
      RemoveFirstIsWithout(rest, ids, id, p - 1);
      if cas[0].id in ids {
        assert w == Without(rest, ids);
        assert Without(cas, ids + {id}) == Without(rest, ids + {id});
      } else {
        assert cas[0].id !in ids + {id};
        assert w == [cas[0]] + Without(rest, ids);
        assert w[1..] == Without(rest, ids);
      }
    }
  }

  /** With distinct identities, an attribute on `d` is on no other
      definition and occurs once on `d`. */
  lemma OnlyOn(cas: map<Def, seq<CustomAttr>>, d: Def, id: nat)
    requires DistinctIds(cas) && IsOn(cas, d, id)
    ensures d in cas
    ensures forall e, q :: e in cas && e != d && 0 <= q < |cas[e]| ==> cas[e][q].id != id
    ensures forall p1, p2 :: 0 <= p1 < |cas[d]| && 0 <= p2 < |cas[d]| && cas[d][p1].id == cas[d][p2].id ==> p1 == p2
  {
    var p :| 0 <= p < |AttributesOf(cas, d)| && AttributesOf(cas, d)[p].id == id;
  }

  /** Deleting an identity found only on `d` changes only `d`'s list. */
  lemma StripElsewhere(cas: map<Def, seq<CustomAttr>>, ids: set<nat>, id: nat, d: Def)
    requires d in cas
    requires forall e, q :: e in cas && e != d && 0 <= q < |cas[e]| ==> cas[e][q].id != id
    ensures Stripped(cas, ids)[d := Stripped(cas, ids + {id})[d]] == Stripped(cas, ids + {id})
  {
    var m1, m2 := Stripped(cas, ids)[d := Stripped(cas, ids + {id})[d]], Stripped(cas, ids + {id});
    forall e | e in cas && e != d
      ensures m1[e] == m2[e]
    {
      WithoutAbsent(cas[e], ids, id);
    }
    assert m1.Keys == m2.Keys;
  }

  /** One step of Cleanup: removing `id` from its owner continues the strip. */
  lemma StripOne(cas: map<Def, seq<CustomAttr>>, ids: set<nat>, id: nat, d: Def)
    requires DistinctIds(cas) && id !in ids && IsOn(cas, d, id)
    ensures d in Stripped(cas, ids)
    ensures RemoveFirst(Stripped(cas, ids)[d], id) == (Stripped(cas, ids + {id})[d], true)
    ensures Stripped(cas, ids)[d := Stripped(cas, ids + {id})[d]] == Stripped(cas, ids + {id})
  {
    OnlyOn(cas, d, id);
    var p :| 0 <= p < |cas[d]| && cas[d][p].id == id;
    RemoveFirstIsWithout(cas[d], ids, id, p);
    StripElsewhere(cas, ids, id, d);
  }

  // ----- What the removal queue holds -----

  /** Every ObfuscationAttribute on `d` that asks to be stripped is queued. */
  predicate StripsQueued(cas: map<Def, seq<CustomAttr>>, q: map<nat, Def>, d: Def) {
    forall c :: c in AttributesOf(cas, d) && c.isObfuscation && AttributeOf(c.properties).strip ==> c.id in q
  }

  /** `q1` keeps every entry of `q0` with its owner. */
  predicate KeepsQueued(q0: map<nat, Def>, q1: map<nat, Def>) {
    forall id :: id in q0 ==> id in q1 && q1[id] == q0[id]
  }

  /** The stripped attributes of every definition read so far are queued: the
      assembly's always, the module's once the assembly's parsed, and those of
      each cached type and member. */
  predicate QueuedSoFar(cas: map<Def, seq<CustomAttr>>, q: map<nat, Def>, moduleRead: bool, types: set<nat>, members: set<nat>) {
    && StripsQueued(cas, q, AssemblyDef)
    && (moduleRead ==> StripsQueued(cas, q, ModuleDef))
    && (forall i :: i in types ==> StripsQueued(cas, q, TypeDef(i)))
    && (forall j :: j in members ==> StripsQueued(cas, q, MemberDef(j)))
  }

  /** The stripped attributes of type `i`, of every type around it and of the
      module and assembly are queued. */
  predicate TypeChainQueued(m: ModuleInfo, q: map<nat, Def>, i: nat)
    requires WellFormed(m) && i < |m.declaringTypes|
    decreases i
  {
    && StripsQueued(m.customAttributes, q, TypeDef(i))
    && match m.declaringTypes[i]
       case Some(t) => TypeChainQueued(m, q, t)
       case None => StripsQueued(m.customAttributes, q, ModuleDef) && StripsQueued(m.customAttributes, q, AssemblyDef)
  }

  /** The stripped attributes of `d` and of every definition it inherits
      features from are queued. */
  predicate ChainQueued(m: ModuleInfo, q: map<nat, Def>, d: Def)
    requires WellFormed(m) && InModule(m, d)
  {
    match d
    case AssemblyDef => StripsQueued(m.customAttributes, q, AssemblyDef) && StripsQueued(m.customAttributes, q, ModuleDef)
    case ModuleDef => StripsQueued(m.customAttributes, q, AssemblyDef) && StripsQueued(m.customAttributes, q, ModuleDef)
    case TypeDef(i) => TypeChainQueued(m, q, i)
    case MemberDef(j) => StripsQueued(m.customAttributes, q, MemberDef(j)) && TypeChainQueued(m, q, m.memberTypes[j])
    case OtherDef => true
  }

  /** Reading `d`'s attributes queues its stripped ones and keeps the rest of
      the queue. */
  lemma QueueQueues(q: map<nat, Def>, d: Def, cas: map<Def, seq<CustomAttr>>)
    ensures KeepsQueued(q, Queue(q, d, AttributesOf(cas, d)))
    ensures StripsQueued(cas, Queue(q, d, AttributesOf(cas, d)), d)
  {
    var attrs := AttributesOf(cas, d);
    QueueMeaning(q, d, attrs);
    forall c | c in attrs && c.isObfuscation && AttributeOf(c.properties).strip
      ensures c.id in Queue(q, d, attrs)
    {
      var p :| 0 <= p < |attrs| && attrs[p] == c;
    }
  }

  /** A queue that only grows keeps everything queued so far. */
  lemma QueuedSoFarGrows(cas: map<Def, seq<CustomAttr>>, q0: map<nat, Def>, q1: map<nat, Def>, moduleRead: bool, types: set<nat>, members: set<nat>)
    requires QueuedSoFar(cas, q0, moduleRead, types, members) && KeepsQueued(q0, q1)
    ensures QueuedSoFar(cas, q1, moduleRead, types, members)
  {
  }

  /** The attribute `id` is an ObfuscationAttribute of `d` whose
      StripAfterObfuscation is set. */
  ghost predicate StripOn(cas: map<Def, seq<CustomAttr>>, d: Def, id: nat) {
    exists p :: 0 <= p < |AttributesOf(cas, d)| && AttributesOf(cas, d)[p].id == id
      && AttributesOf(cas, d)[p].isObfuscation && AttributeOf(AttributesOf(cas, d)[p].properties).strip
  }

  lemma StripOnIsOn(cas: map<Def, seq<CustomAttr>>, d: Def, id: nat)
    requires StripOn(cas, d, id)
    ensures IsOn(cas, d, id)
  {
  }

  /** Every queued attribute is a stripped ObfuscationAttribute of its
      recorded owner: nothing else is ever queued. */
  ghost predicate OnOwners(cas: map<Def, seq<CustomAttr>>, q: map<nat, Def>) {
    forall id :: id in q ==> StripOn(cas, q[id], id)
  }

  /** Every cached value is the one the inheritance chain gives, and a cached
      type's declaring type and a cached member's type are cached too. */
  predicate CachesSound(m: ModuleInfo, defaults: Features, typeCache: map<nat, (Features, Features)>, memberCache: map<nat, Features>) {
    && WellFormed(m)
    && (forall i :: i in typeCache ==>
          && i < |m.declaringTypes| && TypeFeatures(m, defaults, i) == Ok(typeCache[i])
          && (m.declaringTypes[i].Some? ==> m.declaringTypes[i].value in typeCache))
    && (forall j :: j in memberCache ==>
          && j < |m.memberTypes| && MemberFeatures(m, defaults, j) == Ok(memberCache[j])
          && m.memberTypes[j] in typeCache)
  }

  /** Caching a type whose declaring type is cached. */
  lemma CacheType(m: ModuleInfo, defaults: Features, typeCache: map<nat, (Features, Features)>, memberCache: map<nat, Features>, i: nat, v: (Features, Features))
    requires CachesSound(m, defaults, typeCache, memberCache)
    requires i < |m.declaringTypes| && TypeFeatures(m, defaults, i) == Ok(v)
    requires m.declaringTypes[i].Some? ==> m.declaringTypes[i].value in typeCache
    ensures CachesSound(m, defaults, typeCache[i := v], memberCache)
  {
  }

  /** Caching a member whose type is cached. */
  lemma CacheMember(m: ModuleInfo, defaults: Features, typeCache: map<nat, (Features, Features)>, memberCache: map<nat, Features>, j: nat, v: Features)
    requires CachesSound(m, defaults, typeCache, memberCache)
    requires j < |m.memberTypes| && MemberFeatures(m, defaults, j) == Ok(v) && m.memberTypes[j] in typeCache
    ensures CachesSound(m, defaults, typeCache, memberCache[j := v])
  {
  }

  /** Caching one more type whose stripped attributes are queued. */
  lemma QueuedSoFarAddType(cas: map<Def, seq<CustomAttr>>, q: map<nat, Def>, moduleRead: bool, types: set<nat>, members: set<nat>, i: nat)
    requires QueuedSoFar(cas, q, moduleRead, types, members) && StripsQueued(cas, q, TypeDef(i))
    ensures QueuedSoFar(cas, q, moduleRead, types + {i}, members)
  {
  }

  /** Caching one more member whose stripped attributes are queued. */
  lemma QueuedSoFarAddMember(cas: map<Def, seq<CustomAttr>>, q: map<nat, Def>, moduleRead: bool, types: set<nat>, members: set<nat>, j: nat)
    requires QueuedSoFar(cas, q, moduleRead, types, members) && StripsQueued(cas, q, MemberDef(j))
    ensures QueuedSoFar(cas, q, moduleRead, types, members + {j})
  {
  }

  // ----- The feature map -----

  /** The feature map of one module: the module's features, caches of type
      and member features, and the attributes queued for removal with their
      owners. The module's custom-attribute lists are held here because
      Cleanup edits them. */
  class FeatureMap {
    const info: ModuleInfo
    const defaults: Features
    var customAttributes: map<Def, seq<CustomAttr>>
    var moduleFeatures: Result<Features, ParseError>
    var typeCache: map<nat, (Features, Features)>
    var memberCache: map<nat, Features>
    var toRemove: map<nat, Def>
    var attributesRead: nat

    /** The attributes are still those of the module and every queued
        attribute is an ObfuscationAttribute with StripAfterObfuscation set,
        on its recorded owner. */
    ghost predicate Consistent()
      reads this
    {
      WellFormed(info) && customAttributes == info.customAttributes && OnOwners(customAttributes, toRemove)
    }

    /** ... every cached value is the one the inheritance chain gives, a
        cached type's declaring type and a cached member's type are cached
        too, and the stripped attributes of everything read are queued. */
    ghost predicate Valid()
      reads this
    {
      Consistent()
      && moduleFeatures == ModuleFeatures(info, defaults)
      && CachesSound(info, defaults, typeCache, memberCache)
      && QueuedSoFar(customAttributes, toRemove, moduleFeatures.Ok?, typeCache.Keys, memberCache.Keys)
    }

    /** A cached type's stripped attributes are queued, with those of every
        type around it and of the module and assembly. */
    lemma CachedChain(i: nat)
      requires Valid() && i in typeCache
      ensures TypeChainQueued(info, toRemove, i)
      decreases i
    {
      match info.declaringTypes[i] {
        case Some(t) => CachedChain(t);
        case None =>
      }
    }

    /** The module's features are the given ones combined with the assembly's
        attributes, then the module's. Where the source's constructor throws
        on a flag string that does not parse, the error is stored and every
        later query of the module, a type or a member reports it. Reading the
        attributes queues the assembly's stripped ones, and the module's when
        the assembly's parsed. */
    constructor(info: ModuleInfo, features: Features)
      requires WellFormed(info)
      ensures Valid()
      ensures this.info == info && defaults == features
      ensures typeCache == map[] && memberCache == map[]
      ensures var q := Queue(map[], AssemblyDef, AttributesOf(info.customAttributes, AssemblyDef));
        toRemove == if CombineFold(features, OwnAttrs(info, AssemblyDef), false).Ok?
                    then Queue(q, ModuleDef, AttributesOf(info.customAttributes, ModuleDef)) else q
    {
      this.info := info;
      defaults := features;
      customAttributes := info.customAttributes;
      moduleFeatures := Ok(features);
      typeCache := map[];
      memberCache := map[];
      toRemove := map[];
      attributesRead := 0;
      new;
      var r := Combine(features, AssemblyDef, false);
      if r.Ok? {
        ghost var q := toRemove;
        r := Combine(r.value, ModuleDef, false);
        QueuedSoFarGrows(customAttributes, q, toRemove, false, {}, {});
      }
      moduleFeatures := r;
    }

    /** GetObfuscationAttributes: the definition's ObfuscationAttributes in
        order; each one read is counted, and each asking to be stripped is
        queued for removal with this owner unless it already is. */
    method GetObfuscationAttributes(d: Def) returns (list: seq<ObfuscationAttr>)
      requires Consistent()
      modifies this`toRemove, this`attributesRead
      ensures Consistent()
      ensures list == ObfuscationAttrs(AttributesOf(customAttributes, d))
      ensures toRemove == Queue(old(toRemove), d, AttributesOf(customAttributes, d))
      ensures KeepsQueued(old(toRemove), toRemove) && StripsQueued(customAttributes, toRemove, d)
      ensures attributesRead == old(attributesRead) + |list|
    {
      QueueQueues(toRemove, d, customAttributes);
      var cas := AttributesOf(customAttributes, d);
      list := [];
      var i := 0;
      while i < |cas|
        invariant 0 <= i <= |cas|
        invariant list == ObfuscationAttrs(cas[..i])
        invariant toRemove == Queue(old(toRemove), d, cas[..i])
        invariant attributesRead == old(attributesRead) + |list|
        invariant Consistent()
      {
        var c := cas[i];
        assert cas[..i + 1][..i] == cas[..i];
        if c.isObfuscation {
          var attribute := ParseAttribute(c);
          attributesRead := attributesRead + 1;
          if attribute.strip && c.id !in toRemove {
            assert StripOn(customAttributes, d, c.id) by {
              assert AttributesOf(customAttributes, d)[i] == c;
            }
            toRemove := toRemove[c.id := d];
          }
          list := list + [attribute];
        }
        i := i + 1;
      }
      assert cas[..i] == cas;
    }

    /** Combine over a definition: its ObfuscationAttributes folded over the
        parent's features. */
    method Combine(parent: Features, d: Def, useApplyToMembers: bool) returns (r: Result<Features, ParseError>)
      requires Consistent()
      modifies this`toRemove, this`attributesRead
      ensures Consistent()
      ensures r == CombineFold(parent, OwnAttrs(info, d), useApplyToMembers)
      ensures toRemove == Queue(old(toRemove), d, AttributesOf(customAttributes, d))
      ensures KeepsQueued(old(toRemove), toRemove) && StripsQueued(customAttributes, toRemove, d)
      ensures attributesRead == old(attributesRead) + |OwnAttrs(info, d)|
    {
      var attrs := GetObfuscationAttributes(d);
      var flags := parent;
      var i := 0;
      while i < |attrs|
        invariant 0 <= i <= |attrs|
        invariant CombineFold(parent, attrs, useApplyToMembers) == CombineFold(flags, attrs[i..], useApplyToMembers)
      {
        var attribute := attrs[i];
        assert attrs[i..][0] == attribute && attrs[i..][1..] == attrs[i + 1..];
        if attribute.applyToMembers || !useApplyToMembers {
          var next := CombineAttr(flags, Some(attribute));
          if next.Err? {
            return Err(next.error);
          }
          flags := next.value;
        }
        i := i + 1;
      }
      r := Ok(flags);
    }

    method GetFeaturesModule() returns (r: Result<Features, ParseError>)
      requires Valid()
      ensures r == ModuleFeatures(info, defaults)
    {
      r := moduleFeatures;
    }

    /** A type's own and passed-down features, computed once and cached. */
    method GetFeaturesType(i: nat) returns (r: Result<(Features, Features), ParseError>)
      requires Valid() && i < |info.declaringTypes|
      modifies this`typeCache, this`toRemove, this`attributesRead
      ensures Valid()
      ensures r == TypeFeatures(info, defaults, i)
      ensures old(typeCache).Keys <= typeCache.Keys && memberCache == old(memberCache)
      ensures r.Ok? ==> i in typeCache
      ensures KeepsQueued(old(toRemove), toRemove)
      ensures r.Ok? ==> TypeChainQueued(info, toRemove, i)
      ensures OnOwners(customAttributes, toRemove)
      decreases i
    {
      if i in typeCache {
        CachedChain(i);
        return Ok(typeCache[i]);
      }
      var parent: Result<Features, ParseError>;
      match info.declaringTypes[i] {
        case Some(t) =>
          var declaring := GetFeaturesType(t);
          parent := if declaring.Ok? then Ok(declaring.value.1) else Err(declaring.error);
        case None =>
          parent := GetFeaturesModule();
      }
      if parent.Err? {
        return Err(parent.error);
      }
      ghost var q0 := toRemove;
      var self := Combine(parent.value, TypeDef(i), false);
      QueuedSoFarGrows(customAttributes, q0, toRemove, moduleFeatures.Ok?, typeCache.Keys, memberCache.Keys);
      if self.Err? {
        return Err(self.error);
      }
      ghost var q1 := toRemove;
      var inherited := Combine(parent.value, TypeDef(i), true);
      QueuedSoFarGrows(customAttributes, q1, toRemove, moduleFeatures.Ok?, typeCache.Keys, memberCache.Keys);
      if inherited.Err? {
        return Err(inherited.error);
      }
      QueuedSoFarAddType(customAttributes, toRemove, moduleFeatures.Ok?, typeCache.Keys, memberCache.Keys, i);
      CacheType(info, defaults, typeCache, memberCache, i, (self.value, inherited.value));
      typeCache := typeCache[i := (self.value, inherited.value)];
      r := Ok((self.value, inherited.value));
      CachedChain(i);
    }

    /** A member's features, computed once and cached. */
    method GetFeaturesMember(j: nat) returns (r: Result<Features, ParseError>)
      requires Valid() && j < |info.memberTypes|
      modifies this`typeCache, this`memberCache, this`toRemove, this`attributesRead
      ensures Valid()
      ensures r == MemberFeatures(info, defaults, j)
      ensures r.Ok? ==> j in memberCache
      ensures KeepsQueued(old(toRemove), toRemove)
      ensures r.Ok? ==> StripsQueued(info.customAttributes, toRemove, MemberDef(j)) && TypeChainQueued(info, toRemove, info.memberTypes[j])
      ensures OnOwners(customAttributes, toRemove)
    {
      if j in memberCache {
        CachedChain(info.memberTypes[j]);
        return Ok(memberCache[j]);
      }
      var declaring := GetFeaturesType(info.memberTypes[j]);
      if declaring.Err? {
        return Err(declaring.error);
      }
      ghost var q0 := toRemove;
      r := Combine(declaring.value.1, MemberDef(j), false);
      QueuedSoFarGrows(customAttributes, q0, toRemove, moduleFeatures.Ok?, typeCache.Keys, memberCache.Keys);
      if r.Ok? {
        QueuedSoFarAddMember(customAttributes, toRemove, moduleFeatures.Ok?, typeCache.Keys, memberCache.Keys, j);
        CacheMember(info, defaults, typeCache, memberCache, j, r.value);
        memberCache := memberCache[j := r.value];
        CachedChain(info.memberTypes[j]);
      }
    }

    /** The features of any definition; a type's are its own, not the ones it
        passes down; an unknown kind of definition has none. */
    method GetFeatures(d: Def) returns (r: Result<Features, ParseError>)
      requires Valid() && InModule(info, d)
      modifies this`typeCache, this`memberCache, this`toRemove, this`attributesRead
      ensures Valid()
      ensures r == DefFeatures(info, defaults, d)
      ensures KeepsQueued(old(toRemove), toRemove)
      ensures r.Ok? ==> ChainQueued(info, toRemove, d)
      ensures OnOwners(customAttributes, toRemove)
    {
      match d {
        case AssemblyDef => r := GetFeaturesModule();
        case ModuleDef => r := GetFeaturesModule();
        case TypeDef(i) =>
          var t := GetFeaturesType(i);
          r := if t.Ok? then Ok(t.value.0) else Err(t.error);
        case MemberDef(j) => r := GetFeaturesMember(j);
        case OtherDef => r := Ok(NoFeatures);
      }
    }

    /** Removes every queued attribute from its owner; each removal finds its
        attribute. Afterwards every definition keeps exactly its attributes
        that were not queued, in order. */
    method Cleanup()
      requires Consistent()
      modifies this`customAttributes
      ensures customAttributes == Stripped(old(customAttributes), toRemove.Keys)
    {
      var original, queued := customAttributes, toRemove;
      assert DistinctIds(original);
      var current := original;
      var pending, removed := queued.Keys, {};
      StrippedNothing(original);
      while pending != {}
        invariant pending <= queued.Keys && removed == queued.Keys - pending
        invariant current == Stripped(original, removed)
        decreases |pending|
      {
        var id :| id in pending;
        MoveToRemoved(queued.Keys, pending, removed, id);
        var owner := queued[id];
        StripOnIsOn(original, owner, id);
        StripOne(original, removed, id, owner);
        var (rest, found) := RemoveFirst(current[owner], id);
        assert found;  // the removal always succeeds
        current := current[owner := rest];
        pending, removed := pending - {id}, removed + {id};
      }
      assert removed == queued.Keys;
      customAttributes := current;
    }
  }

  /** Moving one identity from the pending set to the removed set. */
  lemma MoveToRemoved(all: set<nat>, pending: set<nat>, removed: set<nat>, id: nat)
    requires pending <= all && removed == all - pending && id in pending
    ensures all - (pending - {id}) == removed + {id}
  {
  }

  lemma StrippedNothing(cas: map<Def, seq<CustomAttr>>)
    ensures Stripped(cas, {}) == cas
  {
    forall d | d in cas
      ensures Without(cas[d], {}) == cas[d]
    {
      WithoutNothing(cas[d]);
    }
  }

  lemma {:induction false} WithoutNothing(cas: seq<CustomAttr>)
    ensures Without(cas, {}) == cas
    decreases |cas|
  {
    if |cas| > 0 {
      WithoutNothing(cas[1..]);
    }
  }
}
