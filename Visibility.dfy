/** How visible a definition is outside its assembly: the access bits of
    fields, methods and types (sections 23.1.5, 23.1.10 and 23.1.15 of
    Partition II of ECMA-335) mapped to Private < Internal < Public, clamped to
    the declaring type, and the scope test that decides what may be renamed. */
module VisibilityExtensions {
  import opened Wrappers

  datatype Visibility = Auto | Private | Internal | Public

  /** The enum's underlying values. */
  function Rank(v: Visibility): int {
    match v
    case Auto => -1
    case Private => 0
    case Internal => 1
    case Public => 2
  }

  /** The more visible of two visibilities, the first one on a tie. */
  function Higher(a: Visibility, b: Visibility): (r: Visibility)
    ensures Rank(a) <= Rank(r) && Rank(b) <= Rank(r)
    ensures r == a || r == b
  {
    if Rank(b) > Rank(a) then b else a
  }

  // ----- Access bits -----

  // FieldAttributes.FieldAccessMask and MethodAttributes.MemberAccessMask
  // select the same three bits with the same values.
  const CompilerControlled := 0
  const PrivateAccess := 1
  const FamANDAssem := 2
  const AssemblyAccess := 3
  const Family := 4
  const FamORAssem := 5
  const PublicAccess := 6

  // TypeAttributes.VisibilityMask values.
  const NotPublic := 0
  const TypePublic := 1
  const NestedPublic := 2
  const NestedPrivate := 3
  const NestedFamily := 4
  const NestedAssembly := 5
  const NestedFamANDAssem := 6
  const NestedFamORAssem := 7

  /** `attributes & 7`, the access or visibility field of the flags. */
  function Masked(attributes: nat): (r: nat)
    ensures r < 8
  {
    attributes % 8
  }

  /** A field's or a method's access: private or compiler-controlled is
      Private, up to assembly is Internal, family and wider is Public. */
  function MemberAccessVisibility(attributes: nat): (r: Visibility)
    ensures r != Auto
    ensures r == Private <==> Masked(attributes) in {CompilerControlled, PrivateAccess}
    ensures r == Internal <==> Masked(attributes) in {FamANDAssem, AssemblyAccess}
    ensures r == Public <==> Masked(attributes) in {Family, FamORAssem, PublicAccess, 7}
  {
    var access := Masked(attributes);
    if access <= PrivateAccess then Private
    else if access <= AssemblyAccess then Internal
    else Public
  }

  /** ToVisibility(FieldAttributes). */
  function FieldVisibility(attributes: nat): Visibility {
    MemberAccessVisibility(attributes)
  }

  /** ToVisibility(MethodAttributes). */
  function MethodVisibility(attributes: nat): Visibility {
    MemberAccessVisibility(attributes)
  }

  /** Wider access never gives a narrower visibility. */
  lemma MemberAccessMonotone(a: nat, b: nat)
    requires Masked(a) <= Masked(b)
    ensures Rank(MemberAccessVisibility(a)) <= Rank(MemberAccessVisibility(b))
  {
  }

  /** ToVisibility(TypeAttributes): every value of the three visibility bits
      is covered, so the out-of-range case cannot arise. */
  function TypeVisibility(attributes: nat): (r: Visibility)
    ensures r != Auto
    ensures r == Internal <==> Masked(attributes) in {NotPublic, NestedAssembly, NestedFamANDAssem}
    ensures r == Public <==> Masked(attributes) in {TypePublic, NestedPublic, NestedFamily, NestedFamORAssem}
    ensures r == Private <==> Masked(attributes) == NestedPrivate
  {
    var v := Masked(attributes);
    if v == NotPublic then Internal
    else if v == TypePublic then Public
    else if v == NestedPublic then Public
    else if v == NestedPrivate then Private
    else if v == NestedFamily then Public
    else if v == NestedAssembly then Internal
    else if v == NestedFamANDAssem then Internal
    else Public
  }

  // ----- Definitions -----

  /** What a definition is: a type, field or method with its attribute flags,
      a property with its accessor lists, an event with its optional add,
      remove and invoke methods, or anything else. Accessors are indices of
      method definitions. */
  datatype MemberKind =
    | TypeKind(typeAttributes: nat)
    | FieldKind(fieldAttributes: nat)
    | MethodKind(methodAttributes: nat)
    | PropertyKind(getMethods: seq<nat>, setMethods: seq<nat>, otherMethods: seq<nat>)
    | EventKind(addMethod: Option<nat>, removeMethod: Option<nat>, invokeMethod: Option<nat>)
    | OtherKind

  datatype Member = Member(kind: MemberKind, declaringType: Option<nat>, name: string, attributeTypes: seq<string>)

  const CompilerGeneratedAttribute := "System.Runtime.CompilerServices.CompilerGeneratedAttribute"
  const GeneratedCodeAttribute := "System.CodeDom.Compiler.GeneratedCodeAttribute"

  /** Definitions are numbered so that a declaring type comes before what it
      declares and an accessor method before its property or event (the
      metadata has no cycles, so such a numbering exists); every definition
      other than a type has a declaring type. */
  predicate WellFormed(ms: seq<Member>) {
    forall i :: 0 <= i < |ms| ==> MemberWellFormed(ms, i)
  }

  predicate RefersBack(ms: seq<Member>, i: nat, j: nat, isType: bool) {
    j < i && j < |ms| && (if isType then ms[j].kind.TypeKind? else ms[j].kind.MethodKind?)
  }

  predicate MemberWellFormed(ms: seq<Member>, i: nat)
    requires i < |ms|
  {
    var m := ms[i];
    (m.declaringType.Some? ==> RefersBack(ms, i, m.declaringType.value, true))
    && (!m.kind.TypeKind? ==> m.declaringType.Some?)
    && match m.kind
       case PropertyKind(g, s, o) => forall j :: j in g + s + o ==> RefersBack(ms, i, j, false)
       case EventKind(a, r, v) => forall j :: j in Present([a, r, v]) ==> RefersBack(ms, i, j, false)
       case _ => true
  }

  /** The accessors that exist. */
  function Present(methods: seq<Option<nat>>): seq<nat>
  {
    if |methods| == 0 then []
    else Present(methods[..|methods| - 1]) + (if methods[|methods| - 1].Some? then [methods[|methods| - 1].value] else [])
  }

  /** Present keeps exactly the accessors that are there, in order. */
  lemma {:induction false} PresentMembers(methods: seq<Option<nat>>)
    ensures forall j :: j in Present(methods) <==> Some(j) in methods
    ensures |Present(methods)| <= |methods|
  {
    if |methods| > 0 {
      var init := methods[..|methods| - 1];
      PresentMembers(init);
      assert methods == init + [methods[|methods| - 1]];
    }
  }

  /** IsHiddenTypeInternal: a non-public compiler-generated type with '<' in
      its name, or a nested private type. */
  predicate IsHiddenType(t: Member)
    requires t.kind.TypeKind?
  {
    (Masked(t.kind.typeAttributes) == NotPublic && '<' in t.name
     && exists k :: 0 <= k < |t.attributeTypes| && t.attributeTypes[k] in {CompilerGeneratedAttribute, GeneratedCodeAttribute})
    || Masked(t.kind.typeAttributes) == NestedPrivate
  }

  /** A type is hidden when it is a hidden type; anything else when its
      declaring type is. */
  predicate IsHidden(ms: seq<Member>, i: nat)
    requires WellFormed(ms) && i < |ms|
  {
    assert MemberWellFormed(ms, i);
    if ms[i].kind.TypeKind? then IsHiddenType(ms[i]) else IsHiddenType(ms[ms[i].declaringType.value])
  }

  /** GetVisibility: hidden definitions are Private; otherwise the visibility
      of the definition's own kind, lowered to its declaring type's. */
  function VisibilityOf(ms: seq<Member>, i: nat): (r: Visibility)
    requires WellFormed(ms) && i < |ms|
    ensures r != Auto
    decreases i, 1, 0
  {
    assert MemberWellFormed(ms, i);
    var m := ms[i];
    if IsHidden(ms, i) then Private
    else
      var own := match m.kind
        case TypeKind(a) => TypeVisibility(a)
        case FieldKind(a) => FieldVisibility(a)
        case MethodKind(a) => MethodVisibility(a)
        case PropertyKind(g, s, o) => MaxOf(ms, g + s + o, i)
        case EventKind(a, r, v) => MaxOf(ms, Present([a, r, v]), i)
        case OtherKind => Public;
      if Rank(own) > Rank(Private) && m.declaringType.Some? then
        var parent := VisibilityOf(ms, m.declaringType.value);
        if Rank(parent) < Rank(own) then parent else own
      else own
  }

  /** Every index in `xs` is a definition numbered below `bound`. */
  predicate Below(ms: seq<Member>, xs: seq<nat>, bound: nat) {
    forall j :: j in xs ==> j < bound && j < |ms|
  }

  lemma BelowSplit(ms: seq<Member>, xs: seq<nat>, ys: seq<nat>, bound: nat)
    requires Below(ms, xs + ys, bound)
    ensures Below(ms, xs, bound) && Below(ms, ys, bound)
  {
    assert forall j :: j in xs ==> j in xs + ys;
    assert forall j :: j in ys ==> j in xs + ys;
  }

  /** The highest visibility among the methods, Private when there is none. */
  function MaxOf(ms: seq<Member>, methods: seq<nat>, bound: nat): (r: Visibility)
    requires WellFormed(ms) && Below(ms, methods, bound)
    ensures r != Auto
    decreases bound, 0, |methods|
  {
    if |methods| == 0 then Private
    else
      var init, last := methods[..|methods| - 1], methods[|methods| - 1];
      assert last in methods && forall j :: j in init ==> j in methods;
      Higher(MaxOf(ms, init, bound), VisibilityOf(ms, last))
  }

  /** The accessor maximum is at least every accessor's visibility, and is
      one of them unless it is Private. */
  lemma {:induction false} MaxOfIsMaximum(ms: seq<Member>, methods: seq<nat>, bound: nat)
    requires WellFormed(ms) && Below(ms, methods, bound)
    ensures forall j :: j in methods ==> Rank(VisibilityOf(ms, j)) <= Rank(MaxOf(ms, methods, bound))
    ensures MaxOf(ms, methods, bound) == Private || exists j :: j in methods && MaxOf(ms, methods, bound) == VisibilityOf(ms, j)
    decreases |methods|
  {
    if |methods| > 0 {
      var init, last := methods[..|methods| - 1], methods[|methods| - 1];
      assert last in methods && forall j :: j in init ==> j in methods;
      MaxOfIsMaximum(ms, init, bound);
      assert methods == init + [last];
      if MaxOf(ms, methods, bound) != VisibilityOf(ms, last) && MaxOf(ms, methods, bound) != Private {
        var w :| w in init && MaxOf(ms, init, bound) == VisibilityOf(ms, w);
        assert w in methods;
      }
    }
  }

  /** One more accessor raises the maximum to its visibility if that is
      higher. */
  lemma MaxOfSnoc(ms: seq<Member>, xs: seq<nat>, x: nat, bound: nat)
    requires WellFormed(ms) && Below(ms, xs + [x], bound)
    ensures x < bound && x < |ms| && Below(ms, xs, bound)
    ensures MaxOf(ms, xs + [x], bound) == Higher(MaxOf(ms, xs, bound), VisibilityOf(ms, x))
  {
    BelowSplit(ms, xs, [x], bound);
    assert x in [x];
    assert (xs + [x])[..|xs|] == xs;
  }

  /** Once the maximum is Public, further accessors cannot change it: the
      early exit of Max returns what the full scan would. */
  lemma {:induction false} MaxOfStaysPublic(ms: seq<Member>, xs: seq<nat>, ys: seq<nat>, bound: nat)
    requires WellFormed(ms) && Below(ms, xs + ys, bound) && Below(ms, xs, bound)
    requires MaxOf(ms, xs, bound) == Public
    ensures MaxOf(ms, xs + ys, bound) == Public
    decreases |ys|
  {
    if |ys| > 0 {
      var init := ys[..|ys| - 1];
      assert (xs + ys)[..|xs + ys| - 1] == xs + init;
      assert xs + ys == xs + init + [ys[|ys| - 1]];
      BelowSplit(ms, xs + init, [ys[|ys| - 1]], bound);
      MaxOfStaysPublic(ms, xs, init, bound);
    } else {
      assert xs + ys == xs;
    }
  }

  /** A definition is never more visible than its declaring type. */
  lemma ClampedToDeclaringType(ms: seq<Member>, i: nat)
    requires WellFormed(ms) && i < |ms| && ms[i].declaringType.Some?
    ensures ms[i].declaringType.value < |ms|
    ensures Rank(VisibilityOf(ms, i)) <= Rank(VisibilityOf(ms, ms[i].declaringType.value))
  {
    assert MemberWellFormed(ms, i);
  }

  /** `i` is declared, directly or through nested types, inside type `t`. */
  predicate DeclaredWithin(ms: seq<Member>, i: nat, t: nat)
    requires WellFormed(ms) && i < |ms|
    decreases i
  {
    assert MemberWellFormed(ms, i);
    ms[i].declaringType.Some? &&
      (ms[i].declaringType.value == t || DeclaredWithin(ms, ms[i].declaringType.value, t))
  }

  /** Everything declared, however deeply, inside a Private type is Private,
      hidden or not. */
  lemma {:induction false} InsidePrivateIsPrivate(ms: seq<Member>, i: nat, t: nat)
    requires WellFormed(ms) && i < |ms| && t < |ms|
    requires DeclaredWithin(ms, i, t) && VisibilityOf(ms, t) == Private
    ensures VisibilityOf(ms, i) == Private
    decreases i
  {
    assert MemberWellFormed(ms, i);
    var parent := ms[i].declaringType.value;
    if parent != t {
      InsidePrivateIsPrivate(ms, parent, t);
    }
    ClampedToDeclaringType(ms, i);
  }

  /** Members of a nested private type are Private. */
  lemma MembersOfNestedPrivateArePrivate(ms: seq<Member>, i: nat, t: nat)
    requires WellFormed(ms) && i < |ms| && t < |ms|
    requires ms[t].kind.TypeKind? && Masked(ms[t].kind.typeAttributes) == NestedPrivate
    requires DeclaredWithin(ms, i, t)
    ensures VisibilityOf(ms, i) == Private
  {
    InsidePrivateIsPrivate(ms, i, t);
  }

  /** IsInScope: with scope Public everything is in scope, otherwise exactly
      what is no more visible than the scope. */
  function IsInScope(ms: seq<Member>, i: nat, scope: Visibility): (r: bool)
    requires WellFormed(ms) && i < |ms| && scope != Auto
    ensures r <==> Rank(VisibilityOf(ms, i)) <= Rank(scope)
  {
    if scope == Public then true else Rank(VisibilityOf(ms, i)) <= Rank(scope)
  }

  /** A wider scope admits everything a narrower one does. */
  lemma IsInScopeMonotone(ms: seq<Member>, i: nat, narrow: Visibility, wide: Visibility)
    requires WellFormed(ms) && i < |ms| && narrow != Auto && wide != Auto
    requires Rank(narrow) <= Rank(wide) && IsInScope(ms, i, narrow)
    ensures IsInScope(ms, i, wide)
  {
  }

  // ----- The computation as the source performs it -----

  /** The lists laid end to end. */
  function Flatten(lists: seq<seq<nat>>): seq<nat>
  {
    if |lists| == 0 then [] else Flatten(lists[..|lists| - 1]) + lists[|lists| - 1]
  }

  /** GetVisibilityInternal, with the accessor maxima computed by the Max
      loops. */
  method GetVisibility(ms: seq<Member>, i: nat) returns (r: Visibility)
    requires WellFormed(ms) && i < |ms|
    ensures r == VisibilityOf(ms, i)
    decreases i, 1, 0
  {
    assert MemberWellFormed(ms, i);
    if IsHidden(ms, i) {
      return Private;
    }
    var own: Visibility;
    match ms[i].kind {
      case TypeKind(a) => own := TypeVisibility(a);
      case FieldKind(a) => own := FieldVisibility(a);
      case MethodKind(a) => own := MethodVisibility(a);
      case PropertyKind(g, s, o) =>
        assert Flatten([g, s, o]) == g + s + o by {
          var none: seq<seq<nat>> := [];
          assert [g][..0] == none;
          assert Flatten([g]) == g;
          assert [g, s][..1] == [g];
          assert Flatten([g, s]) == g + s;
          assert [g, s, o][..2] == [g, s];
        }
        own := MaxOfLists(ms, [g, s, o], i);
      case EventKind(a, rm, v) => own := MaxOfMethods(ms, [a, rm, v], i);
      case OtherKind => own := Public;
    }
    if Rank(own) > Rank(Private) && ms[i].declaringType.Some? {
      var parent := GetVisibility(ms, ms[i].declaringType.value);
      if Rank(parent) < Rank(own) {
        return parent;
      }
    }
    return own;
  }

  /** Max over accessor lists: the highest visibility, Private for none,
      stopping at the first Public. */
  method MaxOfLists(ms: seq<Member>, lists: seq<seq<nat>>, bound: nat) returns (v: Visibility)
    requires WellFormed(ms) && Below(ms, Flatten(lists), bound)
    ensures v == MaxOf(ms, Flatten(lists), bound)
    decreases bound, 0, 0
  {
    v := Private;
    var a := 0;
    while a < |lists|
      invariant 0 <= a <= |lists|
      invariant Below(ms, Flatten(lists[..a]), bound)
      invariant v == MaxOf(ms, Flatten(lists[..a]), bound)
    {
      var list, done, after := lists[a], Flatten(lists[..a]), Flatten(lists[a + 1..]);
      FlattenSplit(lists, a);
      assert Flatten(lists[..a + 1]) == done + list by {
        assert lists[..a + 1][..a] == lists[..a];
      }
      var b := 0;
      assert done + list[..b] == done;
      while b < |list|
        invariant 0 <= b <= |list|
        invariant Below(ms, done + list[..b], bound)
        invariant v == MaxOf(ms, done + list[..b], bound)
      {
        var seen := done + list[..b + 1];
        RegroupAt(done, list, after, b);
        BelowSplit(ms, seen, list[b + 1..] + after, bound);
        MaxOfSnoc(ms, done + list[..b], list[b], bound);
        var vis := GetVisibility(ms, list[b]);
        if Rank(vis) > Rank(v) {
          v := vis;
          if v == Public {
            MaxOfStaysPublic(ms, seen, list[b + 1..] + after, bound);
            return;
          }
        }
        b := b + 1;
      }
      assert list[..b] == list;
      a := a + 1;
    }
    assert lists[..a] == lists;
  }

  lemma RegroupAt(done: seq<nat>, list: seq<nat>, after: seq<nat>, b: nat)
    requires b < |list|
    ensures done + list[..b + 1] == done + list[..b] + [list[b]]
    ensures done + list + after == done + list[..b + 1] + (list[b + 1..] + after)
  {
    assert list == list[..b + 1] + list[b + 1..];
  }

  lemma FlattenSplit(lists: seq<seq<nat>>, a: nat)
    requires a < |lists|
    ensures Flatten(lists) == Flatten(lists[..a]) + lists[a] + Flatten(lists[a + 1..])
  {
    var upTo, post := lists[..a + 1], lists[a + 1..];
    assert upTo[..a] == lists[..a];
    assert Flatten(upTo) == Flatten(lists[..a]) + lists[a];
    Rejoin(lists, a + 1);
    FlattenAppend(upTo, post);
  }

  lemma Rejoin<T>(s: seq<T>, n: nat)
    requires n <= |s|
    ensures s[..n] + s[n..] == s
  {
  }

  lemma {:induction false} FlattenAppend(xs: seq<seq<nat>>, ys: seq<seq<nat>>)
    ensures Flatten(xs + ys) == Flatten(xs) + Flatten(ys)
    decreases |ys|
  {
    if |ys| > 0 {
      var init := ys[..|ys| - 1];
      assert (xs + ys)[..|xs + ys| - 1] == xs + init;
      FlattenAppend(xs, init);
    } else {
      assert xs + ys == xs;
    }
  }

  /** Max over optional accessors: the highest visibility of those present,
      Private for none, stopping at the first Public. */
  method MaxOfMethods(ms: seq<Member>, methods: seq<Option<nat>>, bound: nat) returns (v: Visibility)
    requires WellFormed(ms) && Below(ms, Present(methods), bound)
    ensures v == MaxOf(ms, Present(methods), bound)
    decreases bound, 0, 0
  {
    v := Private;
    var k := 0;
    while k < |methods|
      invariant 0 <= k <= |methods|
      invariant Below(ms, Present(methods[..k]), bound)
      invariant v == MaxOf(ms, Present(methods[..k]), bound)
    {
      var seen, after := Present(methods[..k + 1]), Present(methods[k + 1..]);
      assert methods[..k + 1][..k] == methods[..k];
      assert Present(methods) == seen + after by {
        Rejoin(methods, k + 1);
        PresentAppend(methods[..k + 1], methods[k + 1..]);
      }
      BelowSplit(ms, seen, after, bound);
      match methods[k] {
        case None =>
          assert seen == Present(methods[..k]);
        case Some(accessor) =>
          assert seen == Present(methods[..k]) + [accessor];
          MaxOfSnoc(ms, Present(methods[..k]), accessor, bound);
          var vis := GetVisibility(ms, accessor);
          if Rank(vis) > Rank(v) {
            v := vis;
            if v == Public {
              MaxOfStaysPublic(ms, seen, after, bound);
              return;
            }
          }
      }
      k := k + 1;
    }
    assert methods[..k] == methods;
  }

  lemma {:induction false} PresentAppend(xs: seq<Option<nat>>, ys: seq<Option<nat>>)
    ensures Present(xs + ys) == Present(xs) + Present(ys)
    decreases |ys|
  {
    if |ys| > 0 {
      var init := ys[..|ys| - 1];
      assert (xs + ys)[..|xs + ys| - 1] == xs + init;
      PresentAppend(xs, init);
    } else {
      assert xs + ys == xs;
    }
  }
}
