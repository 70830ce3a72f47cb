/** Property inlining: recognise trivial auto-property accessors, build the
    table that maps each accessor to the field access it stands for, and
    rewrite calls to those accessors inside the field's own type. */
module PropertyInline {
  import opened Wrappers
  import opened Cil

  /** The parts of a method definition the feature reads. The body is the
      instruction list after dnlib's OptimizeMacros. */
  datatype MethodInfo = MethodInfo(
    hasBody: bool,
    isVirtual: bool,
    isFinal: bool,
    isStatic: bool,
    body: seq<Instr>,
    declaringType: nat)

  datatype FieldInfo = FieldInfo(isPrivate: bool, isStatic: bool, declaringType: nat)

  /** A property with its getter and setter (indices of method definitions). */
  datatype PropertyInfo = PropertyInfo(getMethod: Option<nat>, setMethod: Option<nat>, declaringType: nat)

  datatype Module = Module(methods: seq<MethodInfo>, fields: seq<FieldInfo>, properties: seq<PropertyInfo>)

  /** Every accessor and every field operand refers to an existing definition. */
  predicate WellFormed(m: Module) {
    (forall p :: p in m.properties ==> AccessorsDefined(m, p))
    && (forall md :: md in m.methods ==> FieldsDefined(m, md))
  }

  predicate AccessorsDefined(m: Module, p: PropertyInfo) {
    (p.getMethod.Some? ==> p.getMethod.value < |m.methods|)
    && (p.setMethod.Some? ==> p.setMethod.value < |m.methods|)
  }

  predicate FieldsDefined(m: Module, md: MethodInfo) {
    forall i :: i in md.body && i.operand.FieldDef? ==> i.operand.field < |m.fields|
  }

  // ----- Recognising trivial accessors -----

  /** The instructions other than Nop, in order. */
  function WithoutNops(body: seq<Instr>): seq<Instr> {
    if |body| == 0 then []
    else
      var rest := WithoutNops(body[..|body| - 1]);
      if body[|body| - 1].code == Nop then rest else rest + [body[|body| - 1]]
  }

  /** WithoutNops keeps exactly the instructions that are not Nop. */
  lemma {:induction false} WithoutNopsMembers(body: seq<Instr>)
    ensures |WithoutNops(body)| <= |body|
    ensures forall i :: i in WithoutNops(body) <==> i in body && i.code != Nop
  {
    if |body| > 0 {
      var init := body[..|body| - 1];
      WithoutNopsMembers(init);
      assert body == init + [body[|body| - 1]];
    }
  }

  /** The opcodes of a trivial accessor: a static getter loads the static
      field, an instance getter loads `this` and its field, a static setter
      stores its argument and an instance setter stores argument 1 into a
      field of `this`; each then returns. */
  function AccessorShape(isGetter: bool, isStatic: bool): seq<Code> {
    if isGetter && isStatic then [Ldsfld, Ret]
    else if isGetter then [Ldarg0, Ldfld, Ret]
    else if isStatic then [Ldarg0, Stsfld, Ret]
    else [Ldarg0, Ldarg1, Stfld, Ret]
  }

  /** Where the field access sits in the shape. */
  function FieldSlot(isGetter: bool, isStatic: bool): nat {
    |AccessorShape(isGetter, isStatic)| - 2
  }

  predicate HasShape(instrs: seq<Instr>, shape: seq<Code>) {
    |instrs| == |shape| && forall k :: 0 <= k < |shape| ==> instrs[k].code == shape[k]
  }

  /** The accessor is a non-virtual (or final) method whose body, without its
      Nops, is exactly the accessor shape with field definition `f`. */
  predicate IsTrivialAccessor(accessor: MethodInfo, isGetter: bool, f: nat) {
    var instrs := WithoutNops(accessor.body);
    accessor.hasBody && !(accessor.isVirtual && !accessor.isFinal)
    && HasShape(instrs, AccessorShape(isGetter, accessor.isStatic))
    && instrs[FieldSlot(isGetter, accessor.isStatic)].operand == FieldDef(f)
  }

  /** TryParseAccessor: the backing field of a trivial accessor, or None. */
  function TryParseAccessor(accessor: MethodInfo, isGetter: bool): Option<nat> {
    if !accessor.hasBody || (accessor.isVirtual && !accessor.isFinal) then None
    else
      var instr := WithoutNops(accessor.body);
      var expectedCount := if isGetter && accessor.isStatic then 2
        else if isGetter || accessor.isStatic then 3
        else 4;
      if |instr| != expectedCount then None
      else if isGetter && accessor.isStatic then
        if instr[0].code == Ldsfld && instr[0].operand.FieldDef? && instr[1].code == Ret
        then Some(instr[0].operand.field) else None
      else if isGetter then
        if instr[0].code == Ldarg0 && instr[1].code == Ldfld && instr[1].operand.FieldDef? && instr[2].code == Ret
        then Some(instr[1].operand.field) else None
      else if accessor.isStatic then
        if instr[0].code == Ldarg0 && instr[1].code == Stsfld && instr[1].operand.FieldDef? && instr[2].code == Ret
        then Some(instr[1].operand.field) else None
      else
        if instr[0].code == Ldarg0 && instr[1].code == Ldarg1 && instr[2].code == Stfld
           && instr[2].operand.FieldDef? && instr[3].code == Ret
        then Some(instr[2].operand.field) else None
  }

  /** TryParseAccessor finds a field exactly for the trivial accessors, and
      they have 2, 3, 3 or 4 instructions besides Nops. */
  lemma TryParseAccessorMeaning(accessor: MethodInfo, isGetter: bool, f: nat)
    ensures TryParseAccessor(accessor, isGetter) == Some(f) <==> IsTrivialAccessor(accessor, isGetter, f)
    ensures TryParseAccessor(accessor, isGetter).Some? ==>
      |WithoutNops(accessor.body)| == (if isGetter then 2 else 3) + (if accessor.isStatic then 0 else 1)
  {
    var instrs := WithoutNops(accessor.body);
    var shape := AccessorShape(isGetter, accessor.isStatic);
    if HasShape(instrs, shape) {
      assert forall k :: 0 <= k < |shape| ==> instrs[k].code == shape[k];
    }
  }

  /** A property is an auto-property with backing field `f`: it has a getter,
      a setter (if any) agrees with it on static-ness, both are trivial
      accessors of `f`, and `f` is private and declared in the property's
      own type. */
  ghost predicate IsAutoProperty(m: Module, p: PropertyInfo, f: nat)
    requires WellFormed(m) && p in m.properties
  {
    p.getMethod.Some?
    && IsTrivialAccessor(m.methods[p.getMethod.value], true, f)
    && (p.setMethod.Some? ==>
          m.methods[p.setMethod.value].isStatic == m.methods[p.getMethod.value].isStatic
          && IsTrivialAccessor(m.methods[p.setMethod.value], false, f))
    && f < |m.fields| && m.fields[f].isPrivate
    && m.fields[f].declaringType == p.declaringType
  }

  /** TryGetAutoProperty. */
  function TryGetAutoProperty(m: Module, p: PropertyInfo): Option<nat>
    requires WellFormed(m) && p in m.properties
  {
    if p.getMethod.None? then None
    else
      var getter := m.methods[p.getMethod.value];
      var isStatic := getter.isStatic;
      var hasSetter := p.setMethod.Some?;
      if hasSetter && m.methods[p.setMethod.value].isStatic != isStatic then None
      else match TryParseAccessor(getter, true)
        case None => None
        case Some(f1) =>
          TryParseAccessorMeaning(getter, true, f1);
          FieldIsDefined(m, getter, true, f1);
          if hasSetter && TryParseAccessor(m.methods[p.setMethod.value], false) != Some(f1) then None
          else if !m.fields[f1].isPrivate then None
          else if p.declaringType != m.fields[f1].declaringType then None
          else Some(f1)
  }

  /** TryGetAutoProperty finds a field exactly for the auto-properties. */
  lemma TryGetAutoPropertyMeaning(m: Module, p: PropertyInfo, f: nat)
    requires WellFormed(m) && p in m.properties
    ensures TryGetAutoProperty(m, p) == Some(f) <==> IsAutoProperty(m, p, f)
  {
    if p.getMethod.Some? {
      var getter := m.methods[p.getMethod.value];
      TryParseAccessorMeaning(getter, true, f);
      if TryParseAccessor(getter, true) == Some(f) {
        FieldIsDefined(m, getter, true, f);
      }
      if p.setMethod.Some? {
        TryParseAccessorMeaning(m.methods[p.setMethod.value], false, f);
      }
    }
  }

  /** The field a trivial accessor names is a field definition of the module. */
  lemma FieldIsDefined(m: Module, accessor: MethodInfo, isGetter: bool, f: nat)
    requires WellFormed(m) && accessor in m.methods && IsTrivialAccessor(accessor, isGetter, f)
    ensures f < |m.fields|
  {
    var instrs := WithoutNops(accessor.body);
    WithoutNopsMembers(accessor.body);
    assert FieldsDefined(m, accessor);
    assert instrs[FieldSlot(isGetter, accessor.isStatic)] in accessor.body;
  }

  // ----- The replacement table -----

  /** What a call to an accessor becomes: the field load for a getter, the
      field store for a setter, static or not as the accessor is. */
  function LoadCode(isStatic: bool): Code {
    if isStatic then Ldsfld else Ldfld
  }

  function StoreCode(isStatic: bool): Code {
    if isStatic then Stsfld else Stfld
  }

  type Table = map<nat, (Code, nat)>

  /** One property's entries, added to the table; adding a method already in
      the table is Dictionary.Add's duplicate-key error. */
  function AddProperty(m: Module, table: Table, p: PropertyInfo): (r: Result<Table, string>)
    requires WellFormed(m) && p in m.properties
  {
    match TryGetAutoProperty(m, p)
    case None => Ok(table)
    case Some(f) =>
      var g: nat := p.getMethod.value;
      if g in table then Err("duplicate key")
      else
        var withGetter: Table := table[g := (LoadCode(m.methods[g].isStatic), f)];
        match p.setMethod
        case None => Ok(withGetter)
        case Some(s) =>
          if s in withGetter then Err("duplicate key")
          else
            var withSetter: Table := withGetter[s := (StoreCode(m.methods[s].isStatic), f)];
            Ok(withSetter)
  }

  /** GetReplacements over the first n properties, in order. */
  function Replacements(m: Module, n: nat): Result<Table, string>
    requires WellFormed(m) && n <= |m.properties|
  {
    if n == 0 then Ok(map[])
    else match Replacements(m, n - 1)
      case Err(e) => Err(e)
      case Ok(table) => AddProperty(m, table, m.properties[n - 1])
  }

  /** `accessor` is the getter of property `p` with backing field `f` and the
      table entry for it is the matching load. */
  ghost predicate GetterEntry(m: Module, p: PropertyInfo, accessor: nat, entry: (Code, nat))
    requires WellFormed(m) && p in m.properties
  {
    p.getMethod == Some(accessor) && TryGetAutoProperty(m, p) == Some(entry.1)
    && entry.0 == LoadCode(m.methods[accessor].isStatic)
  }

  ghost predicate SetterEntry(m: Module, p: PropertyInfo, accessor: nat, entry: (Code, nat))
    requires WellFormed(m) && p in m.properties
  {
    p.setMethod == Some(accessor) && TryGetAutoProperty(m, p) == Some(entry.1)
    && entry.0 == StoreCode(m.methods[accessor].isStatic)
  }

  ghost predicate EntryFrom(m: Module, k: nat, accessor: nat, entry: (Code, nat))
    requires WellFormed(m) && k < |m.properties|
  {
    GetterEntry(m, m.properties[k], accessor, entry) || SetterEntry(m, m.properties[k], accessor, entry)
  }

  /** Each table entry comes from an auto-property among the first n: its
      getter maps to the field load, its setter to the field store. */
  lemma {:induction false} ReplacementsSound(m: Module, n: nat, table: Table)
    requires WellFormed(m) && n <= |m.properties| && Replacements(m, n) == Ok(table)
    ensures forall accessor :: accessor in table ==>
      exists k :: 0 <= k < n &&
        EntryFrom(m, k, accessor, table[accessor])
  {
    if n > 0 {
      var prev := Replacements(m, n - 1).value;
      ReplacementsSound(m, n - 1, prev);
      var p := m.properties[n - 1];
      forall accessor | accessor in table
        ensures exists k :: 0 <= k < n && EntryFrom(m, k, accessor, table[accessor])
      {
        if accessor in prev && table[accessor] == prev[accessor] {
          var k :| 0 <= k < n - 1 && EntryFrom(m, k, accessor, prev[accessor]);
        } else {
          assert p in m.properties;
          assert EntryFrom(m, n - 1, accessor, table[accessor]);
        }
      }
    }
  }

  /** Every accessor of an auto-property among the first n is in the table. */
  lemma {:induction false} ReplacementsComplete(m: Module, n: nat, table: Table, k: nat)
    requires WellFormed(m) && n <= |m.properties| && Replacements(m, n) == Ok(table)
    requires k < n && TryGetAutoProperty(m, m.properties[k]).Some?
    ensures m.properties[k].getMethod.value in table
    ensures m.properties[k].setMethod.Some? ==> m.properties[k].setMethod.value in table
  {
    var prev := Replacements(m, n - 1).value;
    if k < n - 1 {
      ReplacementsComplete(m, n - 1, prev, k);
    }
  }

  /** GetReplacements: the table, built by one pass over the properties. */
  method GetReplacements(m: Module) returns (r: Result<Table, string>)
    requires WellFormed(m)
    ensures r == Replacements(m, |m.properties|)
  {
    var table: Table := map[];
    var n := 0;
    while n < |m.properties|
      invariant n <= |m.properties|
      invariant Replacements(m, n) == Ok(table)
    {
      var p := m.properties[n];
      var field := TryGetAutoProperty(m, p);
      if field.Some? {
        var getter := p.getMethod.value;
        if getter in table {
          ErrorPersists(m, n + 1);
          return Err("duplicate key");
        }
        table := table[getter := (LoadCode(m.methods[getter].isStatic), field.value)];
        if p.setMethod.Some? {
          var setter := p.setMethod.value;
          if setter in table {
            ErrorPersists(m, n + 1);
            return Err("duplicate key");
          }
          table := table[setter := (StoreCode(m.methods[setter].isStatic), field.value)];
        }
      }
      n := n + 1;
    }
    return Ok(table);
  }

  /** Once adding a property fails, the whole table fails. */
  lemma {:induction false} ErrorPersists(m: Module, n: nat)
    requires WellFormed(m) && n <= |m.properties| && Replacements(m, n).Err?
    ensures Replacements(m, |m.properties|) == Err("duplicate key")
    decreases |m.properties| - n
  {
    if n < |m.properties| {
      ErrorPersists(m, n + 1);
    } else {
      ErrorIsDuplicate(m, n);
    }
  }

  lemma {:induction false} ErrorIsDuplicate(m: Module, n: nat)
    requires WellFormed(m) && n <= |m.properties| && Replacements(m, n).Err?
    ensures Replacements(m, n) == Err("duplicate key")
  {
    if Replacements(m, n - 1).Err? {
      ErrorIsDuplicate(m, n - 1);
    }
  }

  // ----- Rewriting the calls -----

  /** The instruction calls a method of the table, from a method of the
      declaring type of that entry's field. */
  predicate CallsAccessorOfOwnType(instr: Instr, table: Table, callerType: nat, fields: seq<FieldInfo>)
    requires forall accessor :: accessor in table ==> table[accessor].1 < |fields|
  {
    (instr.code == Code.Call || instr.code == Callvirt) && instr.operand.MethodDef?
    && instr.operand.methodDef in table
    && fields[table[instr.operand.methodDef].1].declaringType == callerType
  }

  /** Such a call becomes the entry's field access; the instruction keeps its
      identity and everything but opcode and operand. Any other instruction
      is left alone. */
  function Rewrite(instr: Instr, table: Table, callerType: nat, fields: seq<FieldInfo>): (r: Instr)
    requires forall accessor :: accessor in table ==> table[accessor].1 < |fields|
    ensures r.id == instr.id && r.offset == instr.offset && r.sequencePoint == instr.sequencePoint
    ensures !CallsAccessorOfOwnType(instr, table, callerType, fields) ==> r == instr
    ensures CallsAccessorOfOwnType(instr, table, callerType, fields) ==>
      r.code == table[instr.operand.methodDef].0 && r.operand == FieldDef(table[instr.operand.methodDef].1)
  {
    if !(instr.code == Code.Call || instr.code == Callvirt) || !instr.operand.MethodDef? then instr
    else
      var called := instr.operand.methodDef;
      if called !in table then instr
      else
        var (code, field) := table[called];
        if callerType != fields[field].declaringType then instr
        else instr.(code := code, operand := FieldDef(field))
  }

  /** The per-method loop of Execute: every instruction of the body is
      rewritten in place. */
  method InlineCalls(body: array<Instr>, table: Table, callerType: nat, fields: seq<FieldInfo>)
    requires forall accessor :: accessor in table ==> table[accessor].1 < |fields|
    modifies body
    ensures forall k :: 0 <= k < body.Length ==> body[k] == Rewrite(old(body[k]), table, callerType, fields)
  {
    var k := 0;
    while k < body.Length
      invariant k <= body.Length
      invariant forall j :: 0 <= j < k ==> body[j] == Rewrite(old(body[j]), table, callerType, fields)
      invariant forall j :: k <= j < body.Length ==> body[j] == old(body[j])
    {
      var instr := body[k];
      if (instr.code == Code.Call || instr.code == Callvirt) && instr.operand.MethodDef? {
        var called := instr.operand.methodDef;
        if called in table {
          var (code, field) := table[called];
          if callerType == fields[field].declaringType {
            body[k] := instr.(code := code, operand := FieldDef(field));
          }
        }
      }
      k := k + 1;
    }
  }

  /** The fields named by the table are fields of the module. */
  lemma TableFieldsDefined(m: Module, table: Table)
    requires WellFormed(m) && Replacements(m, |m.properties|) == Ok(table)
    ensures forall accessor :: accessor in table ==> table[accessor].1 < |m.fields|
  {
    ReplacementsSound(m, |m.properties|, table);
    forall accessor | accessor in table
      ensures table[accessor].1 < |m.fields|
    {
      var k :| 0 <= k < |m.properties| && EntryFrom(m, k, accessor, table[accessor]);
      TryGetAutoPropertyMeaning(m, m.properties[k], table[accessor].1);
    }
  }
}
