/** The slice of a CIL method body that the transforms look at: instructions,
    their operands and flow-control kinds, and exception handlers.

    A dnlib Instruction is a mutable object referred to by identity (branch
    operands, switch tables and exception handlers hold references to it). The
    model gives every instruction an `id`; a reference is that id, and an
    update "in place" keeps the id while replacing the other fields. */
module Cil {
  import opened Wrappers

  /** The identity of an instruction object. */
  type InstrId = nat

  /** A UTF-16 code unit (a .NET `char`); a .NET string is a sequence of them. */
  type CodeUnit = x: int | 0 <= x < 0x1_0000

  /** dnlib's FlowControl enumeration. */
  datatype FlowControl = Branch | Break | Call | CondBranch | Meta | Next | Phi | Return | Throw

  /** The opcodes the transforms create or test for by name; every other opcode is
      `Other`, carrying its flow-control kind. */
  datatype Code =
    | Nop | Ldarg0 | Ldarg1 | LdcI4 | Ldloc | Stloc | Ldstr
    | Ldfld | Ldsfld | Stfld | Stsfld
    | Add | RemUn | Dup
    | Br | Switch | Ret | Jmp | Call | Callvirt
    | Other(flowControl: FlowControl)

  /** OpCode.FlowControl for each opcode. */
  function FlowOf(c: Code): FlowControl {
    match c
    case Br => Branch
    case Switch => CondBranch
    case Ret => Return
    case Jmp => FlowControl.Call
    case Call => FlowControl.Call
    case Callvirt => FlowControl.Call
    case Other(f) => f
    case _ => Next
  }

  /** An operand: `NoOperand` is a null operand; field and method operands name a
      definition (`...Def`) or a reference to one in another module (`...Ref`). */
  datatype Operand =
    | NoOperand
    | Int(value: int)
    | Str(text: seq<CodeUnit>)
    | Local(local: nat)
    | Target(target: InstrId)
    | Targets(targets: seq<InstrId>)
    | FieldDef(field: nat)
    | FieldRef(fieldRef: nat)
    | MethodDef(methodDef: nat)
    | MethodRef(methodRef: nat)

  /** How many stack slots an instruction pops; `ClearStack` is dnlib's -1 (the
      instruction empties the evaluation stack). */
  datatype Pops = ClearStack | Pop(count: nat)

  /** An instruction; `pushes`/`pops` are what dnlib's CalculateStackUsage
      reports for it. */
  datatype Instr = Instr(
    id: InstrId,
    code: Code,
    operand: Operand,
    offset: nat,
    sequencePoint: Option<nat>,
    pushes: nat,
    pops: Pops)
  {
    function Flow(): FlowControl {
      FlowOf(code)
    }
  }

  datatype HandlerKind = Catch | Filter | Finally | Fault

  /** An exception handler; each boundary is a reference to an instruction or
      null. */
  datatype ExceptionHandler = ExceptionHandler(
    tryStart: Option<InstrId>,
    tryEnd: Option<InstrId>,
    filterStart: Option<InstrId>,
    handlerStart: Option<InstrId>,
    handlerEnd: Option<InstrId>,
    kind: HandlerKind)

  /** List<Instruction>.IndexOf: the first position holding the instruction with
      this identity, or None (the source's -1). */
  function IndexOf(instrs: seq<Instr>, id: InstrId): (r: Option<nat>)
    ensures r.Some? ==> r.value < |instrs| && instrs[r.value].id == id
    ensures r.Some? ==> forall k :: 0 <= k < r.value ==> instrs[k].id != id
    ensures r.None? <==> forall k :: 0 <= k < |instrs| ==> instrs[k].id != id
  {
    if |instrs| == 0 then None
    else if instrs[0].id == id then Some(0)
    else match IndexOf(instrs[1..], id)
      case None => None
      case Some(k) => Some(k + 1)
  }

  /** IndexOf on a possibly null reference: null is never found. */
  function IndexOfRef(instrs: seq<Instr>, ref: Option<InstrId>): (r: Option<nat>)
    ensures ref.None? ==> r.None?
    ensures ref.Some? ==> r == IndexOf(instrs, ref.value)
  {
    match ref
    case None => None
    case Some(id) => IndexOf(instrs, id)
  }

  /** The identities of a list of instructions. */
  function Ids(instrs: seq<Instr>): (r: seq<InstrId>)
    ensures |r| == |instrs|
    ensures forall k :: 0 <= k < |instrs| ==> r[k] == instrs[k].id
  {
    if |instrs| == 0 then [] else Ids(instrs[..|instrs| - 1]) + [instrs[|instrs| - 1].id]
  }

  lemma IdsAppend(a: seq<Instr>, b: seq<Instr>)
    ensures Ids(a + b) == Ids(a) + Ids(b)
  {
  }

  predicate DistinctIds(instrs: seq<Instr>) {
    forall j, k :: 0 <= j < k < |instrs| ==> instrs[j].id != instrs[k].id
  }

  // ----- The instructions the transforms create (Emit.NoOp, Emit.Load, ...) -----

  function NopInstr(id: InstrId): Instr {
    Instr(id, Nop, NoOperand, 0, None, 0, Pop(0))
  }

  function LoadInt(id: InstrId, value: int): Instr {
    Instr(id, LdcI4, Int(value), 0, None, 1, Pop(0))
  }

  function LoadLocal(id: InstrId, local: nat): Instr {
    Instr(id, Ldloc, Local(local), 0, None, 1, Pop(0))
  }

  function StoreLocal(id: InstrId, local: nat): Instr {
    Instr(id, Stloc, Local(local), 0, None, 0, Pop(1))
  }

  function AddInstr(id: InstrId): Instr {
    Instr(id, Add, NoOperand, 0, None, 1, Pop(2))
  }

  function RemUnInstr(id: InstrId): Instr {
    Instr(id, RemUn, NoOperand, 0, None, 1, Pop(2))
  }

  function DupInstr(id: InstrId): Instr {
    Instr(id, Dup, NoOperand, 0, None, 2, Pop(1))
  }

  function SwitchInstr(id: InstrId, table: seq<InstrId>): Instr {
    Instr(id, Switch, Targets(table), 0, None, 0, Pop(1))
  }

  function GotoInstr(id: InstrId, target: InstrId): Instr {
    Instr(id, Br, Target(target), 0, None, 0, Pop(0))
  }
}
