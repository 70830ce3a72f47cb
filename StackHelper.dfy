/** The stack-height analyser: from the method entry and the exception-handler
    entries it follows every path through the instruction list and gives each
    reached instruction exactly one evaluation-stack height, failing when the
    code breaks the stack-consistency rule of ECMA-335 Partition III, section 1.7.

    The specification is `Solution`: an assignment of heights to instructions
    that holds at every entry point and is closed under the successor rules.
    `StackHelper.ExploreAll` succeeds exactly when a solution exists, and then
    leaves the least solution (the heights of the reachable instructions only)
    in `stackHeights`. */
module StackHelper {
  import opened Wrappers
  import opened Cil

  /** Heights are `ushort`: the source's additions wrap modulo 2^16. */
  const UShortMod: nat := 0x1_0000

  datatype StackError =
    | InstructionNotFound(target: Option<InstrId>)
    | InconsistentStackHeight(index: nat, height: nat, previous: nat)
    | NegativeStack(index: nat)
    | BadStackAtReturn(index: nat, height: nat)
    | UnknownFlowControl(index: nat)
    | IndexOutOfRange(position: int)
    | InvalidCast(index: nat)
    | NullReference(index: nat)

  /** The height after the instruction's own stack effect, or None when it would
      pop more than the stack holds. */
  function After(ins: Instr, h: nat): (r: Option<nat>)
    ensures r.None? <==> ins.pops.Pop? && h < ins.pops.count
    ensures ins.pops.ClearStack? ==> r == Some(0)
    ensures r.Some? && ins.pops.Pop? ==> (r.value - (h - ins.pops.count + ins.pushes)) % UShortMod == 0
    ensures r.Some? ==> r.value < UShortMod
  {
    match ins.pops
    case ClearStack => Some(0)
    case Pop(n) => if h < n then None else Some((h - n + ins.pushes) % UShortMod)
  }

  /** The positions of a switch table's targets, failing on the first one that
      is not in the list. */
  function Resolve(instrs: seq<Instr>, ts: seq<InstrId>): (r: Result<seq<nat>, StackError>)
    ensures r.Ok? <==> forall k :: 0 <= k < |ts| ==> IndexOf(instrs, ts[k]).Some?
    ensures r.Ok? ==> |r.value| == |ts|
    ensures r.Ok? ==> forall k :: 0 <= k < |ts| ==> r.value[k] == IndexOf(instrs, ts[k]).value
  {
    if |ts| == 0 then Ok([])
    else
      match IndexOf(instrs, ts[0])
      case None => Err(InstructionNotFound(Some(ts[0])))
      case Some(j) =>
        match Resolve(instrs, ts[1..])
        case Err(e) => Err(e)
        case Ok(js) => Ok([j] + js)
  }

  /** Where exploration goes after the instruction at i, in the order it goes
      there; an index equal to |instrs| means falling off the end. */
  function Successors(instrs: seq<Instr>, i: nat): Result<seq<nat>, StackError>
    requires i < |instrs|
  {
    var ins := instrs[i];
    match ins.Flow()
    case Break => if ins.code == Jmp then Ok([]) else Ok([i + 1])
    case Call => if ins.code == Jmp then Ok([]) else Ok([i + 1])
    case Meta => if ins.code == Jmp then Ok([]) else Ok([i + 1])
    case Next => if ins.code == Jmp then Ok([]) else Ok([i + 1])
    case Return => Ok([])
    case Throw => Ok([])
    case Branch =>
      (match ins.operand
       case Target(t) => (match IndexOf(instrs, t)
                          case Some(j) => Ok([j])
                          case None => Err(InstructionNotFound(Some(t))))
       case NoOperand => Err(InstructionNotFound(None))
       case _ => Err(InvalidCast(i)))
    case CondBranch =>
      if ins.code == Switch then
        (match ins.operand
         case Targets(ts) => (match Resolve(instrs, ts)
                              case Ok(js) => Ok(js + [i + 1])
                              case Err(e) => Err(e))
         case NoOperand => Err(NullReference(i))
         case _ => Err(InvalidCast(i)))
      else
        (match ins.operand
         case Target(t) => (match IndexOf(instrs, t)
                            case Some(j) => Ok([j, i + 1])
                            case None => Err(InstructionNotFound(Some(t))))
         case NoOperand => Err(InstructionNotFound(None))
         case _ => Err(InvalidCast(i)))
    case Phi => Err(UnknownFlowControl(i))
  }

  /** The instruction at p has a height in H, its stack effect does not
      underflow, a return leaves at most one value, and every successor is in
      the list with the height after p -- except the one `pending` edge, when
      given, which exploration has not followed yet. */
  ghost predicate Consistent(instrs: seq<Instr>, H: seq<Option<nat>>, p: int, pending: Option<(int, nat)>)
    requires |H| == |instrs|
  {
    0 <= p < |instrs| && H[p].Some? &&
    var a := After(instrs[p], H[p].value);
    a.Some? &&
    (instrs[p].Flow() == Return ==> a.value <= 1) &&
    Successors(instrs, p).Ok? &&
    forall s :: s in Successors(instrs, p).value ==>
      (s < |H| && H[s] == Some(a.value)) || pending == Some((s, a.value))
  }

  ghost predicate LocalOk(instrs: seq<Instr>, H: seq<Option<nat>>, p: int)
    requires |H| == |instrs|
  {
    Consistent(instrs, H, p, None)
  }

  /** A handler's filter is entered with the exception object on the stack. */
  function FilterEntry(instrs: seq<Instr>, eh: ExceptionHandler): Result<seq<(nat, nat)>, StackError> {
    if eh.filterStart.None? then Ok([])
    else match IndexOf(instrs, eh.filterStart.value)
      case None => Err(InstructionNotFound(eh.filterStart))
      case Some(j) => Ok([(j, 1)])
  }

  /** A handler block is entered with the exception object on the stack for
      catch and filter handlers, and with an empty stack for finally and fault
      handlers. */
  function HandlerEntry(instrs: seq<Instr>, eh: ExceptionHandler): Result<seq<(nat, nat)>, StackError> {
    if eh.handlerStart.None? then Ok([])
    else match IndexOf(instrs, eh.handlerStart.value)
      case None => Err(InstructionNotFound(eh.handlerStart))
      case Some(j) => Ok([(j, if eh.kind == Catch || eh.kind == Filter then 1 else 0)])
  }

  /** The entry points of one handler, filter first. */
  function HandlerEntries(instrs: seq<Instr>, eh: ExceptionHandler): Result<seq<(nat, nat)>, StackError> {
    var filter := FilterEntry(instrs, eh);
    var handler := HandlerEntry(instrs, eh);
    if filter.Err? then filter
    else if handler.Err? then handler
    else Ok(filter.value + handler.value)
  }

  /** All entry points: the first instruction with an empty stack, then every
      handler's in order. */
  function Entries(instrs: seq<Instr>, handlers: seq<ExceptionHandler>): Result<seq<(nat, nat)>, StackError>
  {
    if |handlers| == 0 then Ok([(0, 0)])
    else
      match Entries(instrs, handlers[..|handlers| - 1])
      case Err(e) => Err(e)
      case Ok(es) =>
        match HandlerEntries(instrs, handlers[|handlers| - 1])
        case Err(e) => Err(e)
        case Ok(hs) => Ok(es + hs)
  }

  ghost predicate EntriesHold(H: seq<Option<nat>>, es: seq<(nat, nat)>) {
    forall e :: e in es ==> e.0 < |H| && H[e.0] == Some(e.1)
  }

  /** A consistent assignment of stack heights: every entry point has its
      height and every instruction with a height is locally consistent. */
  ghost predicate Solution(instrs: seq<Instr>, handlers: seq<ExceptionHandler>, H: seq<Option<nat>>) {
    |H| == |instrs| &&
    Entries(instrs, handlers).Ok? &&
    EntriesHold(H, Entries(instrs, handlers).value) &&
    forall p :: 0 <= p < |H| && H[p].Some? ==> LocalOk(instrs, H, p)
  }

  /** A agrees with B wherever A has a height. */
  ghost predicate Below(A: seq<Option<nat>>, B: seq<Option<nat>>) {
    |A| == |B| && forall i :: 0 <= i < |A| && A[i].Some? ==> B[i] == A[i]
  }

  ghost predicate IsLeastSolution(instrs: seq<Instr>, handlers: seq<ExceptionHandler>, H: seq<Option<nat>>) {
    Solution(instrs, handlers, H) &&
    forall G :: Solution(instrs, handlers, G) ==> Below(H, G)
  }

  /** There is at most one least solution. */
  lemma LeastSolutionUnique(instrs: seq<Instr>, handlers: seq<ExceptionHandler>, A: seq<Option<nat>>, B: seq<Option<nat>>)
    requires IsLeastSolution(instrs, handlers, A) && IsLeastSolution(instrs, handlers, B)
    ensures A == B
  {
    assert Below(A, B) && Below(B, A);
    forall i | 0 <= i < |A|
      ensures A[i] == B[i]
    {
      if A[i].None? && B[i].Some? {
        assert A[i] == B[i];
      }
    }
  }

  /** The largest recorded height, or 0 when none is recorded
      (`stackHeights.Max() ?? 0`). */
  function MaxHeight(s: seq<Option<nat>>): (r: nat)
    ensures forall i :: 0 <= i < |s| && s[i].Some? ==> s[i].value <= r
    ensures r == 0 || exists i :: 0 <= i < |s| && s[i] == Some(r)
  {
    if |s| == 0 then 0
    else
      var m := MaxHeight(s[..|s| - 1]);
      var last := s[|s| - 1].GetOr(0);
      assert forall i :: 0 <= i < |s| - 1 ==> s[..|s| - 1][i] == s[i];
      if last > m then last else m
  }

  lemma MaxHeightUpdate(s: seq<Option<nat>>, i: nat, h: nat)
    requires i < |s| && s[i].None?
    ensures MaxHeight(s[i := Some(h)]) == if h > MaxHeight(s) then h else MaxHeight(s)
  {
    var t := s[i := Some(h)];
    var m, n := MaxHeight(t), MaxHeight(s);
    assert t[i] == Some(h);
    if n != 0 {
      var k :| 0 <= k < |s| && s[k] == Some(n);
      assert t[k] == s[k];
    }
    if m != 0 {
      var k :| 0 <= k < |t| && t[k] == Some(m);
      if k != i {
        assert s[k] == t[k];
      }
    }
  }

  /** The number of instructions not reached yet. */
  function NoneCount(s: seq<Option<nat>>): nat {
    if |s| == 0 then 0 else NoneCount(s[..|s| - 1]) + (if s[|s| - 1].None? then 1 else 0)
  }

  lemma {:induction false} NoneCountBelow(a: seq<Option<nat>>, b: seq<Option<nat>>)
    requires Below(a, b)
    ensures NoneCount(b) <= NoneCount(a)
    decreases |a|
  {
    if |a| > 0 {
      NoneCountBelow(a[..|a| - 1], b[..|b| - 1]);
    }
  }

  lemma {:induction false} NoneCountUpdate(s: seq<Option<nat>>, i: nat, h: nat)
    requires i < |s| && s[i].None?
    ensures NoneCount(s[i := Some(h)]) < NoneCount(s)
    decreases |s|
  {
    var t := s[i := Some(h)];
    if i < |s| - 1 {
      assert t[..|t| - 1] == s[..|s| - 1][i := Some(h)];
      NoneCountUpdate(s[..|s| - 1], i, h);
    } else {
      assert t[..|t| - 1] == s[..|s| - 1];
    }
  }


  /** Every instruction with a height, except those in `open`, is locally
      consistent. */
  ghost predicate OkExcept(instrs: seq<Instr>, H: seq<Option<nat>>, open: set<int>)
    requires |H| == |instrs|
  {
    forall p :: 0 <= p < |H| && H[p].Some? && p !in open ==> LocalOk(instrs, H, p)
  }

  ghost predicate BelowSolutions(instrs: seq<Instr>, handlers: seq<ExceptionHandler>, A: seq<Option<nat>>) {
    forall G :: Solution(instrs, handlers, G) ==> Below(A, G)
  }

  /** An exploration that stopped: every recorded instruction outside `open` is
      consistent, and every solution agrees with what is recorded. */
  ghost predicate Finished(instrs: seq<Instr>, handlers: seq<ExceptionHandler>, H: seq<Option<nat>>, open: set<int>)
    requires |H| == |instrs|
  {
    OkExcept(instrs, H, open) && BelowSolutions(instrs, handlers, H)
  }

  /** An exploration that goes on from i to `next.0` with height `next.1`: i is
      consistent but for that edge, and every solution gives the target that
      height. */
  ghost predicate Continues(instrs: seq<Instr>, handlers: seq<ExceptionHandler>, H: seq<Option<nat>>,
                            open: set<int>, i: int, next: (int, nat))
    requires |H| == |instrs|
  {
    OkExcept(instrs, H, open + {i}) &&
    Consistent(instrs, H, i, Some(next)) &&
    forall G :: Solution(instrs, handlers, G) ==>
      Below(H, G) && 0 <= next.0 < |G| && G[next.0] == Some(next.1)
  }

  /** Consistency survives recording more heights. */
  lemma ConsistentGrows(instrs: seq<Instr>, A: seq<Option<nat>>, B: seq<Option<nat>>, p: int, pending: Option<(int, nat)>)
    requires |A| == |instrs| && Below(A, B)
    requires Consistent(instrs, A, p, pending)
    ensures Consistent(instrs, B, p, pending)
  {
  }

  /** Once the pending edge's target holds its height, the instruction is
      consistent outright. */
  lemma ResolvePending(instrs: seq<Instr>, H: seq<Option<nat>>, p: int, i: int, h: nat)
    requires |H| == |instrs| && 0 <= i < |H| && H[i] == Some(h)
    requires Consistent(instrs, H, p, Some((i, h)))
    ensures LocalOk(instrs, H, p)
  {
  }

  /** Recording height h at i, which every solution gives i, keeps the
      invariants of the exploration: the instruction whose edge led here is now
      consistent, i itself becomes the open one, and every solution still
      agrees with what is recorded. */
  lemma Record(instrs: seq<Instr>, handlers: seq<ExceptionHandler>, A: seq<Option<nat>>,
               i: int, h: nat, open: set<int>, prev: int)
    requires |A| == |instrs| && 0 <= i < |A| && A[i].None?
    requires prev == -1 ==> OkExcept(instrs, A, open)
    requires prev != -1 ==> OkExcept(instrs, A, open + {prev}) && Consistent(instrs, A, prev, Some((i, h)))
    requires forall G :: Solution(instrs, handlers, G) ==> Below(A, G) && 0 <= i < |G| && G[i] == Some(h)
    ensures OkExcept(instrs, A[i := Some(h)], open + {i})
    ensures BelowSolutions(instrs, handlers, A[i := Some(h)])
  {
    var B := A[i := Some(h)];
    assert Below(A, B);
    forall p | 0 <= p < |B| && B[p].Some? && p !in open + {i}
      ensures LocalOk(instrs, B, p)
    {
      if p == prev {
        ConsistentGrows(instrs, A, B, prev, Some((i, h)));
      } else {
        ConsistentGrows(instrs, A, B, p, None);
      }
    }
  }

  /** If every solution agrees with A at cur, each solution gives each
      successor of cur the height after cur. */
  lemma EdgeInEverySolution(instrs: seq<Instr>, handlers: seq<ExceptionHandler>, A: seq<Option<nat>>,
                            cur: nat, next: int, h': nat)
    requires |A| == |instrs| && cur < |A| && A[cur].Some?
    requires After(instrs[cur], A[cur].value) == Some(h')
    requires Successors(instrs, cur).Ok? ==> next in Successors(instrs, cur).value
    requires BelowSolutions(instrs, handlers, A)
    ensures forall G :: Solution(instrs, handlers, G) ==> 0 <= next < |G| && G[next] == Some(h')
  {
    forall G | Solution(instrs, handlers, G)
      ensures 0 <= next < |G| && G[next] == Some(h')
    {
      assert Below(A, G);
      assert LocalOk(instrs, G, cur);
    }
  }

  /** Moving on from cur to its last unexplored successor `next`. */
  lemma FollowEdge(instrs: seq<Instr>, handlers: seq<ExceptionHandler>, A: seq<Option<nat>>,
                   cur: nat, next: int, h': nat)
    requires |A| == |instrs| && cur < |A| && A[cur].Some?
    requires After(instrs[cur], A[cur].value) == Some(h')
    requires instrs[cur].Flow() != Return
    requires Successors(instrs, cur).Ok? && next in Successors(instrs, cur).value
    requires forall s :: s in Successors(instrs, cur).value ==> s == next || (s < |A| && A[s] == Some(h'))
    requires BelowSolutions(instrs, handlers, A)
    ensures Consistent(instrs, A, cur, Some((next, h')))
    ensures forall G :: Solution(instrs, handlers, G) ==> 0 <= next < |G| && G[next] == Some(h')
  {
    EdgeInEverySolution(instrs, handlers, A, cur, next, h');
  }

  /** The instruction at i cannot be consistent with height h. */
  predicate Stuck(instrs: seq<Instr>, i: nat, h: nat)
    requires i < |instrs|
  {
    After(instrs[i], h).None? ||
    (instrs[i].Flow() == Return && After(instrs[i], h).value > 1) ||
    Successors(instrs, i).Err?
  }

  /** Every solution that agrees with A at i makes i consistent with its
      height there, so an instruction stuck at the height A records rules
      out every solution. */
  lemma SolutionsUnstuck(instrs: seq<Instr>, handlers: seq<ExceptionHandler>, A: seq<Option<nat>>, i: nat)
    requires |A| == |instrs| && i < |A| && A[i].Some?
    requires BelowSolutions(instrs, handlers, A)
    ensures forall G :: Solution(instrs, handlers, G) ==> !Stuck(instrs, i, A[i].value)
  {
    forall G | Solution(instrs, handlers, G)
      ensures !Stuck(instrs, i, A[i].value)
    {
      assert Below(A, G);
      assert LocalOk(instrs, G, i);
    }
  }

  /** The successors of a switch: its resolved table, then the next instruction. */
  lemma SwitchSuccessors(instrs: seq<Instr>, i: nat)
    requires i < |instrs| && instrs[i].Flow() == CondBranch && instrs[i].code == Switch
    requires instrs[i].operand.Targets?
    ensures var js := Resolve(instrs, instrs[i].operand.targets);
      Successors(instrs, i) == if js.Ok? then Ok(js.value + [i + 1]) else Err(js.error)
  {
    var ins := instrs[i];
    var js := Resolve(instrs, ins.operand.targets);
    assert ins.operand == Targets(ins.operand.targets);
    assert Successors(instrs, i) == match js case Ok(t) => Ok(t + [i + 1]) case Err(e) => Err(e);
  }

  /** The successors of another conditional branch: its target, then the next
      instruction. */
  lemma CondSuccessors(instrs: seq<Instr>, i: nat)
    requires i < |instrs| && instrs[i].Flow() == CondBranch && instrs[i].code != Switch
    requires instrs[i].operand.Target?
    ensures var j := IndexOf(instrs, instrs[i].operand.target);
      Successors(instrs, i) == if j.Some? then Ok([j.value, i + 1]) else Err(InstructionNotFound(Some(instrs[i].operand.target)))
  {
    var ins := instrs[i];
    assert ins.Flow() == CondBranch && ins.code != Switch;
    assert ins.operand == Target(ins.operand.target);
  }

  /** The entries of a prefix of the handlers are entries of the whole list. */
  lemma {:induction false} EntriesPrefix(instrs: seq<Instr>, hs: seq<ExceptionHandler>, k: nat)
    requires k <= |hs|
    ensures Entries(instrs, hs).Ok? ==>
      Entries(instrs, hs[..k]).Ok? &&
      forall e :: e in Entries(instrs, hs[..k]).value ==> e in Entries(instrs, hs).value
    decreases |hs|
  {
    if k < |hs| {
      var front := hs[..|hs| - 1];
      assert front[..k] == hs[..k];
      EntriesPrefix(instrs, front, k);
    } else {
      assert hs[..k] == hs;
    }
  }

  /** Before exploring, nothing is recorded, and every solution gives the
      first instruction an empty stack. */
  lemma FirstEntry(instrs: seq<Instr>, handlers: seq<ExceptionHandler>, A: seq<Option<nat>>)
    requires |A| == |instrs| && forall i :: 0 <= i < |A| ==> A[i].None?
    ensures forall G :: Solution(instrs, handlers, G) ==> Below(A, G) && 0 < |G| && G[0] == Some(0)
  {
    forall G | Solution(instrs, handlers, G)
      ensures Below(A, G) && 0 < |G| && G[0] == Some(0)
    {
      EntriesPrefix(instrs, handlers, 0);
      assert handlers[..0] == [];
    }
  }

  /** Extending the prefix by one handler adds that handler's entries. */
  lemma EntriesStep(instrs: seq<Instr>, hs: seq<ExceptionHandler>, k: nat)
    requires k < |hs|
    ensures Entries(instrs, hs[..k + 1]) ==
      match Entries(instrs, hs[..k])
      case Err(e) => Err(e)
      case Ok(es) =>
        match HandlerEntries(instrs, hs[k])
        case Err(e) => Err(e)
        case Ok(more) => Ok(es + more)
  {
    assert hs[..k + 1][..k] == hs[..k];
  }

  lemma EntriesHoldGrows(A: seq<Option<nat>>, B: seq<Option<nat>>, es: seq<(nat, nat)>)
    requires Below(A, B) && EntriesHold(A, es)
    ensures EntriesHold(B, es)
  {
  }

  /** Every solution holds the entry points of each handler. */
  lemma HandlerEntriesOfSolutions(instrs: seq<Instr>, hs: seq<ExceptionHandler>, k: nat)
    requires k < |hs|
    ensures forall G :: Solution(instrs, hs, G) ==>
      HandlerEntries(instrs, hs[k]).Ok? && EntriesHold(G, HandlerEntries(instrs, hs[k]).value)
  {
    forall G | Solution(instrs, hs, G)
      ensures HandlerEntries(instrs, hs[k]).Ok? && EntriesHold(G, HandlerEntries(instrs, hs[k]).value)
    {
      EntriesPrefix(instrs, hs, k + 1);
      EntriesStep(instrs, hs, k);
    }
  }

  /** A finished exploration that holds every entry point is the least
      solution. */
  lemma Conclude(instrs: seq<Instr>, handlers: seq<ExceptionHandler>, H: seq<Option<nat>>)
    requires |H| == |instrs| && Finished(instrs, handlers, H, {})
    requires Entries(instrs, handlers).Ok? && EntriesHold(H, Entries(instrs, handlers).value)
    ensures IsLeastSolution(instrs, handlers, H)
    ensures exists G :: Solution(instrs, handlers, G)
  {
    assert Solution(instrs, handlers, H);
  }

  /** Every position in `at` has height h in H. */
  ghost predicate HeightsAt(H: seq<Option<nat>>, at: seq<nat>, h: nat) {
    forall s :: s in at ==> s < |H| && H[s] == Some(h)
  }

  lemma HeightsAtGrows(A: seq<Option<nat>>, B: seq<Option<nat>>, at: seq<nat>, h: nat)
    requires Below(A, B) && HeightsAt(A, at, h)
    ensures HeightsAt(B, at, h)
  {
  }

  /** done holds the positions of the first |done| entries of ts. */
  ghost predicate ResolvedPrefix(instrs: seq<Instr>, ts: seq<InstrId>, done: seq<nat>) {
    |done| <= |ts| && forall m :: 0 <= m < |done| ==> IndexOf(instrs, ts[m]) == Some(done[m])
  }

  lemma ResolvedExtend(instrs: seq<Instr>, ts: seq<InstrId>, done: seq<nat>, j: nat)
    requires ResolvedPrefix(instrs, ts, done) && |done| < |ts| && IndexOf(instrs, ts[|done|]) == Some(j)
    ensures ResolvedPrefix(instrs, ts, done + [j])
  {
  }

  /** A list found entry by entry is what Resolve returns. */
  lemma ResolveAll(instrs: seq<Instr>, ts: seq<InstrId>, js: seq<nat>)
    requires |js| == |ts| && ResolvedPrefix(instrs, ts, js)
    ensures Resolve(instrs, ts) == Ok(js)
  {
    var r := Resolve(instrs, ts);
    assert r.Ok?;
    assert r.value == js;
  }

  /** A switch whose table holds an instruction not in the list is stuck. */
  lemma TableTargetMissing(instrs: seq<Instr>, i: nat, k: nat)
    requires i < |instrs| && instrs[i].Flow() == CondBranch && instrs[i].code == Switch
    requires instrs[i].operand.Targets? && k < |instrs[i].operand.targets|
    requires IndexOf(instrs, instrs[i].operand.targets[k]).None?
    ensures Successors(instrs, i).Err?
  {
    SwitchSuccessors(instrs, i);
  }

  /** Each resolved table entry is a successor of the switch. */
  lemma TableTargetEdge(instrs: seq<Instr>, i: nat, k: nat)
    requires i < |instrs| && instrs[i].Flow() == CondBranch && instrs[i].code == Switch
    requires instrs[i].operand.Targets? && k < |instrs[i].operand.targets|
    requires IndexOf(instrs, instrs[i].operand.targets[k]).Some?
    ensures Successors(instrs, i).Ok? ==>
      IndexOf(instrs, instrs[i].operand.targets[k]).value in Successors(instrs, i).value
  {
    SwitchSuccessors(instrs, i);
    var js := Resolve(instrs, instrs[i].operand.targets);
    if js.Ok? {
      assert js.value[k] == IndexOf(instrs, instrs[i].operand.targets[k]).value;
      assert js.value[k] in js.value + [i + 1];
    }
  }

  /** The entries of a handler hold exactly when its filter's and its
      handler block's do. */
  lemma SplitHandlerEntries(instrs: seq<Instr>, eh: ExceptionHandler, H: seq<Option<nat>>)
    ensures (HandlerEntries(instrs, eh).Ok? && EntriesHold(H, HandlerEntries(instrs, eh).value)) <==>
      (FilterEntry(instrs, eh).Ok? && EntriesHold(H, FilterEntry(instrs, eh).value) &&
       HandlerEntry(instrs, eh).Ok? && EntriesHold(H, HandlerEntry(instrs, eh).value))
  {
    var f, g := FilterEntry(instrs, eh), HandlerEntry(instrs, eh);
    if f.Ok? && g.Ok? {
      assert forall e :: e in f.value + g.value <==> e in f.value || e in g.value;
    }
  }

  /** The analyser's state for one method body. */
  class StackHelper {
    const instructions: seq<Instr>
    const exceptionHandlers: seq<ExceptionHandler>
    const stackHeights: array<Option<nat>>
    var maxStack: nat

    ghost predicate Valid()
      reads this, stackHeights
    {
      stackHeights.Length == |instructions| &&
      maxStack == MaxHeight(stackHeights[..])
    }

    constructor(instrs: seq<Instr>, handlers: seq<ExceptionHandler>)
      ensures Valid()
      ensures instructions == instrs && exceptionHandlers == handlers
      ensures fresh(stackHeights)
      ensures forall i :: 0 <= i < stackHeights.Length ==> stackHeights[i].None?
      ensures maxStack == 0
    {
      instructions := instrs;
      exceptionHandlers := handlers;
      stackHeights := new Option<nat>[|instrs|](_ => None);
      maxStack := 0;
      new;
      assert forall i :: 0 <= i < stackHeights.Length ==> stackHeights[..][i].None?;
    }

    /** Follows every path from `index` with `height` on the stack. Instructions
        in `open` are those whose exploration an enclosing call has not
        finished. */
    method Explore(index: int, height: nat, ghost open: set<int>) returns (r: Result<(), StackError>)
      requires Valid() && OkExcept(instructions, stackHeights[..], open)
      requires forall G :: Solution(instructions, exceptionHandlers, G) ==>
        Below(stackHeights[..], G) && 0 <= index < |G| && G[index] == Some(height)
      modifies this, stackHeights
      ensures Valid()
      ensures Below(old(stackHeights[..]), stackHeights[..])
      ensures r.Ok? ==> Finished(instructions, exceptionHandlers, stackHeights[..], open)
      ensures r.Ok? ==> 0 <= index < stackHeights.Length && stackHeights[index] == Some(height)
      ensures r.Err? ==> forall G :: !Solution(instructions, exceptionHandlers, G)
      decreases NoneCount(stackHeights[..]), 2
    {
      ghost var entry := stackHeights[..];
      var i: int, h: nat := index, height;
      ghost var prev := -1;
      while true
        invariant Valid()
        invariant Below(entry, stackHeights[..])
        invariant NoneCount(stackHeights[..]) <= NoneCount(entry)
        invariant prev == -1 ==> i == index && h == height && OkExcept(instructions, stackHeights[..], open)
        invariant prev != -1 ==> OkExcept(instructions, stackHeights[..], open + {prev})
        invariant prev != -1 ==> Consistent(instructions, stackHeights[..], prev, Some((i, h)))
        invariant prev != -1 ==> 0 <= index < stackHeights.Length && stackHeights[index] == Some(height)
        invariant forall G :: Solution(instructions, exceptionHandlers, G) ==>
          Below(stackHeights[..], G) && 0 <= i < |G| && G[i] == Some(h)
        decreases NoneCount(stackHeights[..])
      {
        if !(0 <= i < stackHeights.Length) {
          return Err(IndexOutOfRange(i));
        }
        var previous := stackHeights[i];
        if previous.Some? {
          if previous.value != h {
            return Err(InconsistentStackHeight(i, h, previous.value));
          }
          if prev != -1 {
            ResolvePending(instructions, stackHeights[..], prev, i, h);
          }
          return Ok(());
        }
        ghost var before := stackHeights[..];
        var next := Visit(i, h, open, prev);
        if next.Err? {
          return Err(next.error);
        }
        assert 0 <= index < stackHeights.Length && stackHeights[index] == Some(height);
        if next.value.None? {
          return Ok(());
        }
        prev, i, h := i, next.value.value.0, next.value.value.1;
      }
    }

    /** Records height h at i and raises maxStack to it. */
    method Mark(i: nat, h: nat, ghost open: set<int>, ghost prev: int)
      requires Valid() && i < stackHeights.Length && stackHeights[i].None?
      requires prev == -1 ==> OkExcept(instructions, stackHeights[..], open)
      requires prev != -1 ==> OkExcept(instructions, stackHeights[..], open + {prev})
      requires prev != -1 ==> Consistent(instructions, stackHeights[..], prev, Some((i, h)))
      requires forall G :: Solution(instructions, exceptionHandlers, G) ==>
        Below(stackHeights[..], G) && i < |G| && G[i] == Some(h)
      modifies this, stackHeights
      ensures Valid()
      ensures stackHeights[..] == old(stackHeights[..])[i := Some(h)]
      ensures Below(old(stackHeights[..]), stackHeights[..])
      ensures NoneCount(stackHeights[..]) < NoneCount(old(stackHeights[..]))
      ensures OkExcept(instructions, stackHeights[..], open + {i})
      ensures BelowSolutions(instructions, exceptionHandlers, stackHeights[..])
    {
      ghost var before := stackHeights[..];
      stackHeights[i] := Some(h);
      assert stackHeights[..] == before[i := Some(h)];
      MaxHeightUpdate(before, i, h);
      NoneCountUpdate(before, i, h);
      if h > maxStack {
        maxStack := h;
      }
      Record(instructions, exceptionHandlers, before, i, h, open, prev);
    }

    /** Records height h at i, which no path has reached before, and applies
        the instruction's stack effect. */
    method Visit(i: nat, h: nat, ghost open: set<int>, ghost prev: int) returns (r: Result<Option<(int, nat)>, StackError>)
      requires Valid() && i < stackHeights.Length && stackHeights[i].None?
      requires prev == -1 ==> OkExcept(instructions, stackHeights[..], open)
      requires prev != -1 ==> OkExcept(instructions, stackHeights[..], open + {prev})
      requires prev != -1 ==> Consistent(instructions, stackHeights[..], prev, Some((i, h)))
      requires forall G :: Solution(instructions, exceptionHandlers, G) ==>
        Below(stackHeights[..], G) && i < |G| && G[i] == Some(h)
      modifies this, stackHeights
      ensures Valid()
      ensures Below(old(stackHeights[..]), stackHeights[..])
      ensures NoneCount(stackHeights[..]) < NoneCount(old(stackHeights[..]))
      ensures stackHeights[i] == Some(h)
      ensures r.Ok? && r.value.None? ==> Finished(instructions, exceptionHandlers, stackHeights[..], open)
      ensures r.Ok? && r.value.Some? ==> Continues(instructions, exceptionHandlers, stackHeights[..], open, i, r.value.value)
      ensures r.Err? ==> forall G :: !Solution(instructions, exceptionHandlers, G)
      decreases NoneCount(stackHeights[..]), 1
    {
      var ins := instructions[i];
      Mark(i, h, open, prev);
      ghost var recorded := stackHeights[..];

      var h' := After(ins, h);
      if h'.None? {
        assert Stuck(instructions, i, stackHeights[i].value);
        SolutionsUnstuck(instructions, exceptionHandlers, stackHeights[..], i);
        return Err(NegativeStack(i));
      }
      r := Successor(i, h'.value, open);
      NoneCountBelow(recorded, stackHeights[..]);
    }

    /** Where exploration goes after the instruction at i, whose stack effect
        leaves h': it stops, continues at the returned index, or first explores
        the branch targets of a conditional branch. */
    method Successor(i: nat, h': nat, ghost open: set<int>) returns (r: Result<Option<(int, nat)>, StackError>)
      requires Valid() && i < stackHeights.Length && stackHeights[i].Some?
      requires After(instructions[i], stackHeights[i].value) == Some(h')
      requires OkExcept(instructions, stackHeights[..], open + {i})
      requires BelowSolutions(instructions, exceptionHandlers, stackHeights[..])
      modifies this, stackHeights
      ensures Valid()
      ensures Below(old(stackHeights[..]), stackHeights[..])
      ensures r.Ok? && r.value.None? ==> Finished(instructions, exceptionHandlers, stackHeights[..], open)
      ensures r.Ok? && r.value.Some? ==> Continues(instructions, exceptionHandlers, stackHeights[..], open, i, r.value.value)
      ensures r.Err? ==> forall G :: !Solution(instructions, exceptionHandlers, G)
      decreases NoneCount(stackHeights[..]), 6
    {
      var ins := instructions[i];
      var flow := ins.Flow();
      if flow == Break || flow == FlowControl.Call || flow == Meta || flow == Next {
        if ins.code == Jmp {
          assert LocalOk(instructions, stackHeights[..], i);
          return Ok(None);
        }
        FollowEdge(instructions, exceptionHandlers, stackHeights[..], i, i + 1, h');
        return Ok(Some((i + 1, h')));
      } else if flow == Return {
        if h' > 1 {
          assert Stuck(instructions, i, stackHeights[i].value);
          SolutionsUnstuck(instructions, exceptionHandlers, stackHeights[..], i);
          return Err(BadStackAtReturn(i, h'));
        }
        assert LocalOk(instructions, stackHeights[..], i);
        return Ok(None);
      } else if flow == Throw {
        assert LocalOk(instructions, stackHeights[..], i);
        return Ok(None);
      } else if flow == Branch {
        r := BranchSuccessor(i, h', open);
      } else if flow == CondBranch {
        r := CondSuccessor(i, h', open);
      } else {
        assert Stuck(instructions, i, stackHeights[i].value);
        SolutionsUnstuck(instructions, exceptionHandlers, stackHeights[..], i);
        return Err(UnknownFlowControl(i));
      }
    }

    /** An unconditional branch at i: exploration continues at its target. */
    method BranchSuccessor(i: nat, h': nat, ghost open: set<int>) returns (r: Result<Option<(int, nat)>, StackError>)
      requires Valid() && i < stackHeights.Length && stackHeights[i].Some?
      requires After(instructions[i], stackHeights[i].value) == Some(h')
      requires instructions[i].Flow() == Branch
      requires OkExcept(instructions, stackHeights[..], open + {i})
      requires BelowSolutions(instructions, exceptionHandlers, stackHeights[..])
      ensures r.Ok? ==> r.value.Some? && Continues(instructions, exceptionHandlers, stackHeights[..], open, i, r.value.value)
      ensures r.Err? ==> forall G :: !Solution(instructions, exceptionHandlers, G)
    {
      var ins := instructions[i];
      if ins.operand.Target? {
        var j := IndexOf(instructions, ins.operand.target);
        if j.None? {
          assert Stuck(instructions, i, stackHeights[i].value);
          SolutionsUnstuck(instructions, exceptionHandlers, stackHeights[..], i);
          return Err(InstructionNotFound(Some(ins.operand.target)));
        }
        FollowEdge(instructions, exceptionHandlers, stackHeights[..], i, j.value, h');
        return Ok(Some((j.value, h')));
      } else {
        assert Stuck(instructions, i, stackHeights[i].value);
        SolutionsUnstuck(instructions, exceptionHandlers, stackHeights[..], i);
        return Err(if ins.operand.NoOperand? then InstructionNotFound(None) else InvalidCast(i));
      }
    }

    /** A conditional branch or switch at i: its targets are explored first,
        then exploration falls through to i + 1. */
    method CondSuccessor(i: nat, h': nat, ghost open: set<int>) returns (r: Result<Option<(int, nat)>, StackError>)
      requires Valid() && i < stackHeights.Length && stackHeights[i].Some?
      requires After(instructions[i], stackHeights[i].value) == Some(h')
      requires instructions[i].Flow() == CondBranch
      requires OkExcept(instructions, stackHeights[..], open + {i})
      requires BelowSolutions(instructions, exceptionHandlers, stackHeights[..])
      modifies this, stackHeights
      ensures Valid()
      ensures Below(old(stackHeights[..]), stackHeights[..])
      ensures r.Ok? ==> r.value == Some((i + 1, h'))
      ensures r.Ok? ==> Continues(instructions, exceptionHandlers, stackHeights[..], open, i, (i + 1, h'))
      ensures r.Err? ==> forall G :: !Solution(instructions, exceptionHandlers, G)
      decreases NoneCount(stackHeights[..]), 5
    {
      var ins := instructions[i];
      if ins.code == Switch && ins.operand.Targets? {
        var explored := ExploreTable(i, h', open);
        if explored.Err? {
          return Err(explored.error);
        }
      } else if ins.code != Switch && ins.operand.Target? {
        var explored := ExploreTarget(i, h', open);
        if explored.Err? {
          return Err(explored.error);
        }
      } else {
        assert Stuck(instructions, i, stackHeights[i].value);
        SolutionsUnstuck(instructions, exceptionHandlers, stackHeights[..], i);
        return Err(if ins.code == Switch && ins.operand.NoOperand? then NullReference(i)
                   else if ins.operand.NoOperand? then InstructionNotFound(None)
                   else InvalidCast(i));
      }
      return Ok(Some((i + 1, h')));
    }

    /** The branch target of a conditional branch at i (not a switch). */
    method ExploreTarget(i: nat, h': nat, ghost open: set<int>) returns (r: Result<(), StackError>)
      requires Valid() && i < stackHeights.Length && stackHeights[i].Some?
      requires After(instructions[i], stackHeights[i].value) == Some(h')
      requires instructions[i].Flow() == CondBranch && instructions[i].code != Switch
      requires instructions[i].operand.Target?
      requires OkExcept(instructions, stackHeights[..], open + {i})
      requires BelowSolutions(instructions, exceptionHandlers, stackHeights[..])
      modifies this, stackHeights
      ensures Valid()
      ensures Below(old(stackHeights[..]), stackHeights[..])
      ensures NoneCount(stackHeights[..]) <= NoneCount(old(stackHeights[..]))
      ensures r.Ok? ==> Continues(instructions, exceptionHandlers, stackHeights[..], open, i, (i + 1, h'))
      ensures r.Err? ==> forall G :: !Solution(instructions, exceptionHandlers, G)
      decreases NoneCount(stackHeights[..]), 3
    {
      var t := instructions[i].operand.target;
      var j := IndexOf(instructions, t);
      if j.None? {
        assert Stuck(instructions, i, stackHeights[i].value);
        SolutionsUnstuck(instructions, exceptionHandlers, stackHeights[..], i);
        return Err(InstructionNotFound(Some(t)));
      }
      EdgeInEverySolution(instructions, exceptionHandlers, stackHeights[..], i, j.value, h');
      ghost var before := stackHeights[..];
      r := Explore(j.value, h', open + {i});
      NoneCountBelow(before, stackHeights[..]);
      if r.Ok? {
        assert Continues(instructions, exceptionHandlers, stackHeights[..], open, i, (i + 1, h')) by {
          CondSuccessors(instructions, i);
          FollowEdge(instructions, exceptionHandlers, stackHeights[..], i, i + 1, h');
        }
      }
    }

    /** Every entry of the switch table at i, in table order. */
    method ExploreTable(i: nat, h': nat, ghost open: set<int>) returns (r: Result<(), StackError>)
      requires Valid() && i < stackHeights.Length && stackHeights[i].Some?
      requires After(instructions[i], stackHeights[i].value) == Some(h')
      requires instructions[i].Flow() == CondBranch && instructions[i].code == Switch
      requires instructions[i].operand.Targets?
      requires OkExcept(instructions, stackHeights[..], open + {i})
      requires BelowSolutions(instructions, exceptionHandlers, stackHeights[..])
      modifies this, stackHeights
      ensures Valid()
      ensures Below(old(stackHeights[..]), stackHeights[..])
      ensures NoneCount(stackHeights[..]) <= NoneCount(old(stackHeights[..]))
      ensures r.Ok? ==> Continues(instructions, exceptionHandlers, stackHeights[..], open, i, (i + 1, h'))
      ensures r.Err? ==> forall G :: !Solution(instructions, exceptionHandlers, G)
      decreases NoneCount(stackHeights[..]), 4
    {
      var ts := instructions[i].operand.targets;
      ghost var entry := stackHeights[..];
      ghost var done: seq<nat> := [];
      var k := 0;
      while k < |ts|
        invariant k <= |ts|
        invariant Valid()
        invariant Below(entry, stackHeights[..])
        invariant NoneCount(stackHeights[..]) <= NoneCount(entry)
        invariant OkExcept(instructions, stackHeights[..], open + {i})
        invariant BelowSolutions(instructions, exceptionHandlers, stackHeights[..])
        invariant |done| == k && ResolvedPrefix(instructions, ts, done)
        invariant HeightsAt(stackHeights[..], done, h')
      {
        ghost var before := stackHeights[..];
        var j;
        r, j := ExploreTableEntry(i, h', k, open);
        if r.Err? {
          return r;
        }
        HeightsAtGrows(before, stackHeights[..], done, h');
        ResolvedExtend(instructions, ts, done, j);
        done := done + [j];
        k := k + 1;
      }
      ResolveAll(instructions, ts, done);
      SwitchSuccessors(instructions, i);
      FollowEdge(instructions, exceptionHandlers, stackHeights[..], i, i + 1, h');
      r := Ok(());
    }

    /** Entry k of the switch table at i. */
    method ExploreTableEntry(i: nat, h': nat, k: nat, ghost open: set<int>) returns (r: Result<(), StackError>, j: nat)
      requires Valid() && i < stackHeights.Length && stackHeights[i].Some?
      requires After(instructions[i], stackHeights[i].value) == Some(h')
      requires instructions[i].Flow() == CondBranch && instructions[i].code == Switch
      requires instructions[i].operand.Targets? && k < |instructions[i].operand.targets|
      requires OkExcept(instructions, stackHeights[..], open + {i})
      requires BelowSolutions(instructions, exceptionHandlers, stackHeights[..])
      modifies this, stackHeights
      ensures Valid()
      ensures Below(old(stackHeights[..]), stackHeights[..])
      ensures NoneCount(stackHeights[..]) <= NoneCount(old(stackHeights[..]))
      ensures r.Ok? ==> OkExcept(instructions, stackHeights[..], open + {i})
      ensures r.Ok? ==> BelowSolutions(instructions, exceptionHandlers, stackHeights[..])
      ensures r.Ok? ==> IndexOf(instructions, instructions[i].operand.targets[k]) == Some(j)
      ensures r.Ok? ==> j < stackHeights.Length && stackHeights[j] == Some(h')
      ensures r.Err? ==> forall G :: !Solution(instructions, exceptionHandlers, G)
      decreases NoneCount(stackHeights[..]), 3
    {
      var t := instructions[i].operand.targets[k];
      var found := IndexOf(instructions, t);
      if found.None? {
        TableTargetMissing(instructions, i, k);
        assert Stuck(instructions, i, stackHeights[i].value);
        SolutionsUnstuck(instructions, exceptionHandlers, stackHeights[..], i);
        return Err(InstructionNotFound(Some(t))), 0;
      }
      j := found.value;
      TableTargetEdge(instructions, i, k);
      EdgeInEverySolution(instructions, exceptionHandlers, stackHeights[..], i, j, h');
      ghost var before := stackHeights[..];
      r := Explore(j, h', open + {i});
      NoneCountBelow(before, stackHeights[..]);
    }

    /** Explores from every entry point in order: the first instruction, then
        each handler's filter and handler. */
    method ExploreAll() returns (r: Result<(), StackError>)
      requires Valid()
      requires forall i :: 0 <= i < stackHeights.Length ==> stackHeights[i].None?
      modifies this, stackHeights
      ensures Valid()
      ensures r.Ok? <==> exists G :: Solution(instructions, exceptionHandlers, G)
      ensures r.Ok? ==> IsLeastSolution(instructions, exceptionHandlers, stackHeights[..])
    {
      FirstEntry(instructions, exceptionHandlers, stackHeights[..]);
      r := Explore(0, 0, {});
      if r.Err? {
        return;
      }
      var hs := exceptionHandlers;
      var k := 0;
      assert hs[..0] == [];
      while k < |hs|
        invariant k <= |hs|
        invariant r.Ok?
        invariant Valid()
        invariant Finished(instructions, exceptionHandlers, stackHeights[..], {})
        invariant Entries(instructions, hs[..k]).Ok?
        invariant EntriesHold(stackHeights[..], Entries(instructions, hs[..k]).value)
      {
        HandlerEntriesOfSolutions(instructions, hs, k);
        EntriesStep(instructions, hs, k);
        ghost var mid := stackHeights[..];
        r := ExploreHandler(hs[k]);
        if r.Err? {
          return;
        }
        EntriesHoldGrows(mid, stackHeights[..], Entries(instructions, hs[..k]).value);
        k := k + 1;
      }
      assert hs[..k] == hs;
      Conclude(instructions, exceptionHandlers, stackHeights[..]);
    }

    /** The filter, then the handler, of one exception handler. */
    method ExploreHandler(eh: ExceptionHandler) returns (r: Result<(), StackError>)
      requires Valid() && Finished(instructions, exceptionHandlers, stackHeights[..], {})
      requires forall G :: Solution(instructions, exceptionHandlers, G) ==>
        HandlerEntries(instructions, eh).Ok? && EntriesHold(G, HandlerEntries(instructions, eh).value)
      modifies this, stackHeights
      ensures Valid()
      ensures Below(old(stackHeights[..]), stackHeights[..])
      ensures r.Ok? ==> Finished(instructions, exceptionHandlers, stackHeights[..], {})
      ensures r.Ok? ==>
        HandlerEntries(instructions, eh).Ok? && EntriesHold(stackHeights[..], HandlerEntries(instructions, eh).value)
      ensures r.Err? ==> forall G :: !Solution(instructions, exceptionHandlers, G)
    {
      ghost var filter := FilterEntry(instructions, eh);
      ghost var handler := HandlerEntry(instructions, eh);
      forall G | Solution(instructions, exceptionHandlers, G)
        ensures filter.Ok? && EntriesHold(G, filter.value) && handler.Ok? && EntriesHold(G, handler.value)
      {
        SplitHandlerEntries(instructions, eh, G);
      }
      r := ExploreEntry(eh.filterStart, 1, filter);
      if r.Err? {
        return;
      }
      ghost var mid := stackHeights[..];
      r := ExploreEntry(eh.handlerStart, if eh.kind == Catch || eh.kind == Filter then 1 else 0, handler);
      if r.Err? {
        return;
      }
      EntriesHoldGrows(mid, stackHeights[..], filter.value);
      SplitHandlerEntries(instructions, eh, stackHeights[..]);
    }

    /** Explores from one handler boundary, which must be in the list when it
        is not null. */
    method ExploreEntry(ref: Option<InstrId>, height: nat, ghost entry: Result<seq<(nat, nat)>, StackError>)
      returns (r: Result<(), StackError>)
      requires entry ==
        if ref.None? then Ok([])
        else match IndexOf(instructions, ref.value)
          case None => Err(InstructionNotFound(ref))
          case Some(j) => Ok([(j, height)])
      requires Valid() && Finished(instructions, exceptionHandlers, stackHeights[..], {})
      requires forall G :: Solution(instructions, exceptionHandlers, G) ==> entry.Ok? && EntriesHold(G, entry.value)
      modifies this, stackHeights
      ensures Valid()
      ensures Below(old(stackHeights[..]), stackHeights[..])
      ensures r.Ok? ==> Finished(instructions, exceptionHandlers, stackHeights[..], {})
      ensures r.Ok? ==> entry.Ok? && EntriesHold(stackHeights[..], entry.value)
      ensures r.Err? ==> forall G :: !Solution(instructions, exceptionHandlers, G)
    {
      if ref.None? {
        return Ok(());
      }
      var j := IndexOf(instructions, ref.value);
      if j.None? {
        return Err(InstructionNotFound(ref));
      }
      assert entry == Ok([(j.value, height)]);
      r := Explore(j.value, height, {});
    }
  }

  /** GetStackHeights: the height of every reached instruction, None for the
      others. */
  method GetStackHeights(instrs: seq<Instr>, handlers: seq<ExceptionHandler>)
    returns (r: Result<seq<Option<nat>>, StackError>)
    ensures r.Ok? <==> exists G :: Solution(instrs, handlers, G)
    ensures r.Ok? ==> IsLeastSolution(instrs, handlers, r.value)
  {
    var helper := new StackHelper(instrs, handlers);
    var explored := helper.ExploreAll();
    if explored.Err? {
      return Err(explored.error);
    }
    return Ok(helper.stackHeights[..]);
  }

  /** GetMaxStack: the largest height of the least solution, or 0. */
  method GetMaxStack(instrs: seq<Instr>, handlers: seq<ExceptionHandler>)
    returns (r: Result<nat, StackError>)
    ensures r.Ok? <==> exists G :: Solution(instrs, handlers, G)
    ensures r.Ok? ==> exists H :: IsLeastSolution(instrs, handlers, H) && r.value == MaxHeight(H)
  {
    var helper := new StackHelper(instrs, handlers);
    var explored := helper.ExploreAll();
    if explored.Err? {
      return Err(explored.error);
    }
    return Ok(helper.maxStack);
  }

  lemma GotoSuccessors(instrs: seq<Instr>, i: nat, j: nat)
    requires i < |instrs| && instrs[i].code == Br && instrs[i].operand.Target?
    requires IndexOf(instrs, instrs[i].operand.target) == Some(j)
    ensures Successors(instrs, i) == Ok([j])
  {
    assert instrs[i].Flow() == Branch;
  }

  lemma ReturnSuccessors(instrs: seq<Instr>, i: nat)
    requires i < |instrs| && instrs[i].code == Ret
    ensures Successors(instrs, i) == Ok([])
  {
    assert instrs[i].Flow() == Return;
  }

  lemma AfterSmall(ins: Instr, h: nat)
    requires ins.pops.Pop? && ins.pops.count <= h && h - ins.pops.count + ins.pushes < UShortMod
    ensures After(ins, h) == Some(h - ins.pops.count + ins.pushes)
  {
  }

  lemma NextSuccessors(instrs: seq<Instr>, i: nat)
    requires i < |instrs| && instrs[i].Flow() == Next
    ensures Successors(instrs, i) == Ok([i + 1])
  {
  }

  /** "Hello World!" as UTF-16 code units. */
  const HelloWorld: seq<CodeUnit> := [72, 101, 108, 108, 111, 32, 87, 111, 114, 108, 100, 33]

  /** The body of the regression case for a return reached by a backward
      branch, a method returning a string:
      `br L2; L1: ret; L2: ldstr "Hello World!"; br L1`. */
  ghost predicate RegressionBody(I: seq<Instr>) {
    && |I| == 4
    && I[0] == GotoInstr(0, 2)
    && I[1] == Instr(1, Ret, NoOperand, 0, None, 0, Pop(1))
    && I[2] == Instr(2, Ldstr, Str(HelloWorld), 0, None, 1, Pop(0))
    && I[3] == GotoInstr(3, 1)
  }

  /** The heights the regression case expects: 0, 1, 0, 1. */
  ghost predicate RegressionHeightsAre(H: seq<Option<nat>>) {
    |H| == 4 && H[0] == Some(0) && H[1] == Some(1) && H[2] == Some(0) && H[3] == Some(1)
  }

  /** Where each instruction of the regression body leads, and with what
      height. */
  lemma RegressionEdges(I: seq<Instr>)
    requires RegressionBody(I)
    ensures Entries(I, []) == Ok([(0, 0)])
    ensures Successors(I, 0) == Ok([2]) && After(I[0], 0) == Some(0)
    ensures Successors(I, 1) == Ok([]) && After(I[1], 1) == Some(0)
    ensures Successors(I, 2) == Ok([3]) && After(I[2], 0) == Some(1)
    ensures Successors(I, 3) == Ok([1]) && After(I[3], 1) == Some(1)
  {
    assert IndexOf(I, 2) == Some(2);
    assert IndexOf(I, 1) == Some(1);
    GotoSuccessors(I, 0, 2);
    ReturnSuccessors(I, 1);
    NextSuccessors(I, 2);
    GotoSuccessors(I, 3, 1);
    AfterSmall(I[0], 0);
    AfterSmall(I[1], 1);
    AfterSmall(I[2], 0);
    AfterSmall(I[3], 1);
  }

  /** The expected heights are a solution of the regression body. */
  lemma RegressionSolution(I: seq<Instr>, H: seq<Option<nat>>)
    requires RegressionBody(I) && RegressionHeightsAre(H)
    ensures Solution(I, [], H)
  {
    RegressionEdges(I);
    assert LocalOk(I, H, 0);
    assert LocalOk(I, H, 1);
    assert LocalOk(I, H, 2);
    assert LocalOk(I, H, 3);
  }

  /** Every solution of the regression body has the expected heights: the
      entry forces 0 at L0, and the edges L0 -> L2 -> L3 -> L1 force 0, 1, 1. */
  lemma RegressionForced(I: seq<Instr>, G: seq<Option<nat>>)
    requires RegressionBody(I) && Solution(I, [], G)
    ensures RegressionHeightsAre(G)
  {
    RegressionEdges(I);
    assert (0, 0) in Entries(I, []).value;
    assert G[0] == Some(0) && LocalOk(I, G, 0);
    assert 2 in Successors(I, 0).value;
    assert G[2] == Some(0) && LocalOk(I, G, 2);
    assert 3 in Successors(I, 2).value;
    assert G[3] == Some(1) && LocalOk(I, G, 3);
    assert 1 in Successors(I, 3).value;
  }

  /** The regression case: the heights are 0, 1, 0, 1 and the maximum is 1. */
  lemma RegressionHeights(I: seq<Instr>, H: seq<Option<nat>>)
    requires RegressionBody(I) && RegressionHeightsAre(H)
    ensures IsLeastSolution(I, [], H)
    ensures MaxHeight(H) == 1
  {
    RegressionSolution(I, H);
    RegressionLeast(I, H);
    RegressionMax(H);
  }

  lemma RegressionLeast(I: seq<Instr>, H: seq<Option<nat>>)
    requires RegressionBody(I) && RegressionHeightsAre(H)
    ensures forall G :: Solution(I, [], G) ==> Below(H, G)
  {
    forall G | Solution(I, [], G)
      ensures Below(H, G)
    {
      assert RegressionHeightsAre(G) by {
        RegressionForced(I, G);
      }
      assert H == G;
    }
  }

  lemma RegressionMax(H: seq<Option<nat>>)
    requires RegressionHeightsAre(H)
    ensures MaxHeight(H) == 1
  {
    var m := MaxHeight(H);
    assert H[1].value <= m;
    if m != 0 {
      var i :| 0 <= i < |H| && H[i] == Some(m);
    }
  }
}
