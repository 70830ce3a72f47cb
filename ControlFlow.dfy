/** The control-flow flattening of one method body
    (the ControlFlow feature): the blocks are padded to a prime
    count p, reordered along the walk i <- (i + inc) mod p, and run from a
    `switch` dispatcher over a state variable; every jump between blocks goes
    through a stub that sets the state first, and every block that can fall
    through hands a value congruent to inc back to the dispatcher.

    The generator is the seeded Xoshiro128 object; instructions are values
    with identities (see Cil), and a new instruction takes the next unused
    identity. */
module ControlFlow {
  import opened Wrappers
  import opened BoundedInts
  import opened Cil
  import opened ControlFlowBlocks
  import DnLibExtensions
  import MathHelper
  import Xoshiro
  import StackHelper

  /** Methods with fewer blocks are left as they are ("not worth it"). */
  const MinBlocks: nat := 5

  /** The smallest start value of the state variable. */
  const MinStartState: int := 100_000_000

  /** The largest block count the model flattens: 2^16 + 1, a prime, so the
      prime the blocks are padded to fits an int. */
  const MaxBlocks: nat := 65537

  // ----- A prime bound for the block count -----

  /** No divisor of p in [d, s]. */
  predicate NoDivisorFrom(p: int, d: int, s: int)
    requires d >= 2
    decreases s - d
  {
    d > s || (p % d != 0 && NoDivisorFrom(p, d + 1, s))
  }

  lemma {:induction false} NoDivisorFromMeaning(p: int, d: int, s: int)
    requires d >= 2 && NoDivisorFrom(p, d, s)
    ensures forall e :: d <= e <= s ==> p % e != 0
    decreases s - d
  {
    if d <= s {
      NoDivisorFromMeaning(p, d + 1, s);
    }
  }

  lemma MaxBlocksIsPrime()
    ensures MathHelper.Prime(MaxBlocks)
  {
    assert NoDivisorFrom(MaxBlocks, 257, 257); assert NoDivisorFrom(MaxBlocks, 253, 257); assert NoDivisorFrom(MaxBlocks, 249, 257); assert NoDivisorFrom(MaxBlocks, 245, 257);
    assert NoDivisorFrom(MaxBlocks, 241, 257); assert NoDivisorFrom(MaxBlocks, 237, 257); assert NoDivisorFrom(MaxBlocks, 233, 257); assert NoDivisorFrom(MaxBlocks, 229, 257);
    assert NoDivisorFrom(MaxBlocks, 225, 257); assert NoDivisorFrom(MaxBlocks, 221, 257); assert NoDivisorFrom(MaxBlocks, 217, 257); assert NoDivisorFrom(MaxBlocks, 213, 257);
    assert NoDivisorFrom(MaxBlocks, 209, 257); assert NoDivisorFrom(MaxBlocks, 205, 257); assert NoDivisorFrom(MaxBlocks, 201, 257); assert NoDivisorFrom(MaxBlocks, 197, 257);
    assert NoDivisorFrom(MaxBlocks, 193, 257); assert NoDivisorFrom(MaxBlocks, 189, 257); assert NoDivisorFrom(MaxBlocks, 185, 257); assert NoDivisorFrom(MaxBlocks, 181, 257);
    assert NoDivisorFrom(MaxBlocks, 177, 257); assert NoDivisorFrom(MaxBlocks, 173, 257); assert NoDivisorFrom(MaxBlocks, 169, 257); assert NoDivisorFrom(MaxBlocks, 165, 257);
    assert NoDivisorFrom(MaxBlocks, 161, 257); assert NoDivisorFrom(MaxBlocks, 157, 257); assert NoDivisorFrom(MaxBlocks, 153, 257); assert NoDivisorFrom(MaxBlocks, 149, 257);
    assert NoDivisorFrom(MaxBlocks, 145, 257); assert NoDivisorFrom(MaxBlocks, 141, 257); assert NoDivisorFrom(MaxBlocks, 137, 257); assert NoDivisorFrom(MaxBlocks, 133, 257);
    assert NoDivisorFrom(MaxBlocks, 129, 257); assert NoDivisorFrom(MaxBlocks, 125, 257); assert NoDivisorFrom(MaxBlocks, 121, 257); assert NoDivisorFrom(MaxBlocks, 117, 257);
    assert NoDivisorFrom(MaxBlocks, 113, 257); assert NoDivisorFrom(MaxBlocks, 109, 257); assert NoDivisorFrom(MaxBlocks, 105, 257); assert NoDivisorFrom(MaxBlocks, 101, 257);
    assert NoDivisorFrom(MaxBlocks, 97, 257); assert NoDivisorFrom(MaxBlocks, 93, 257); assert NoDivisorFrom(MaxBlocks, 89, 257); assert NoDivisorFrom(MaxBlocks, 85, 257);
    assert NoDivisorFrom(MaxBlocks, 81, 257); assert NoDivisorFrom(MaxBlocks, 77, 257); assert NoDivisorFrom(MaxBlocks, 73, 257); assert NoDivisorFrom(MaxBlocks, 69, 257);
    assert NoDivisorFrom(MaxBlocks, 65, 257); assert NoDivisorFrom(MaxBlocks, 61, 257); assert NoDivisorFrom(MaxBlocks, 57, 257); assert NoDivisorFrom(MaxBlocks, 53, 257);
    assert NoDivisorFrom(MaxBlocks, 49, 257); assert NoDivisorFrom(MaxBlocks, 45, 257); assert NoDivisorFrom(MaxBlocks, 41, 257); assert NoDivisorFrom(MaxBlocks, 37, 257);
    assert NoDivisorFrom(MaxBlocks, 33, 257); assert NoDivisorFrom(MaxBlocks, 29, 257); assert NoDivisorFrom(MaxBlocks, 25, 257); assert NoDivisorFrom(MaxBlocks, 21, 257);
    assert NoDivisorFrom(MaxBlocks, 17, 257); assert NoDivisorFrom(MaxBlocks, 13, 257); assert NoDivisorFrom(MaxBlocks, 9, 257); assert NoDivisorFrom(MaxBlocks, 5, 257);
    assert NoDivisorFrom(MaxBlocks, 2, 257);
    NoDivisorFromMeaning(MaxBlocks, 2, 257);
    MathHelper.NoSmallDivisorIsPrime(MaxBlocks, 257);
  }

  /** The prime GetPrime finds for at most MaxBlocks blocks is at most
      MaxBlocks, so it is an int. */
  lemma PrimeFitsInt(n: int, p: int)
    requires 0 <= n <= MaxBlocks && MathHelper.SmallestPrimeAtLeast(n, p)
    ensures p <= MaxBlocks
  {
    MaxBlocksIsPrime();
  }

  // ----- The code the flattening emits, and what it does -----

  /** Where the straight-line code exits: a jump to an instruction with the
      state variable's new value, or a step the model does not run. */
  datatype Exit = Jump(target: InstrId, state: int) | Stuck

  /** Runs straight-line code over 32-bit words, tracking one local variable
      (the state) and the evaluation stack (top last), up to the first
      jump. `add` wraps around, `rem.un` divides as unsigned, `switch` jumps
      to its table entry or falls through when the value is past the end. */
  function Exec(code: seq<Instr>, local: nat, state: int, stack: seq<int>): Exit
    decreases |code|
  {
    if code == [] then Stuck
    else
      var i := code[0];
      var rest := code[1..];
      var n := |stack|;
      match i.code
      case Ldloc =>
        if i.operand == Local(local) then Exec(rest, local, state, stack + [state]) else Stuck
      case LdcI4 =>
        if i.operand.Int? then Exec(rest, local, state, stack + [WrapUInt32(i.operand.value)]) else Stuck
      case Add =>
        if n < 2 then Stuck else Exec(rest, local, state, stack[..n - 2] + [WrapUInt32(stack[n - 2] + stack[n - 1])])
      case RemUn =>
        if n < 2 || WrapUInt32(stack[n - 1]) == 0 then Stuck
        else Exec(rest, local, state, stack[..n - 2] + [WrapUInt32(stack[n - 2]) % WrapUInt32(stack[n - 1])])
      case Dup =>
        if n < 1 then Stuck else Exec(rest, local, state, stack + [stack[n - 1]])
      case Stloc =>
        if i.operand == Local(local) && n >= 1 then Exec(rest, local, stack[n - 1], stack[..n - 1]) else Stuck
      case Switch =>
        if !i.operand.Targets? || n < 1 then Stuck
        else if 0 <= stack[n - 1] < |i.operand.targets| then Jump(i.operand.targets[stack[n - 1]], state)
        else Exec(rest, local, state, stack[..n - 1])
      case Br =>
        if i.operand.Target? then Jump(i.operand.target, state) else Stuck
      case _ => Stuck
  }

  /** Code after a jump is never reached. */
  lemma ExecPrefix(code: seq<Instr>, rest: seq<Instr>, local: nat, state: int, stack: seq<int>)
    requires Exec(code, local, state, stack).Jump?
    ensures Exec(code + rest, local, state, stack) == Exec(code, local, state, stack)
    decreases |code|
  {
    assert (code + rest)[0] == code[0];
    assert (code + rest)[1..] == code[1..] + rest;
  }

  /** The dispatcher: `ldloc state; add; ldc p; rem.un; dup; stloc state;
      switch table; br fallback`, with identities first .. first + 7. */
  function Dispatcher(first: InstrId, local: nat, p: int, table: seq<InstrId>, fallback: InstrId): (sw: seq<Instr>)
    ensures |sw| == 8 && sw[0].id == first
    ensures forall k :: 0 <= k < 8 ==> sw[k].id == first + k
  {
    [LoadLocal(first, local), AddInstr(first + 1), LoadInt(first + 2, p), RemUnInstr(first + 3),
     DupInstr(first + 4), StoreLocal(first + 5, local), SwitchInstr(first + 6, table), GotoInstr(first + 7, fallback)]
  }

  /** Entered with x on the stack and s in the state variable, the dispatcher
      stores (s + x) mod p and jumps to that entry of the table; s + x does
      not wrap around while it stays below 2^32. */
  lemma DispatcherJumps(first: InstrId, local: nat, p: int, table: seq<InstrId>, fallback: InstrId, s: int, x: int)
    requires 0 < p <= Int32Max && |table| == p
    requires 0 <= s && 0 <= x && s + x < UInt32Mod
    ensures Exec(Dispatcher(first, local, p, table, fallback), local, s, [x]) == Jump(table[(s + x) % p], (s + x) % p)
  {
    var sw := Dispatcher(first, local, p, table, fallback);
    var v := (s + x) % p;
    assert Exec(sw, local, s, [x]) == Exec(sw[1..], local, s, [x, s]);
    assert Exec(sw[1..], local, s, [x, s]) == Exec(sw[2..], local, s, [s + x]) by {
      assert [x, s][..0] + [WrapUInt32(x + s)] == [s + x];
    }
    assert Exec(sw[2..], local, s, [s + x]) == Exec(sw[3..], local, s, [s + x, p]);
    assert Exec(sw[3..], local, s, [s + x, p]) == Exec(sw[4..], local, s, [v]) by {
      assert [s + x, p][..0] + [WrapUInt32(s + x) % WrapUInt32(p)] == [v];
    }
    assert Exec(sw[4..], local, s, [v]) == Exec(sw[5..], local, s, [v, v]) by {
      assert [v] + [[v][0]] == [v, v];
    }
    assert Exec(sw[5..], local, s, [v, v]) == Exec(sw[6..], local, v, [v]) by {
      assert [v, v][..1] == [v];
    }
  }

  /** The stub a jump between blocks goes through: `ldc c; stloc state; br
      target`. */
  function JumpStub(first: InstrId, local: nat, c: int, target: InstrId): (stub: seq<Instr>)
    ensures |stub| == 3 && stub[0].id == first
  {
    [LoadInt(first, c), StoreLocal(first + 1, local), GotoInstr(first + 2, target)]
  }

  /** A stub sets the state to c and jumps to its target. */
  lemma StubJumps(first: InstrId, local: nat, c: int, target: InstrId, s: int)
    requires 0 <= c < UInt32Mod
    ensures Exec(JumpStub(first, local, c, target), local, s, []) == Jump(target, c)
  {
    var stub := JumpStub(first, local, c, target);
    assert Exec(stub, local, s, []) == Exec(stub[1..], local, s, [c]);
    assert Exec(stub[1..], local, s, [c]) == Exec(stub[2..], local, c, []) by {
      assert [c][..0] == [];
    }
  }

  /** The prologue: `ldc startState; stloc state; ldc x0`. */
  function Prologue(first: InstrId, local: nat, startState: int, x0: int): (pro: seq<Instr>)
    ensures |pro| == 3
    ensures forall k :: 0 <= k < 3 ==> pro[k].id == first + k
  {
    [LoadInt(first, startState), StoreLocal(first + 1, local), LoadInt(first + 2, x0)]
  }

  /** From the prologue control goes through the dispatcher to table entry
      (startState + x0) mod p. */
  lemma PrologueEnters(first: InstrId, local: nat, startState: int, x0: int,
                       swFirst: InstrId, p: int, table: seq<InstrId>, fallback: InstrId, s: int)
    requires 0 < p <= Int32Max && |table| == p
    requires 0 <= startState < Int32Max && 0 <= x0 < Int32Max
    ensures var v := (startState + x0) % p;
      Exec(Prologue(first, local, startState, x0) + Dispatcher(swFirst, local, p, table, fallback), local, s, [])
        == Jump(table[v], v)
  {
    var pro := Prologue(first, local, startState, x0);
    var sw := Dispatcher(swFirst, local, p, table, fallback);
    var code := pro + sw;
    assert code[1..] == pro[1..] + sw;
    assert code[2..] == pro[2..] + sw;
    assert code[3..] == sw;
    assert Exec(code, local, s, []) == Exec(code[1..], local, s, [startState]);
    assert Exec(code[1..], local, s, [startState]) == Exec(code[2..], local, startState, []) by {
      assert [startState][..0] == [];
    }
    assert Exec(code[2..], local, startState, []) == Exec(sw, local, startState, [x0]) by {
      assert code[2..][1..] == sw;
      assert [] + [WrapUInt32(x0)] == [x0];
    }
    DispatcherJumps(swFirst, local, p, table, fallback, startState, x0);
  }

  // ----- Dispatch order -----

  /** What ReOrder leaves behind: original block k at position Pos(k). */
  ghost predicate ReOrdered(p: int, startState: int, inc: int, original: seq<Block>, reordered: seq<Block>)
    requires p > 0
  {
    |original| == p && |reordered| == p &&
    forall k :: 0 <= k < p ==> reordered[MathHelper.Pos(p, startState, inc, k)] == original[k]
  }

  /** The jump table points at the first instruction of every non-empty block. */
  ghost predicate TableFits(table: seq<InstrId>, blocks: seq<Block>) {
    |table| == |blocks| && forall i :: 0 <= i < |blocks| && blocks[i] != [] ==> table[i] == blocks[i][0].id
  }

  /** Adding two values congruent modulo p to the same value gives the same
      remainder. */
  lemma AddCongruent(a: int, x: int, y: int, p: int)
    requires p > 0 && x % p == y % p
    ensures (a + x) % p == (a + y) % p
  {
    ModAddMod(x, a, p);
    ModAddMod(y, a, p);
  }

  /** The dispatch theorem: control that leaves the block at position
      Pos(k) through the dispatcher, with the state congruent to Pos(k) and
      any value congruent to inc on the stack, arrives at the first
      instruction of original block k + 1, and the state becomes its
      position. */
  lemma LeavingBlockReachesSuccessor(p: int, startState: int, inc: int, original: seq<Block>, reordered: seq<Block>,
                                     table: seq<InstrId>, first: InstrId, local: nat, fallback: InstrId, k: int, s: int, x: int)
    requires MathHelper.Prime(p) && p <= Int32Max
    requires ReOrdered(p, startState, inc, original, reordered) && TableFits(table, reordered)
    requires 0 <= k < p - 1 && original[k + 1] != []
    requires 0 <= s && 0 <= x && s + x < UInt32Mod
    requires s % p == MathHelper.Pos(p, startState, inc, k) && x % p == inc % p
    ensures Exec(Dispatcher(first, local, p, table, fallback), local, s, [x])
      == Jump(original[k + 1][0].id, MathHelper.Pos(p, startState, inc, k + 1))
  {
    DispatcherJumps(first, local, p, table, fallback, s, x);
    var pk := MathHelper.Pos(p, startState, inc, k);
    ModAddMod(s, x, p);
    AddCongruent(pk, x, inc, p);
    MathHelper.StepPos(p, startState, inc, k);
  }

  /** The entry theorem: from the prologue, with any x0 congruent to inc,
      control arrives at the first instruction of original block 0. */
  lemma PrologueReachesFirstBlock(p: int, startState: int, inc: int, original: seq<Block>, reordered: seq<Block>,
                                  table: seq<InstrId>, proFirst: InstrId, swFirst: InstrId, local: nat,
                                  fallback: InstrId, x0: int, s: int)
    requires MathHelper.Prime(p) && p <= Int32Max
    requires ReOrdered(p, startState, inc, original, reordered) && TableFits(table, reordered)
    requires original[0] != []
    requires 0 <= startState < Int32Max && 0 <= x0 < Int32Max && x0 % p == inc % p
    ensures Exec(Prologue(proFirst, local, startState, x0) + Dispatcher(swFirst, local, p, table, fallback), local, s, [])
      == Jump(original[0][0].id, MathHelper.Pos(p, startState, inc, 0))
  {
    PrologueEnters(proFirst, local, startState, x0, swFirst, p, table, fallback, s);
    AddCongruent(startState, x0, inc, p);
  }

  /** A jump stub hands the target block's position to the state: after it,
      leaving the target's block through the dispatcher reaches the block
      that originally followed it. */
  lemma StubThenSuccessor(p: int, startState: int, inc: int, original: seq<Block>, reordered: seq<Block>,
                          table: seq<InstrId>, stubFirst: InstrId, swFirst: InstrId, local: nat, fallback: InstrId,
                          target: InstrId, c: int, k: int, s: int, x: int)
    requires MathHelper.Prime(p) && p <= Int32Max
    requires ReOrdered(p, startState, inc, original, reordered) && TableFits(table, reordered)
    requires 0 <= k < p - 1 && original[k + 1] != []
    requires 0 <= c < Int32Max && c % p == MathHelper.Pos(p, startState, inc, k)
    requires 0 <= x < Int32Max && x % p == inc % p
    ensures Exec(JumpStub(stubFirst, local, c, target), local, s, []) == Jump(target, c)
    ensures Exec(Dispatcher(swFirst, local, p, table, fallback), local, c, [x])
      == Jump(original[k + 1][0].id, MathHelper.Pos(p, startState, inc, k + 1))
  {
    StubJumps(stubFirst, local, c, target, s);
    LeavingBlockReachesSuccessor(p, startState, inc, original, reordered, table, swFirst, local, fallback, k, c, x);
  }

  // ----- Padding to a prime, the jump table -----

  /** Adds empty (dead) blocks until there are p of them; the code is unchanged. */
  method PadToPrime(blocks: seq<Block>, p: int) returns (r: seq<Block>)
    ensures p > |blocks| ==> |r| == p
    ensures p <= |blocks| ==> |r| == |blocks|
    ensures r[..|blocks|] == blocks
    ensures forall i :: |blocks| <= i < |r| ==> r[i] == []
    ensures Concat(r) == Concat(blocks)
  {
    r := blocks;
    var i := |blocks|;
    while i < p
      invariant |blocks| <= i && |r| == i && (i == |blocks| || i <= p)
      invariant r[..|blocks|] == blocks
      invariant forall k :: |blocks| <= k < i ==> r[k] == []
      invariant Concat(r) == Concat(blocks)
    {
      ConcatAppend(r, []);
      r := r + [[]];
      i := i + 1;
    }
  }

  /** There is at least one non-empty block. */
  ghost predicate SomeCode(blocks: seq<Block>) {
    exists j :: 0 <= j < |blocks| && blocks[j] != []
  }

  /** `id` is the first instruction of some non-empty block. */
  ghost predicate IsEntry(blocks: seq<Block>, id: InstrId) {
    exists j :: 0 <= j < |blocks| && blocks[j] != [] && blocks[j][0].id == id
  }

  /** The first instructions of the non-empty blocks, in order (r_table). */
  function FirstIds(blocks: seq<Block>): (r: seq<InstrId>)
    ensures forall id :: id in r <==> IsEntry(blocks, id)
    ensures r == [] <==> !SomeCode(blocks)
    decreases |blocks|
  {
    if blocks == [] then []
    else
      var n := |blocks| - 1;
      var rest := FirstIds(blocks[..n]);
      assert forall j :: 0 <= j < n ==> blocks[..n][j] == blocks[j];
      assert forall id :: IsEntry(blocks[..n], id) ==> IsEntry(blocks, id);
      if blocks[n] == [] then rest else rest + [blocks[n][0].id]
  }

  /** The switch table: a non-empty block's entry is its first instruction, an
      empty block's entry is taken from r_table round-robin. Every entry is the
      start of some non-empty block. */
  function DispatchTable(blocks: seq<Block>): (table: seq<InstrId>)
    requires SomeCode(blocks)
    ensures TableFits(table, blocks)
    ensures forall i :: 0 <= i < |table| ==> IsEntry(blocks, table[i])
  {
    var firsts := FirstIds(blocks);
    seq(|blocks|, i requires 0 <= i < |blocks| => if blocks[i] != [] then blocks[i][0].id else firsts[i % |firsts|])
  }

  // ----- Jump stubs -----

  /** `blocks.Single(bl => bl.Contains(target))` succeeds: exactly one block
      holds the target, and FindBlock names it. */
  predicate UniqueHolder(blocks: seq<Block>, target: InstrId): (r: bool)
    ensures r <==> var j := FindBlock(blocks, Some(target));
      0 <= j && forall k :: 0 <= k < |blocks| && k != j ==> target !in Ids(blocks[k])
  {
    var j := FindBlock(blocks, Some(target));
    assert 0 <= j ==> forall k :: j < k < |blocks| ==> blocks[k] == blocks[j + 1..][k - j - 1];
    0 <= j && FindBlock(blocks[j + 1..], Some(target)) == -1
  }

  /** A three-instruction stub: load a value, store it into the state
      variable, branch. */
  ghost predicate StubShape(stub: Block, first: InstrId, local: nat) {
    |stub| == 3 && stub[0].operand.Int? && stub[2].operand.Target? &&
    stub == JumpStub(first, local, stub[0].operand.value, stub[2].operand.target)
  }

  /** A stub for a jump to `target`: it jumps there and sets the state to a
      value below int.MaxValue congruent to the index of the block holding it. */
  ghost predicate StubFor(stub: Block, target: InstrId, blocks: seq<Block>, p: int, local: nat)
    requires p > 0
  {
    |stub| == 3 && StubShape(stub, stub[0].id, local) && stub[2].operand.target == target &&
    var c, j := stub[0].operand.value, FindBlock(blocks, Some(target));
    0 <= j && 0 <= c < Int32Max && c % p == j % p
  }

  /** CreateJumpBlock: a jump to `target` from block `current`. A jump within
      the current block needs no stub; any other gets a stub whose ids start
      at `next`. */
  method CreateJumpBlock(target: InstrId, current: nat, blocks: seq<Block>, random: Xoshiro.Xoshiro128,
                         p: int, local: nat, next: InstrId) returns (r: Result<Option<Block>, FlowError>)
    requires current < |blocks| == p && 2 * p < Int32Max
    modifies random
    ensures !UniqueHolder(blocks, target) ==> r == Err(InvalidOperation)
    ensures UniqueHolder(blocks, target) && FindBlock(blocks, Some(target)) == current ==> r == Ok(None)
    ensures UniqueHolder(blocks, target) && FindBlock(blocks, Some(target)) != current ==>
      (r.Err? ==> r.error == RandomExhausted) &&
      (r.Ok? ==> r.value.Some? && StubShape(r.value.value, next, local) && StubFor(r.value.value, target, blocks, p, local))
  {
    if !UniqueHolder(blocks, target) {
      return Err(InvalidOperation);
    }
    var j := FindBlock(blocks, Some(target));
    if j == current {
      return Ok(None);
    }
    ghost var s := random.Current();
    var c := MathHelper.FindCongruent(j, p, random);
    if c.Err? {
      return Err(RandomExhausted);
    }
    MathHelper.PickCongruentSound(j, p, s);
    r := Ok(Some(JumpStub(next, local, c.value, target)));
  }

  // ----- Jump redirects -----

  /** Where a jump to `target` out of block b lands after redirection: the
      target itself when block b holds it, otherwise the first instruction of
      a stub for it. */
  ghost predicate Routes(blocks: seq<Block>, b: int, p: int, local: nat, target: InstrId, now: InstrId, extra: seq<Block>)
    requires p > 0
  {
    (now == target && FindBlock(blocks, Some(target)) == b) ||
    exists e :: 0 <= e < |extra| && StubFor(extra[e], target, blocks, p, local) && extra[e][0].id == now
  }

  /** Instruction o of block b became n: only the operand of a branch
      changes, a switch keeps the size of its table, and every target is
      routed. */
  ghost predicate Redirected(blocks: seq<Block>, b: int, p: int, local: nat, o: Instr, n: Instr, extra: seq<Block>)
    requires p > 0
  {
    if !DnLibExtensions.IsBranch(o) then n == o
    else
      n == o.(operand := n.operand) &&
      (o.code == Switch ==>
        o.operand.Targets? && n.operand.Targets? && |n.operand.targets| == |o.operand.targets| &&
        forall t :: 0 <= t < |o.operand.targets| ==>
          Routes(blocks, b, p, local, o.operand.targets[t], n.operand.targets[t], extra)) &&
      (o.code != Switch ==>
        o.operand.Target? && n.operand.Target? && Routes(blocks, b, p, local, o.operand.target, n.operand.target, extra))
  }

  /** The stubs are laid out one after another from id `next`. */
  ghost predicate StubsFrom(extra: seq<Block>, next: InstrId, local: nat) {
    forall e :: 0 <= e < |extra| ==> StubShape(extra[e], next + 3 * e, local)
  }

  ghost predicate Extends(extra: seq<Block>, extra': seq<Block>) {
    |extra| <= |extra'| && extra'[..|extra|] == extra
  }

  lemma RoutesGrow(blocks: seq<Block>, b: int, p: int, local: nat, target: InstrId, now: InstrId, extra: seq<Block>, extra': seq<Block>)
    requires p > 0 && Extends(extra, extra')
    requires Routes(blocks, b, p, local, target, now, extra)
    ensures Routes(blocks, b, p, local, target, now, extra')
  {
    if !(now == target && FindBlock(blocks, Some(target)) == b) {
      var e :| 0 <= e < |extra| && StubFor(extra[e], target, blocks, p, local) && extra[e][0].id == now;
      assert extra'[e] == extra[e];
    }
  }

  lemma RedirectedGrow(blocks: seq<Block>, b: int, p: int, local: nat, o: Instr, n: Instr, extra: seq<Block>, extra': seq<Block>)
    requires p > 0 && Extends(extra, extra')
    requires Redirected(blocks, b, p, local, o, n, extra)
    ensures Redirected(blocks, b, p, local, o, n, extra')
  {
    if DnLibExtensions.IsBranch(o) {
      if o.code == Switch {
        forall t | 0 <= t < |o.operand.targets|
          ensures Routes(blocks, b, p, local, o.operand.targets[t], n.operand.targets[t], extra')
        {
          RoutesGrow(blocks, b, p, local, o.operand.targets[t], n.operand.targets[t], extra, extra');
        }
      } else {
        RoutesGrow(blocks, b, p, local, o.operand.target, n.operand.target, extra, extra');
      }
    }
  }

  /** One jump target: keep it, or add a stub for it after the others. */
  method RedirectTarget(target: InstrId, b: nat, blocks: seq<Block>, random: Xoshiro.Xoshiro128, p: int, local: nat,
                        next: InstrId, extra: seq<Block>) returns (r: Result<(InstrId, seq<Block>), FlowError>)
    requires b < |blocks| == p && 2 * p < Int32Max && StubsFrom(extra, next, local)
    modifies random
    ensures r.Err? ==> r.error == InvalidOperation || r.error == RandomExhausted
    ensures r.Ok? ==> Extends(extra, r.value.1) && StubsFrom(r.value.1, next, local)
    ensures r.Ok? ==> Routes(blocks, b, p, local, target, r.value.0, r.value.1)
  {
    var stub := CreateJumpBlock(target, b, blocks, random, p, local, next + 3 * |extra|);
    if stub.Err? {
      return Err(stub.error);
    }
    if stub.value.None? {
      return Ok((target, extra));
    }
    var extra' := extra + [stub.value.value];
    assert extra'[|extra|] == stub.value.value;
    r := Ok((stub.value.value[0].id, extra'));
  }

  /** The targets of a switch, one after another. */
  method RedirectSwitch(table: seq<InstrId>, b: nat, blocks: seq<Block>, random: Xoshiro.Xoshiro128, p: int, local: nat,
                        next: InstrId, extra: seq<Block>) returns (r: Result<(seq<InstrId>, seq<Block>), FlowError>)
    requires b < |blocks| == p && 2 * p < Int32Max && StubsFrom(extra, next, local)
    modifies random
    ensures r.Err? ==> r.error == InvalidOperation || r.error == RandomExhausted
    ensures r.Ok? ==> Extends(extra, r.value.1) && StubsFrom(r.value.1, next, local) && |r.value.0| == |table|
    ensures r.Ok? ==> forall t :: 0 <= t < |table| ==> Routes(blocks, b, p, local, table[t], r.value.0[t], r.value.1)
  {
    var out := table;
    var more := extra;
    for i := 0 to |table|
      invariant |out| == |table| && Extends(extra, more) && StubsFrom(more, next, local)
      invariant forall t :: 0 <= t < i ==> Routes(blocks, b, p, local, table[t], out[t], more)
    {
      var step := RedirectTarget(table[i], b, blocks, random, p, local, next, more);
      if step.Err? {
        return Err(step.error);
      }
      forall t | 0 <= t < i
        ensures Routes(blocks, b, p, local, table[t], out[t], step.value.1)
      {
        RoutesGrow(blocks, b, p, local, table[t], out[t], more, step.value.1);
      }
      out := out[i := step.value.0];
      more := step.value.1;
    }
    r := Ok((out, more));
  }

  /** One instruction: a switch needs a table and anything else a single
      target (otherwise the cast throws); other instructions stay. */
  method RedirectInstr(o: Instr, b: nat, blocks: seq<Block>, random: Xoshiro.Xoshiro128, p: int, local: nat,
                       next: InstrId, extra: seq<Block>) returns (r: Result<(Instr, seq<Block>), FlowError>)
    requires b < |blocks| == p && 2 * p < Int32Max && StubsFrom(extra, next, local)
    modifies random
    ensures r.Err? ==> r.error == InvalidOperation || r.error == InvalidCast || r.error == RandomExhausted
    ensures r.Err? && r.error == InvalidCast ==> DnLibExtensions.IsBranch(o) && (o.code == Switch <==> o.operand.Target?)
    ensures r.Ok? ==> Extends(extra, r.value.1) && StubsFrom(r.value.1, next, local)
    ensures r.Ok? ==> Redirected(blocks, b, p, local, o, r.value.0, r.value.1)
  {
    if !DnLibExtensions.IsBranch(o) {
      return Ok((o, extra));
    }
    if o.code == Switch {
      if !o.operand.Targets? {
        return Err(InvalidCast);
      }
      var sw := RedirectSwitch(o.operand.targets, b, blocks, random, p, local, next, extra);
      if sw.Err? {
        return Err(sw.error);
      }
      r := Ok((o.(operand := Targets(sw.value.0)), sw.value.1));
    } else {
      if !o.operand.Target? {
        return Err(InvalidCast);
      }
      var one := RedirectTarget(o.operand.target, b, blocks, random, p, local, next, extra);
      if one.Err? {
        return Err(one.error);
      }
      r := Ok((o.(operand := Target(one.value.0)), one.value.1));
    }
  }

  /** Block b, instruction by instruction. */
  ghost predicate BlockRedirected(blocks: seq<Block>, b: int, p: int, local: nat, o: Block, n: Block, extra: seq<Block>)
    requires p > 0
  {
    |n| == |o| && forall k :: 0 <= k < |o| ==> Redirected(blocks, b, p, local, o[k], n[k], extra)
  }

  lemma BlockRedirectedGrow(blocks: seq<Block>, b: int, p: int, local: nat, o: Block, n: Block, extra: seq<Block>, extra': seq<Block>)
    requires p > 0 && Extends(extra, extra')
    requires BlockRedirected(blocks, b, p, local, o, n, extra)
    ensures BlockRedirected(blocks, b, p, local, o, n, extra')
  {
    forall k | 0 <= k < |o|
      ensures Redirected(blocks, b, p, local, o[k], n[k], extra')
    {
      RedirectedGrow(blocks, b, p, local, o[k], n[k], extra, extra');
    }
  }

  /** Redirection changes operands only: every block keeps its instructions'
      identities, so references from elsewhere stay valid. */
  lemma RedirectKeepsIds(blocks: seq<Block>, b: int, p: int, local: nat, o: Block, n: Block, extra: seq<Block>)
    requires p > 0 && BlockRedirected(blocks, b, p, local, o, n, extra)
    ensures Ids(n) == Ids(o)
    ensures forall k :: 0 <= k < |o| ==> n[k].code == o[k].code
  {
    forall k | 0 <= k < |o|
      ensures n[k].id == o[k].id && n[k].code == o[k].code
    {
      assert Redirected(blocks, b, p, local, o[k], n[k], extra);
    }
  }

  /** The branch instructions of one block. */
  method RedirectBlock(block: Block, b: nat, blocks: seq<Block>, random: Xoshiro.Xoshiro128, p: int, local: nat,
                       next: InstrId, extra: seq<Block>) returns (r: Result<(Block, seq<Block>), FlowError>)
    requires b < |blocks| == p && 2 * p < Int32Max && StubsFrom(extra, next, local)
    modifies random
    ensures r.Err? ==> r.error == InvalidOperation || r.error == InvalidCast || r.error == RandomExhausted
    ensures r.Ok? ==> Extends(extra, r.value.1) && StubsFrom(r.value.1, next, local)
    ensures r.Ok? ==> BlockRedirected(blocks, b, p, local, block, r.value.0, r.value.1)
  {
    var out := block;
    var more := extra;
    for k := 0 to |block|
      invariant |out| == |block| && Extends(extra, more) && StubsFrom(more, next, local)
      invariant forall i :: 0 <= i < k ==> Redirected(blocks, b, p, local, block[i], out[i], more)
    {
      var step := RedirectInstr(block[k], b, blocks, random, p, local, next, more);
      if step.Err? {
        return Err(step.error);
      }
      forall i | 0 <= i < k
        ensures Redirected(blocks, b, p, local, block[i], out[i], step.value.1)
      {
        RedirectedGrow(blocks, b, p, local, block[i], out[i], more, step.value.1);
      }
      out := out[k := step.value.0];
      more := step.value.1;
    }
    r := Ok((out, more));
  }

  /** The blocks with their branches rerouted, the stubs, and the next free id. */
  datatype Redirection = Redirection(blocks: seq<Block>, extra: seq<Block>, next: InstrId)

  /** CreateJumpRedirects: every jump from one block into another goes
      through a stub that first sets the state to the target block's index
      (modulo p); the stubs are collected in order. */
  method CreateJumpRedirects(blocks: seq<Block>, random: Xoshiro.Xoshiro128, p: int, local: nat, next: InstrId)
    returns (r: Result<Redirection, FlowError>)
    requires 0 < |blocks| == p && 2 * p < Int32Max
    modifies random
    ensures r.Err? ==> r.error == InvalidOperation || r.error == InvalidCast || r.error == RandomExhausted
    ensures r.Ok? ==> |r.value.blocks| == |blocks| && StubsFrom(r.value.extra, next, local)
    ensures r.Ok? ==> r.value.next == next + 3 * |r.value.extra|
    ensures r.Ok? ==> forall b :: 0 <= b < |blocks| ==>
      BlockRedirected(blocks, b, p, local, blocks[b], r.value.blocks[b], r.value.extra)
  {
    var out := blocks;
    var extra := [];
    for b := 0 to |blocks|
      invariant |out| == |blocks| && StubsFrom(extra, next, local)
      invariant forall c :: 0 <= c < b ==> BlockRedirected(blocks, c, p, local, blocks[c], out[c], extra)
    {
      var step := RedirectBlock(blocks[b], b, blocks, random, p, local, next, extra);
      if step.Err? {
        return Err(step.error);
      }
      forall c | 0 <= c < b
        ensures BlockRedirected(blocks, c, p, local, blocks[c], out[c], step.value.1)
      {
        BlockRedirectedGrow(blocks, c, p, local, blocks[c], out[c], extra, step.value.1);
      }
      out := out[b := step.value.0];
      extra := step.value.1;
    }
    r := Ok(Redirection(out, extra, next + 3 * |extra|));
  }

  /** A rerouted jump that leaves its block enters a stub that sets the
      state to a value congruent to the target block's index and then jumps
      to the original target. */
  lemma RoutedJumpSetsState(blocks: seq<Block>, b: int, p: int, local: nat, target: InstrId, now: InstrId,
                            extra: seq<Block>, s: int) returns (e: nat)
    requires p > 0 && Routes(blocks, b, p, local, target, now, extra)
    requires FindBlock(blocks, Some(target)) != b
    ensures e < |extra| && extra[e] != [] && extra[e][0].id == now
    ensures var x := Exec(extra[e], local, s, []);
      x.Jump? && x.target == target && x.state % p == FindBlock(blocks, Some(target)) % p
  {
    e :| 0 <= e < |extra| && StubFor(extra[e], target, blocks, p, local) && extra[e][0].id == now;
    var stub := extra[e];
    StubJumps(stub[0].id, local, stub[0].operand.value, target, s);
  }

  // ----- Tails back to the dispatcher -----

  /** Block o became n: a non-empty block that does not end unconditionally
      ends with a constant x congruent to inc below int.MaxValue and a branch
      to the dispatcher head; a trailing Nop becomes the load in place (its
      identity kept). New ids lie in [lo, hi). */
  ghost predicate Tailed(o: Block, n: Block, swFirst: InstrId, p: int, inc: int, lo: nat, hi: nat)
    requires p > 0
  {
    if o == [] || DnLibExtensions.IsUnconditional(o[|o| - 1].Flow()) then n == o
    else
      var m := |o| - 1;
      |n| >= 2 && n[|n| - 2].operand.Int? &&
      var x, g := n[|n| - 2].operand.value, n[|n| - 1].id;
      0 <= x < Int32Max && x % p == inc % p && lo <= g < hi &&
      if o[m].code == Nop then
        n == o[..m] + [LoadInt(o[m].id, x), GotoInstr(g, swFirst)]
      else
        n == o + [LoadInt(n[|n| - 2].id, x), GotoInstr(g, swFirst)] && lo <= n[|n| - 2].id < hi
  }

  lemma TailedWiden(o: Block, n: Block, swFirst: InstrId, p: int, inc: int, lo: nat, hi: nat, hi': nat)
    requires p > 0 && hi <= hi' && Tailed(o, n, swFirst, p, inc, lo, hi)
    ensures Tailed(o, n, swFirst, p, inc, lo, hi')
  {
  }

  /** A tail keeps the block's first instruction, so the jump table still
      points at it. */
  lemma TailKeepsFirst(o: Block, n: Block, swFirst: InstrId, p: int, inc: int, lo: nat, hi: nat)
    requires p > 0 && Tailed(o, n, swFirst, p, inc, lo, hi) && o != []
    ensures n != [] && n[0].id == o[0].id
  {
  }

  /** The tail of one block; ids of new instructions come from `next`. */
  method AddTail(block: Block, random: Xoshiro.Xoshiro128, inc: Xoshiro.Word, p: int, swFirst: InstrId, next: InstrId)
    returns (r: Result<(Block, InstrId), FlowError>)
    requires 0 < p && 2 * p < Int32Max && inc < p
    modifies random
    ensures r.Err? ==> r.error == RandomExhausted
    ensures r.Ok? ==> next <= r.value.1 && Tailed(block, r.value.0, swFirst, p, inc, next, r.value.1)
  {
    if block == [] || DnLibExtensions.IsUnconditional(block[|block| - 1].Flow()) {
      return Ok((block, next));
    }
    var goto, after: InstrId := GotoInstr(next + 1, swFirst), next + 2;
    ghost var s := random.Current();
    var x := MathHelper.FindCongruent(inc, p, random);
    if x.Err? {
      return Err(RandomExhausted);
    }
    MathHelper.PickCongruentSound(inc, p, s);
    var load := LoadInt(next, x.value);
    var m := |block| - 1;
    var out: Block;
    if block[m].code == Nop {
      out := block[..m] + [DnLibExtensions.Replace(block[m], load)];
    } else {
      out := block + [load];
    }
    out := out + [goto];
    TailBuilt(block, x.value, p, inc, swFirst, next);
    r := Ok((out, after));
  }

  /** The tail AddTail builds from a congruent constant `x`. */
  lemma TailBuilt(block: Block, x: int, p: int, inc: int, swFirst: InstrId, next: InstrId)
    requires p > 0 && block != [] && !DnLibExtensions.IsUnconditional(block[|block| - 1].Flow())
    requires 0 <= x < Int32Max && x % p == inc % p
    ensures var m := |block| - 1;
      var load := LoadInt(next, x);
      var out := (if block[m].code == Nop then block[..m] + [DnLibExtensions.Replace(block[m], load)] else block + [load])
                 + [GotoInstr(next + 1, swFirst)];
      Tailed(block, out, swFirst, p, inc, next, next + 2)
  {
    var m := |block| - 1;
    var load := LoadInt(next, x);
    if block[m].code == Nop {
      assert DnLibExtensions.Replace(block[m], load) == LoadInt(block[m].id, x);
    }
  }

  /** Every block in turn. */
  method AddTails(blocks: seq<Block>, random: Xoshiro.Xoshiro128, inc: Xoshiro.Word, p: int, swFirst: InstrId, next: InstrId)
    returns (r: Result<(seq<Block>, InstrId), FlowError>)
    requires 0 < p && 2 * p < Int32Max && inc < p
    modifies random
    ensures r.Err? ==> r.error == RandomExhausted
    ensures r.Ok? ==> next <= r.value.1 && |r.value.0| == |blocks|
    ensures r.Ok? ==> forall i :: 0 <= i < |blocks| ==> Tailed(blocks[i], r.value.0[i], swFirst, p, inc, next, r.value.1)
  {
    var out := blocks;
    var unused := next;
    for i := 0 to |blocks|
      invariant |out| == |blocks| && next <= unused
      invariant forall k :: 0 <= k < i ==> Tailed(blocks[k], out[k], swFirst, p, inc, next, unused)
    {
      var step := AddTail(blocks[i], random, inc, p, swFirst, unused);
      if step.Err? {
        return Err(step.error);
      }
      forall k | 0 <= k < i
        ensures Tailed(blocks[k], out[k], swFirst, p, inc, next, step.value.1)
      {
        TailedWiden(blocks[k], out[k], swFirst, p, inc, next, unused, step.value.1);
      }
      out := out[i := step.value.0];
      unused := step.value.1;
    }
    r := Ok((out, unused));
  }

  // ----- Shuffle -----

  /** Random.Shuffle: for each i below n - 1, swap with a position drawn from
      [i, n). The result is a permutation. */
  method Shuffle(a: array<Block>, random: Xoshiro.Xoshiro128) returns (r: Result<(), FlowError>)
    requires a.Length <= Int32Max
    modifies a, random
    ensures multiset(a[..]) == multiset(old(a[..]))
    ensures r.Err? ==> r.error == RandomExhausted
  {
    var n := a.Length;
    var i := 0;
    while i < n - 1
      invariant 0 <= i <= if n == 0 then 0 else n - 1
      invariant multiset(a[..]) == multiset(old(a[..]))
    {
      var j := random.NextInRange(i, n);
      if j.None? {
        return Err(RandomExhausted);
      }
      var k := j.value;
      if k != i {
        a[i], a[k] := a[k], a[i];
      }
      i := i + 1;
    }
    r := Ok(());
  }

  // ----- Obfuscate -----

  /** The walk Obfuscate draws and the blocks arranged along it: the prime p,
      the start state and step, the blocks padded to p, the same blocks
      reordered, and the jump table. */
  datatype Plan = Plan(p: int, startState: int, inc: int, padded: seq<Block>, reordered: seq<Block>, table: seq<InstrId>)

  /** What Obfuscate builds: the new body and the id of its first
      instruction (the prologue's), the plan,
      the blocks after rerouting and after the tails, the stubs, and the
      order the blocks are emitted in. */
  datatype Flattening = Flattening(
    body: seq<Instr>, prologueAt: InstrId, plan: Plan,
    redirected: seq<Block>, tailed: seq<Block>, extra: seq<Block>, emitted: seq<Block>)

  /** The ranges the parameters are drawn from: p is the smallest prime at
      least the number of blocks, the start state lies in
      [100 000 000, int.MaxValue), so it is below uint.MaxValue / 2 and the
      dispatcher's addition cannot wrap, and the step lies in [2, p - 2]. */
  ghost predicate ParametersChosen(n: int, w: Plan) {
    MathHelper.SmallestPrimeAtLeast(n, w.p) && 3 < w.p <= MaxBlocks &&
    MinStartState <= w.startState < Int32Max && w.startState < UInt32Max / 2 &&
    2 <= w.inc <= w.p - 2
  }

  /** The blocks padded with empty ones to p and reordered along the walk;
      the table points at the first instruction of every non-empty block. */
  ghost predicate Arranged(blocks: seq<Block>, w: Plan) {
    0 < w.p && |blocks| <= w.p && |w.padded| == w.p && w.padded[..|blocks|] == blocks &&
    (forall i :: |blocks| <= i < w.p ==> w.padded[i] == []) &&
    ReOrdered(w.p, w.startState, w.inc, w.padded, w.reordered) &&
    TableFits(w.table, w.reordered) && (forall i :: 0 <= i < |w.table| ==> IsEntry(w.reordered, w.table[i]))
  }

  /** Draws the parameters and arranges the blocks. */
  method PlanWalk(blocks: seq<Block>, random: Xoshiro.Xoshiro128) returns (r: Result<Plan, FlowError>)
    requires MinBlocks <= |blocks| <= MaxBlocks
    requires forall k :: 0 <= k < |blocks| ==> blocks[k] != []
    modifies random
    ensures r.Err? ==> r.error == RandomExhausted
    ensures r.Ok? ==> ParametersChosen(|blocks|, r.value) && Arranged(blocks, r.value)
  {
    var prime := MathHelper.GetPrime(|blocks|);
    var p := prime.value;
    PrimeFitsInt(|blocks|, p);
    var padded := PadToPrime(blocks, p);
    assert padded[0] == blocks[0] by {
      assert padded[..|blocks|][0] == padded[0];
    }
    var start := random.NextInRange(MinStartState, Int32Max);
    if start.None? {
      return Err(RandomExhausted);
    }
    var startState := start.value;
    var step := random.NextInRange(2, p - 1);
    if step.None? {
      return Err(RandomExhausted);
    }
    var inc := step.value;
    var reordered := ReOrderBlocks(padded, p, startState, inc);
    ReOrderedHasCode(p, startState, inc, padded, reordered);
    var table := DispatchTable(reordered);
    r := Ok(Plan(p, startState, inc, padded, reordered, table));
    PlanArranged(blocks, r.value);
  }

  /** MathHelper.ReOrder on the block list, copied into an array. */
  method ReOrderBlocks(padded: seq<Block>, p: int, startState: Xoshiro.Word, inc: Xoshiro.Word) returns (reordered: seq<Block>)
    requires MathHelper.Prime(p) && |padded| == p && p <= Int32Max && 0 < inc < p && startState < Int32Max
    ensures ReOrdered(p, startState, inc, padded, reordered)
  {
    var order := new Block[p](i requires 0 <= i < p => padded[i]);
    var ro := MathHelper.ReOrder(order, p, startState, inc);
    assert ro.Ok?;
    reordered := order[..];
  }

  /** The first block is real, so some block of any reordering is too. */
  lemma ReOrderedHasCode(p: int, startState: int, inc: int, padded: seq<Block>, reordered: seq<Block>)
    requires 0 < p && ReOrdered(p, startState, inc, padded, reordered) && padded[0] != []
    ensures SomeCode(reordered)
  {
    assert reordered[MathHelper.Pos(p, startState, inc, 0)] == padded[0];
  }

  /** The facts PlanWalk gathers give the parameter ranges and the arrangement. */
  lemma PlanArranged(blocks: seq<Block>, w: Plan)
    requires MinBlocks <= |blocks| && MathHelper.SmallestPrimeAtLeast(|blocks|, w.p) && w.p <= MaxBlocks
    requires |w.padded| == w.p && w.padded[..|blocks|] == blocks
    requires forall i :: |blocks| <= i < w.p ==> w.padded[i] == []
    requires MinStartState <= w.startState < Int32Max && 2 <= w.inc < w.p - 1
    requires ReOrdered(w.p, w.startState, w.inc, w.padded, w.reordered)
    requires SomeCode(w.reordered) && w.table == DispatchTable(w.reordered)
    ensures ParametersChosen(|blocks|, w) && Arranged(blocks, w)
  {
  }

  /** Every block rerouted and given its tail back to the dispatcher head at
      id first; stubs take ids from first + 8, tails from lo, all below hi. */
  ghost predicate Rewritten(w: Plan, local: nat, first: InstrId, redirected: seq<Block>, tailed: seq<Block>,
                            extra: seq<Block>, lo: nat, hi: nat) {
    0 < w.p && |w.reordered| == w.p && |redirected| == w.p && |tailed| == w.p &&
    (forall i :: 0 <= i < w.p ==> BlockRedirected(w.reordered, i, w.p, local, w.reordered[i], redirected[i], extra)) &&
    StubsFrom(extra, first + 8, local) && lo == first + 8 + 3 * |extra| && lo <= hi &&
    (forall i {:trigger redirected[i], tailed[i]} :: 0 <= i < w.p ==> Tailed(redirected[i], tailed[i], first, w.p, w.inc, lo, hi))
  }

  /** Reroutes the jumps and adds the tails. */
  method RewriteBlocks(w: Plan, random: Xoshiro.Xoshiro128, local: nat, first: InstrId)
    returns (r: Result<(seq<Block>, seq<Block>, seq<Block>, InstrId), FlowError>)
    requires 0 < w.p && |w.reordered| == w.p && 2 * w.p < Int32Max && 0 <= w.inc < w.p
    modifies random
    ensures r.Err? ==> r.error == RandomExhausted || r.error == InvalidOperation || r.error == InvalidCast
    ensures r.Ok? ==> Rewritten(w, local, first, r.value.0, r.value.1, r.value.2, first + 8 + 3 * |r.value.2|, r.value.3)
  {
    var redirect := CreateJumpRedirects(w.reordered, random, w.p, local, first + 8);
    if redirect.Err? {
      return Err(redirect.error);
    }
    var tails := AddTails(redirect.value.blocks, random, w.inc, w.p, first, redirect.value.next);
    if tails.Err? {
      return Err(tails.error);
    }
    r := Ok((redirect.value.blocks, tails.value.0, redirect.value.extra, tails.value.1));
  }

  /** The body: the prologue (start state, a first value congruent to inc)
      at ids proFirst .., the dispatcher at id first with a fallback into
      some real block, then the blocks and stubs in shuffled order. */
  ghost predicate Emitted(w: Plan, body: seq<Instr>, tailed: seq<Block>, extra: seq<Block>, emitted: seq<Block>,
                          local: nat, first: InstrId, proFirst: InstrId) {
    0 < w.p && |body| >= 11 && body[2].operand.Int? && body[10].operand.Target? &&
    var x0, fallback := body[2].operand.value, body[10].operand.target;
    0 <= x0 < Int32Max && x0 % w.p == w.inc % w.p && IsEntry(w.reordered, fallback) &&
    body[..3] == Prologue(proFirst, local, w.startState, x0) &&
    body[3..11] == Dispatcher(first, local, w.p, w.table, fallback) &&
    body[11..] == Concat(emitted) && multiset(emitted) == multiset(tailed + extra)
  }

  /** Emits the prologue, the dispatcher and the shuffled blocks; control
      enters at the first padded block from any state. */
  method EmitBody(w: Plan, fallback: InstrId, tailed: seq<Block>, extra: seq<Block>, random: Xoshiro.Xoshiro128,
                  local: nat, first: InstrId, proFirst: InstrId) returns (r: Result<(seq<Instr>, seq<Block>), FlowError>)
    requires MathHelper.Prime(w.p) && w.p <= MaxBlocks && 0 <= w.startState < Int32Max && 0 < w.inc < w.p
    requires ReOrdered(w.p, w.startState, w.inc, w.padded, w.reordered) && TableFits(w.table, w.reordered)
    requires w.padded[0] != [] && IsEntry(w.reordered, fallback)
    modifies random
    ensures r.Err? ==> r.error == RandomExhausted || (r.error == NotSupported && |tailed| + |extra| > Int32Max)
    ensures r.Ok? ==> Emitted(w, r.value.0, tailed, extra, r.value.1, local, first, proFirst)
    ensures r.Ok? ==> forall s :: Exec(r.value.0, local, s, []) == Jump(w.padded[0][0].id, MathHelper.Pos(w.p, w.startState, w.inc, 0))
  {
    ghost var s := random.Current();
    var x0 := MathHelper.FindCongruent(w.inc, w.p, random);
    if x0.Err? {
      return Err(RandomExhausted);
    }
    MathHelper.PickCongruentSound(w.inc, w.p, s);
    var prologue := Prologue(proFirst, local, w.startState, x0.value);
    var sw := Dispatcher(first, local, w.p, w.table, fallback);
    var all := tailed + extra;
    if |all| > Int32Max {
      return Err(NotSupported);
    }
    var shuffled := new Block[|all|](i requires 0 <= i < |all| => all[i]);
    assert shuffled[..] == all;
    var done := Shuffle(shuffled, random);
    if done.Err? {
      return Err(RandomExhausted);
    }
    var emitted := shuffled[..];
    var body := prologue + sw + Concat(emitted);
    EntryReached(w, prologue, sw, Concat(emitted), proFirst, first, local, fallback, x0.value);
    EmittedLayout(w, prologue, sw, tailed, extra, emitted, local, first, proFirst, fallback, x0.value);
    r := Ok((body, emitted));
  }

  lemma EmittedLayout(w: Plan, prologue: seq<Instr>, sw: seq<Instr>, tailed: seq<Block>, extra: seq<Block>,
                      emitted: seq<Block>, local: nat, first: InstrId, proFirst: InstrId, fallback: InstrId, x0: int)
    requires 0 < w.p && 0 <= x0 < Int32Max && x0 % w.p == w.inc % w.p && IsEntry(w.reordered, fallback)
    requires prologue == Prologue(proFirst, local, w.startState, x0) && sw == Dispatcher(first, local, w.p, w.table, fallback)
    requires multiset(emitted) == multiset(tailed + extra)
    ensures Emitted(w, prologue + sw + Concat(emitted), tailed, extra, emitted, local, first, proFirst)
  {
    var body := prologue + sw + Concat(emitted);
    assert body[..3] == prologue && body[3..11] == sw && body[11..] == Concat(emitted);
    assert body[2] == prologue[2] && body[10] == sw[7];
  }

  /** The emitted body enters the first padded block from any state. */
  lemma EntryReached(w: Plan, prologue: seq<Instr>, sw: seq<Instr>, rest: seq<Instr>,
                     proFirst: InstrId, first: InstrId, local: nat, fallback: InstrId, x0: int)
    requires MathHelper.Prime(w.p) && w.p <= Int32Max && 0 <= w.startState < Int32Max
    requires ReOrdered(w.p, w.startState, w.inc, w.padded, w.reordered) && TableFits(w.table, w.reordered)
    requires w.padded[0] != []
    requires 0 <= x0 < Int32Max && x0 % w.p == w.inc % w.p
    requires prologue == Prologue(proFirst, local, w.startState, x0) && sw == Dispatcher(first, local, w.p, w.table, fallback)
    ensures forall s :: Exec(prologue + sw + rest, local, s, []) == Jump(w.padded[0][0].id, MathHelper.Pos(w.p, w.startState, w.inc, 0))
  {
    forall s | true
      ensures Exec(prologue + sw + rest, local, s, []) == Jump(w.padded[0][0].id, MathHelper.Pos(w.p, w.startState, w.inc, 0))
    {
      PrologueReachesFirstBlock(w.p, w.startState, w.inc, w.padded, w.reordered, w.table, proFirst, first, local, fallback, x0, s);
      ExecPrefix(prologue + sw, rest, local, s, []);
    }
  }

  /** Builds the body along the plan: draws the dispatcher's fallback,
      reroutes jumps, adds the tails, and emits. */
  method BuildBody(w: Plan, random: Xoshiro.Xoshiro128, local: nat, next: InstrId) returns (r: Result<Flattening, FlowError>)
    requires MathHelper.Prime(w.p) && 3 < w.p <= MaxBlocks && 0 <= w.startState < Int32Max && 0 < w.inc < w.p
    requires ReOrdered(w.p, w.startState, w.inc, w.padded, w.reordered) && TableFits(w.table, w.reordered)
    requires w.padded[0] != [] && forall i :: 0 <= i < |w.table| ==> IsEntry(w.reordered, w.table[i])
    modifies random
    ensures r.Err? ==> r.error in {RandomExhausted, InvalidOperation, InvalidCast, NotSupported}
    ensures r.Ok? ==> var f := r.value;
      f.plan == w &&
      Rewritten(w, local, next, f.redirected, f.tailed, f.extra, next + 8 + 3 * |f.extra|, f.prologueAt) &&
      Emitted(w, f.body, f.tailed, f.extra, f.emitted, local, next, f.prologueAt)
    ensures r.Ok? ==>
      forall s :: Exec(r.value.body, local, s, []) == Jump(w.padded[0][0].id, MathHelper.Pos(w.p, w.startState, w.inc, 0))
  {
    var pick := random.NextBelow(w.p);
    if pick.None? {
      return Err(RandomExhausted);
    }
    var fallback := w.table[pick.value];
    var rewrite := RewriteBlocks(w, random, local, next);
    if rewrite.Err? {
      return Err(rewrite.error);
    }
    var (redirected, tailed, extra, proFirst) := rewrite.value;
    var emit := EmitBody(w, fallback, tailed, extra, random, local, next, proFirst);
    if emit.Err? {
      return Err(emit.error);
    }
    r := Ok(Flattening(emit.value.0, proFirst, w, redirected, tailed, extra, emit.value.1));
  }

  /** Obfuscate: pads the blocks to a prime p, draws the walk, reorders the
      blocks along it, builds the dispatcher, reroutes cross-block jumps
      through stubs, adds the tails, and emits prologue, dispatcher and the
      shuffled blocks. New ids are taken from `next` on. */
  method Obfuscate(blocks: seq<Block>, seed: int, local: nat, next: InstrId) returns (r: Result<Flattening, FlowError>)
    requires IsInt32(seed)
    requires MinBlocks <= |blocks| <= MaxBlocks
    requires forall k :: 0 <= k < |blocks| ==> blocks[k] != []
    requires DistinctIds(Concat(blocks)) && forall i :: 0 <= i < |Concat(blocks)| ==> Concat(blocks)[i].id < next
    ensures r.Err? ==> r.error in {RandomExhausted, InvalidOperation, InvalidCast, NotSupported}
    ensures r.Ok? ==> ParametersChosen(|blocks|, r.value.plan) && Arranged(blocks, r.value.plan)
    ensures r.Ok? ==> var f := r.value;
      Rewritten(f.plan, local, next, f.redirected, f.tailed, f.extra, next + 8 + 3 * |f.extra|, f.prologueAt)
    ensures r.Ok? ==> var f := r.value;
      Emitted(f.plan, f.body, f.tailed, f.extra, f.emitted, local, next, f.prologueAt)
    ensures r.Ok? ==> var w := r.value.plan;
      forall s :: Exec(r.value.body, local, s, []) == Jump(blocks[0][0].id, MathHelper.Pos(w.p, w.startState, w.inc, 0))
    ensures r.Ok? ==> forall id :: id in Ids(Concat(blocks)) ==> multiset(Ids(r.value.body))[id] == 1
  {
    var random := new Xoshiro.Xoshiro128(seed);
    var plan := PlanWalk(blocks, random);
    if plan.Err? {
      return Err(plan.error);
    }
    var w := plan.value;
    assert w.padded[0] == blocks[0] by {
      assert w.padded[..|blocks|][0] == w.padded[0];
    }
    r := BuildBody(w, random, local, next);
    if r.Ok? {
      EveryInstructionOnce(blocks, w, local, next, r.value);
    }
  }

  // ----- One method body (the loop body of Execute) -----

  /** What Execute does to one method body. */
  datatype Outcome =
    | Skipped
      // some handler has no HandlerEnd: the body is left alone
    | PaddedOnly(body: seq<Instr>, handlers: seq<ExceptionHandler>, next: InstrId)
      // padded, but fewer than five blocks: not worth flattening
    | Flattened(blocks: seq<Block>, flattening: Flattening, handlers: seq<ExceptionHandler>, maxStack: nat)
      // the blocks of the padded body, what Obfuscate made of them, and the
      // new body's maximum stack height

  /** The handlers with their HandlerEnd moved to the padding Nops. */
  function WithEnds(handlers: seq<ExceptionHandler>, ends: seq<Option<InstrId>>): (r: seq<ExceptionHandler>)
    requires |ends| == |handlers|
    ensures |r| == |handlers|
    ensures forall j :: 0 <= j < |handlers| ==> r[j] == handlers[j].(handlerEnd := ends[j])
  {
    seq(|handlers|, j requires 0 <= j < |handlers| => handlers[j].(handlerEnd := ends[j]))
  }

  /** What Execute makes of a padded body `body` with handlers `hs`, by the
      blocks GetBlocks makes of it: a body without consistent stack heights is
      a StackFailure; fewer than five blocks leave it padded only; more than
      65537 are NotSupported; otherwise the blocks are flattened, or
      Obfuscate or the final stack height computation fails. */
  ghost predicate Decided(r: Result<Outcome, FlowError>, body: seq<Instr>, hs: seq<ExceptionHandler>, next: InstrId) {
    && ((!exists G :: StackHelper.Solution(body, hs, G)) ==> r.Err? && r.error.StackFailure?)
    && forall H :: StackHelper.IsLeastSolution(body, hs, H) ==>
         var B := BlocksOf(body, hs, H);
         if B.Err? then r == Err(B.error)
         else if |B.value| < MinBlocks then r == Ok(PaddedOnly(body, hs, next))
         else if |B.value| > MaxBlocks then r == Err(NotSupported)
         else
           && (r.Ok? ==> r.value.Flattened? && r.value.blocks == B.value && r.value.handlers == hs)
           && (r.Err? ==> r.error.StackFailure? || r.error in {RandomExhausted, InvalidOperation, InvalidCast, NotSupported})
  }

  /** Execute for one method: skip bodies with a handler without an end, pad
      the handlers, split into blocks, flatten when there are at least five,
      and recompute the maximum stack height of the new body. The method
      name's seed and the new state local are parameters; new instruction ids
      are taken from `next` on; `strays` are the handler ends outside the
      body that are Nops. */
  method FlattenMethod(instrs: seq<Instr>, handlers: seq<ExceptionHandler>, strays: set<InstrId>, seed: int, local: nat, next: InstrId)
    returns (r: Result<Outcome, FlowError>)
    requires IsInt32(seed) && DistinctIds(instrs)
    requires forall i :: 0 <= i < |instrs| ==> instrs[i].id < next
    requires forall j :: 0 <= j < |handlers| ==> RefBelow(handlers[j].tryStart, next) && RefBelow(handlers[j].handlerEnd, next)
    ensures (exists j :: 0 <= j < |handlers| && handlers[j].handlerEnd.None?) ==> r == Ok(Skipped)
    ensures (forall j :: 0 <= j < |handlers| ==> handlers[j].handlerEnd.Some?) && !BoundariesKnown(instrs, handlers, strays) ==>
      r.Err? && r.error in {ArgumentOutOfRange, NotSupported}
    ensures (forall j :: 0 <= j < |handlers| ==> handlers[j].handlerEnd.Some?) ==>
      var P := Padding(instrs, handlers, strays, next);
      (P.Err? ==> r == Err(P.error)) &&
      (P.Ok? ==> Decided(r, P.value.body, WithEnds(handlers, P.value.ends), P.value.next))
    ensures r.Ok? && r.value.PaddedOnly? ==> Older(r.value.body, next) == instrs && DistinctIds(r.value.body)
    ensures r.Ok? && r.value.Flattened? ==> var o := r.value; var f := o.flattening;
      Older(Concat(o.blocks), next) == instrs && MinBlocks <= |o.blocks| <= MaxBlocks &&
      (forall k :: 0 <= k < |o.blocks| ==> o.blocks[k] != []) &&
      ParametersChosen(|o.blocks|, f.plan) && Arranged(o.blocks, f.plan)
    ensures r.Ok? && r.value.Flattened? ==> var o := r.value; var w := o.flattening.plan;
      forall s :: Exec(o.flattening.body, local, s, []) == Jump(o.blocks[0][0].id, MathHelper.Pos(w.p, w.startState, w.inc, 0))
    ensures r.Ok? && r.value.Flattened? ==>
      forall i :: 0 <= i < |instrs| ==> multiset(Ids(r.value.flattening.body))[instrs[i].id] == 1
    ensures r.Ok? && r.value.Flattened? ==> var o := r.value;
      exists H :: StackHelper.IsLeastSolution(o.flattening.body, o.handlers, H) && o.maxStack == StackHelper.MaxHeight(H)
  {
    if exists j :: 0 <= j < |handlers| && handlers[j].handlerEnd.None? {
      return Ok(Skipped);
    }
    var padded := AddPadding(instrs, handlers, strays, next);
    if padded.Err? {
      return Err(padded.error);
    }
    var hs := WithEnds(handlers, padded.value.ends);
    var blocks := GetBlocks(padded.value.body, hs);
    if blocks.Err? {
      return Err(blocks.error);
    }
    if |blocks.value| < MinBlocks {
      return Ok(PaddedOnly(padded.value.body, hs, padded.value.next));
    }
    if |blocks.value| > MaxBlocks {
      return Err(NotSupported);
    }
    var f := Obfuscate(blocks.value, seed, local, padded.value.next);
    if f.Err? {
      return Err(f.error);
    }
    var maxStack := StackHelper.GetMaxStack(f.value.body, hs);
    if maxStack.Err? {
      return Err(StackFailure(maxStack.error));
    }
    r := Ok(Flattened(blocks.value, f.value, hs, maxStack.value));
    OriginalsOnce(instrs, blocks.value, next, f.value.body);
  }

  /** Every instruction the method had appears exactly once in the
      flattened body. */
  lemma OriginalsOnce(instrs: seq<Instr>, blocks: seq<Block>, next: nat, body: seq<Instr>)
    requires Older(Concat(blocks), next) == instrs
    requires forall id :: id in Ids(Concat(blocks)) ==> multiset(Ids(body))[id] == 1
    ensures forall i :: 0 <= i < |instrs| ==> multiset(Ids(body))[instrs[i].id] == 1
  {
    var all := Concat(blocks);
    OlderIn(all, next);
    forall i | 0 <= i < |instrs|
      ensures instrs[i].id in Ids(all)
    {
      assert instrs[i] in Older(all, next);
      var k :| 0 <= k < |all| && all[k] == instrs[i];
      assert Ids(all)[k] == instrs[i].id;
    }
  }

  // ----- Every original instruction is emitted exactly once -----

  /** How often each id occurs in the concatenated blocks. */
  ghost function IdBag(blocks: seq<Block>): multiset<InstrId> {
    multiset(Ids(Concat(blocks)))
  }

  lemma IdBagAppend(a: seq<Block>, b: seq<Block>)
    ensures IdBag(a + b) == IdBag(a) + IdBag(b)
  {
    ConcatAppend(a, b);
    IdsAppend(Concat(a), Concat(b));
  }

  lemma IdBagOne(b: Block)
    ensures IdBag([b]) == multiset(Ids(b))
  {
    ConcatOne(b);
  }

  /** Reordering the blocks does not change which ids occur how often. */
  lemma {:induction false} IdBagPermutation(a: seq<Block>, b: seq<Block>)
    requires multiset(a) == multiset(b)
    ensures IdBag(a) == IdBag(b)
    decreases |a|
  {
    if a == [] {
      assert |b| == |multiset(b)| == 0;
    } else {
      var n := |a| - 1;
      var x := a[n];
      assert x in multiset(b);
      var i :| 0 <= i < |b| && b[i] == x;
      var rest := b[..i] + b[i + 1..];
      assert multiset(a) == multiset(a[..n]) + multiset{x} by {
        assert a == a[..n] + [x];
      }
      PickOut(b, i);
      CancelOne(multiset(a[..n]), multiset(rest), x);
      IdBagPermutation(a[..n], rest);
      assert IdBag(a) == IdBag(a[..n]) + IdBag([x]) by {
        assert a == a[..n] + [x];
        IdBagAppend(a[..n], [x]);
      }
    }
  }

  /** Taking block i out of a list leaves the rest of its blocks and ids. */
  lemma PickOut(b: seq<Block>, i: int)
    requires 0 <= i < |b|
    ensures multiset(b) == multiset(b[..i] + b[i + 1..]) + multiset{b[i]}
    ensures IdBag(b) == IdBag(b[..i] + b[i + 1..]) + IdBag([b[i]])
  {
    assert b == b[..i] + [b[i]] + b[i + 1..];
    IdBagAppend(b[..i] + [b[i]], b[i + 1..]);
    IdBagAppend(b[..i], [b[i]]);
    IdBagAppend(b[..i], b[i + 1..]);
  }

  lemma CancelOne(p: multiset<Block>, q: multiset<Block>, x: Block)
    requires p + multiset{x} == q + multiset{x}
    ensures p == q
  {
    forall y
      ensures p[y] == q[y]
    {
      assert (p + multiset{x})[y] == (q + multiset{x})[y];
    }
  }

  /** An id no block holds does not occur in the concatenation. */
  lemma {:induction false} IdBagAbsent(blocks: seq<Block>, id: InstrId)
    requires forall k :: 0 <= k < |blocks| ==> id !in Ids(blocks[k])
    ensures IdBag(blocks)[id] == 0
    decreases |blocks|
  {
    if blocks != [] {
      var n := |blocks| - 1;
      assert blocks == blocks[..n] + [blocks[n]];
      IdBagAbsent(blocks[..n], id);
      IdBagAppend(blocks[..n], [blocks[n]]);
      IdBagOne(blocks[n]);
    }
  }

  /** Block m holds the id once and no other block holds it. */
  ghost predicate OnlyHolder(blocks: seq<Block>, m: int, id: InstrId) {
    0 <= m < |blocks| && multiset(Ids(blocks[m]))[id] == 1 &&
    forall k :: 0 <= k < |blocks| && k != m ==> id !in Ids(blocks[k])
  }

  lemma OnlyHolderOnce(blocks: seq<Block>, m: int, id: InstrId)
    requires OnlyHolder(blocks, m, id)
    ensures IdBag(blocks)[id] == 1
  {
    var before, after := blocks[..m], blocks[m + 1..];
    assert blocks == before + [blocks[m]] + after;
    assert forall k :: 0 <= k < |before| ==> before[k] == blocks[k];
    assert forall k :: 0 <= k < |after| ==> after[k] == blocks[m + 1 + k];
    IdBagAbsent(before, id);
    IdBagAbsent(after, id);
    IdBagAppend(before + [blocks[m]], after);
    IdBagAppend(before, [blocks[m]]);
    IdBagOne(blocks[m]);
  }

  /** Distinct ids occur at most once. */
  lemma {:induction false} DistinctAtMostOnce(s: seq<Instr>, id: InstrId)
    requires DistinctIds(s)
    ensures multiset(Ids(s))[id] <= 1
    decreases |s|
  {
    if s != [] {
      var n := |s| - 1;
      assert s == s[..n] + [s[n]];
      IdsAppend(s[..n], [s[n]]);
      DistinctAtMostOnce(s[..n], id);
      if s[n].id == id {
        assert id !in Ids(s[..n]);
      }
    }
  }

  /** The ids around one block. */
  lemma IdBagSplit(blocks: seq<Block>, k: int)
    requires 0 <= k < |blocks|
    ensures IdBag(blocks) == IdBag(blocks[..k]) + multiset(Ids(blocks[k])) + IdBag(blocks[k + 1..])
  {
    assert blocks == blocks[..k] + [blocks[k]] + blocks[k + 1..];
    IdBagAppend(blocks[..k] + [blocks[k]], blocks[k + 1..]);
    IdBagAppend(blocks[..k], [blocks[k]]);
    IdBagOne(blocks[k]);
  }

  /** An id held by two blocks occurs at least twice. */
  lemma TwoHolders(blocks: seq<Block>, lo: int, hi: int, id: InstrId)
    requires 0 <= lo < hi < |blocks| && id in Ids(blocks[lo]) && id in Ids(blocks[hi])
    ensures IdBag(blocks)[id] >= 2
  {
    IdBagSplit(blocks, hi);
    var front := blocks[..hi];
    assert front[lo] == blocks[lo];
    IdBagSplit(front, lo);
  }

  /** Block k of a list whose concatenation has distinct ids is the only
      holder of each of its ids. */
  lemma DistinctHolder(blocks: seq<Block>, k: int, id: InstrId)
    requires DistinctIds(Concat(blocks)) && 0 <= k < |blocks| && id in Ids(blocks[k])
    ensures OnlyHolder(blocks, k, id)
  {
    DistinctAtMostOnce(Concat(blocks), id);
    IdBagSplit(blocks, k);
    forall j | 0 <= j < |blocks| && j != k
      ensures id !in Ids(blocks[j])
    {
      if id in Ids(blocks[j]) {
        if j < k {
          TwoHolders(blocks, j, k, id);
        } else {
          TwoHolders(blocks, k, j, id);
        }
      }
    }
  }

  /** An id in the concatenation is held by some block. */
  lemma SomeHolder(blocks: seq<Block>, id: InstrId) returns (k: int)
    requires id in Ids(Concat(blocks))
    ensures 0 <= k < |blocks| && id in Ids(blocks[k])
  {
    if forall j :: 0 <= j < |blocks| ==> id !in Ids(blocks[j]) {
      IdBagAbsent(blocks, id);
      assert false;
    }
    k :| 0 <= k < |blocks| && id in Ids(blocks[k]);
  }

  /** Padding adds only empty blocks. */
  lemma PaddedHolder(blocks: seq<Block>, padded: seq<Block>, k: int, id: InstrId)
    requires |blocks| <= |padded| && padded[..|blocks|] == blocks
    requires forall i :: |blocks| <= i < |padded| ==> padded[i] == []
    requires OnlyHolder(blocks, k, id)
    ensures OnlyHolder(padded, k, id)
  {
    assert forall i :: 0 <= i < |blocks| ==> padded[i] == padded[..|blocks|][i];
  }

  /** ReOrder moves the holder to Pos(k): every other position receives
      another block. */
  lemma ReOrderedHolder(p: int, startState: int, inc: int, padded: seq<Block>, reordered: seq<Block>, k: int, id: InstrId)
    requires MathHelper.Prime(p) && 0 < inc < p
    requires ReOrdered(p, startState, inc, padded, reordered) && OnlyHolder(padded, k, id)
    ensures OnlyHolder(reordered, MathHelper.Pos(p, startState, inc, k), id)
  {
    MathHelper.PosBijective(p, startState, inc);
    var m := MathHelper.Pos(p, startState, inc, k);
    forall i | 0 <= i < p && i != m
      ensures id !in Ids(reordered[i])
    {
      assert i in MathHelper.PosImage(p, startState, inc, p);
      var j :| 0 <= j < p && MathHelper.Pos(p, startState, inc, j) == i;
      assert reordered[i] == padded[j];
    }
  }

  /** Appending two instructions with other ids keeps the count of id. */
  lemma AppendedCount(o: seq<Instr>, t: Instr, g: Instr, id: InstrId)
    requires id != t.id && id != g.id
    ensures multiset(Ids(o + [t, g]))[id] == multiset(Ids(o))[id]
  {
    IdsAppend(o, [t, g]);
    assert Ids([t, g]) == [t.id, g.id];
  }

  /** Replacing the last instruction by one with its id, then appending an
      instruction with another id, keeps the count of id. */
  lemma ReplacedCount(front: seq<Instr>, last: Instr, t: Instr, g: Instr, id: InstrId)
    requires t.id == last.id && id != g.id
    ensures multiset(Ids(front + [t, g]))[id] == multiset(Ids(front + [last]))[id]
  {
    IdsAppend(front, [last]);
    IdsAppend(front, [t, g]);
    assert Ids([t, g]) == [last.id, g.id];
    assert Ids([last]) == [last.id];
  }

  /** A tail adds only ids from lo on. */
  lemma TailedCount(o: Block, n: Block, swFirst: InstrId, p: int, inc: int, lo: nat, hi: nat, id: InstrId)
    requires p > 0 && Tailed(o, n, swFirst, p, inc, lo, hi) && id < lo
    ensures multiset(Ids(n))[id] == multiset(Ids(o))[id]
  {
    if !(o == [] || DnLibExtensions.IsUnconditional(o[|o| - 1].Flow())) {
      var m := |o| - 1;
      var x, g := n[|n| - 2].operand.value, n[|n| - 1].id;
      if o[m].code == Nop {
        assert o == o[..m] + [o[m]];
        ReplacedCount(o[..m], o[m], LoadInt(o[m].id, x), GotoInstr(g, swFirst), id);
      } else {
        AppendedCount(o, LoadInt(n[|n| - 2].id, x), GotoInstr(g, swFirst), id);
      }
    }
  }

  /** Stubs carry only ids from `first` on. */
  lemma StubsHolder(tailed: seq<Block>, extra: seq<Block>, first: InstrId, local: nat, m: int, id: InstrId)
    requires StubsFrom(extra, first, local) && id < first && OnlyHolder(tailed, m, id)
    ensures OnlyHolder(tailed + extra, m, id)
  {
    StubsLackId(extra, first, local, id);
    HolderAppend(tailed, extra, m, id);
  }

  /** No stub carries an id below the first stub id. */
  lemma StubsLackId(extra: seq<Block>, first: InstrId, local: nat, id: InstrId)
    requires StubsFrom(extra, first, local) && id < first
    ensures forall e :: 0 <= e < |extra| ==> id !in Ids(extra[e])
  {
    forall e | 0 <= e < |extra|
      ensures id !in Ids(extra[e])
    {
      assert StubShape(extra[e], first + 3 * e, local);
      assert Ids(extra[e]) == [first + 3 * e, first + 3 * e + 1, first + 3 * e + 2];
    }
  }

  /** Appending blocks that lack an id keeps the only holder of it. */
  lemma HolderAppend(blocks: seq<Block>, more: seq<Block>, m: int, id: InstrId)
    requires OnlyHolder(blocks, m, id) && forall e :: 0 <= e < |more| ==> id !in Ids(more[e])
    ensures OnlyHolder(blocks + more, m, id)
  {
    assert forall i :: |blocks| <= i < |blocks + more| ==> (blocks + more)[i] == more[i - |blocks|];
  }

  /** The block holding an original id is the only holder of it after
      padding and reordering. */
  lemma ArrangedHolder(blocks: seq<Block>, w: Plan, id: InstrId) returns (m: int)
    requires DistinctIds(Concat(blocks)) && id in Ids(Concat(blocks))
    requires ParametersChosen(|blocks|, w) && Arranged(blocks, w)
    ensures OnlyHolder(w.reordered, m, id)
  {
    var k := SomeHolder(blocks, id);
    DistinctHolder(blocks, k, id);
    PaddedHolder(blocks, w.padded, k, id);
    ReOrderedHolder(w.p, w.startState, w.inc, w.padded, w.reordered, k, id);
    m := MathHelper.Pos(w.p, w.startState, w.inc, k);
  }

  /** Rewriting moves nothing: the holder of an original id keeps it and
      the stubs do not carry it. */
  lemma RewrittenHolder(f: Flattening, local: nat, next: InstrId, m: int, id: InstrId)
    requires Rewritten(f.plan, local, next, f.redirected, f.tailed, f.extra, next + 8 + 3 * |f.extra|, f.prologueAt)
    requires id < next && OnlyHolder(f.plan.reordered, m, id)
    ensures OnlyHolder(f.tailed + f.extra, m, id)
  {
    TailedHolder(f, local, next, m, id);
    StubsHolder(f.tailed, f.extra, next + 8, local, m, id);
  }

  /** The holder of an original id keeps it through rerouting and tails. */
  lemma TailedHolder(f: Flattening, local: nat, next: InstrId, m: int, id: InstrId)
    requires Rewritten(f.plan, local, next, f.redirected, f.tailed, f.extra, next + 8 + 3 * |f.extra|, f.prologueAt)
    requires id < next && OnlyHolder(f.plan.reordered, m, id)
    ensures OnlyHolder(f.tailed, m, id)
  {
    forall i | 0 <= i < f.plan.p
      ensures multiset(Ids(f.tailed[i]))[id] == multiset(Ids(f.plan.reordered[i]))[id]
    {
      RewrittenCount(f, local, next, i, id);
    }
  }

  /** Block i of the rewritten list holds an original id as often as block
      i of the reordered list. */
  lemma RewrittenCount(f: Flattening, local: nat, next: InstrId, i: int, id: InstrId)
    requires Rewritten(f.plan, local, next, f.redirected, f.tailed, f.extra, next + 8 + 3 * |f.extra|, f.prologueAt)
    requires id < next && 0 <= i < f.plan.p
    ensures multiset(Ids(f.tailed[i]))[id] == multiset(Ids(f.plan.reordered[i]))[id]
  {
    var w := f.plan;
    assert Ids(f.redirected[i]) == Ids(w.reordered[i]) by {
      RedirectKeepsIds(w.reordered, i, w.p, local, w.reordered[i], f.redirected[i], f.extra);
    }
    assert multiset(Ids(f.tailed[i]))[id] == multiset(Ids(f.redirected[i]))[id] by {
      TailedCount(f.redirected[i], f.tailed[i], next, w.p, w.inc, next + 8 + 3 * |f.extra|, f.prologueAt, id);
    }
  }

  /** One original id occurs exactly once in the emitted body. */
  lemma InstructionOnce(blocks: seq<Block>, local: nat, next: InstrId, f: Flattening, id: InstrId)
    requires DistinctIds(Concat(blocks)) && id in Ids(Concat(blocks)) && id < next
    requires ParametersChosen(|blocks|, f.plan) && Arranged(blocks, f.plan)
    requires Rewritten(f.plan, local, next, f.redirected, f.tailed, f.extra, next + 8 + 3 * |f.extra|, f.prologueAt)
    requires Emitted(f.plan, f.body, f.tailed, f.extra, f.emitted, local, next, f.prologueAt)
    ensures multiset(Ids(f.body))[id] == 1
  {
    var m := ArrangedHolder(blocks, f.plan, id);
    RewrittenHolder(f, local, next, m, id);
    EmittedOnce(f, local, next, m, id);
  }

  /** Shuffling and the new head keep the count of an original id. */
  lemma EmittedOnce(f: Flattening, local: nat, next: InstrId, m: int, id: InstrId)
    requires Emitted(f.plan, f.body, f.tailed, f.extra, f.emitted, local, next, f.prologueAt)
    requires id < next <= f.prologueAt && OnlyHolder(f.tailed + f.extra, m, id)
    ensures multiset(Ids(f.body))[id] == 1
  {
    OnlyHolderOnce(f.tailed + f.extra, m, id);
    IdBagPermutation(f.emitted, f.tailed + f.extra);
    BodyCount(f, local, next, id);
  }

  /** The prologue and the dispatcher carry only new ids. */
  lemma BodyCount(f: Flattening, local: nat, next: InstrId, id: InstrId)
    requires Emitted(f.plan, f.body, f.tailed, f.extra, f.emitted, local, next, f.prologueAt)
    requires id < next <= f.prologueAt
    ensures multiset(Ids(f.body))[id] == IdBag(f.emitted)[id]
  {
    var pro, sw := f.body[..3], f.body[3..11];
    assert f.body == pro + sw + f.body[11..];
    IdsAppend(pro + sw, f.body[11..]);
    IdsAppend(pro, sw);
    assert id !in Ids(pro);
    assert id !in Ids(sw);
  }

  /** Every instruction of the blocks Obfuscate receives appears exactly
      once in the body it emits. */
  lemma EveryInstructionOnce(blocks: seq<Block>, w: Plan, local: nat, next: InstrId, f: Flattening)
    requires DistinctIds(Concat(blocks)) && forall i :: 0 <= i < |Concat(blocks)| ==> Concat(blocks)[i].id < next
    requires ParametersChosen(|blocks|, w) && Arranged(blocks, w) && f.plan == w
    requires Rewritten(w, local, next, f.redirected, f.tailed, f.extra, next + 8 + 3 * |f.extra|, f.prologueAt)
    requires Emitted(w, f.body, f.tailed, f.extra, f.emitted, local, next, f.prologueAt)
    ensures forall id :: id in Ids(Concat(blocks)) ==> multiset(Ids(f.body))[id] == 1
  {
    forall id | id in Ids(Concat(blocks))
      ensures multiset(Ids(f.body))[id] == 1
    {
      InstructionOnce(blocks, local, next, f, id);
    }
  }
}
