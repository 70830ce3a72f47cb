/** The block structure the control-flow flattening works on
    of the ControlFlow feature: a method body cut into blocks at the
    instructions with an empty evaluation stack, blocks that overlap an
    exception region merged, small blocks folded into their neighbours, and
    the padding Nops inserted around exception regions beforehand.

    A `List<List<Instruction>>` that the source updates in place is a
    `seq<Block>` value here, threaded through the methods; nothing else holds
    a reference to it. */
module ControlFlowBlocks {
  import opened Wrappers
  import opened Cil
  import StackHelper

  /** A block: a run of instructions of the body. */
  type Block = seq<Instr>

  /** The exceptions the flattening can raise. */
  datatype FlowError =
    | ArgumentOutOfRange   // a list index of -1 or past the end
    | NotSupported         // a handler end that is not in the body
    | InvalidOperation     // `Single` on no match or on several
    | InvalidCast          // a branch operand of the wrong kind for its opcode
    | StackFailure(error: StackHelper.StackError)
    | PrimeFailure         // GetPrime or ReOrder refused their arguments
    | RandomExhausted      // the generator gave up redrawing (see Xoshiro)

  // ----- Concatenation -----

  /** The blocks laid end to end. */
  function Concat(blocks: seq<Block>): seq<Instr>
    decreases |blocks|
  {
    if blocks == [] then [] else Concat(blocks[..|blocks| - 1]) + blocks[|blocks| - 1]
  }

  lemma {:induction false} ConcatAppend(a: seq<Block>, b: seq<Block>)
    ensures Concat(a + b) == Concat(a) + Concat(b)
    decreases |b|
  {
    if b == [] {
      assert a + b == a;
    } else {
      var n := |b|;
      assert (a + b)[..|a + b| - 1] == a + b[..n - 1];
      ConcatAppend(a, b[..n - 1]);
    }
  }

  lemma ConcatOne(b: Block)
    ensures Concat([b]) == b
  {
    assert [b][..0] == [];
  }

  /** The concatenation around one position. */
  lemma ConcatAround(blocks: seq<Block>, i: nat)
    requires i < |blocks|
    ensures Concat(blocks) == Concat(blocks[..i]) + blocks[i] + Concat(blocks[i + 1..])
  {
    SplitThree(blocks, i, i + 1);
    assert blocks[i..i + 1] == [blocks[i]];
    ConcatThree(blocks[..i], blocks[i], blocks[i + 1..]);
  }

  lemma ConcatThree(a: seq<Block>, b: Block, c: seq<Block>)
    ensures Concat(a + [b] + c) == Concat(a) + b + Concat(c)
  {
    ConcatAppend(a + [b], c);
    ConcatAppend(a, [b]);
    ConcatOne(b);
  }

  /** Appending block i to block i - 1 and clearing block i keeps the
      concatenation. */
  lemma MoveDownKeepsConcat(blocks: seq<Block>, i: nat)
    requires 0 < i < |blocks|
    ensures Concat(blocks[i - 1 := blocks[i - 1] + blocks[i]][i := []]) == Concat(blocks)
  {
    var after := blocks[i - 1 := blocks[i - 1] + blocks[i]][i := []];
    ConcatAround(blocks, i);
    ConcatAround(after, i);
    assert after[i + 1..] == blocks[i + 1..];
    ConcatAround(blocks[..i], i - 1);
    ConcatAround(after[..i], i - 1);
    assert after[..i][..i - 1] == blocks[..i][..i - 1];
    assert after[..i][i..] == [] && blocks[..i][i..] == [];
  }

  /** Prepending block 0 to block 1 and clearing block 0 keeps the
      concatenation. */
  lemma MoveUpKeepsConcat(blocks: seq<Block>)
    requires 1 < |blocks|
    ensures Concat(blocks[1 := blocks[0] + blocks[1]][0 := []]) == Concat(blocks)
  {
    var after := blocks[1 := blocks[0] + blocks[1]][0 := []];
    ConcatAround(blocks, 1);
    ConcatAround(after, 1);
    assert after[2..] == blocks[2..];
    assert after[..1] == [[]] && blocks[..1] == [blocks[0]];
    ConcatOne([]);
    ConcatOne(blocks[0]);
  }

  // ----- Splitting at empty-stack instructions -----

  /** The first index whose height is 0, or the length when there is none. */
  function FirstZero(heights: seq<Option<nat>>): (r: nat)
    ensures r <= |heights|
    ensures forall k :: 0 <= k < r ==> heights[k] != Some(0)
    ensures r < |heights| ==> heights[r] == Some(0)
  {
    if heights == [] then 0
    else if heights[0] == Some(0) then 0
    else
      var r := 1 + FirstZero(heights[1..]);
      assert forall k :: 1 <= k < r ==> heights[k] == heights[1..][k - 1];
      r
  }

  /** `blocks` cut `heights[from..]` at every height-0 index: each block
      starts at a height-0 instruction, holds no other, and the blocks follow
      one another up to the end. */
  ghost predicate ZeroSplit(heights: seq<Option<nat>>, from: nat, blocks: seq<Block>)
    decreases |blocks|
  {
    if blocks == [] then from == |heights|
    else
      && from + |blocks[0]| <= |heights|
      && blocks[0] != []
      && heights[from] == Some(0)
      && (forall k :: from < k < from + |blocks[0]| ==> heights[k] != Some(0))
      && ZeroSplit(heights, from + |blocks[0]|, blocks[1..])
  }

  /** The loop of GetBlocks: walking down from the end, cut off a block at
      every instruction whose height is 0 (`blocks.Add` on the way down
      followed by `blocks.Reverse()` is a prepend here). Instructions before
      the first height-0 one belong to no block. */
  method SplitAtZeroHeights(instrs: seq<Instr>, heights: seq<Option<nat>>) returns (blocks: seq<Block>)
    requires |heights| == |instrs|
    ensures ZeroSplit(heights, FirstZero(heights), blocks)
    ensures Concat(blocks) == instrs[FirstZero(heights)..]
    ensures blocks == Split(instrs, heights)
  {
    blocks := [];
    var j := |instrs|;
    var i := |instrs| - 1;
    while i >= 0
      invariant -1 <= i < j <= |instrs| || (i == -1 && j == 0) || (i == |instrs| - 1 && j == |instrs|)
      invariant i < j
      invariant forall k :: i < k < j ==> heights[k] != Some(0)
      invariant j < |instrs| ==> heights[j] == Some(0)
      invariant blocks == CutFrom(instrs, heights, j)
    {
      if heights[i] == Some(0) {
        CutAt(instrs, heights, i, j, blocks);
        blocks := [instrs[i..j]] + blocks;
        j := i;
      }
      i := i - 1;
    }
    FirstZeroIs(heights, j);
    CutLaysOut(instrs, heights, j);
  }

  /** The cut blocks follow one another from a height-0 index to the end. */
  lemma {:induction false} CutLaysOut(instrs: seq<Instr>, heights: seq<Option<nat>>, from: nat)
    requires |heights| == |instrs| && from <= |instrs|
    requires from < |instrs| ==> heights[from] == Some(0)
    ensures ZeroSplit(heights, from, CutFrom(instrs, heights, from))
    ensures Concat(CutFrom(instrs, heights, from)) == instrs[from..]
    decreases |instrs| - from
  {
    if from < |instrs| {
      var tail := heights[from + 1..];
      var end := from + 1 + FirstZero(tail);
      var range := instrs[from..end];
      var rest := CutFrom(instrs, heights, end);
      if end < |instrs| {
        assert tail[end - from - 1] == heights[end];
      }
      forall k | from < k < end
        ensures heights[k] != Some(0)
      {
        assert tail[k - from - 1] == heights[k];
      }
      CutLaysOut(instrs, heights, end);
      assert ([range] + rest)[1..] == rest;
      ConcatAppend([range], rest);
      ConcatOne(range);
      assert instrs[from..] == range + instrs[end..];
    }
  }

  /** The blocks of `instrs[from..]`, each running from `from` or a height-0
      index up to the next height-0 index or the end. */
  function CutFrom(instrs: seq<Instr>, heights: seq<Option<nat>>, from: nat): (r: seq<Block>)
    requires |heights| == |instrs| && from <= |instrs|
    decreases |instrs| - from
  {
    if from == |instrs| then []
    else
      var end := from + 1 + FirstZero(heights[from + 1..]);
      [instrs[from..end]] + CutFrom(instrs, heights, end)
  }

  /** The blocks GetBlocks starts from: the body cut before every height-0
      instruction, from the first one on. */
  function Split(instrs: seq<Instr>, heights: seq<Option<nat>>): seq<Block>
    requires |heights| == |instrs|
  {
    CutFrom(instrs, heights, FirstZero(heights))
  }

  /** A block cut off at a height-0 index `i` ends at the next one, `j`. */
  lemma CutAt(instrs: seq<Instr>, heights: seq<Option<nat>>, i: nat, j: nat, rest: seq<Block>)
    requires |heights| == |instrs| && i < j <= |instrs|
    requires forall k :: i < k < j ==> heights[k] != Some(0)
    requires j < |instrs| ==> heights[j] == Some(0)
    requires rest == CutFrom(instrs, heights, j)
    ensures CutFrom(instrs, heights, i) == [instrs[i..j]] + rest
  {
    var tail := heights[i + 1..];
    FirstZeroIs(tail, j - i - 1) by {
      forall k | 0 <= k < j - i - 1
        ensures tail[k] != Some(0)
      {
        assert tail[k] == heights[i + 1 + k];
      }
      if j < |instrs| {
        assert tail[j - i - 1] == heights[j];
      }
    }
  }

  /** FirstZero is the index before which no height is 0 and at which one is. */
  lemma FirstZeroIs(heights: seq<Option<nat>>, m: nat)
    requires m <= |heights| && forall k :: 0 <= k < m ==> heights[k] != Some(0)
    requires m < |heights| ==> heights[m] == Some(0)
    ensures FirstZero(heights) == m
  {
  }

  /** Where the k-th block of a list starts in its concatenation. */
  function Start(blocks: seq<Block>, k: nat): nat
    requires k <= |blocks|
  {
    |Concat(blocks[..k])|
  }

  lemma StartSucc(blocks: seq<Block>, k: nat)
    requires k < |blocks|
    ensures Start(blocks, k + 1) == Start(blocks, k) + |blocks[k]|
  {
    assert blocks[..k + 1][..k] == blocks[..k];
  }

  /** Every block start inside the body is an index of height 0. */
  ghost predicate StartsAtZero(blocks: seq<Block>, heights: seq<Option<nat>>) {
    forall k {:trigger Start(blocks, k)} :: 0 <= k <= |blocks| && Start(blocks, k) < |heights| ==>
      heights[Start(blocks, k)] == Some(0)
  }

  /** The blocks cut from a height-0 index start at height-0 indices. */
  lemma {:induction false} CutStarts(instrs: seq<Instr>, heights: seq<Option<nat>>, from: nat, k: nat)
    requires |heights| == |instrs| && from <= |instrs|
    requires from < |instrs| ==> heights[from] == Some(0)
    requires k <= |CutFrom(instrs, heights, from)|
    requires from + Start(CutFrom(instrs, heights, from), k) < |heights|
    ensures heights[from + Start(CutFrom(instrs, heights, from), k)] == Some(0)
    decreases |instrs| - from
  {
    var b := CutFrom(instrs, heights, from);
    if k > 0 {
      var end := from + 1 + FirstZero(heights[from + 1..]);
      var rest := CutFrom(instrs, heights, end);
      assert b == [instrs[from..end]] + rest;
      assert b[..k] == [instrs[from..end]] + rest[..k - 1];
      ConcatAppend([instrs[from..end]], rest[..k - 1]);
      ConcatOne(instrs[from..end]);
      assert from + Start(b, k) == end + Start(rest, k - 1);
      if end < |instrs| {
        assert heights[from + 1..][end - from - 1] == heights[end];
      }
      CutStarts(instrs, heights, end, k - 1);
    }
  }

  /** The split of a body whose first instruction has height 0 starts every
      block at a height-0 index. */
  lemma SplitStartsAtZero(instrs: seq<Instr>, heights: seq<Option<nat>>)
    requires |heights| == |instrs| && (instrs != [] ==> heights[0] == Some(0))
    ensures StartsAtZero(Split(instrs, heights), heights)
  {
    var b := Split(instrs, heights);
    assert FirstZero(heights) == 0;
    forall k | 0 <= k <= |b| && Start(b, k) < |heights|
      ensures heights[Start(b, k)] == Some(0)
    {
      CutStarts(instrs, heights, 0, k);
    }
  }

  /** The heights of a body the stack analyser accepts start with 0 at the
      first instruction, so the split covers the whole body and yields at
      least one block, as the two debug checks after the split expect. */
  lemma SplitCoversBody(instrs: seq<Instr>, handlers: seq<ExceptionHandler>, heights: seq<Option<nat>>, blocks: seq<Block>)
    requires StackHelper.IsLeastSolution(instrs, handlers, heights)
    requires ZeroSplit(heights, FirstZero(heights), blocks) && Concat(blocks) == instrs[FirstZero(heights)..]
    ensures Concat(blocks) == instrs
    ensures blocks != []
  {
    var none := seq(|instrs|, _ => None);
    StackHelper.FirstEntry(instrs, handlers, none);
    assert heights[0] == Some(0);
    assert instrs[0..] == instrs;
  }

  // ----- Small blocks -----

  /** The instructions of a block that are not Nop. */
  function NonNopCount(block: Block): nat
    decreases |block|
  {
    if block == [] then 0
    else NonNopCount(block[..|block| - 1]) + if block[|block| - 1].code == Nop then 0 else 1
  }

  /** `IsSmallBlock`: fewer than two instructions other than Nop. */
  predicate IsSmallBlock(block: Block) {
    NonNopCount(block) < 2
  }

  /** A block is small exactly when no two of its instructions are both
      something other than Nop. */
  lemma {:induction false} SmallMeansAtMostOneNonNop(block: Block)
    ensures IsSmallBlock(block) <==> forall j, k :: 0 <= j < k < |block| ==> block[j].code == Nop || block[k].code == Nop
    decreases |block|
  {
    if block != [] {
      var n := |block|;
      var pre := block[..n - 1];
      SmallMeansAtMostOneNonNop(pre);
      NoNonNop(pre);
      if NonNopCount(pre) == 1 && block[n - 1].code != Nop {
        var j := SomeNonNop(pre);
        assert block[j].code != Nop;
      }
      if NonNopCount(pre) >= 2 {
        var j, k :| 0 <= j < k < |pre| && pre[j].code != Nop && pre[k].code != Nop;
        assert block[j] == pre[j] && block[k] == pre[k];
      }
    }
  }

  lemma {:induction false} NoNonNop(block: Block)
    ensures NonNopCount(block) == 0 <==> forall k :: 0 <= k < |block| ==> block[k].code == Nop
    decreases |block|
  {
    if block != [] {
      NoNonNop(block[..|block| - 1]);
    }
  }

  lemma {:induction false} SomeNonNop(block: Block) returns (j: nat)
    requires NonNopCount(block) > 0
    ensures j < |block| && block[j].code != Nop
    decreases |block|
  {
    var n := |block|;
    if block[n - 1].code != Nop {
      j := n - 1;
    } else {
      j := SomeNonNop(block[..n - 1]);
    }
  }

  /** The first non-empty block at or after `k`, or the block count. */
  function NextNonEmpty(blocks: seq<Block>, k: nat): (r: nat)
    requires k <= |blocks|
    ensures k <= r <= |blocks|
    ensures r < |blocks| ==> blocks[r] != []
    ensures forall j :: k <= j < r ==> blocks[j] == []
    decreases |blocks| - k
  {
    if k == |blocks| then k else if blocks[k] != [] then k else NextNonEmpty(blocks, k + 1)
  }

  /** NextNonEmpty looks only at the blocks from `k` on. */
  lemma {:induction false} NextNonEmptyAt(a: seq<Block>, b: seq<Block>, k: nat)
    requires |a| == |b| && k <= |a|
    requires forall j :: k <= j < |a| ==> a[j] == b[j]
    ensures NextNonEmpty(a, k) == NextNonEmpty(b, k)
    decreases |a| - k
  {
    if k < |a| && a[k] == [] {
      NextNonEmptyAt(a, b, k + 1);
    }
  }

  lemma NextNonEmptyFrom(a: seq<Block>, b: seq<Block>, from: nat)
    requires |a| == |b| && from <= |a|
    requires forall j :: from <= j < |a| ==> a[j] == b[j]
    ensures forall k :: from <= k <= |a| ==> NextNonEmpty(a, k) == NextNonEmpty(b, k)
  {
    forall k | from <= k <= |a|
      ensures NextNonEmpty(a, k) == NextNonEmpty(b, k)
    {
      NextNonEmptyAt(a, b, k);
    }
  }

  /** Block `k` of the input followed by the input blocks that end up empty
      right after it in `r`: what block `k` holds once it has absorbed its
      small successors. */
  function Run(blocks: seq<Block>, r: seq<Block>, k: nat): Block
    requires |r| == |blocks| && k < |blocks|
  {
    Concat(blocks[k..NextNonEmpty(r, k + 1)])
  }

  /** What Compress leaves at position `k` >= 2: the run of block `k`, or
      nothing when that run is small and so went to block `k - 1`. */
  function Settled(blocks: seq<Block>, r: seq<Block>, k: nat): Block
    requires |r| == |blocks| && k < |blocks|
  {
    var run := Run(blocks, r, k);
    if IsSmallBlock(run) then [] else run
  }

  /** The first block of a slice in front of the concatenation of the rest. */
  lemma ConcatFront(blocks: seq<Block>, a: nat, b: nat)
    requires a < b <= |blocks|
    ensures Concat(blocks[a..b]) == blocks[a] + Concat(blocks[a + 1..b])
  {
    assert blocks[a..b] == [blocks[a]] + blocks[a + 1..b];
    ConcatAppend([blocks[a]], blocks[a + 1..b]);
    ConcatOne(blocks[a]);
  }

  /** Appending block i to block i - 1 and clearing block i is merging the
      range i - 1 ..= i. */
  lemma MoveDownIsMerge(blocks: seq<Block>, i: nat)
    requires 0 < i < |blocks|
    ensures blocks[i - 1 := blocks[i - 1] + blocks[i]][i := []] == MergeRange(blocks, i - 1, i)
  {
    var m := MergeRange(blocks, i - 1, i);
    assert blocks[i - 1..i + 1] == [blocks[i - 1]] + [blocks[i]];
    ConcatAppend([blocks[i - 1]], [blocks[i]]);
    ConcatOne(blocks[i - 1]);
    ConcatOne(blocks[i]);
    assert m[i] == [];
  }

  /** Compress's loop invariant while it looks at block `i`: the blocks
      before `i` are untouched, block `i` holds its run, the blocks after it
      are settled, and instructions that shared a block still do. */
  ghost predicate CompressInvariant(blocks: seq<Block>, r: seq<Block>, i: nat) {
    && |r| == |blocks| && 1 <= i < |r|
    && (forall k :: 0 <= k < i ==> r[k] == blocks[k])
    && r[i] == Run(blocks, r, i)
    && (forall k {:trigger Settled(blocks, r, k)} :: i < k < |r| ==> r[k] == Settled(blocks, r, k))
    && Concat(r) == Concat(blocks)
    && KeepsTogether(blocks, r)
  }

  /** Instructions that share a block in `blocks` still share one in `r`. */
  ghost predicate KeepsTogether(blocks: seq<Block>, r: seq<Block>) {
    forall x, y :: Together(blocks, x, y) ==> Together(r, x, y)
  }

  lemma CompressStart(blocks: seq<Block>)
    requires |blocks| >= 2
    ensures CompressInvariant(blocks, blocks, |blocks| - 1)
  {
    var n := |blocks|;
    assert blocks[n - 1..n] == [blocks[n - 1]];
    ConcatOne(blocks[n - 1]);
  }

  /** One step of Compress's loop keeps its invariant. */
  lemma CompressStep(blocks: seq<Block>, r: seq<Block>, i: nat)
    requires CompressInvariant(blocks, r, i) && i > 1
    ensures IsSmallBlock(r[i]) ==> CompressInvariant(blocks, r[i - 1 := r[i - 1] + r[i]][i := []], i - 1)
    ensures !IsSmallBlock(r[i]) ==> CompressInvariant(blocks, r, i - 1)
  {
    if IsSmallBlock(r[i]) {
      CompressMoveStep(blocks, r, i);
    } else {
      CompressKeepStep(blocks, r, i);
    }
  }

  /** A block `i` that is not small stays where it is and settles. */
  lemma CompressKeepStep(blocks: seq<Block>, r: seq<Block>, i: nat)
    requires CompressInvariant(blocks, r, i) && i > 1 && !IsSmallBlock(r[i])
    ensures CompressInvariant(blocks, r, i - 1)
  {
    KeptRun(blocks, r, i);
    assert r[i] == Settled(blocks, r, i);
  }

  /** Block `i - 1` is its own run when block `i` is not empty. */
  lemma KeptRun(blocks: seq<Block>, r: seq<Block>, i: nat)
    requires |r| == |blocks| && 0 < i < |r| && r[i - 1] == blocks[i - 1] && !IsSmallBlock(r[i])
    ensures r[i - 1] == Run(blocks, r, i - 1)
  {
    assert NonNopCount([]) == 0;
    assert NextNonEmpty(r, i) == i;
    assert blocks[i - 1..i] == [blocks[i - 1]];
    ConcatOne(blocks[i - 1]);
  }

  /** A small block `i` appended to block `i - 1` keeps the invariant. */
  lemma CompressMoveStep(blocks: seq<Block>, r: seq<Block>, i: nat)
    requires CompressInvariant(blocks, r, i) && i > 1 && IsSmallBlock(r[i])
    ensures CompressInvariant(blocks, r[i - 1 := r[i - 1] + r[i]][i := []], i - 1)
  {
    var r' := r[i - 1 := r[i - 1] + r[i]][i := []];
    assert forall k :: 0 <= k < i - 1 ==> r'[k] == blocks[k];
    assert r'[i - 1] == Run(blocks, r', i - 1) && forall k {:trigger Settled(blocks, r', k)} :: i - 1 < k < |r'| ==> r'[k] == Settled(blocks, r', k) by {
      MovedRuns(blocks, r, i);
    }
    assert Concat(r') == Concat(blocks) by {
      MoveDownKeepsConcat(r, i);
    }
    assert KeepsTogether(blocks, r') by {
      MoveDownKeepsTogether(blocks, r, i);
    }
  }

  /** After the move, block `i - 1` holds its run, and blocks from `i` on are
      settled. */
  lemma MovedRuns(blocks: seq<Block>, r: seq<Block>, i: nat)
    requires |r| == |blocks| && 0 < i < |r| && IsSmallBlock(r[i])
    requires r[i - 1] == blocks[i - 1] && r[i] == Run(blocks, r, i)
    requires forall k {:trigger Settled(blocks, r, k)} :: i < k < |r| ==> r[k] == Settled(blocks, r, k)
    ensures var r' := r[i - 1 := r[i - 1] + r[i]][i := []];
      && r'[i - 1] == Run(blocks, r', i - 1)
      && forall k {:trigger Settled(blocks, r', k)} :: i <= k < |r'| ==> r'[k] == Settled(blocks, r', k)
  {
    var r' := r[i - 1 := r[i - 1] + r[i]][i := []];
    NextNonEmptyFrom(r, r', i + 1);
    var n := NextNonEmpty(r, i + 1);
    assert NextNonEmpty(r', i) == n;
    assert r[i] == Concat(blocks[i..n]);
    ConcatFront(blocks, i - 1, n);
    assert r'[i] == Settled(blocks, r', i);
    forall k | i < k < |r'|
      ensures r'[k] == Settled(blocks, r', k)
    {
      assert r[k] == Settled(blocks, r, k);
    }
  }

  lemma MoveDownKeepsTogether(blocks: seq<Block>, r: seq<Block>, i: nat)
    requires 0 < i < |r|
    requires KeepsTogether(blocks, r)
    ensures KeepsTogether(blocks, r[i - 1 := r[i - 1] + r[i]][i := []])
  {
    MoveDownIsMerge(r, i);
    forall x, y | Together(blocks, x, y)
      ensures Together(MergeRange(r, i - 1, i), x, y)
    {
      assert Together(r, x, y);
      FindInMerged(r, i - 1, i, x);
      FindInMerged(r, i - 1, i, y);
    }
  }

  /** `Compress`: walking down from the last block to block 2, a small block
      is appended to the one before it; then a small block 0 is prepended to
      block 1. Block 1 is never folded into block 0. */
  method Compress(blocks: seq<Block>) returns (r: seq<Block>)
    ensures r == CompressOf(blocks)
    ensures |r| == |blocks|
    ensures Concat(r) == Concat(blocks)
    ensures forall i :: 2 <= i < |r| ==> r[i] == [] || !IsSmallBlock(r[i])
    ensures forall i {:trigger Settled(blocks, r, i)} :: 2 <= i < |r| ==> r[i] == Settled(blocks, r, i)
    ensures |r| > 1 ==> r[1] == (if IsSmallBlock(blocks[0]) then blocks[0] else []) + Run(blocks, r, 1)
    ensures |r| > 1 ==> r[0] == if IsSmallBlock(blocks[0]) then [] else blocks[0]
    ensures |r| <= 1 ==> r == blocks
    ensures KeepsTogether(blocks, r)
  {
    r := blocks;
    if |r| <= 1 {
      return;
    }
    r := CompressBackward(blocks);
    CompressEnd(blocks, r);
    CompressLoopEnd(r);
    if IsSmallBlock(r[0]) {
      r := r[1 := r[0] + r[1]][0 := []];
    }
  }

  /** The backward loop of Compress, from the last block down to block 2:
      a small block is appended to the one before it. */
  method CompressBackward(blocks: seq<Block>) returns (r: seq<Block>)
    requires |blocks| >= 2
    ensures CompressInvariant(blocks, r, 1)
    ensures CompressLoop(r, 1) == CompressOf(blocks)
  {
    r := blocks;
    CompressStart(blocks);
    var i: nat := |r| - 1;
    while i > 1
      invariant CompressInvariant(blocks, r, i)
      invariant CompressLoop(r, i) == CompressOf(blocks)
    {
      CompressStep(blocks, r, i);
      CompressLoopStep(r, i);
      if IsSmallBlock(r[i]) {
        r := r[i - 1 := r[i - 1] + r[i]][i := []];
      }
      i := i - 1;
    }
  }

  /** Compress's loop from block `i` down, followed by its last step. */
  function CompressLoop(r: seq<Block>, i: nat): seq<Block>
    requires 1 <= i < |r|
    decreases i
  {
    if i > 1 then
      CompressLoop(if IsSmallBlock(r[i]) then r[i - 1 := r[i - 1] + r[i]][i := []] else r, i - 1)
    else if IsSmallBlock(r[0]) then r[1 := r[0] + r[1]][0 := []]
    else r
  }

  lemma CompressLoopStep(r: seq<Block>, i: nat)
    requires 1 < i < |r|
    ensures CompressLoop(r, i) ==
      CompressLoop(if IsSmallBlock(r[i]) then r[i - 1 := r[i - 1] + r[i]][i := []] else r, i - 1)
  {
  }

  lemma CompressLoopEnd(r: seq<Block>)
    requires 1 < |r|
    ensures CompressLoop(r, 1) == if IsSmallBlock(r[0]) then r[1 := r[0] + r[1]][0 := []] else r
  {
  }

  /** What Compress makes of a block list. */
  function CompressOf(blocks: seq<Block>): seq<Block> {
    if |blocks| <= 1 then blocks else CompressLoop(blocks, |blocks| - 1)
  }

  /** The last step of Compress, a small block 0 moved to the front of block
      1, keeps what the loop established. */
  lemma CompressEnd(blocks: seq<Block>, r: seq<Block>)
    requires CompressInvariant(blocks, r, 1)
    ensures var r' := if IsSmallBlock(r[0]) then r[1 := r[0] + r[1]][0 := []] else r;
      && |r'| == |blocks|
      && Concat(r') == Concat(blocks)
      && (forall i :: 2 <= i < |r'| ==> r'[i] == [] || !IsSmallBlock(r'[i]))
      && (forall i {:trigger Settled(blocks, r', i)} :: 2 <= i < |r'| ==> r'[i] == Settled(blocks, r', i))
      && r'[1] == (if IsSmallBlock(blocks[0]) then blocks[0] else []) + Run(blocks, r', 1)
      && r'[0] == (if IsSmallBlock(blocks[0]) then [] else blocks[0])
      && KeepsTogether(blocks, r')
  {
    var r' := if IsSmallBlock(r[0]) then r[1 := r[0] + r[1]][0 := []] else r;
    SettledTail(blocks, r, r');
    if IsSmallBlock(r[0]) {
      MoveUpKeepsConcat(r);
      MoveUpKeepsTogether(blocks, r);
    }
  }

  /** Changing blocks 0 and 1 leaves the blocks from 2 on settled. */
  lemma SettledTail(blocks: seq<Block>, r: seq<Block>, r': seq<Block>)
    requires |r| == |blocks| == |r'| && |r| >= 2
    requires forall k :: 2 <= k < |r| ==> r'[k] == r[k]
    requires forall k {:trigger Settled(blocks, r, k)} :: 1 < k < |r| ==> r[k] == Settled(blocks, r, k)
    ensures Run(blocks, r', 1) == Run(blocks, r, 1)
    ensures forall i :: 2 <= i < |r'| ==> r'[i] == [] || !IsSmallBlock(r'[i])
    ensures forall i {:trigger Settled(blocks, r', i)} :: 2 <= i < |r'| ==> r'[i] == Settled(blocks, r', i)
  {
    NextNonEmptyFrom(r, r', 2);
    forall i | 2 <= i < |r'|
      ensures r'[i] == Settled(blocks, r', i)
      ensures r'[i] == [] || !IsSmallBlock(r'[i])
    {
      assert r[i] == Settled(blocks, r, i);
    }
  }

  /** Moving block 0 to the front of block 1 keeps instructions that shared
      a block together. */
  lemma MoveUpKeepsTogether(blocks: seq<Block>, r: seq<Block>)
    requires |r| >= 2 && KeepsTogether(blocks, r)
    ensures KeepsTogether(blocks, r[1 := r[0] + r[1]][0 := []])
  {
    var r' := r[1 := r[0] + r[1]][0 := []];
    forall x, y | Together(blocks, x, y)
      ensures Together(r', x, y)
    {
      assert Together(r, x, y);
      FindInMovedUp(r, x);
      FindInMovedUp(r, y);
    }
  }

  /** `blocks.RemoveAll(b => b.Count == 0)`. */
  function RemoveEmpty(blocks: seq<Block>): (r: seq<Block>)
    ensures forall k :: 0 <= k < |r| ==> r[k] != []
    ensures |r| <= |blocks|
    decreases |blocks|
  {
    if blocks == [] then []
    else
      var n := |blocks|;
      RemoveEmpty(blocks[..n - 1]) + if blocks[n - 1] == [] then [] else [blocks[n - 1]]
  }

  /** Dropping the empty blocks keeps the concatenation. */
  lemma {:induction false} RemoveEmptyConcat(blocks: seq<Block>)
    ensures Concat(RemoveEmpty(blocks)) == Concat(blocks)
    decreases |blocks|
  {
    if blocks != [] {
      var n := |blocks|;
      var pre, last := blocks[..n - 1], blocks[n - 1];
      RemoveEmptyConcat(pre);
      var tail: seq<Block> := if last == [] then [] else [last];
      assert RemoveEmpty(blocks) == RemoveEmpty(pre) + tail;
      ConcatAppend(RemoveEmpty(pre), tail);
      ConcatOne(last);
      assert Concat(tail) == last;
    }
  }

  /** Dropping the empty blocks keeps every non-empty block. */
  lemma {:induction false} RemoveEmptyKeeps(blocks: seq<Block>)
    ensures forall b :: b in blocks && b != [] <==> b in RemoveEmpty(blocks)
    decreases |blocks|
  {
    if blocks != [] {
      var n := |blocks|;
      var pre, last := blocks[..n - 1], blocks[n - 1];
      RemoveEmptyKeeps(pre);
      var tail: seq<Block> := if last == [] then [] else [last];
      assert RemoveEmpty(blocks) == RemoveEmpty(pre) + tail;
      assert blocks == pre + [last];
    }
  }

  // ----- Merging the blocks of an exception region -----

  /** `blocks.FindIndex(b => b.Contains(x))`: the first block holding the
      instruction, or -1; a null reference is in no block. */
  function FindBlock(blocks: seq<Block>, ref: Option<InstrId>): (r: int)
    ensures -1 <= r < |blocks|
    ensures r >= 0 ==> ref.Some? && ref.value in Ids(blocks[r])
    ensures r >= 0 ==> forall b :: 0 <= b < r ==> ref.value !in Ids(blocks[b])
    ensures r == -1 ==> forall b :: 0 <= b < |blocks| ==> ref.None? || ref.value !in Ids(blocks[b])
    decreases |blocks|
  {
    if blocks == [] then -1
    else if ref.Some? && ref.value in Ids(blocks[0]) then 0
    else
      var r := FindBlock(blocks[1..], ref);
      assert forall b :: 1 <= b < |blocks| ==> blocks[b] == blocks[1..][b - 1];
      if r == -1 then -1 else r + 1
  }

  /** Blocks `first + 1 ..= last` appended to block `first` and emptied. */
  function MergeRange(blocks: seq<Block>, first: nat, last: nat): (r: seq<Block>)
    requires first <= last < |blocks|
    ensures |r| == |blocks|
  {
    blocks[..first] + [Concat(blocks[first..last + 1])] + seq(last - first, _ => []) + blocks[last + 1..]
  }

  /** The loop of CombineExceptionBlocks for one handler. */
  method MergeBlocks(blocks: seq<Block>, first: nat, last: nat) returns (r: seq<Block>)
    requires first <= last < |blocks|
    ensures r == MergeRange(blocks, first, last)
  {
    r := blocks;
    ConcatOne(blocks[first]);
    assert blocks[first..first + 1] == [blocks[first]];
    for i := first + 1 to last + 1
      invariant |r| == |blocks|
      invariant r[first] == Concat(blocks[first..i])
      invariant forall k :: first < k < i ==> r[k] == []
      invariant forall k :: 0 <= k < |r| && (k < first || k >= i) ==> r[k] == blocks[k]
    {
      assert blocks[first..i + 1] == blocks[first..i] + [blocks[i]];
      ConcatAppend(blocks[first..i], [blocks[i]]);
      ConcatOne(blocks[i]);
      r := r[first := r[first] + r[i]][i := []];
    }
    var m := MergeRange(blocks, first, last);
    forall k | 0 <= k < |r|
      ensures r[k] == m[k]
    {
      if first < k <= last {
        assert m[k] == seq(last - first, _ => [])[k - first - 1];
      }
    }
  }

  /** Merging keeps the concatenation. */
  lemma MergeRangeKeepsConcat(blocks: seq<Block>, first: nat, last: nat)
    requires first <= last < |blocks|
    ensures Concat(MergeRange(blocks, first, last)) == Concat(blocks)
  {
    var a, mid, c := blocks[..first], blocks[first..last + 1], blocks[last + 1..];
    var empties: seq<Block> := seq(last - first, _ => []);
    assert MergeRange(blocks, first, last) == a + [Concat(mid)] + empties + c;
    EmptiesConcat(last - first);
    MergedConcat(a, mid, empties, c);
    SplitThree(blocks, first, last + 1);
  }

  /** Blocks replaced by their concatenation and blocks adding nothing keep
      the concatenation. */
  lemma MergedConcat(a: seq<Block>, mid: seq<Block>, empties: seq<Block>, c: seq<Block>)
    requires Concat(empties) == []
    ensures Concat(a + [Concat(mid)] + empties + c) == Concat(a + mid + c)
  {
    var x := [Concat(mid)];
    ConcatAppend(a + x + empties, c);
    ConcatAppend(a + x, empties);
    ConcatAppend(a, x);
    ConcatOne(Concat(mid));
    ConcatAppend(a + mid, c);
    ConcatAppend(a, mid);
  }

  /** A sequence is its three slices laid end to end. */
  lemma SplitThree<T>(s: seq<T>, i: nat, j: nat)
    requires i <= j <= |s|
    ensures s == s[..i] + s[i..j] + s[j..]
  {
    assert s[..j] == s[..i] + s[i..j];
    assert s == s[..j] + s[j..];
  }

  lemma {:induction false} EmptiesConcat(n: nat)
    ensures Concat(seq(n, _ => [])) == []
  {
    if n > 0 {
      var e: seq<Block> := seq(n, _ => []);
      assert e[..n - 1] == seq(n - 1, _ => []);
      EmptiesConcat(n - 1);
    }
  }

  // ----- Which block holds an instruction -----

  /** An instruction is in the concatenation exactly when some block holds it. */
  lemma {:induction false} InConcat(blocks: seq<Block>, id: InstrId)
    ensures id in Ids(Concat(blocks)) <==> exists b :: 0 <= b < |blocks| && id in Ids(blocks[b])
    decreases |blocks|
  {
    if blocks != [] {
      var n := |blocks|;
      var pre := blocks[..n - 1];
      InConcat(pre, id);
      IdsAppend(Concat(pre), blocks[n - 1]);
      if id in Ids(Concat(pre)) {
        var b :| 0 <= b < |pre| && id in Ids(pre[b]);
        assert blocks[b] == pre[b];
      }
      if exists b :: 0 <= b < n && id in Ids(blocks[b]) {
        var b :| 0 <= b < n && id in Ids(blocks[b]);
        if b < n - 1 {
          assert pre[b] == blocks[b];
        }
      }
    }
  }

  /** FindBlock is the first block holding the instruction, -1 if none does. */
  lemma FindBlockIs(blocks: seq<Block>, ref: Option<InstrId>, k: int)
    requires -1 <= k < |blocks|
    requires k >= 0 ==> ref.Some? && ref.value in Ids(blocks[k]) && forall b :: 0 <= b < k ==> ref.value !in Ids(blocks[b])
    requires k == -1 ==> forall b :: 0 <= b < |blocks| ==> ref.None? || ref.value !in Ids(blocks[b])
    ensures FindBlock(blocks, ref) == k
  {
  }

  /** Merging blocks first ..= last moves what they held to block first and
      leaves every other instruction in its block. */
  lemma FindInMerged(blocks: seq<Block>, first: nat, last: nat, ref: Option<InstrId>)
    requires first <= last < |blocks|
    ensures FindBlock(MergeRange(blocks, first, last), ref) ==
      var k := FindBlock(blocks, ref); if first <= k <= last then first else k
  {
    var m := MergeRange(blocks, first, last);
    var k := FindBlock(blocks, ref);
    MergeRangeAt(blocks, first, last);
    if ref.None? {
      FindBlockIs(m, ref, -1);
    } else {
      var x := ref.value;
      InMerged(blocks, first, last, x);
      if first <= k <= last {
        assert x in Ids(m[first]);
        FindBlockIs(m, ref, first);
      } else if k == -1 {
        forall b | 0 <= b < |m|
          ensures x !in Ids(m[b])
        {
        }
        FindBlockIs(m, ref, -1);
      } else if k < first {
        FindBlockIs(m, ref, k);
      } else {
        forall b | 0 <= b < k
          ensures x !in Ids(m[b])
        {
        }
        FindBlockIs(m, ref, k);
      }
    }
  }

  /** The blocks of a merge, one by one. */
  lemma MergeRangeAt(blocks: seq<Block>, first: nat, last: nat)
    requires first <= last < |blocks|
    ensures var m := MergeRange(blocks, first, last);
      && m[first] == Concat(blocks[first..last + 1])
      && (forall b :: 0 <= b < first ==> m[b] == blocks[b])
      && (forall b :: first < b <= last ==> m[b] == [])
      && (forall b :: last < b < |m| ==> m[b] == blocks[b])
  {
    var m := MergeRange(blocks, first, last);
    forall b | first < b <= last
      ensures m[b] == []
    {
      assert m[b] == seq(last - first, _ => [])[b - first - 1];
    }
  }

  /** The merged block holds what blocks first ..= last held. */
  lemma InMerged(blocks: seq<Block>, first: nat, last: nat, x: InstrId)
    requires first <= last < |blocks|
    ensures x in Ids(Concat(blocks[first..last + 1])) <==> exists b :: first <= b <= last && x in Ids(blocks[b])
  {
    var mid := blocks[first..last + 1];
    InConcat(mid, x);
    if exists b :: first <= b <= last && x in Ids(blocks[b]) {
      var b :| first <= b <= last && x in Ids(blocks[b]);
      assert mid[b - first] == blocks[b];
    }
    if x in Ids(Concat(mid)) {
      var b :| 0 <= b < |mid| && x in Ids(mid[b]);
      assert mid[b] == blocks[first + b];
    }
  }

  /** Prepending block 0 to block 1 moves what block 0 held to block 1. */
  lemma FindInMovedUp(blocks: seq<Block>, ref: Option<InstrId>)
    requires 1 < |blocks|
    ensures FindBlock(blocks[1 := blocks[0] + blocks[1]][0 := []], ref) ==
      var k := FindBlock(blocks, ref); if k == 0 then 1 else k
  {
    var m := blocks[1 := blocks[0] + blocks[1]][0 := []];
    IdsAppend(blocks[0], blocks[1]);
    var k := FindBlock(blocks, ref);
    FindBlockIs(m, ref, if k == 0 then 1 else k);
  }

  /** FindBlock over two lists of blocks laid end to end. */
  lemma FindInAppend(a: seq<Block>, b: seq<Block>, ref: Option<InstrId>)
    ensures FindBlock(a + b, ref) ==
      if FindBlock(a, ref) >= 0 then FindBlock(a, ref)
      else if FindBlock(b, ref) >= 0 then |a| + FindBlock(b, ref)
      else -1
  {
    var ab := a + b;
    assert forall j :: 0 <= j < |a| ==> ab[j] == a[j];
    assert forall j :: 0 <= j < |b| ==> ab[|a| + j] == b[j];
    if FindBlock(a, ref) >= 0 {
      FindBlockIs(ab, ref, FindBlock(a, ref));
    } else if FindBlock(b, ref) >= 0 {
      FindBlockIs(ab, ref, |a| + FindBlock(b, ref));
    } else {
      forall j | 0 <= j < |ab|
        ensures ref.None? || ref.value !in Ids(ab[j])
      {
        if j >= |a| {
          assert ab[j] == b[j - |a|];
        }
      }
      FindBlockIs(ab, ref, -1);
    }
  }

  /** Two instructions lie in one block. */
  predicate Together(blocks: seq<Block>, x: Option<InstrId>, y: Option<InstrId>) {
    FindBlock(blocks, x) >= 0 && FindBlock(blocks, x) == FindBlock(blocks, y)
  }

  /** Dropping the empty blocks keeps instructions that share a block
      together. */
  lemma {:induction false} RemoveEmptyKeepsTogether(blocks: seq<Block>, x: Option<InstrId>, y: Option<InstrId>)
    requires Together(blocks, x, y)
    ensures Together(RemoveEmpty(blocks), x, y)
    decreases |blocks|
  {
    var n := |blocks|;
    var pre, last := blocks[..n - 1], blocks[n - 1];
    assert blocks == pre + [last];
    var tail: seq<Block> := if last == [] then [] else [last];
    assert RemoveEmpty(blocks) == RemoveEmpty(pre) + tail;
    FindInAppend(pre, [last], x);
    FindInAppend(pre, [last], y);
    FindInAppend(RemoveEmpty(pre), tail, x);
    FindInAppend(RemoveEmpty(pre), tail, y);
    if FindBlock(pre, x) >= 0 {
      RemoveEmptyKeepsTogether(pre, x, y);
    } else {
      assert FindBlock([last], x) == 0 && FindBlock([last], y) == 0;
      assert last != [];
      NotInRemoveEmpty(pre, x);
      NotInRemoveEmpty(pre, y);
    }
  }

  /** An instruction no block holds is in no block once the empty ones are
      dropped. */
  lemma NotInRemoveEmpty(blocks: seq<Block>, ref: Option<InstrId>)
    requires FindBlock(blocks, ref) == -1
    ensures FindBlock(RemoveEmpty(blocks), ref) == -1
  {
    var r := RemoveEmpty(blocks);
    RemoveEmptyKeeps(blocks);
    forall j | 0 <= j < |r|
      ensures ref.None? || ref.value !in Ids(r[j])
    {
      assert r[j] in r;
      var i :| 0 <= i < |blocks| && blocks[i] == r[j];
    }
    FindBlockIs(r, ref, -1);
  }

  // ----- CombineExceptionBlocks -----

  /** The Nop CombineExceptionBlocks reads before a handler's TryStart
      (`instr[instr.IndexOf(eh.TryStart) - 1]`), or None where that index is
      out of range. */
  function StartNop(instrs: seq<Instr>, eh: ExceptionHandler): (r: Option<InstrId>)
    ensures r.Some? <==> IndexOfRef(instrs, eh.tryStart).Some? && IndexOfRef(instrs, eh.tryStart).value >= 1
  {
    var at := IndexOfRef(instrs, eh.tryStart);
    if at.Some? && at.value >= 1 then Some(instrs[at.value - 1].id) else None
  }

  /** One handler of CombineExceptionBlocks: blocks from the one holding the
      Nop before TryStart up to the one holding HandlerEnd merged into the
      first. A missing start block with a found end block indexes
      `blocks[-1]`; a start block after the end block is left alone. */
  function CombineOne(blocks: seq<Block>, instrs: seq<Instr>, eh: ExceptionHandler): (r: Result<seq<Block>, FlowError>)
    ensures r.Ok? ==> |r.value| == |blocks| && Concat(r.value) == Concat(blocks)
  {
    var start := StartNop(instrs, eh);
    if start.None? then Err(ArgumentOutOfRange)
    else
      var startIndex := FindBlock(blocks, start);
      var endIndex := FindBlock(blocks, eh.handlerEnd);
      if startIndex == endIndex then Ok(blocks)
      else if startIndex == -1 then Err(ArgumentOutOfRange)
      else if startIndex < endIndex then
        MergeRangeKeepsConcat(blocks, startIndex, endIndex);
        Ok(MergeRange(blocks, startIndex, endIndex))
      else Ok(blocks)
  }

  /** The handlers of CombineExceptionBlocks taken in order. */
  function CombineAll(blocks: seq<Block>, instrs: seq<Instr>, handlers: seq<ExceptionHandler>): (r: Result<seq<Block>, FlowError>)
    ensures r.Ok? ==> |r.value| == |blocks| && Concat(r.value) == Concat(blocks)
    ensures r.Err? ==> r.error == ArgumentOutOfRange
    decreases |handlers|
  {
    if handlers == [] then Ok(blocks)
    else match CombineOne(blocks, instrs, handlers[0])
      case Err(e) => Err(e)
      case Ok(next) => CombineAll(next, instrs, handlers[1..])
  }

  /** The handler's region starts no later than it ends: the Nop before
      TryStart lies in a block, and the block holding HandlerEnd comes no
      earlier. */
  predicate Spans(blocks: seq<Block>, instrs: seq<Instr>, eh: ExceptionHandler) {
    var start := StartNop(instrs, eh);
    start.Some? && 0 <= FindBlock(blocks, start) <= FindBlock(blocks, eh.handlerEnd)
  }

  /** One handler's merge keeps the order of the blocks instructions are in,
      so a region that spanned forwards still does. */
  lemma CombineOneKeepsOrder(blocks: seq<Block>, instrs: seq<Instr>, eh: ExceptionHandler, x: Option<InstrId>, y: Option<InstrId>)
    requires CombineOne(blocks, instrs, eh).Ok?
    requires 0 <= FindBlock(blocks, x) <= FindBlock(blocks, y)
    ensures var r := CombineOne(blocks, instrs, eh).value;
      0 <= FindBlock(r, x) <= FindBlock(r, y)
  {
    var start := StartNop(instrs, eh);
    var startIndex := FindBlock(blocks, start);
    var endIndex := FindBlock(blocks, eh.handlerEnd);
    if startIndex != endIndex && 0 <= startIndex < endIndex {
      FindInMerged(blocks, startIndex, endIndex, x);
      FindInMerged(blocks, startIndex, endIndex, y);
    }
  }

  /** After one handler's merge, the Nop before its TryStart and its
      HandlerEnd share a block when the region spanned forwards. */
  lemma CombineOneJoins(blocks: seq<Block>, instrs: seq<Instr>, eh: ExceptionHandler)
    requires Spans(blocks, instrs, eh)
    ensures CombineOne(blocks, instrs, eh).Ok?
    ensures Together(CombineOne(blocks, instrs, eh).value, StartNop(instrs, eh), eh.handlerEnd)
  {
    var start := StartNop(instrs, eh);
    var startIndex := FindBlock(blocks, start);
    var endIndex := FindBlock(blocks, eh.handlerEnd);
    if startIndex < endIndex {
      FindInMerged(blocks, startIndex, endIndex, start);
      FindInMerged(blocks, startIndex, endIndex, eh.handlerEnd);
    }
  }

  /** Later handlers never split what an earlier one joined. */
  lemma {:induction false} CombineAllKeepsTogether(blocks: seq<Block>, instrs: seq<Instr>, handlers: seq<ExceptionHandler>,
                                                   x: Option<InstrId>, y: Option<InstrId>)
    requires CombineAll(blocks, instrs, handlers).Ok? && Together(blocks, x, y)
    ensures Together(CombineAll(blocks, instrs, handlers).value, x, y)
    decreases |handlers|
  {
    if handlers != [] {
      CombineOneKeepsOrder(blocks, instrs, handlers[0], x, y);
      CombineOneKeepsOrder(blocks, instrs, handlers[0], y, x);
      CombineAllKeepsTogether(CombineOne(blocks, instrs, handlers[0]).value, instrs, handlers[1..], x, y);
    }
  }

  /** Every handler whose region spans forwards in the blocks it starts from
      ends with the Nop before its TryStart and its HandlerEnd in one block. */
  lemma {:induction false} CombineAllJoins(blocks: seq<Block>, instrs: seq<Instr>, handlers: seq<ExceptionHandler>, h: nat)
    requires CombineAll(blocks, instrs, handlers).Ok? && h < |handlers|
    requires Spans(blocks, instrs, handlers[h])
    ensures Together(CombineAll(blocks, instrs, handlers).value, StartNop(instrs, handlers[h]), handlers[h].handlerEnd)
    decreases |handlers|
  {
    var next := CombineOne(blocks, instrs, handlers[0]).value;
    if h == 0 {
      CombineOneJoins(blocks, instrs, handlers[0]);
      CombineAllKeepsTogether(next, instrs, handlers[1..], StartNop(instrs, handlers[0]), handlers[0].handlerEnd);
    } else {
      CombineOneKeepsOrder(blocks, instrs, handlers[0], StartNop(instrs, handlers[h]), handlers[h].handlerEnd);
      assert handlers[1..][h - 1] == handlers[h];
      CombineAllJoins(next, instrs, handlers[1..], h - 1);
    }
  }

  /** CombineExceptionBlocks: for every handler in turn, the block holding
      the Nop before TryStart absorbs every block up to the one holding
      HandlerEnd, which are emptied. */
  method CombineExceptionBlocks(blocks: seq<Block>, instrs: seq<Instr>, handlers: seq<ExceptionHandler>)
    returns (r: Result<seq<Block>, FlowError>)
    ensures r == CombineAll(blocks, instrs, handlers)
    ensures r.Ok? ==> forall h :: 0 <= h < |handlers| && Spans(blocks, instrs, handlers[h]) ==>
      Together(r.value, StartNop(instrs, handlers[h]), handlers[h].handlerEnd)
  {
    var current := blocks;
    for h := 0 to |handlers|
      invariant CombineAll(current, instrs, handlers[h..]) == CombineAll(blocks, instrs, handlers)
    {
      assert handlers[h..][1..] == handlers[h + 1..];
      var eh := handlers[h];
      var at := IndexOfRef(instrs, eh.tryStart);
      if at.None? || at.value == 0 {
        return Err(ArgumentOutOfRange);
      }
      var start := instrs[at.value - 1];
      var startIndex := FindBlock(current, Some(start.id));
      var endIndex := FindBlock(current, eh.handlerEnd);
      if startIndex == endIndex {
        continue;
      }
      if startIndex == -1 {
        return Err(ArgumentOutOfRange);
      }
      if startIndex < endIndex {
        current := MergeBlocks(current, startIndex, endIndex);
      }
    }
    assert handlers[|handlers|..] == [];
    r := Ok(current);
    forall h | 0 <= h < |handlers| && Spans(blocks, instrs, handlers[h])
      ensures Together(r.value, StartNop(instrs, handlers[h]), handlers[h].handlerEnd)
    {
      CombineAllJoins(blocks, instrs, handlers, h);
    }
  }

  // ----- Padding exception regions with Nops -----

  /** List<Instruction>.Insert at a position the list holds. */
  function InsertAt(body: seq<Instr>, k: nat, x: Instr): (r: seq<Instr>)
    requires k <= |body|
    ensures |r| == |body| + 1 && r[k] == x
    ensures forall i :: 0 <= i < k ==> r[i] == body[i]
    ensures forall i :: k <= i < |body| ==> r[i + 1] == body[i]
  {
    body[..k] + [x] + body[k..]
  }

  /** Where an existing instruction moves to when one is inserted at `k`. */
  function Shifted(i: nat, k: nat): nat {
    if i < k then i else i + 1
  }

  predicate Fresh(body: seq<Instr>, id: InstrId) {
    forall i :: 0 <= i < |body| ==> body[i].id != id
  }

  /** Inserting an instruction with a fresh identity keeps the identities
      distinct and moves every other instruction's index by at most one. */
  lemma InsertShift(body: seq<Instr>, k: nat, x: Instr, id: InstrId)
    requires DistinctIds(body) && Fresh(body, x.id) && k <= |body| && id != x.id
    ensures DistinctIds(InsertAt(body, k, x))
    ensures IndexOf(body, id).None? ==> IndexOf(InsertAt(body, k, x), id).None?
    ensures IndexOf(body, id).Some? ==>
      IndexOf(InsertAt(body, k, x), id) == Some(Shifted(IndexOf(body, id).value, k))
  {
    var b := InsertAt(body, k, x);
    forall i, j | 0 <= i < j < |b|
      ensures b[i].id != b[j].id
    {
      if i > k {
        assert b[i] == body[i - 1] && b[j] == body[j - 1];
      } else if i == k {
        assert b[j] == body[j - 1];
      } else if j > k {
        assert b[j] == body[j - 1];
      }
    }
    if IndexOf(body, id).None? {
      forall i | 0 <= i < |b|
        ensures b[i].id != id
      {
        if i > k {
          assert b[i] == body[i - 1];
        }
      }
    } else {
      var i := IndexOf(body, id).value;
      var at := IndexOf(b, id);
      assert b[Shifted(i, k)].id == id;
      assert at.Some? && at.value == Shifted(i, k);
    }
  }

  /** The instruction just before the referenced one is a Nop (the padding
      CombineExceptionBlocks reads before a TryStart). */
  predicate NopBefore(body: seq<Instr>, ref: Option<InstrId>) {
    var at := IndexOfRef(body, ref);
    at.Some? && at.value >= 1 && body[at.value - 1].code == Nop
  }

  /** The referenced instruction is a Nop of the body. */
  predicate NopAt(body: seq<Instr>, ref: Option<InstrId>) {
    var at := IndexOfRef(body, ref);
    at.Some? && body[at.value].code == Nop
  }

  predicate Found(body: seq<Instr>, ref: Option<InstrId>) {
    IndexOfRef(body, ref).Some?
  }

  /** Another handler starts (or filters) where this one ends: "multiple
      handlers in a row", which gets no end padding. */
  predicate EndShared(handlers: seq<ExceptionHandler>, h: nat)
    requires h < |handlers|
  {
    exists j | 0 <= j < |handlers| ::
      j != h && (handlers[h].handlerEnd == handlers[j].handlerStart || handlers[h].handlerEnd == handlers[j].filterStart)
  }

  /** Inserting a fresh Nop keeps what was padded padded and what was found
      found. */
  lemma InsertNopKeeps(body: seq<Instr>, k: nat, id: InstrId, ref: Option<InstrId>)
    requires DistinctIds(body) && Fresh(body, id) && k <= |body| && ref != Some(id)
    ensures NopBefore(body, ref) ==> NopBefore(InsertAt(body, k, NopInstr(id)), ref)
    ensures NopAt(body, ref) ==> NopAt(InsertAt(body, k, NopInstr(id)), ref)
    ensures Found(body, ref) <==> Found(InsertAt(body, k, NopInstr(id)), ref)
  {
    InsertMovesRef(body, k, id, ref);
    if NopBefore(body, ref) {
      InsertKeepsNopBefore(body, k, id, ref);
    }
    if NopAt(body, ref) {
      InsertKeepsNopAt(body, k, id, ref);
    }
  }

  /** Where a reference points after a fresh Nop is inserted. */
  lemma InsertMovesRef(body: seq<Instr>, k: nat, id: InstrId, ref: Option<InstrId>)
    requires DistinctIds(body) && Fresh(body, id) && k <= |body| && ref != Some(id)
    ensures IndexOfRef(InsertAt(body, k, NopInstr(id)), ref) ==
      if IndexOfRef(body, ref).Some? then Some(Shifted(IndexOfRef(body, ref).value, k)) else None
  {
    if ref.Some? {
      InsertShift(body, k, NopInstr(id), ref.value);
    }
  }

  lemma InsertKeepsNopBefore(body: seq<Instr>, k: nat, id: InstrId, ref: Option<InstrId>)
    requires DistinctIds(body) && Fresh(body, id) && k <= |body| && ref != Some(id)
    requires NopBefore(body, ref)
    ensures NopBefore(InsertAt(body, k, NopInstr(id)), ref)
  {
    var b := InsertAt(body, k, NopInstr(id));
    InsertMovesRef(body, k, id, ref);
    var i := IndexOfRef(body, ref).value;
    if i < k {
      assert b[i - 1] == body[i - 1];
    } else if i == k {
      assert b[i].code == Nop;
    } else {
      assert b[i] == body[i - 1];
    }
  }

  lemma InsertKeepsNopAt(body: seq<Instr>, k: nat, id: InstrId, ref: Option<InstrId>)
    requires DistinctIds(body) && Fresh(body, id) && k <= |body| && ref != Some(id)
    requires NopAt(body, ref)
    ensures NopAt(InsertAt(body, k, NopInstr(id)), ref)
  {
    var b := InsertAt(body, k, NopInstr(id));
    InsertMovesRef(body, k, id, ref);
    var i := IndexOfRef(body, ref).value;
    if i < k {
      assert b[i] == body[i];
    } else {
      assert b[i + 1] == body[i];
    }
  }


  /** Inserting a fresh Nop right before the referenced instruction pads it. */
  lemma InsertNopPads(body: seq<Instr>, k: nat, id: InstrId, ref: Option<InstrId>)
    requires DistinctIds(body) && Fresh(body, id) && ref != Some(id)
    requires IndexOfRef(body, ref) == Some(k)
    ensures NopBefore(InsertAt(body, k, NopInstr(id)), ref)
  {
    InsertShift(body, k, NopInstr(id), ref.value);
  }

  /** The instructions that were there before any padding: those whose
      identity is below `next`. */
  function Older(body: seq<Instr>, next: nat): (r: seq<Instr>)
    ensures |r| <= |body|
  {
    if body == [] then []
    else Older(body[..|body| - 1], next) + (if body[|body| - 1].id < next then [body[|body| - 1]] else [])
  }

  lemma {:induction false} OlderAppend(a: seq<Instr>, b: seq<Instr>, next: nat)
    ensures Older(a + b, next) == Older(a, next) + Older(b, next)
    decreases |b|
  {
    if b != [] {
      var c := a + b;
      assert c[..|c| - 1] == a + b[..|b| - 1];
      OlderAppend(a, b[..|b| - 1], next);
    } else {
      assert a + b == a;
    }
  }

  lemma OlderAll(body: seq<Instr>, next: nat)
    requires forall i :: 0 <= i < |body| ==> body[i].id < next
    ensures Older(body, next) == body
  {
    if body != [] {
      OlderAll(body[..|body| - 1], next);
    }
  }

  /** The older instructions are instructions of the body. */
  lemma {:induction false} OlderIn(body: seq<Instr>, next: nat)
    ensures forall x :: x in Older(body, next) ==> x in body
    decreases |body|
  {
    if body != [] {
      OlderIn(body[..|body| - 1], next);
    }
  }

  /** Inserting an instruction with an identity at or above `next` leaves the
      older instructions as they were. */
  lemma InsertKeepsOlder(body: seq<Instr>, k: nat, x: Instr, next: nat)
    requires k <= |body| && x.id >= next
    ensures Older(InsertAt(body, k, x), next) == Older(body, next)
  {
    assert InsertAt(body, k, x) == body[..k] + [x] + body[k..];
    OlderAppend(body[..k] + [x], body[k..], next);
    OlderAppend(body[..k], [x], next);
    assert [x][..0] == [];
    OlderAppend(body[..k], body[k..], next);
    assert body[..k] + body[k..] == body;
  }

  /** A padded body, the handlers' new ends, and the next unused instruction
      identity. */
  datatype Padded = Padded(body: seq<Instr>, ends: seq<Option<InstrId>>, next: nat)

  predicate RefBelow(ref: Option<InstrId>, next: nat) {
    ref.Some? ==> ref.value < next
  }

  /** A reference to an instruction object outside the body whose opcode is
      Nop; `strays` names the objects outside the body that are Nops. */
  predicate StrayNop(body: seq<Instr>, strays: set<InstrId>, ref: Option<InstrId>) {
    ref.Some? && !Found(body, ref) && ref.value in strays
  }

  /** `eh.HandlerEnd is { OpCode.Code: Code.Nop }`: the referenced object is a
      Nop, whether it is in the body or not. */
  predicate EndIsNop(body: seq<Instr>, strays: set<InstrId>, ref: Option<InstrId>) {
    NopAt(body, ref) || StrayNop(body, strays, ref)
  }

  /** Every handler's TryStart is an instruction of the body, and so is its
      HandlerEnd unless that is a Nop outside the body. */
  predicate BoundariesKnown(body: seq<Instr>, handlers: seq<ExceptionHandler>, strays: set<InstrId>) {
    forall j :: 0 <= j < |handlers| ==>
      Found(body, handlers[j].tryStart) && (Found(body, handlers[j].handlerEnd) || StrayNop(body, strays, handlers[j].handlerEnd))
  }

  /** The body and identities after inserting Nops only. */
  ghost predicate NopsAdded(instrs: seq<Instr>, next: nat, body: seq<Instr>, unused: nat) {
    && DistinctIds(body) && Older(body, next) == instrs && unused >= next
    && (forall i :: 0 <= i < |body| ==> body[i].id < unused)
    && (forall i :: 0 <= i < |body| && body[i].id >= next ==> body[i] == NopInstr(body[i].id))
  }

  /** Handler `j` is padded: a Nop before its try start, and an end that is a
      Nop unless it is the original end, shared with another handler. */
  ghost predicate HandlerPadded(body: seq<Instr>, handlers: seq<ExceptionHandler>, strays: set<InstrId>, ends: seq<Option<InstrId>>, j: nat)
    requires j < |handlers| == |ends|
  {
    NopBefore(body, handlers[j].tryStart) &&
    (NopAt(body, ends[j]) ||
     (ends[j] == handlers[j].handlerEnd && Found(body, ends[j]) && EndShared(handlers, j)) ||
     (ends[j] == handlers[j].handlerEnd && StrayNop(body, strays, ends[j])))
  }

  /** AddPadding's loop invariant once the first `h` handlers are done. */
  ghost predicate PadInvariant(instrs: seq<Instr>, handlers: seq<ExceptionHandler>, strays: set<InstrId>, next: nat,
                               body: seq<Instr>, ends: seq<Option<InstrId>>, unused: nat, h: nat)
  {
    && NopsAdded(instrs, next, body, unused)
    && h <= |handlers| == |ends|
    && (forall j :: 0 <= j < |handlers| ==> RefBelow(handlers[j].tryStart, next) && RefBelow(ends[j], unused))
    && (forall j :: 0 <= j < |handlers| ==>
          (Found(body, handlers[j].tryStart) <==> Found(instrs, handlers[j].tryStart)) &&
          (Found(body, handlers[j].handlerEnd) <==> Found(instrs, handlers[j].handlerEnd)))
    && (forall j :: h <= j < |handlers| ==> ends[j] == handlers[j].handlerEnd)
    && (forall j :: 0 <= j < h ==>
          Found(instrs, handlers[j].tryStart) &&
          (Found(instrs, handlers[j].handlerEnd) || StrayNop(instrs, strays, handlers[j].handlerEnd)))
    && (forall j :: 0 <= j < h ==> HandlerPadded(body, handlers, strays, ends, j))
  }

  lemma InvariantFinds(instrs: seq<Instr>, handlers: seq<ExceptionHandler>, strays: set<InstrId>, next: nat,
                       body: seq<Instr>, ends: seq<Option<InstrId>>, unused: nat, h: nat, j: nat)
    requires PadInvariant(instrs, handlers, strays, next, body, ends, unused, h) && j < |handlers|
    ensures Found(body, handlers[j].tryStart) <==> Found(instrs, handlers[j].tryStart)
    ensures Found(body, handlers[j].handlerEnd) <==> Found(instrs, handlers[j].handlerEnd)
  {
  }

  /** Inserting a fresh Nop anywhere keeps the invariant. */
  lemma InsertKeepsInvariant(instrs: seq<Instr>, handlers: seq<ExceptionHandler>, strays: set<InstrId>, next: nat,
                             body: seq<Instr>, ends: seq<Option<InstrId>>, unused: nat, h: nat, k: nat)
    requires PadInvariant(instrs, handlers, strays, next, body, ends, unused, h) && k <= |body|
    requires forall j :: 0 <= j < |handlers| ==> RefBelow(handlers[j].handlerEnd, next)
    ensures PadInvariant(instrs, handlers, strays, next, InsertAt(body, k, NopInstr(unused)), ends, unused + 1, h)
  {
    var b := InsertAt(body, k, NopInstr(unused));
    var u := unused + 1;
    InsertShift(body, k, NopInstr(unused), u);
    InsertKeepsOlder(body, k, NopInstr(unused), next);
    assert NopsAdded(instrs, next, b, u) by {
      forall i | 0 <= i < |b|
        ensures b[i].id < u
        ensures b[i].id >= next ==> b[i] == NopInstr(b[i].id)
      {
        if i > k {
          assert b[i] == body[i - 1];
        }
      }
    }
    forall j | 0 <= j < |handlers|
      ensures RefBelow(ends[j], u)
      ensures Found(b, handlers[j].tryStart) <==> Found(instrs, handlers[j].tryStart)
      ensures Found(b, handlers[j].handlerEnd) <==> Found(instrs, handlers[j].handlerEnd)
    {
      InsertNopKeeps(body, k, unused, handlers[j].tryStart);
      InsertNopKeeps(body, k, unused, handlers[j].handlerEnd);
    }
    forall j | 0 <= j < h
      ensures HandlerPadded(b, handlers, strays, ends, j)
    {
      assert HandlerPadded(body, handlers, strays, ends, j);
      InsertNopKeeps(body, k, unused, handlers[j].tryStart);
      InsertNopKeeps(body, k, unused, ends[j]);
    }
  }

  /** Handler `h` is done without touching its end. */
  lemma EndKeptStep(instrs: seq<Instr>, handlers: seq<ExceptionHandler>, strays: set<InstrId>, next: nat,
                    body: seq<Instr>, ends: seq<Option<InstrId>>, unused: nat, h: nat)
    requires PadInvariant(instrs, handlers, strays, next, body, ends, unused, h) && h < |handlers|
    requires NopBefore(body, handlers[h].tryStart)
    requires NopAt(body, handlers[h].handlerEnd) || (Found(body, handlers[h].handlerEnd) && EndShared(handlers, h))
    ensures PadInvariant(instrs, handlers, strays, next, body, ends, unused, h + 1)
  {
    assert HandlerPadded(body, handlers, strays, ends, h);
  }

  /** Handler `h`'s end is a Nop, in the body or outside it: it is left as
      it is. */
  lemma EndNopStep(instrs: seq<Instr>, handlers: seq<ExceptionHandler>, strays: set<InstrId>, next: nat,
                   body: seq<Instr>, ends: seq<Option<InstrId>>, unused: nat, h: nat)
    requires PadInvariant(instrs, handlers, strays, next, body, ends, unused, h) && h < |handlers|
    requires NopBefore(body, handlers[h].tryStart)
    requires EndIsNop(body, strays, handlers[h].handlerEnd)
    ensures PadInvariant(instrs, handlers, strays, next, body, ends, unused, h + 1)
  {
    InvariantFinds(instrs, handlers, strays, next, body, ends, unused, h, h);
    assert HandlerPadded(body, handlers, strays, ends, h);
  }

  /** A fresh Nop becomes handler `h`'s end; its try start stays padded. */
  lemma NewEndPadded(body: seq<Instr>, handlers: seq<ExceptionHandler>, strays: set<InstrId>, ends: seq<Option<InstrId>>,
                     unused: nat, h: nat, k: nat)
    requires DistinctIds(body) && Fresh(body, unused) && k <= |body| && h < |handlers| == |ends|
    requires RefBelow(handlers[h].tryStart, unused) && NopBefore(body, handlers[h].tryStart)
    ensures HandlerPadded(InsertAt(body, k, NopInstr(unused)), handlers, strays, ends[h := Some(unused)], h)
  {
    var b := InsertAt(body, k, NopInstr(unused));
    InsertNopKeeps(body, k, unused, handlers[h].tryStart);
    assert IndexOf(b, unused) == Some(k);
  }

  /** Handler `h`'s end gets a fresh Nop inserted before it, which becomes
      its end. */
  lemma EndPaddedStep(instrs: seq<Instr>, handlers: seq<ExceptionHandler>, strays: set<InstrId>, next: nat,
                      body: seq<Instr>, ends: seq<Option<InstrId>>, unused: nat, h: nat, k: nat)
    requires PadInvariant(instrs, handlers, strays, next, body, ends, unused, h) && h < |handlers|
    requires forall j :: 0 <= j < |handlers| ==> RefBelow(handlers[j].handlerEnd, next)
    requires NopBefore(body, handlers[h].tryStart)
    requires IndexOfRef(body, handlers[h].handlerEnd) == Some(k)
    ensures PadInvariant(instrs, handlers, strays, next, InsertAt(body, k, NopInstr(unused)),
                         ends[h := Some(unused)], unused + 1, h + 1)
  {
    InvariantFinds(instrs, handlers, strays, next, body, ends, unused, h, h);
    InsertKeepsInvariant(instrs, handlers, strays, next, body, ends, unused, h, k);
    NewEndPadded(body, handlers, strays, ends, unused, h, k);
    Retarget(instrs, handlers, strays, next, InsertAt(body, k, NopInstr(unused)), ends, unused + 1, h, unused);
  }

  /** Handler `h`'s end, found in the body and not a Nop, is kept when it is
      shared and padded otherwise; either way handler `h` is done. */
  lemma HandlerEndStep(instrs: seq<Instr>, handlers: seq<ExceptionHandler>, strays: set<InstrId>, next: nat,
                       body: seq<Instr>, ends: seq<Option<InstrId>>, unused: nat, h: nat, k: nat)
    requires PadInvariant(instrs, handlers, strays, next, body, ends, unused, h) && h < |handlers|
    requires forall j :: 0 <= j < |handlers| ==> RefBelow(handlers[j].handlerEnd, next)
    requires NopBefore(body, handlers[h].tryStart)
    requires IndexOfRef(body, handlers[h].handlerEnd) == Some(k)
    ensures EndShared(handlers, h) ==> PadInvariant(instrs, handlers, strays, next, body, ends, unused, h + 1)
    ensures !EndShared(handlers, h) ==>
      PadInvariant(instrs, handlers, strays, next, InsertAt(body, k, NopInstr(unused)), ends[h := Some(unused)], unused + 1, h + 1)
  {
    if EndShared(handlers, h) {
      EndKeptStep(instrs, handlers, strays, next, body, ends, unused, h);
    } else {
      EndPaddedStep(instrs, handlers, strays, next, body, ends, unused, h, k);
    }
  }

  /** Setting handler `h`'s end to a padded fresh Nop completes it. */
  lemma Retarget(instrs: seq<Instr>, handlers: seq<ExceptionHandler>, strays: set<InstrId>, next: nat,
                 body: seq<Instr>, ends: seq<Option<InstrId>>, unused: nat, h: nat, id: InstrId)
    requires PadInvariant(instrs, handlers, strays, next, body, ends, unused, h) && h < |handlers| && id < unused
    requires Found(instrs, handlers[h].tryStart) && Found(instrs, handlers[h].handlerEnd)
    requires HandlerPadded(body, handlers, strays, ends[h := Some(id)], h)
    ensures PadInvariant(instrs, handlers, strays, next, body, ends[h := Some(id)], unused, h + 1)
  {
    var ends' := ends[h := Some(id)];
    forall j | 0 <= j < h
      ensures HandlerPadded(body, handlers, strays, ends', j)
    {
      assert HandlerPadded(body, handlers, strays, ends, j);
    }
  }

  /** The TryStart half of one handler of AddPadding: a Nop inserted before
      position `k` unless one is there already. */
  function PadTry(body: seq<Instr>, k: nat, unused: nat): (seq<Instr>, nat)
    requires k < |body|
  {
    if k == 0 || body[k - 1].code != Nop then (InsertAt(body, k, NopInstr(unused)), unused + 1) else (body, unused)
  }

  /** The HandlerEnd half: a Nop end is left alone, a missing one is
      NotSupported, a shared one is kept, and any other gets a Nop inserted
      before it that becomes the handler's end. */
  function PadEnd(handlers: seq<ExceptionHandler>, strays: set<InstrId>, body: seq<Instr>,
                  ends: seq<Option<InstrId>>, unused: nat, h: nat): (r: Result<(seq<Instr>, seq<Option<InstrId>>, nat), FlowError>)
    requires h < |handlers| == |ends|
    ensures r.Ok? ==> |r.value.1| == |ends|
  {
    if EndIsNop(body, strays, handlers[h].handlerEnd) then Ok((body, ends, unused))
    else match IndexOfRef(body, handlers[h].handlerEnd)
      case None => Err(NotSupported)
      case Some(e) =>
        if EndShared(handlers, h) then Ok((body, ends, unused))
        else Ok((InsertAt(body, e, NopInstr(unused)), ends[h := Some(unused)], unused + 1))
  }

  /** One handler of AddPadding; a TryStart not in the body is an
      ArgumentOutOfRange. */
  function PadStep(handlers: seq<ExceptionHandler>, strays: set<InstrId>, body: seq<Instr>,
                   ends: seq<Option<InstrId>>, unused: nat, h: nat): (r: Result<(seq<Instr>, seq<Option<InstrId>>, nat), FlowError>)
    requires h < |handlers| == |ends|
    ensures r.Ok? ==> |r.value.1| == |ends|
  {
    match IndexOfRef(body, handlers[h].tryStart)
    case None => Err(ArgumentOutOfRange)
    case Some(k) =>
      var (body1, unused1) := PadTry(body, k, unused);
      PadEnd(handlers, strays, body1, ends, unused1, h)
  }

  /** AddPadding from handler `h` on, over the body and ends so far: the
      padded body, the new ends and the next unused identity, or the first
      exception. */
  function PadFrom(handlers: seq<ExceptionHandler>, strays: set<InstrId>, body: seq<Instr>,
                   ends: seq<Option<InstrId>>, unused: nat, h: nat): (r: Result<Padded, FlowError>)
    requires h <= |handlers| == |ends|
    ensures r.Ok? ==> |r.value.ends| == |ends|
    decreases |handlers| - h
  {
    if h == |handlers| then Ok(Padded(body, ends, unused))
    else match PadStep(handlers, strays, body, ends, unused, h)
      case Err(e) => Err(e)
      case Ok((body1, ends1, unused1)) => PadFrom(handlers, strays, body1, ends1, unused1, h + 1)
  }

  /** The handlers' ends before padding. */
  function InitialEnds(handlers: seq<ExceptionHandler>): (r: seq<Option<InstrId>>)
    ensures |r| == |handlers| && forall j :: 0 <= j < |handlers| ==> r[j] == handlers[j].handlerEnd
  {
    seq(|handlers|, j requires 0 <= j < |handlers| => handlers[j].handlerEnd)
  }

  /** What AddPadding makes of a body. */
  function Padding(instrs: seq<Instr>, handlers: seq<ExceptionHandler>, strays: set<InstrId>, next: nat): (r: Result<Padded, FlowError>)
    ensures r.Ok? ==> |r.value.ends| == |handlers|
  {
    PadFrom(handlers, strays, instrs, InitialEnds(handlers), next, 0)
  }

  lemma PadFromStep(handlers: seq<ExceptionHandler>, strays: set<InstrId>, body: seq<Instr>,
                    ends: seq<Option<InstrId>>, unused: nat, h: nat)
    requires h < |handlers| == |ends| && PadStep(handlers, strays, body, ends, unused, h).Ok?
    ensures var (body1, ends1, unused1) := PadStep(handlers, strays, body, ends, unused, h).value;
      PadFrom(handlers, strays, body, ends, unused, h) == PadFrom(handlers, strays, body1, ends1, unused1, h + 1)
  {
  }

  lemma PadEndNop(handlers: seq<ExceptionHandler>, strays: set<InstrId>, body: seq<Instr>,
                  ends: seq<Option<InstrId>>, unused: nat, h: nat)
    requires h < |handlers| == |ends|
    ensures EndIsNop(body, strays, handlers[h].handlerEnd) ==> PadEnd(handlers, strays, body, ends, unused, h) == Ok((body, ends, unused))
    ensures !EndIsNop(body, strays, handlers[h].handlerEnd) && IndexOfRef(body, handlers[h].handlerEnd).None? ==>
      PadEnd(handlers, strays, body, ends, unused, h) == Err(NotSupported)
  {
  }

  lemma PadEndFound(handlers: seq<ExceptionHandler>, strays: set<InstrId>, body: seq<Instr>,
                    ends: seq<Option<InstrId>>, unused: nat, h: nat, e: nat)
    requires h < |handlers| == |ends|
    requires !EndIsNop(body, strays, handlers[h].handlerEnd) && IndexOfRef(body, handlers[h].handlerEnd) == Some(e)
    ensures EndShared(handlers, h) ==> PadEnd(handlers, strays, body, ends, unused, h) == Ok((body, ends, unused))
    ensures !EndShared(handlers, h) ==>
      PadEnd(handlers, strays, body, ends, unused, h) == Ok((InsertAt(body, e, NopInstr(unused)), ends[h := Some(unused)], unused + 1))
  {
  }

  lemma PadStepFound(handlers: seq<ExceptionHandler>, strays: set<InstrId>, body: seq<Instr>,
                     ends: seq<Option<InstrId>>, unused: nat, h: nat, k: nat)
    requires h < |handlers| == |ends| && IndexOfRef(body, handlers[h].tryStart) == Some(k)
    ensures k < |body|
    ensures PadStep(handlers, strays, body, ends, unused, h) ==
            PadEnd(handlers, strays, PadTry(body, k, unused).0, ends, PadTry(body, k, unused).1, h)
  {
  }

  /** The HandlerEnd half of one iteration of AddPadding's loop. */
  method PadOneEnd(ghost instrs: seq<Instr>, handlers: seq<ExceptionHandler>, strays: set<InstrId>, ghost next: nat,
                   body: seq<Instr>, ends: seq<Option<InstrId>>, unused: nat, h: nat)
    returns (r: Result<(seq<Instr>, seq<Option<InstrId>>, nat), FlowError>)
    requires PadInvariant(instrs, handlers, strays, next, body, ends, unused, h) && h < |handlers|
    requires forall j :: 0 <= j < |handlers| ==> RefBelow(handlers[j].handlerEnd, next)
    requires NopBefore(body, handlers[h].tryStart)
    requires Found(body, handlers[h].handlerEnd) <==> Found(instrs, handlers[h].handlerEnd)
    ensures r == PadEnd(handlers, strays, body, ends, unused, h)
    ensures r.Ok? ==> PadInvariant(instrs, handlers, strays, next, r.value.0, r.value.1, r.value.2, h + 1)
    ensures r.Err? ==> !BoundariesKnown(instrs, handlers, strays)
  {
    PadEndNop(handlers, strays, body, ends, unused, h);
    if EndIsNop(body, strays, handlers[h].handlerEnd) {
      EndNopStep(instrs, handlers, strays, next, body, ends, unused, h);
      return Ok((body, ends, unused));
    }
    var iEnd := IndexOfRef(body, handlers[h].handlerEnd);
    if iEnd.None? {
      assert !Found(instrs, handlers[h].handlerEnd);
      return Err(NotSupported);
    }
    var body', ends', unused' := PadHandlerEnd(instrs, handlers, strays, next, body, ends, unused, h, iEnd.value);
    PadEndFound(handlers, strays, body, ends, unused, h, iEnd.value);
    return Ok((body', ends', unused'));
  }

  /** One iteration of AddPadding's loop. */
  method PadOne(ghost instrs: seq<Instr>, handlers: seq<ExceptionHandler>, strays: set<InstrId>, ghost next: nat,
                body: seq<Instr>, ends: seq<Option<InstrId>>, unused: nat, h: nat)
    returns (r: Result<(seq<Instr>, seq<Option<InstrId>>, nat), FlowError>)
    requires PadInvariant(instrs, handlers, strays, next, body, ends, unused, h) && h < |handlers|
    requires forall j :: 0 <= j < |handlers| ==> RefBelow(handlers[j].handlerEnd, next)
    ensures r == PadStep(handlers, strays, body, ends, unused, h)
    ensures r.Ok? ==> PadInvariant(instrs, handlers, strays, next, r.value.0, r.value.1, r.value.2, h + 1)
    ensures r.Err? ==> !BoundariesKnown(instrs, handlers, strays)
  {
    var iStart := IndexOfRef(body, handlers[h].tryStart);
    if iStart.None? {
      assert !Found(instrs, handlers[h].tryStart);
      return Err(ArgumentOutOfRange);
    }
    PadStepFound(handlers, strays, body, ends, unused, h, iStart.value);
    var body1, unused1 := PadTryStart(instrs, handlers, strays, next, body, ends, unused, h, iStart.value);
    r := PadOneEnd(instrs, handlers, strays, next, body1, ends, unused1, h);
  }

  /** AddPadding: before every TryStart that is first or not preceded by a Nop
      a new Nop is inserted; a HandlerEnd that is not a Nop and that no other
      handler starts at gets a new Nop inserted before it, which becomes the
      handler's end. New instructions take identities from `next` upwards.
      A HandlerEnd that is a Nop is skipped before it is looked for, so a Nop
      outside the body is left alone. Inserting before a TryStart that is not
      in the body is an ArgumentOutOfRange; any other HandlerEnd that is not
      in the body is NotSupported. */
  method AddPadding(instrs: seq<Instr>, handlers: seq<ExceptionHandler>, strays: set<InstrId>, next: nat) returns (r: Result<Padded, FlowError>)
    requires DistinctIds(instrs)
    requires forall i :: 0 <= i < |instrs| ==> instrs[i].id < next
    requires forall j :: 0 <= j < |handlers| ==> RefBelow(handlers[j].tryStart, next) && RefBelow(handlers[j].handlerEnd, next)
    ensures r == Padding(instrs, handlers, strays, next)
    ensures r.Ok? <==> BoundariesKnown(instrs, handlers, strays)
    ensures r.Err? ==> r.error == ArgumentOutOfRange || r.error == NotSupported
    ensures r.Ok? ==> var p := r.value;
      && DistinctIds(p.body) && Older(p.body, next) == instrs && p.next >= next
      && (forall i :: 0 <= i < |p.body| ==> p.body[i].id < p.next)
      && (forall i :: 0 <= i < |p.body| && p.body[i].id >= next ==> p.body[i] == NopInstr(p.body[i].id))
      && |p.ends| == |handlers|
      && (forall j :: 0 <= j < |handlers| ==>
            NopBefore(p.body, handlers[j].tryStart) &&
            (NopAt(p.body, p.ends[j]) ||
             (p.ends[j] == handlers[j].handlerEnd && Found(p.body, p.ends[j]) && EndShared(handlers, j)) ||
             (p.ends[j] == handlers[j].handlerEnd && StrayNop(p.body, strays, p.ends[j]))))
  {
    var body, unused := instrs, next;
    var ends := InitialEnds(handlers);
    OlderAll(instrs, next);
    for h := 0 to |handlers|
      invariant PadInvariant(instrs, handlers, strays, next, body, ends, unused, h)
      invariant PadFrom(handlers, strays, body, ends, unused, h) == Padding(instrs, handlers, strays, next)
    {
      var step := PadOne(instrs, handlers, strays, next, body, ends, unused, h);
      if step.Err? {
        return Err(step.error);
      }
      PadFromStep(handlers, strays, body, ends, unused, h);
      body, ends, unused := step.value.0, step.value.1, step.value.2;
    }
    PaddingDone(instrs, handlers, strays, next, body, ends, unused);
    return Ok(Padded(body, ends, unused));
  }

  lemma TryStartInserted(instrs: seq<Instr>, handlers: seq<ExceptionHandler>, strays: set<InstrId>, next: nat,
                         body: seq<Instr>, ends: seq<Option<InstrId>>, unused: nat, h: nat, k: nat)
    requires PadInvariant(instrs, handlers, strays, next, body, ends, unused, h) && h < |handlers|
    requires forall j :: 0 <= j < |handlers| ==> RefBelow(handlers[j].handlerEnd, next)
    requires IndexOfRef(body, handlers[h].tryStart) == Some(k)
    ensures PadInvariant(instrs, handlers, strays, next, InsertAt(body, k, NopInstr(unused)), ends, unused + 1, h)
    ensures NopBefore(InsertAt(body, k, NopInstr(unused)), handlers[h].tryStart)
  {
    InsertNopPads(body, k, unused, handlers[h].tryStart);
    InsertKeepsInvariant(instrs, handlers, strays, next, body, ends, unused, h, k);
  }

  /** The first half of AddPadding's loop body: a Nop before TryStart unless
      there is one already. */
  method PadTryStart(ghost instrs: seq<Instr>, handlers: seq<ExceptionHandler>, ghost strays: set<InstrId>, ghost next: nat,
                     body: seq<Instr>, ghost ends: seq<Option<InstrId>>, unused: nat, h: nat, k: nat)
    returns (body': seq<Instr>, unused': nat)
    requires PadInvariant(instrs, handlers, strays, next, body, ends, unused, h) && h < |handlers|
    requires forall j :: 0 <= j < |handlers| ==> RefBelow(handlers[j].handlerEnd, next)
    requires IndexOfRef(body, handlers[h].tryStart) == Some(k)
    ensures PadInvariant(instrs, handlers, strays, next, body', ends, unused', h)
    ensures (body', unused') == PadTry(body, k, unused)
    ensures NopBefore(body', handlers[h].tryStart)
    ensures Found(body', handlers[h].handlerEnd) <==> Found(instrs, handlers[h].handlerEnd)
  {
    if k == 0 || body[k - 1].code != Nop {
      TryStartInserted(instrs, handlers, strays, next, body, ends, unused, h, k);
      body', unused' := InsertAt(body, k, NopInstr(unused)), unused + 1;
    } else {
      NopAlreadyBefore(body, handlers[h].tryStart, k);
      body', unused' := body, unused;
    }
    InvariantFinds(instrs, handlers, strays, next, body', ends, unused', h, h);
  }

  lemma NopAlreadyBefore(body: seq<Instr>, ref: Option<InstrId>, k: nat)
    requires IndexOfRef(body, ref) == Some(k) && 0 < k && body[k - 1].code == Nop
    ensures NopBefore(body, ref)
  {
  }

  /** The second half of AddPadding's loop body: a found HandlerEnd that no
      other handler starts at gets a Nop inserted before it, which becomes
      the handler's end. */
  method PadHandlerEnd(ghost instrs: seq<Instr>, handlers: seq<ExceptionHandler>, ghost strays: set<InstrId>, ghost next: nat,
                       body: seq<Instr>, ends: seq<Option<InstrId>>, unused: nat, h: nat, k: nat)
    returns (body': seq<Instr>, ends': seq<Option<InstrId>>, unused': nat)
    requires PadInvariant(instrs, handlers, strays, next, body, ends, unused, h) && h < |handlers|
    requires forall j :: 0 <= j < |handlers| ==> RefBelow(handlers[j].handlerEnd, next)
    requires NopBefore(body, handlers[h].tryStart)
    requires IndexOfRef(body, handlers[h].handlerEnd) == Some(k)
    ensures PadInvariant(instrs, handlers, strays, next, body', ends', unused', h + 1)
    ensures EndShared(handlers, h) ==> body' == body && ends' == ends && unused' == unused
    ensures !EndShared(handlers, h) ==>
      body' == InsertAt(body, k, NopInstr(unused)) && ends' == ends[h := Some(unused)] && unused' == unused + 1
  {
    HandlerEndStep(instrs, handlers, strays, next, body, ends, unused, h, k);
    if EndShared(handlers, h) {
      body', ends', unused' := body, ends, unused;
    } else {
      body', ends', unused' := InsertAt(body, k, NopInstr(unused)), ends[h := Some(unused)], unused + 1;
    }
  }

  lemma PaddingDone(instrs: seq<Instr>, handlers: seq<ExceptionHandler>, strays: set<InstrId>, next: nat,
                    body: seq<Instr>, ends: seq<Option<InstrId>>, unused: nat)
    requires PadInvariant(instrs, handlers, strays, next, body, ends, unused, |handlers|)
    ensures BoundariesKnown(instrs, handlers, strays)
    ensures forall j :: 0 <= j < |handlers| ==>
            NopBefore(body, handlers[j].tryStart) &&
            (NopAt(body, ends[j]) ||
             (ends[j] == handlers[j].handlerEnd && Found(body, ends[j]) && EndShared(handlers, j)) ||
             (ends[j] == handlers[j].handlerEnd && StrayNop(body, strays, ends[j])))
  {
    forall j | 0 <= j < |handlers|
      ensures NopBefore(body, handlers[j].tryStart)
      ensures NopAt(body, ends[j]) ||
              (ends[j] == handlers[j].handlerEnd && Found(body, ends[j]) && EndShared(handlers, j)) ||
              (ends[j] == handlers[j].handlerEnd && StrayNop(body, strays, ends[j]))
    {
      assert HandlerPadded(body, handlers, strays, ends, j);
    }
  }

  // ----- Block starts -----

  lemma StartPrefix(a: seq<Block>, c: seq<Block>, k: nat)
    requires k <= |a|
    ensures Start(a + c, k) == Start(a, k)
  {
    assert (a + c)[..k] == a[..k];
  }

  /** Where the blocks of a merged range start: unchanged before the range,
      at the end of the range inside it, unchanged after it. */
  lemma {:induction false} MergeRangeStart(blocks: seq<Block>, first: nat, last: nat, k: nat)
    requires first <= last < |blocks| && k <= |blocks|
    ensures Start(MergeRange(blocks, first, last), k) ==
      if k <= first || k > last then Start(blocks, k) else Start(blocks, last + 1)
    decreases k
  {
    var m := MergeRange(blocks, first, last);
    MergeRangeAt(blocks, first, last);
    if k <= first {
      assert m[..k] == blocks[..k];
    } else {
      MergeRangeStart(blocks, first, last, k - 1);
      StartSucc(m, k - 1);
      if k == first + 1 {
        assert blocks[..last + 1] == blocks[..first] + blocks[first..last + 1];
        ConcatAppend(blocks[..first], blocks[first..last + 1]);
      } else if k > last + 1 {
        StartSucc(blocks, k - 1);
      }
    }
  }

  lemma MergeRangeStarts(blocks: seq<Block>, first: nat, last: nat, heights: seq<Option<nat>>)
    requires first <= last < |blocks| && StartsAtZero(blocks, heights)
    ensures StartsAtZero(MergeRange(blocks, first, last), heights)
  {
    var m := MergeRange(blocks, first, last);
    forall k | 0 <= k <= |m| && Start(m, k) < |heights|
      ensures heights[Start(m, k)] == Some(0)
    {
      MergeRangeStart(blocks, first, last, k);
      if first < k <= last {
        assert Start(blocks, last + 1) < |heights|;
      } else {
        assert Start(blocks, k) < |heights|;
      }
    }
  }

  /** Moving block 0 to the front of block 1 starts block 1 where block 0 did. */
  lemma MoveUpStarts(blocks: seq<Block>, heights: seq<Option<nat>>)
    requires 1 < |blocks| && StartsAtZero(blocks, heights)
    ensures StartsAtZero(blocks[1 := blocks[0] + blocks[1]][0 := []], heights)
  {
    var m := blocks[1 := blocks[0] + blocks[1]][0 := []];
    forall k | 0 <= k <= |m| && Start(m, k) < |heights|
      ensures heights[Start(m, k)] == Some(0)
    {
      if k <= 1 {
        assert Start(m, k) == 0 == Start(blocks, 0) by {
          assert m[..k] == if k == 0 then [] else [[]];
          ConcatOne([]);
        }
      } else {
        assert m[..k] == [[], blocks[0] + blocks[1]] + blocks[2..k];
        assert blocks[..k] == [blocks[0], blocks[1]] + blocks[2..k];
        ConcatAppend([[], blocks[0] + blocks[1]], blocks[2..k]);
        ConcatAppend([blocks[0], blocks[1]], blocks[2..k]);
        assert [[], blocks[0] + blocks[1]][..1] == [[]];
        assert [blocks[0], blocks[1]][..1] == [blocks[0]];
        ConcatOne([]);
        ConcatOne(blocks[0]);
        assert Start(m, k) == Start(blocks, k);
      }
    }
  }

  lemma {:induction false} CompressLoopStarts(r: seq<Block>, i: nat, heights: seq<Option<nat>>)
    requires 1 <= i < |r| && StartsAtZero(r, heights)
    ensures StartsAtZero(CompressLoop(r, i), heights)
    decreases i
  {
    if i > 1 {
      if IsSmallBlock(r[i]) {
        MoveDownIsMerge(r, i);
        MergeRangeStarts(r, i - 1, i, heights);
      }
      CompressLoopStarts(if IsSmallBlock(r[i]) then r[i - 1 := r[i - 1] + r[i]][i := []] else r, i - 1, heights);
    } else if IsSmallBlock(r[0]) {
      MoveUpStarts(r, heights);
    }
  }

  lemma {:induction false} CompressLoopKeepsTogether(blocks: seq<Block>, r: seq<Block>, i: nat)
    requires 1 <= i < |r| && KeepsTogether(blocks, r)
    ensures KeepsTogether(blocks, CompressLoop(r, i))
    decreases i
  {
    if i > 1 {
      if IsSmallBlock(r[i]) {
        MoveDownKeepsTogether(blocks, r, i);
      }
      CompressLoopKeepsTogether(blocks, if IsSmallBlock(r[i]) then r[i - 1 := r[i - 1] + r[i]][i := []] else r, i - 1);
    } else if IsSmallBlock(r[0]) {
      MoveUpKeepsTogether(blocks, r);
    }
  }

  /** Compress never separates instructions that share a block. */
  lemma CompressKeepsTogether(blocks: seq<Block>)
    ensures KeepsTogether(blocks, CompressOf(blocks))
  {
    if |blocks| > 1 {
      CompressLoopKeepsTogether(blocks, blocks, |blocks| - 1);
    }
  }

  /** Compress only removes block starts. */
  lemma CompressStarts(blocks: seq<Block>, heights: seq<Option<nat>>)
    requires StartsAtZero(blocks, heights)
    ensures StartsAtZero(CompressOf(blocks), heights)
  {
    if |blocks| > 1 {
      CompressLoopStarts(blocks, |blocks| - 1, heights);
    }
  }

  /** Dropping empty blocks only removes block starts. */
  lemma {:induction false} RemoveEmptyStarts(blocks: seq<Block>, heights: seq<Option<nat>>)
    requires StartsAtZero(blocks, heights)
    ensures StartsAtZero(RemoveEmpty(blocks), heights)
    decreases |blocks|
  {
    if blocks != [] {
      var n := |blocks|;
      var pre, last := blocks[..n - 1], blocks[n - 1];
      forall k | 0 <= k <= |pre| && Start(pre, k) < |heights|
        ensures heights[Start(pre, k)] == Some(0)
      {
        assert blocks == pre + [last];
        StartPrefix(pre, [last], k);
        assert Start(blocks, k) < |heights|;
      }
      RemoveEmptyStarts(pre, heights);
      var rp := RemoveEmpty(pre);
      var tail: seq<Block> := if last == [] then [] else [last];
      var r := RemoveEmpty(blocks);
      assert r == rp + tail;
      forall k | 0 <= k <= |r| && Start(r, k) < |heights|
        ensures heights[Start(r, k)] == Some(0)
      {
        if k <= |rp| {
          StartPrefix(rp, tail, k);
          assert Start(rp, k) < |heights|;
        } else {
          assert r[..k] == r;
          assert blocks[..n] == blocks;
          RemoveEmptyConcat(blocks);
          assert Start(r, k) == Start(blocks, n);
        }
      }
    }
  }

  lemma {:induction false} CombineAllStarts(blocks: seq<Block>, instrs: seq<Instr>, handlers: seq<ExceptionHandler>,
                                            heights: seq<Option<nat>>)
    requires CombineAll(blocks, instrs, handlers).Ok? && StartsAtZero(blocks, heights)
    ensures StartsAtZero(CombineAll(blocks, instrs, handlers).value, heights)
    decreases |handlers|
  {
    if handlers != [] {
      var one := CombineOne(blocks, instrs, handlers[0]);
      assert one.Ok? && CombineAll(blocks, instrs, handlers) == CombineAll(one.value, instrs, handlers[1..]);
      CombineOneStarts(blocks, instrs, handlers[0], heights);
      CombineAllStarts(one.value, instrs, handlers[1..], heights);
    }
  }

  lemma CombineOneStarts(blocks: seq<Block>, instrs: seq<Instr>, eh: ExceptionHandler, heights: seq<Option<nat>>)
    requires CombineOne(blocks, instrs, eh).Ok? && StartsAtZero(blocks, heights)
    ensures StartsAtZero(CombineOne(blocks, instrs, eh).value, heights)
  {
    var start := StartNop(instrs, eh);
    var startIndex := FindBlock(blocks, start);
    var endIndex := FindBlock(blocks, eh.handlerEnd);
    if startIndex != endIndex && 0 <= startIndex < endIndex {
      MergeRangeStarts(blocks, startIndex, endIndex, heights);
    }
  }

  // ----- GetBlocks -----

  /** Where an instruction is first found in two lists laid end to end. */
  lemma IndexOfAppend(a: seq<Instr>, b: seq<Instr>, id: InstrId)
    ensures IndexOf(a + b, id) ==
      if IndexOf(a, id).Some? then IndexOf(a, id)
      else if IndexOf(b, id).Some? then Some(|a| + IndexOf(b, id).value)
      else None
  {
    var ab := a + b;
    match IndexOf(a, id)
    case Some(i) =>
      forall k | 0 <= k < i
        ensures ab[k].id != id
      {
        assert ab[k] == a[k];
      }
      assert ab[i] == a[i];
      IndexOfIs(ab, id, i);
    case None =>
      forall k | 0 <= k < |a|
        ensures ab[k].id != id
      {
        assert ab[k] == a[k];
      }
      match IndexOf(b, id)
      case Some(i) =>
        forall k | |a| <= k < |a| + i
          ensures ab[k].id != id
        {
          assert ab[k] == b[k - |a|];
        }
        assert ab[|a| + i] == b[i];
        IndexOfIs(ab, id, |a| + i);
      case None =>
        forall k | |a| <= k < |ab|
          ensures ab[k].id != id
        {
          assert ab[k] == b[k - |a|];
        }
  }

  /** The first position holding an identity is what IndexOf finds. */
  lemma IndexOfIs(instrs: seq<Instr>, id: InstrId, i: nat)
    requires i < |instrs| && instrs[i].id == id
    requires forall k :: 0 <= k < i ==> instrs[k].id != id
    ensures IndexOf(instrs, id) == Some(i)
  {
    assert IndexOf(instrs, id).Some?;
  }

  /** An identity is among the ids exactly when IndexOf finds it. */
  lemma InIds(instrs: seq<Instr>, id: InstrId)
    ensures id in Ids(instrs) <==> IndexOf(instrs, id).Some?
  {
    if IndexOf(instrs, id).Some? {
      assert Ids(instrs)[IndexOf(instrs, id).value] == id;
    }
  }

  /** An instruction the body holds lies in some block. */
  lemma FoundInBlocks(blocks: seq<Block>, id: InstrId)
    requires IndexOf(Concat(blocks), id).Some?
    ensures FindBlock(blocks, Some(id)) >= 0
  {
    InIds(Concat(blocks), id);
    InConcat(blocks, id);
  }

  /** In blocks that lay out the body, an instruction found no later than
      another lies in a block no later than the other's. */
  lemma {:induction false} PositionOrder(blocks: seq<Block>, instrs: seq<Instr>, x: InstrId, y: InstrId)
    requires Concat(blocks) == instrs
    requires IndexOf(instrs, x).Some? && IndexOf(instrs, y).Some?
    requires IndexOf(instrs, x).value <= IndexOf(instrs, y).value
    ensures 0 <= FindBlock(blocks, Some(x)) <= FindBlock(blocks, Some(y))
    decreases |blocks|
  {
    FoundInBlocks(blocks, y);
    var b0, rest := blocks[0], blocks[1..];
    assert blocks == [b0] + rest;
    ConcatAppend([b0], rest);
    ConcatOne(b0);
    var tail := Concat(rest);
    InIds(b0, x);
    if x !in Ids(b0) {
      IndexOfAppend(b0, tail, x);
      IndexOfAppend(b0, tail, y);
      InIds(b0, y);
      PositionOrder(rest, tail, x, y);
    }
  }

  /** A handler whose Nop before TryStart comes no later in the body than
      its HandlerEnd. */
  predicate RegionOrdered(instrs: seq<Instr>, eh: ExceptionHandler) {
    var at := IndexOfRef(instrs, eh.tryStart);
    var end := IndexOfRef(instrs, eh.handlerEnd);
    at.Some? && at.value >= 1 && end.Some? && at.value - 1 <= end.value
  }

  /** A region ordered in the body spans forwards over blocks laying it out. */
  lemma OrderedSpans(blocks: seq<Block>, instrs: seq<Instr>, eh: ExceptionHandler)
    requires Concat(blocks) == instrs && RegionOrdered(instrs, eh)
    ensures Spans(blocks, instrs, eh)
  {
    var at := IndexOfRef(instrs, eh.tryStart).value;
    var start := instrs[at - 1].id;
    assert IndexOf(instrs, start).Some? && IndexOf(instrs, start).value <= at - 1;
    PositionOrder(blocks, instrs, start, eh.handlerEnd.value);
  }

  /** The last step of GetBlocks: removing the blocks Compress emptied keeps
      the body, leaves no empty block, and keeps every ordered region's
      blocks merged. */
  lemma NonEmptyKeepsRegions(instrs: seq<Instr>, handlers: seq<ExceptionHandler>, split: seq<Block>,
                             combined: seq<Block>, compressed: seq<Block>)
    requires instrs != [] && Concat(split) == instrs
    requires Concat(combined) == instrs && Concat(compressed) == instrs
    requires forall h :: 0 <= h < |handlers| && Spans(split, instrs, handlers[h]) ==>
      Together(combined, StartNop(instrs, handlers[h]), handlers[h].handlerEnd)
    requires KeepsTogether(combined, compressed)
    ensures var blocks := RemoveEmpty(compressed);
      && Concat(blocks) == instrs && blocks != []
      && (forall k :: 0 <= k < |blocks| ==> blocks[k] != [])
      && forall h :: 0 <= h < |handlers| && RegionOrdered(instrs, handlers[h]) ==>
           Together(blocks, StartNop(instrs, handlers[h]), handlers[h].handlerEnd)
  {
    var blocks := RemoveEmpty(compressed);
    RemoveEmptyConcat(compressed);
    forall h | 0 <= h < |handlers| && RegionOrdered(instrs, handlers[h])
      ensures Together(blocks, StartNop(instrs, handlers[h]), handlers[h].handlerEnd)
    {
      var eh := handlers[h];
      assert Together(compressed, StartNop(instrs, eh), eh.handlerEnd) by {
        OrderedSpans(split, instrs, eh);
      }
      RemoveEmptyKeepsTogether(compressed, StartNop(instrs, eh), eh.handlerEnd);
    }
  }

  /** The blocks GetBlocks makes of a body whose stack heights are `heights`. */
  function BlocksOf(instrs: seq<Instr>, handlers: seq<ExceptionHandler>, heights: seq<Option<nat>>): Result<seq<Block>, FlowError>
    requires |heights| == |instrs|
  {
    var combined := CombineAll(Split(instrs, heights), instrs, handlers);
    if combined.Err? then Err(combined.error) else Ok(RemoveEmpty(CompressOf(combined.value)))
  }

  /** Under the least stack heights every block GetBlocks makes starts at an
      instruction of height 0, and instructions that the split at zero
      heights put in one block still share one: blocks are cut only where
      the split cut them. */
  lemma BlocksOfCuts(instrs: seq<Instr>, handlers: seq<ExceptionHandler>, heights: seq<Option<nat>>)
    requires StackHelper.IsLeastSolution(instrs, handlers, heights)
    requires BlocksOf(instrs, handlers, heights).Ok?
    ensures StartsAtZero(BlocksOf(instrs, handlers, heights).value, heights)
    ensures KeepsTogether(Split(instrs, heights), BlocksOf(instrs, handlers, heights).value)
  {
    var split := Split(instrs, heights);
    var combined := CombineAll(split, instrs, handlers).value;
    var compressed := CompressOf(combined);
    var r := RemoveEmpty(compressed);
    var none := seq(|instrs|, _ => None);
    StackHelper.FirstEntry(instrs, handlers, none);
    SplitStartsAtZero(instrs, heights);
    CombineAllStarts(split, instrs, handlers, heights);
    CompressStarts(combined, heights);
    RemoveEmptyStarts(compressed, heights);
    CompressKeepsTogether(combined);
    forall x, y | Together(split, x, y)
      ensures Together(r, x, y)
    {
      CombineAllKeepsTogether(split, instrs, handlers, x, y);
      assert Together(compressed, x, y);
      RemoveEmptyKeepsTogether(compressed, x, y);
    }
  }

  lemma NoLeastSolution(instrs: seq<Instr>, handlers: seq<ExceptionHandler>)
    requires !exists G :: StackHelper.Solution(instrs, handlers, G)
    ensures forall H :: !StackHelper.IsLeastSolution(instrs, handlers, H)
  {
  }

  /** What BlocksOf says of the least stack heights it says of every least
      solution, since there is only one. */
  lemma LeastBlocks(instrs: seq<Instr>, handlers: seq<ExceptionHandler>, heights: seq<Option<nat>>, r: Result<seq<Block>, FlowError>)
    requires StackHelper.IsLeastSolution(instrs, handlers, heights) && r == BlocksOf(instrs, handlers, heights)
    ensures forall H :: StackHelper.IsLeastSolution(instrs, handlers, H) ==> r == BlocksOf(instrs, handlers, H)
    ensures r.Ok? ==> forall H :: StackHelper.IsLeastSolution(instrs, handlers, H) ==>
      StartsAtZero(r.value, H) && KeepsTogether(Split(instrs, H), r.value)
  {
    if r.Ok? {
      BlocksOfCuts(instrs, handlers, heights);
    }
    forall H | StackHelper.IsLeastSolution(instrs, handlers, H)
      ensures H == heights
    {
      StackHelper.LeastSolutionUnique(instrs, handlers, H, heights);
    }
  }

  /** GetBlocks: the body split before every instruction with stack height
      zero, the blocks of each exception region merged, small blocks merged
      into their predecessor, and the emptied blocks removed. A body without
      a consistent stack height assignment is a StackFailure. */
  method GetBlocks(instrs: seq<Instr>, handlers: seq<ExceptionHandler>) returns (r: Result<seq<Block>, FlowError>)
    ensures forall H :: StackHelper.IsLeastSolution(instrs, handlers, H) ==> r == BlocksOf(instrs, handlers, H)
    ensures r.Ok? ==> forall H :: StackHelper.IsLeastSolution(instrs, handlers, H) ==>
      StartsAtZero(r.value, H) && KeepsTogether(Split(instrs, H), r.value)
    ensures (r.Err? && r.error.StackFailure?) <==> !exists G :: StackHelper.Solution(instrs, handlers, G)
    ensures r.Err? ==> r.error.StackFailure? || r.error == ArgumentOutOfRange
    ensures r.Ok? ==> Concat(r.value) == instrs && r.value != []
    ensures r.Ok? ==> forall k :: 0 <= k < |r.value| ==> r.value[k] != []
    ensures r.Ok? ==> forall h :: 0 <= h < |handlers| && RegionOrdered(instrs, handlers[h]) ==>
      Together(r.value, StartNop(instrs, handlers[h]), handlers[h].handlerEnd)
  {
    var heights := StackHelper.GetStackHeights(instrs, handlers);
    if heights.Err? {
      NoLeastSolution(instrs, handlers);
      return Err(StackFailure(heights.error));
    }
    var split := SplitAtZeroHeights(instrs, heights.value);
    SplitCoversBody(instrs, handlers, heights.value, split);
    var combined := CombineExceptionBlocks(split, instrs, handlers);
    if combined.Err? {
      r := Err(combined.error);
      LeastBlocks(instrs, handlers, heights.value, r);
      return;
    }
    assert instrs != [] by {
      var none := seq(|instrs|, _ => None);
      StackHelper.FirstEntry(instrs, handlers, none);
    }
    var compressed := Compress(combined.value);
    NonEmptyKeepsRegions(instrs, handlers, split, combined.value, compressed);
    r := Ok(RemoveEmpty(compressed));
    assert r == BlocksOf(instrs, handlers, heights.value) by {
      assert combined == CombineAll(Split(instrs, heights.value), instrs, handlers);
    }
    LeastBlocks(instrs, handlers, heights.value, r);
  }
}
