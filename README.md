# Vilens obfuscator core in Dafny

Vilens is a .NET obfuscator built on dnlib. It rewrites a module's methods so that decompilers show less of their structure. This project models the logic inside Vilens that can be separated from dnlib's metadata graph, and proves what that logic promises:

- **Xoshiro128** (`Xoshiro`): the seeded xoshiro128** generator. The object keeps four 32-bit state words. Bounded draws use Lemire's multiply-shift rejection.
- **MathHelper**: the primality test and "next prime". The in-place reordering of a list along the walk `i <- (i + inc) mod p`. The picker for a value congruent to `i` mod `p`.
- **StackHelper**: the stack-height analyser over an instruction list and its exception handlers, as in section 1.7 of ECMA-335 Partition III. A class holds the heights array and the maximum.
- **DnLibExtensions**: the flow-control predicates, `Replace`, the list appenders, `WasTrimmed`, and the walk over the `#US` user-string heap (section 24.2.4 of ECMA-335 Partition II).
- **ControlFlow** (`ControlFlowBlocks`, `ControlFlow`): the flattening of one method body. The body is padded around exception handlers, split into blocks at stack height 0, and its exception regions and small blocks are merged. The blocks are then padded to a prime count, reordered along the walk, and dispatched by a `switch` over a state local. Every jump between blocks is routed through a stub that sets the state.
- **NamingHelper**: the name generator that enumerates combinations with repetition, and renaming to the first unused name.
- **StringHiding**: packing the string literals into one buffer with offsets and NUL terminators. The static constructor that reads them back into fields. Replacing each literal by a load of its field.
- **PropertyInline**: recognising trivial auto-property accessors and rewriting calls to them into field accesses.
- **FeatureExtensions / FeatureMap**: parsing feature names and folding the `[Obfuscation]` attributes over the module, type and member chain.
- **VisibilityExtensions** (`Visibility`): the access masks mapped to Private < Internal < Public, the clamp to the declaring type, and the scope test.

Where a function only computes (for example `DnLibExtensions.IsUnconditional`, `DnLibExtensions.IsBranch`, `DnLibExtensions.WasTrimmed`, `FeatureExtensions.HasFeatures`, `FeatureExtensions.ParseAsWritten`, `VisibilityExtensions.IsHidden`, `PropertyInline.TryParseAccessor`, `PropertyInline.TryGetAutoProperty`, `StringHiding.Hiding`, `StringHiding.Hide`), its row in the table below is the lemma or method that states its meaning; the function itself has no row of its own.

Instructions are values with identities (`Cil`). A branch target, switch table or exception-handler boundary refers to an instruction by its identity, so an instruction that changes its opcode and operand in place keeps every reference to it. Instruction lists that the source rewrites in place are `seq` values that the model's methods rebuild. Lists and arrays that the source overwrites element by element are arrays (`MathHelper.ReOrder`, `ControlFlow.Shuffle`, `StringHiding.HideLiterals`). Stateful helpers are classes (`Xoshiro.Xoshiro128`, `StackHelper.StackHelper`, `FeatureMap.FeatureMap`, `DnLibExtensions.MutableList`).

## Model

| member | source | states |
|---|---|---|
| Xoshiro.Xoshiro128.constructor | src/Vilens/Helpers/Xoshiro128.cs:14-21 | the state is ((uint)seed, 1, 1, 1) advanced by the one draw the constructor discards |
| Xoshiro.Xoshiro128.NextUInt32 | src/Vilens/Helpers/Xoshiro128.cs:92-112 | returns RotateLeft(s1·5, 7)·9 modulo 2^32 of the old state and leaves the state after the xor, shift and rotate step |
| Xoshiro.AdvanceByAdd | src/Vilens/Helpers/Xoshiro128.cs:92-112 | advancing j steps and then k steps is advancing j + k steps |
| Xoshiro.StreamFromSeed | src/Vilens/Helpers/Xoshiro128.cs:14-21 | the k-th value drawn after construction is the output of the seeded state advanced k times |
| Xoshiro.ProductHighBelow | src/Vilens/Helpers/Xoshiro128.cs:70-84 | the high word of maxValue·x is below maxValue (and both words are 0 when maxValue is 0) |
| Xoshiro.Threshold | src/Vilens/Helpers/Xoshiro128.cs:75 | `unchecked(0u - maxValue) % maxValue` lies in [0, maxValue) |
| Xoshiro.ThresholdIsRemainder | src/Vilens/Helpers/Xoshiro128.cs:75 | that threshold is 2^32 mod maxValue |
| Xoshiro.Redraw | src/Vilens/Helpers/Xoshiro128.cs:77-84 | a value the rejection loop returns is below maxValue |
| Xoshiro.DrawBelow | src/Vilens/Helpers/Xoshiro128.cs:68-85 | maxValue 0 gives 0 after one draw; otherwise a returned value is below maxValue |
| Xoshiro.RedrawIsRejection | src/Vilens/Helpers/Xoshiro128.cs:77-81 | the source's loop equals plain rejection sampling: draw, keep the high word unless the low word is under the threshold |
| Xoshiro.FastPathIsRejection | src/Vilens/Helpers/Xoshiro128.cs:68-85 | skipping the threshold test when the low word is at least maxValue does not change the outcome |
| Xoshiro.Xoshiro128.NextUInt32Below | src/Vilens/Helpers/Xoshiro128.cs:68-85 | the value and new state are those of `DrawBelow` on the old state |
| Xoshiro.Xoshiro128.RedrawWhileBelowThreshold | src/Vilens/Helpers/Xoshiro128.cs:77-81 | the loop's value and new state are those of `Redraw` |
| Xoshiro.DrawNonNegative | src/Vilens/Helpers/Xoshiro128.cs:23-36 | a value returned lies in [0, int.MaxValue) |
| Xoshiro.NonNegativeSkipsOnlyMax | src/Vilens/Helpers/Xoshiro128.cs:25-35 | the value is the top 31 bits of the first draw whose top bits are not int.MaxValue, every earlier draw had int.MaxValue there, and the state is just past that draw |
| Xoshiro.Xoshiro128.Next | src/Vilens/Helpers/Xoshiro128.cs:23-36 | the loop's value and new state are those of `DrawNonNegative` |
| Xoshiro.DrawInt | src/Vilens/Helpers/Xoshiro128.cs:38-43 | for maxValue > 0 the value lies in [0, maxValue); for 0 it is 0 |
| Xoshiro.Xoshiro128.NextBelow | src/Vilens/Helpers/Xoshiro128.cs:38-43 | value and new state are those of `DrawInt` |
| Xoshiro.SpanOf | src/Vilens/Helpers/Xoshiro128.cs:49 | for minValue <= maxValue the wrapped difference is the plain difference |
| Xoshiro.ShiftIntoRange | src/Vilens/Helpers/Xoshiro128.cs:49 | adding minValue to a draw below the span does not wrap around |
| Xoshiro.DrawRange | src/Vilens/Helpers/Xoshiro128.cs:45-50 | for minValue < maxValue the value lies in [minValue, maxValue); for equal bounds it is minValue |
| Xoshiro.Xoshiro128.NextInRange | src/Vilens/Helpers/Xoshiro128.cs:45-50 | value and new state are those of `DrawRange`, with the 32-bit wrap-around written out |
| Xoshiro.Xoshiro128.NextBytes | src/Vilens/Helpers/Xoshiro128.cs:52-55 | always fails with NotImplemented |
| Xoshiro.Xoshiro128.NextDouble | src/Vilens/Helpers/Xoshiro128.cs:57-60 | always fails with NotImplemented |
| Xoshiro.Xoshiro128.Sample | src/Vilens/Helpers/Xoshiro128.cs:62-65 | always fails with NotImplemented |
| MathHelper.CeilSqrt | src/Vilens/Helpers/MathHelper.cs:64-66 | the integer r with r² >= n and (r-1)² < n, the two facts the source asserts about `Math.Ceiling(Math.Sqrt(p))` |
| MathHelper.CeilSqrtBelow | src/Vilens/Helpers/MathHelper.cs:64-67 | for p >= 3 the square-root bound lies in [2, p) |
| MathHelper.NoSmallDivisorIsPrime | src/Vilens/Helpers/MathHelper.cs:67-74 | no divisor up to a bound whose square reaches p means p is prime |
| MathHelper.PrimeDividesProduct | src/Vilens/Helpers/MathHelper.cs:96 | a prime dividing a·b with 0 < a < p divides b |
| MathHelper.SmallestDivisorIsPrime | src/Vilens/Helpers/MathHelper.cs:40-47 | the smallest divisor above 1 is prime |
| MathHelper.PrimeAtLeast | src/Vilens/Helpers/MathHelper.cs:40-47 | there is a prime at or above every n, so the search ends |
| MathHelper.IsPrime | src/Vilens/Helpers/MathHelper.cs:49-75 | a negative argument fails with ArgumentOutOfRange("p"); otherwise the result is true exactly when p is prime |
| MathHelper.SmallPrimes | src/Vilens/Helpers/MathHelper.cs:16-35 | which of 0..17 are prime |
| MathHelper.PrimeTableIsSmallest | src/Vilens/Helpers/MathHelper.cs:16-35 | each entry of the switch table is the smallest prime at or above its key |
| MathHelper.GetPrime | src/Vilens/Helpers/MathHelper.cs:12-38 | a negative argument fails with ArgumentOutOfRange("min"); otherwise the result is the smallest prime at or above min |
| MathHelper.GetPrime2 | src/Vilens/Helpers/MathHelper.cs:40-47 | the upward search returns the smallest prime at or above min |
| MathHelper.Pos | src/Vilens/Helpers/MathHelper.cs:99-105 | the index the k-th item goes to, (start + (k+1)·inc) mod p, lies in [0, p) |
| MathHelper.ReOrderCheck | src/Vilens/Helpers/MathHelper.cs:83-94 | the argument checks pass exactly when p is prime, the list has p items, 0 < inc < p and start < int.MaxValue |
| MathHelper.StepNotMultiple | src/Vilens/Helpers/MathHelper.cs:96 | m·inc is no multiple of p for 0 < m < p |
| MathHelper.PosInjective | src/Vilens/Helpers/MathHelper.cs:99-105 | two different items never go to the same index |
| MathHelper.PosImageSize | src/Vilens/Helpers/MathHelper.cs:99-105 | the first n items go to n different indices |
| MathHelper.PosBijective | src/Vilens/Helpers/MathHelper.cs:99-105 | the walk reaches every index exactly once: it is a permutation of 0..p-1 |
| MathHelper.StepPos | src/Vilens/Helpers/MathHelper.cs:103 | one step adds inc modulo p |
| MathHelper.WalkReturns | src/Vilens/Helpers/MathHelper.cs:105 | the walk is back at start mod p exactly after the p-th item, so the do-while stops after p writes |
| MathHelper.Indices | src/Vilens/Helpers/MathHelper.cs:99-105 | the index set 0..n-1, of size n |
| MathHelper.TheWalk | src/Vilens/Helpers/MathHelper.cs:99-105 | the indices the loop visits form a walk |
| MathHelper.WalkIsPos | src/Vilens/Helpers/MathHelper.cs:99-105 | the k-th index the loop visits is `Pos(k)` |
| MathHelper.WalkStep | src/Vilens/Helpers/MathHelper.cs:101-105 | the 32-bit sum i + inc does not wrap, it reaches the next index of the walk, that index is new, and the loop condition fails exactly at the last item |
| MathHelper.ReOrder | src/Vilens/Helpers/MathHelper.cs:81-108 | failing checks leave the list untouched and return the error of the first check that fails, in the source's order; otherwise item k moves to index `Pos(k)` in place |
| MathHelper.CycleAlongWalk | src/Vilens/Helpers/MathHelper.cs:97-105 | the do-while with the queue copy puts item k at index `Pos(k)` |
| MathHelper.WalkMeetsReOrder | src/Vilens/Features/ControlFlow.cs:255-258 | adding draws congruent to inc, starting from start, visits the same indices as the reorder walk |
| MathHelper.WalkVisitsInOrder | src/Vilens/Features/ControlFlow.cs:288-293 | following such draws from the start state meets the original blocks in their original order |
| MathHelper.Congruent | src/Vilens/Helpers/MathHelper.cs:120-128 | for a draw in [p, int.MaxValue - i mod p) the result is congruent to i modulo p and below int.MaxValue |
| MathHelper.RoundDownThenAdd | src/Vilens/Helpers/MathHelper.cs:123-126 | rounding x down to a multiple of p and adding r < p leaves remainder r, without wrapping |
| MathHelper.PickCongruentSound | src/Vilens/Helpers/MathHelper.cs:113-127 | when the draw range is not empty the found value is congruent to i modulo p and below int.MaxValue |
| MathHelper.PickFromDraw | src/Vilens/Helpers/MathHelper.cs:120-128 | the result for a draw from `Next(p, int.MaxValue - ip)` is that draw passed through the rounding arithmetic |
| MathHelper.FindCongruent | src/Vilens/Helpers/MathHelper.cs:115-129 | p <= 0 fails with ArgumentOutOfRange("p") and draws nothing; otherwise result and generator state are those of `PickCongruent` |
| MathHelper.FindCongruentAtMaxValue | src/Vilens/Helpers/MathHelper.cs:113-127 | as written, for p = int.MaxValue and i a multiple of p the result is int.MaxValue, against the documented `x < int.MaxValue` |
| MathHelper.PickCongruentCorrected | src/Vilens/Helpers/MathHelper.cs:113-127 | with the empty range handled, every result is congruent to i modulo p and below int.MaxValue |
| NamingHelper.CharRange | src/Vilens/Helpers/NamingHelper.cs:10 | the run of n consecutive characters from `first`, used to spell the legal alphabet |
| NamingHelper.LegalCharsDistinct | src/Vilens/Helpers/NamingHelper.cs:10 | the legal alphabet has 63 characters, all different |
| NamingHelper.IllegalCharsDistinct | src/Vilens/Helpers/NamingHelper.cs:9 | the illegal alphabet has 16 characters, all different |
| NamingHelper.SchemeConfig | src/Vilens/Helpers/NamingHelper.cs:16-30 | Default gives the legal alphabet with minimum length 1, Invalid the illegal one with minimum length 0, any other scheme is an error; the alphabet is never empty and has no repeats |
| NamingHelper.Suffixed | src/Vilens/Helpers/NamingHelper.cs:77-79 | every shorter name with the character `c` appended, in order |
| NamingHelper.ForEachCharMembers | src/Vilens/Helpers/NamingHelper.cs:75-81 | a name is produced exactly when its last character is in the alphabet and the rest is a shorter name |
| NamingHelper.CombinationsMembers | src/Vilens/Helpers/NamingHelper.cs:66-83 | the names of a given length are exactly the strings of that length over the alphabet |
| NamingHelper.CombinationsCount | src/Vilens/Helpers/NamingHelper.cs:66-83 | there are |alphabet|^length of them |
| NamingHelper.ForEachCharCount | src/Vilens/Helpers/NamingHelper.cs:75-81 | one pass over the alphabet yields |alphabet| × |shorter| names |
| NamingHelper.ForEachCharOrder | src/Vilens/Helpers/NamingHelper.cs:75-81 | the outer loop runs over characters and the inner over shorter names: entry c·|shorter|+k is shorter[k] followed by chars[c] |
| NamingHelper.ForEachCharDistinct | src/Vilens/Helpers/NamingHelper.cs:75-81 | with a repeat-free alphabet and distinct shorter names, the names produced are distinct |
| NamingHelper.CombinationsDistinct | src/Vilens/Helpers/NamingHelper.cs:66-83 | the names of one length never repeat |
| NamingHelper.NameAtLengths | src/Vilens/Helpers/NamingHelper.cs:54-64 | the enumeration never produces a name shorter than the minimum length, and names never get shorter along it |
| NamingHelper.NameAtDistinct | src/Vilens/Helpers/NamingHelper.cs:54-64 | the enumeration never produces the same name twice |
| NamingHelper.NameAtBlock | src/Vilens/Helpers/NamingHelper.cs:56-61 | the names of length n appear as one block, in the order `CombinationsWithRepetition(n)` yields them |
| NamingHelper.DefaultNamesNotEmpty | src/Vilens/Helpers/NamingHelper.cs:28 | under the default scheme no generated name is empty |
| NamingHelper.InvalidEmptyOnlyFirst | src/Vilens/Helpers/NamingHelper.cs:27 | under the invalid scheme only the first generated name is empty |
| NamingHelper.NameGenerator.constructor | src/Vilens/Helpers/NamingHelper.cs:16-33 | a fresh generator holds the scheme's alphabet and minimum length and starts at the first name |
| NamingHelper.NameGenerator.GetNextName | src/Vilens/Helpers/NamingHelper.cs:46-52 | returns the name at the current position of the enumeration and moves one step on |
| NamingHelper.InUse | src/Vilens/Helpers/NamingHelper.cs:85-117 | an unknown member kind is an error; otherwise true exactly when the name is among those that kind of member collides with (other methods or fields, properties, events, nested siblings, the used-type-name set when given, or the module's types) |
| NamingHelper.FirstNamesSize | src/Vilens/Helpers/NamingHelper.cs:54-64 | the first `count` generated names are `count` different names |
| NamingHelper.Rename | src/Vilens/Helpers/NamingHelper.cs:35-44 | fails exactly for an unknown scheme or member kind; otherwise returns the first generated name that is not in use (the loop ends because the used set is finite) |
| VisibilityExtensions.Higher | src/Vilens/Data/VisibilityExtensions.cs:43-45 | the larger of two visibilities in the order Auto < Private < Internal < Public, and always one of the two |
| VisibilityExtensions.MemberAccessVisibility | src/Vilens/Data/VisibilityExtensions.cs:109-117 | never Auto; Private exactly for the masks CompilerControlled and Private, Internal exactly for FamANDAssem and Assembly, Public for Family, FamORAssem and Public (the method mask at lines 135-143 is read the same way) |
| VisibilityExtensions.MemberAccessMonotone | src/Vilens/Data/VisibilityExtensions.cs:135-143 | a larger access mask never yields a lower visibility (the `<=` cascade of the switch) |
| VisibilityExtensions.TypeVisibility | src/Vilens/Data/VisibilityExtensions.cs:119-133 | never Auto; Internal exactly for NotPublic, NestedAssembly and NestedFamANDAssem, Public exactly for Public, NestedPublic, NestedFamily and NestedFamORAssem, Private exactly for NestedPrivate |
| VisibilityExtensions.PresentMembers | src/Vilens/Data/VisibilityExtensions.cs:60-65 | the accessors that are not null are exactly the ones kept, and no more than were given |
| VisibilityExtensions.VisibilityOf | src/Vilens/Data/VisibilityExtensions.cs:79-107 | the visibility of a member (hidden, by kind, clamped to the declaring type) is never Auto |
| VisibilityExtensions.MaxOf | src/Vilens/Data/VisibilityExtensions.cs:35-77 | the maximum over accessor methods starting from Private is never Auto |
| VisibilityExtensions.MaxOfIsMaximum | src/Vilens/Data/VisibilityExtensions.cs:35-77 | the maximum bounds the visibility of every accessor, and is Private or the visibility of one of them |
| VisibilityExtensions.MaxOfSnoc | src/Vilens/Data/VisibilityExtensions.cs:40-50 | one more accessor raises the running maximum by `Higher` |
| VisibilityExtensions.MaxOfStaysPublic | src/Vilens/Data/VisibilityExtensions.cs:46-49 | once the maximum is Public, further accessors leave it Public, so the early return gives the full maximum |
| VisibilityExtensions.ClampedToDeclaringType | src/Vilens/Data/VisibilityExtensions.cs:96-104 | a member is never more visible than its declaring type |
| VisibilityExtensions.InsidePrivateIsPrivate | src/Vilens/Data/VisibilityExtensions.cs:96-104 | every member declared, at any depth, inside a private type is private |
| VisibilityExtensions.MembersOfNestedPrivateArePrivate | src/Vilens/Data/VisibilityExtensions.cs:145-167 | the members of a nested-private type are private, whatever their own attributes |
| VisibilityExtensions.GetVisibility | src/Vilens/Data/VisibilityExtensions.cs:30-107 | the method, with its early returns and accessor loops, returns exactly `VisibilityOf` |
| VisibilityExtensions.MaxOfLists | src/Vilens/Data/VisibilityExtensions.cs:35-54 | the nested loop over accessor lists with the early Public return equals `MaxOf` over the flattened lists |
| VisibilityExtensions.MaxOfMethods | src/Vilens/Data/VisibilityExtensions.cs:56-77 | the loop that skips null accessors equals `MaxOf` over the present ones |
| VisibilityExtensions.IsInScope | src/Vilens/Data/VisibilityExtensions.cs:20-28 | true exactly when the member's visibility is at most the scope (a Public scope admits everything); an Auto scope is excluded as the assertion demands |
| VisibilityExtensions.IsInScopeMonotone | src/Vilens/Data/VisibilityExtensions.cs:20-28 | a member in scope for a narrow visibility is in scope for every wider one |
| ControlFlowBlocks.ConcatAppend | src/Vilens/Features/ControlFlow.cs:119-120 | laying out a + b is laying out a, then b (the instruction count is additive over blocks) |
| ControlFlowBlocks.FirstZero | src/Vilens/Features/ControlFlow.cs:107-114 | the first index whose stack height is 0; no earlier index has height 0 |
| ControlFlowBlocks.SplitAtZeroHeights | src/Vilens/Features/ControlFlow.cs:104-115 | every block starts at an instruction of height 0 and holds no other such instruction, and the blocks laid end to end are the body from the first height-0 instruction on; the result is the split cut before each height-0 instruction (`Split`) |
| ControlFlowBlocks.CutLaysOut | src/Vilens/Features/ControlFlow.cs:104-115 | the blocks cut from an index on each start at a height-0 instruction and hold no other, and laid end to end they are the body from that index |
| ControlFlowBlocks.SplitStartsAtZero | src/Vilens/Features/ControlFlow.cs:104-115 | when the first instruction has height 0, every block of the split starts at an instruction of height 0 |
| ControlFlowBlocks.SplitCoversBody | src/Vilens/Features/ControlFlow.cs:117-120 | under the least stack-height solution the first instruction has height 0, so the split is non-empty and covers the whole body |
| ControlFlowBlocks.SmallMeansAtMostOneNonNop | src/Vilens/Features/ControlFlow.cs:214-218 | a block is small exactly when no two of its instructions are both non-Nop |
| ControlFlowBlocks.MoveDownKeepsConcat | src/Vilens/Features/ControlFlow.cs:200-204 | appending block i to block i-1 and clearing block i leaves the instruction order unchanged |
| ControlFlowBlocks.MoveUpKeepsConcat | src/Vilens/Features/ControlFlow.cs:207-211 | prepending block 0 to block 1 and clearing block 0 leaves the instruction order unchanged |
| ControlFlowBlocks.CompressStep | src/Vilens/Features/ControlFlow.cs:198-205 | one iteration of the backward loop keeps the Compress invariant: the visited suffix is settled, the current block is the run collected so far, the order and every block-sharing pair are kept |
| ControlFlowBlocks.CompressBackward | src/Vilens/Features/ControlFlow.cs:198-205 | the backward loop leaves the Compress invariant at block 1 (blocks from 2 on settled, order and block-sharing pairs kept), and what remains of `CompressOf` is its final step |
| ControlFlowBlocks.Compress | src/Vilens/Features/ControlFlow.cs:196-212 | the result is `CompressOf`, the backward loop followed by its final step; same block count and instruction order; every block from index 2 on is empty or not small and equals the block it started as followed by the small blocks merged into it; blocks 0 and 1 as the final step decides; two instructions that shared a block still do |
| ControlFlowBlocks.RemoveEmpty | src/Vilens/Features/ControlFlow.cs:126 | no empty block remains and no block is added |
| ControlFlowBlocks.RemoveEmptyConcat | src/Vilens/Features/ControlFlow.cs:126 | dropping the empty blocks leaves the instruction order unchanged |
| ControlFlowBlocks.RemoveEmptyKeeps | src/Vilens/Features/ControlFlow.cs:126 | a block survives exactly when it is non-empty |
| ControlFlowBlocks.RemoveEmptyKeepsTogether | src/Vilens/Features/ControlFlow.cs:126 | two instructions that share a block still share one afterwards |
| ControlFlowBlocks.FindBlock | src/Vilens/Features/ControlFlow.cs:178-179 | `FindIndex(b => b.Contains(x))`: the first block holding the instruction, or -1 when none does |
| ControlFlowBlocks.MergeBlocks | src/Vilens/Features/ControlFlow.cs:185-189 | the loop's result is MergeRange: the blocks first+1..last appended to block first and cleared |
| ControlFlowBlocks.MergeRangeAt | src/Vilens/Features/ControlFlow.cs:185-189 | block first holds blocks first..last in order, blocks first+1..last are empty, all other blocks are unchanged |
| ControlFlowBlocks.MergeRangeKeepsConcat | src/Vilens/Features/ControlFlow.cs:185-189 | merging leaves the instruction order unchanged |
| ControlFlowBlocks.FindInMerged | src/Vilens/Features/ControlFlow.cs:185-189 | after merging, an instruction from blocks first..last is found in block first and every other instruction where it was |
| ControlFlowBlocks.StartNop | src/Vilens/Features/ControlFlow.cs:173 | the instruction before TryStart exists exactly when TryStart is in the body at an index of at least 1 |
| ControlFlowBlocks.CombineOneJoins | src/Vilens/Features/ControlFlow.cs:176-189 | when the region's start block does not come after its end block, the handler step succeeds and the Nop before TryStart and HandlerEnd end up in one block |
| ControlFlowBlocks.CombineOneKeepsOrder | src/Vilens/Features/ControlFlow.cs:181-189 | a handler step never reverses the block order of two found instructions |
| ControlFlowBlocks.CombineAll | src/Vilens/Features/ControlFlow.cs:171-190 | the handlers in order keep block count and instruction order; the only failure is an out-of-range index |
| ControlFlowBlocks.CombineAllKeepsTogether | src/Vilens/Features/ControlFlow.cs:171-190 | instructions that share a block still share one after all handlers |
| ControlFlowBlocks.CombineAllJoins | src/Vilens/Features/ControlFlow.cs:171-190 | every handler whose region spans forwards at its turn ends with its start Nop and its HandlerEnd in one block |
| ControlFlowBlocks.CombineExceptionBlocks | src/Vilens/Features/ControlFlow.cs:167-191 | the loop equals CombineAll, and on success each well-ordered region lies in a single block |
| ControlFlowBlocks.OrderedSpans | src/Vilens/Features/ControlFlow.cs:173-180 | when the Nop before TryStart comes no later than HandlerEnd in the body, its block comes no later than HandlerEnd's |
| ControlFlowBlocks.PositionOrder | src/Vilens/Features/ControlFlow.cs:178-180 | instructions in body order lie in blocks of non-decreasing index |
| ControlFlowBlocks.NonEmptyKeepsRegions | src/Vilens/Features/ControlFlow.cs:122-127 | after combining, compressing and dropping empty blocks the blocks are non-empty, cover the body, and each well-ordered region lies in one block |
| ControlFlowBlocks.CombineAllStarts | src/Vilens/Features/ControlFlow.cs:171-190 | merging the blocks of exception regions only removes block starts: a block that starts at a height-0 instruction still does |
| ControlFlowBlocks.CompressStarts | src/Vilens/Features/ControlFlow.cs:196-212 | merging small blocks only removes block starts |
| ControlFlowBlocks.CompressKeepsTogether | src/Vilens/Features/ControlFlow.cs:196-212 | the merge of small blocks never separates two instructions that shared a block |
| ControlFlowBlocks.RemoveEmptyStarts | src/Vilens/Features/ControlFlow.cs:126 | dropping empty blocks only removes block starts |
| ControlFlowBlocks.BlocksOfCuts | src/Vilens/Features/ControlFlow.cs:103-127 | under the least stack heights every block of the result starts at an instruction of height 0, and instructions that the split at zero heights put in one block still share one, so blocks are cut only where the split cut them |
| ControlFlowBlocks.LeastBlocks | src/Vilens/Features/ControlFlow.cs:103-127 | the blocks made under the least stack heights are the blocks made under every least solution, since there is only one |
| ControlFlowBlocks.GetBlocks | src/Vilens/Features/ControlFlow.cs:99-128 | fails with a stack failure exactly when the body has no stack-height solution, and otherwise only with ArgumentOutOfRange; the result is `BlocksOf` under the least stack heights (split at zero heights, regions merged, small blocks merged, empty blocks removed); on success every block is non-empty and starts at an instruction of height 0, split blocks are never cut apart, the blocks lay out the body, and every well-ordered exception region is in one block |
| ControlFlowBlocks.InsertAt | src/Vilens/Features/ControlFlow.cs:139 | `Insert(k, x)`: x at index k, everything before unchanged, everything after moved up by one |
| ControlFlowBlocks.InsertShift | src/Vilens/Features/ControlFlow.cs:139 | inserting a fresh instruction keeps identities distinct and moves each found instruction's index past the insertion point up by one |
| ControlFlowBlocks.InsertNopPads | src/Vilens/Features/ControlFlow.cs:135-140 | inserting a Nop at the index of TryStart puts a Nop right before TryStart |
| ControlFlowBlocks.InsertKeepsOlder | src/Vilens/Features/ControlFlow.cs:139 | an inserted padding Nop leaves the original instructions and their order unchanged |
| ControlFlowBlocks.PadTryStart | src/Vilens/Features/ControlFlow.cs:135-140 | afterwards a Nop precedes TryStart, inserting one only when the instruction before is not already a Nop |
| ControlFlowBlocks.PadHandlerEnd | src/Vilens/Features/ControlFlow.cs:147-158 | a HandlerEnd that starts another handler is left as it is; otherwise a fresh Nop is inserted before it and becomes the handler's end |
| ControlFlowBlocks.PadOneEnd | src/Vilens/Features/ControlFlow.cs:141-158 | the HandlerEnd half of one iteration: a Nop end is skipped, a missing end is NotSupported, and otherwise the end is shared or padded, exactly as `PadEnd` says; the padding invariant advances to the next handler, and a failure means the body's boundaries are not all known |
| ControlFlowBlocks.PadOne | src/Vilens/Features/ControlFlow.cs:132-159 | one iteration of the loop over the handlers: a TryStart not in the body is ArgumentOutOfRange, and otherwise the TryStart is padded and then the end, exactly as `PadStep` says; the padding invariant advances to the next handler, and a failure means the body's boundaries are not all known |
| ControlFlowBlocks.AddPadding | src/Vilens/Features/ControlFlow.cs:130-165 | the result is `Padding`, the handlers padded one after another with the first exception stopping the loop; succeeds exactly when every TryStart is in the body and every HandlerEnd is in it or is a Nop outside it; the failures are ArgumentOutOfRange and NotSupported; on success the original instructions keep their order, only fresh Nops are added, each TryStart has a Nop before it and each handler end is a Nop, a shared handler start, or a Nop outside the body |
| ControlFlow.Dispatcher | src/Vilens/Features/ControlFlow.cs:264-281 | the dispatcher is eight instructions with consecutive fresh identities, the first of which every tail jumps to |
| ControlFlow.DispatcherJumps | src/Vilens/Features/ControlFlow.cs:266-276 | with state s and x on the stack, the dispatcher stores (s + x) mod p and jumps to table entry (s + x) mod p |
| ControlFlow.StubJumps | src/Vilens/Features/ControlFlow.cs:388-393 | a jump stub stores its constant in the state variable and jumps to its target |
| ControlFlow.PrologueEnters | src/Vilens/Features/ControlFlow.cs:312-318 | from any state, the prologue and dispatcher jump to table entry (startState + x0) mod p |
| ControlFlow.LeavingBlockReachesSuccessor | src/Vilens/Features/ControlFlow.cs:251-276 | a block at walk step k that hands over a value congruent to inc reaches the block that was at index k + 1 before reordering, with the state at walk step k + 1 |
| ControlFlow.PrologueReachesFirstBlock | src/Vilens/Features/ControlFlow.cs:246-258 | the method entry reaches the original first block, with the state at walk step 0 |
| ControlFlow.StubThenSuccessor | src/Vilens/Features/ControlFlow.cs:383-393 | a stub for the block at walk step k jumps to its target with a state congruent to that step, and the dispatcher then reaches the successor of that block |
| ControlFlow.PadToPrime | src/Vilens/Features/ControlFlow.cs:232-241 | empty blocks are appended until there are p; the existing blocks and the instruction order are unchanged |
| ControlFlow.FirstIds | src/Vilens/Features/ControlFlow.cs:261 | the first instructions of the non-empty blocks, and none when every block is empty |
| ControlFlow.DispatchTable | src/Vilens/Features/ControlFlow.cs:261-262 | one entry per block: its first instruction, or for an empty block the first instruction of another block, taken round-robin |
| ControlFlow.CreateJumpBlock | src/Vilens/Features/ControlFlow.cs:375-394 | `Single` fails unless exactly one block holds the target; a jump within the current block needs no stub; otherwise a fresh three-instruction stub storing a value congruent to the target block's index and jumping to the target |
| ControlFlow.RedirectTarget | src/Vilens/Features/ControlFlow.cs:356-367 | a branch target in another block is replaced by a stub that routes to it; one in the same block is kept |
| ControlFlow.RedirectSwitch | src/Vilens/Features/ControlFlow.cs:340-355 | every entry of a switch table is routed the same way, entry by entry |
| ControlFlow.RedirectInstr | src/Vilens/Features/ControlFlow.cs:338-368 | a branch instruction keeps its identity and opcode and has its operand routed; other instructions are unchanged; an operand of the wrong kind is an invalid cast |
| ControlFlow.RedirectBlock | src/Vilens/Features/ControlFlow.cs:336-370 | each instruction of a block is redirected in order and the stubs collected so far are kept |
| ControlFlow.CreateJumpRedirects | src/Vilens/Features/ControlFlow.cs:333-373 | every block is redirected, the stubs have consecutive fresh identities, three per stub |
| ControlFlow.RoutedJumpSetsState | src/Vilens/Features/ControlFlow.cs:383-393 | a routed jump to another block runs a stub that reaches the target with the state congruent to the target block's index |
| ControlFlow.AddTail | src/Vilens/Features/ControlFlow.cs:290-307 | a block that does not end in an unconditional transfer gets a load of a value congruent to inc (replacing a final Nop) and a jump to the dispatcher; other blocks are unchanged |
| ControlFlow.AddTails | src/Vilens/Features/ControlFlow.cs:288-308 | every block gets its tail, with fresh identities |
| ControlFlow.Shuffle | src/Vilens/Features/ControlFlow.cs:321-322 | the array of blocks is permuted in place |
| ControlFlow.PlanWalk | src/Vilens/Features/ControlFlow.cs:225-258 | p is the smallest prime at least the block count, startState is drawn in [100000000, int.MaxValue), inc in [2, p-1), and the padded blocks sit in walk order |
| ControlFlow.ReOrderBlocks | src/Vilens/Features/ControlFlow.cs:258 | the block at walk step k is moved to index (startState + k·inc) mod p |
| ControlFlow.RewriteBlocks | src/Vilens/Features/ControlFlow.cs:285-308 | the stubs are created before the tails, and every block is redirected and then tailed |
| ControlFlow.EmitBody | src/Vilens/Features/ControlFlow.cs:310-327 | the body is prologue, dispatcher and the shuffled blocks and stubs, and from any state it first reaches the original first block |
| ControlFlow.BuildBody | src/Vilens/Features/ControlFlow.cs:260-327 | the dispatch table, stubs, tails and emission in the source's order, and the entry reaches the original first block |
| ControlFlow.Obfuscate | src/Vilens/Features/ControlFlow.cs:223-331 | the walk parameters are chosen as the source draws them, the body enters at the first block with the state at walk step 0, and every instruction of the blocks appears exactly once in the new body |
| ControlFlow.EveryInstructionOnce | src/Vilens/Features/ControlFlow.cs:310-327 | every original instruction occurs exactly once in the flattened body, whatever the shuffle |
| ControlFlow.WithEnds | src/Vilens/Features/ControlFlow.cs:157 | each handler's end is replaced by the padding Nop chosen for it |
| ControlFlow.FlattenMethod | src/Vilens/Features/ControlFlow.cs:43-89 | a handler without an end skips the method; the padding is `Padding` and its failure is the result; the padded body with no stack-height solution is a StackFailure; under its least stack heights a `BlocksOf` failure is the result, fewer than five blocks give PaddedOnly with the padded body and handlers, more than 65537 are NotSupported, and otherwise a success is Flattened with exactly those blocks and handlers and a failure is a StackFailure or an Obfuscate error; when flattened the method is flattened, every original instruction appears once, the entry reaches the first block, and MaxStack is the maximum of the least stack-height solution of the new body |
| StackHelper.After | src/Vilens/Helpers/StackHelper.cs:98-109 | the height after an instruction: 0 for one that clears the stack, none when it pops more than the stack holds, otherwise height - pops + pushes modulo 2^16 (the `ushort` arithmetic) |
| StackHelper.Resolve | src/Vilens/Helpers/StackHelper.cs:70-76 | every branch target resolves to its index in the body, and resolution fails exactly when one is missing |
| StackHelper.LeastSolutionUnique | src/Vilens/Helpers/StackHelper.cs:83-166 | the stack heights the exploration computes are determined by the body and handlers: two least solutions are equal |
| StackHelper.MaxHeight | src/Vilens/Helpers/StackHelper.cs:95-96 | the largest recorded height, which is one of the recorded heights (0 when there is none) |
| StackHelper.SolutionsUnstuck | src/Vilens/Helpers/StackHelper.cs:105-106 | no solution reaches an instruction with fewer values than it pops |
| StackHelper.StackHelper.constructor | src/Vilens/Helpers/StackHelper.cs:28-34 | one unknown height per instruction and a maximum of 0 |
| StackHelper.StackHelper.Explore | src/Vilens/Helpers/StackHelper.cs:83-166 | heights only get recorded, never changed; a recorded height that disagrees, a negative stack, a bad return height, a missing target or an unknown flow mean no solution exists; on success everything reachable from the index is recorded and consistent |
| StackHelper.StackHelper.Visit | src/Vilens/Helpers/StackHelper.cs:93-109 | records the height at an unvisited instruction and computes the height after it |
| StackHelper.StackHelper.Successor | src/Vilens/Helpers/StackHelper.cs:110-165 | continues by flow control: next instruction, stop at jmp, return with height at most 1, throw, branch target, or the targets of a conditional branch or switch followed by the fall-through |
| StackHelper.StackHelper.ExploreTable | src/Vilens/Helpers/StackHelper.cs:145-153 | every switch target is explored with the height after the switch before the fall-through |
| StackHelper.StackHelper.ExploreTarget | src/Vilens/Helpers/StackHelper.cs:154-160 | the branch target of a conditional branch is explored before the fall-through |
| StackHelper.StackHelper.ExploreHandler | src/Vilens/Helpers/StackHelper.cs:54-65 | a filter starts at height 1; a handler at 1 for catch and filter handlers and 0 otherwise |
| StackHelper.StackHelper.ExploreAll | src/Vilens/Helpers/StackHelper.cs:50-68 | succeeds exactly when the body has a stack-height solution, and then the recorded heights are the least one |
| StackHelper.GetStackHeights | src/Vilens/Helpers/StackHelper.cs:43-48 | the least stack-height solution, failing exactly when none exists |
| StackHelper.GetMaxStack | src/Vilens/Helpers/StackHelper.cs:36-41 | the maximum of the least stack-height solution, failing exactly when none exists |
| StackHelper.RegressionHeights | src/Vilens.Tests/RegressionTest.cs:30-51 | for br 2; ret; ldstr; br 1 the heights [0, 1, 0, 1] are the least solution and the maximum is 1 |
| StackHelper.RegressionForced | src/Vilens.Tests/RegressionTest.cs:30-51 | every solution of that body has exactly those heights |
| DnLibExtensions.UnconditionalMeansNoFallThrough | src/Vilens/Helpers/DnLibExtensions.cs:35-38 | an instruction whose flow is Branch, Return or Throw never falls through to the next one, and has at most its own branch target as successor; any other flow does fall through |
| DnLibExtensions.BranchFlowIsBranch | src/Vilens/Helpers/DnLibExtensions.cs:40-43 | an instruction with branch or conditional-branch flow has an instruction or instruction-list operand |
| DnLibExtensions.Replace | src/Vilens/Helpers/DnLibExtensions.cs:45-51 | the instruction keeps its identity and takes the other's opcode, operand, offset and sequence point |
| DnLibExtensions.ReplaceKeepsReferences | src/Vilens/Helpers/DnLibExtensions.cs:45-51 | replacing in place leaves every reference by identity resolving to the same index |
| DnLibExtensions.MutableList.Append | src/Vilens/Helpers/DnLibExtensions.cs:15-22 | the item is added at the end and returned |
| DnLibExtensions.MutableList.AddRange | src/Vilens/Helpers/DnLibExtensions.cs:24-33 | the items are added at the end in order |
| DnLibExtensions.WasTrimmedCases | src/Vilens/Helpers/DnLibExtensions.cs:203-213 | a member was not trimmed exactly when it has a module and is nested, or is a top-level type the module still lists |
| DnLibExtensions.DecodeCompressed | src/Vilens/Helpers/DnLibExtensions.cs:167 | a compressed unsigned integer takes 1, 2 or 4 bytes, within the input, and is below 2^29 |
| DnLibExtensions.CompressedRoundTrip | src/Vilens/Helpers/DnLibExtensions.cs:167 | decoding an encoded length gives the length back and consumes exactly its encoding |
| DnLibExtensions.Utf16RoundTrip | src/Vilens/Helpers/DnLibExtensions.cs:174 | reading n UTF-16 code units from their little-endian bytes gives them back |
| DnLibExtensions.EntryAt | src/Vilens/Helpers/DnLibExtensions.cs:167-174 | an entry whose length runs past the heap stops the walk; otherwise it yields length/2 code units and continues after them |
| DnLibExtensions.ReadEntry | src/Vilens/Helpers/DnLibExtensions.cs:165-184 | one iteration: the entry at the position, and the walk from there is that string (unless rejected) followed by the walk from after it |
| DnLibExtensions.ReadAll | src/Vilens/Helpers/DnLibExtensions.cs:162-186 | the loop yields exactly the walk of the heap from offset 0, skipping strings whose conversion fails |
| DnLibExtensions.ToHashSet | src/Vilens/Helpers/DnLibExtensions.cs:160 | the set holds exactly the strings of the walk |
| DnLibExtensions.WalkSkipsRejected | src/Vilens/Helpers/DnLibExtensions.cs:172-183 | a string whose conversion fails is never yielded |
| DnLibExtensions.FlagStep | src/Vilens/Helpers/DnLibExtensions.cs:165-170 | the terminal flag byte of an entry is read as a length of 0 or 1, which yields an empty string, except a final 1 which cannot be read |
| DnLibExtensions.BlobLayout | src/Vilens/Helpers/DnLibExtensions.cs:167-174 | a string blob is its compressed length 2n+1, the n code units and the flag byte |
| DnLibExtensions.UserStringsRecovered | src/Vilens/Helpers/DnLibExtensions.cs:160-186 | for a heap laid out as blobs of strings, the set read back holds exactly the strings that convert and possibly the empty string |
| FeatureExtensions.AllIsEveryFeature | src/Vilens/Data/VilensFeature.cs:10-18 | All is the union of the seven single features |
| FeatureExtensions.HasFeaturesIsContainment | src/Vilens/Data/FeatureExtensions.cs:6-9 | `(granted & features) == features` holds exactly when every requested feature is granted |
| FeatureExtensions.FirstSeparator | src/Vilens/Data/FeatureExtensions.cs:13 | the index of the first ';' or ',' (or the length), with no separator before it |
| FeatureExtensions.Split | src/Vilens/Data/FeatureExtensions.cs:13 | `Split([';', ','], RemoveEmptyEntries)`: every token is non-empty and holds no separator |
| FeatureExtensions.SplitKeepsText | src/Vilens/Data/FeatureExtensions.cs:13 | the tokens laid end to end are the input with its separators removed |
| FeatureExtensions.SplitChars | src/Vilens/Data/FeatureExtensions.cs:13 | every character of a token comes from the input |
| FeatureExtensions.TrimMeaning | src/Vilens/Data/FeatureExtensions.cs:17 | `Trim()` is a slice of the input with only white space cut off either side, which starts and ends with a non-white-space character, and is empty exactly when the input is all white space |
| FeatureExtensions.TrimUntouched | src/Vilens/Data/FeatureExtensions.cs:17 | a token without white space at either end is left as it is |
| FeatureExtensions.Named | src/Vilens/Data/VilensFeature.cs:8-19 | a case-insensitive enum member name maps to a subset of All |
| FeatureExtensions.ParseNumber | src/Vilens/Data/FeatureExtensions.cs:17 | `Enum.TryParse` takes a token as a number only when it starts with a digit or a sign |
| FeatureExtensions.ParseOne | src/Vilens/Data/FeatureExtensions.cs:15-25 | a token that does not trim to an enum name or number fails with that token; a blank token always fails |
| FeatureExtensions.OrAllMembers | src/Vilens/Data/FeatureExtensions.cs:13 | `a \| b` over the tokens holds exactly the features of some token |
| FeatureExtensions.AggregateOr | src/Vilens/Data/FeatureExtensions.cs:13 | `Aggregate` fails exactly on an empty sequence |
| FeatureExtensions.AggregateIsUnion | src/Vilens/Data/FeatureExtensions.cs:13 | on a non-empty sequence it is the union of the elements |
| FeatureExtensions.ParseEachMeaning | src/Vilens/Data/FeatureExtensions.cs:13-25 | parsing every token succeeds exactly when each token parses, and then yields each token's value in order |
| FeatureExtensions.ParseEachError | src/Vilens/Data/FeatureExtensions.cs:23 | a failure names a token that does not parse |
| FeatureExtensions.ParseAsWrittenMeaning | src/Vilens/Data/FeatureExtensions.cs:11-26 | the parser as written succeeds exactly when there is at least one token and all tokens parse, and then yields the union of their values |
| FeatureExtensions.BlankFailsAsWritten | src/Vilens/Data/FeatureExtensions.cs:13 | as written, a value made only of separators and white space fails |
| FeatureExtensions.TestedBlanksFailAsWritten | src/Vilens.Tests/VilensFeatureTests.cs:9-10 | as written, the two blank test inputs fail where the test expects None |
| FeatureExtensions.NonBlank | src/Vilens.Tests/VilensFeatureTests.cs:9-10 | keeps exactly the tokens that are not all white space |
| FeatureExtensions.ParseExtendsAsWritten | src/Vilens/Data/FeatureExtensions.cs:11-26 | wherever the parser as written succeeds, the corrected parser gives the same value |
| FeatureExtensions.BlankParsesAsNone | src/Vilens.Tests/VilensFeatureTests.cs:9-10 | the corrected parser maps a blank value to None |
| FeatureExtensions.TestedBlanksParseAsNone | src/Vilens.Tests/VilensFeatureTests.cs:9-10 | the corrected parser passes the two blank test cases |
| FeatureExtensions.ParseName | src/Vilens/Data/FeatureExtensions.cs:15-20 | a single feature name parses to its value |
| FeatureExtensions.ParseNameAsWritten | src/Vilens/Data/FeatureExtensions.cs:15-20 | the parser as written also parses a single feature name to its value |
| FeatureExtensions.ParseNamePair | src/Vilens/Data/FeatureExtensions.cs:13 | "a;b" parses to the union of both names' values |
| FeatureExtensions.ParseNone | src/Vilens.Tests/VilensFeatureTests.cs:11 | "none" parses to None |
| FeatureExtensions.ParseAll | src/Vilens.Tests/VilensFeatureTests.cs:12 | "All" parses to All |
| FeatureExtensions.ParseRenaming | src/Vilens.Tests/VilensFeatureTests.cs:13 | "renaming" parses to Renaming |
| FeatureExtensions.ParseRenamingAndControlFlow | src/Vilens.Tests/VilensFeatureTests.cs:14 | "Renaming;controlFlow" parses to Renaming \| ControlFlow |
| FeatureMap.ParseAttribute | src/Vilens/Data/FeatureMap.cs:154-181 | the attribute is a fresh ObfuscationAttribute with each named argument applied in order |
| FeatureMap.ExcludeIsLastArgument | src/Vilens/Data/FeatureMap.cs:159-179 | Exclude keeps its default unless set, and the last Exclude argument wins |
| FeatureMap.FeatureFlags | src/Vilens/Data/FeatureMap.cs:41-44 | no Feature means All; otherwise the Feature string goes through the parser as written |
| FeatureMap.CombineAttr | src/Vilens/Data/FeatureMap.cs:114-133 | no attribute keeps the parent's features; an excluding attribute keeps the parent's features minus its own, another adds its own; an unparsable Feature fails |
| FeatureMap.CombineFoldAppend | src/Vilens/Data/FeatureMap.cs:101-112 | folding over a + b is folding over a and then over b from its result |
| FeatureMap.InheritedIsFilteredFold | src/Vilens/Data/FeatureMap.cs:101-112 | folding with useApplyToMembers is folding over only the attributes with ApplyToMembers |
| FeatureMap.SelfIsInheritedWhenAllApply | src/Vilens/Data/FeatureMap.cs:66-67 | when every attribute applies to members, a type's own and inherited features agree |
| FeatureMap.CombineFoldDirection | src/Vilens/Data/FeatureMap.cs:122-131 | only excluding attributes never add a feature; only including ones never remove one |
| FeatureMap.CombineFoldFails | src/Vilens/Data/FeatureMap.cs:101-112 | the fold fails exactly when some attribute that applies has an unparsable Feature |
| FeatureMap.ParseAllLowerCase | src/Vilens/Data/FeatureExtensions.cs:17 | the case-insensitive parse takes "all" as All |
| FeatureMap.TestAttributes | Tests/Dummies/ClassLibrary1/ExcludedClass.cs:9-28 | [Obfuscation()] and [Obfuscation(Exclude = true)] are the defaults; Exclude = false differs only there; both name every feature |
| FeatureMap.EmptyAttributeTurnsEverythingOff | Tests/Dummies/ClassLibrary1/ExcludedClass.cs:17-18 | [Obfuscation()] on a member turns every feature off |
| FeatureMap.ExcludedClassMembers | Tests/Dummies/ClassLibrary1/ExcludedClass.cs:7-30 | under All, members with Exclude = true or [Obfuscation()] get nothing; Exclude = false and no attribute keep All |
| FeatureMap.ExcludedClass2Members | Tests/Dummies/ClassLibrary1/ExcludedClass.cs:32-56 | the class's Exclude = true empties what its members inherit; only Exclude = false turns everything back on |
| FeatureMap.ExcludeOnlyTypesStayWithinModule | src/Vilens/Data/FeatureMap.cs:51-70 | with only excluding attributes below the module, a type's own and inherited features lie within the module's |
| FeatureMap.ExcludeOnlyMembersStayWithinModule | src/Vilens/Data/FeatureMap.cs:72-80 | with only excluding attributes below the module, a member's features lie within the module's |
| FeatureMap.QueueMeaning | src/Vilens/Data/FeatureMap.cs:145-148 | queued removals are kept, and an attribute is queued exactly when it strips after obfuscation; the first definition queued for it wins |
| FeatureMap.WithoutMeaning | src/Vilens/Data/FeatureMap.cs:31-36 | removing queued attributes keeps exactly the others |
| FeatureMap.RemoveFirstFinds | src/Vilens/Data/FeatureMap.cs:33-34 | `CustomAttributes.Remove` reports success exactly when the attribute is present |
| FeatureMap.StripOne | src/Vilens/Data/FeatureMap.cs:31-36 | removing one queued attribute from its definition succeeds and updates only that definition |
| FeatureMap.FeatureMap.constructor | src/Vilens/Data/FeatureMap.cs:20-25 | the map is built over the module with empty caches; the module's features are the defaults combined with the assembly's and then the module's attributes, an unparsable flag string being stored as the error every later query reports; the assembly's strip-after-obfuscation attributes are queued, and the module's too when the assembly's parse |
| FeatureMap.QueueQueues | src/Vilens/Data/FeatureMap.cs:145-148 | queueing a definition's attributes keeps earlier entries and leaves every strip-after-obfuscation attribute of it queued |
| FeatureMap.FeatureMap.GetObfuscationAttributes | src/Vilens/Data/FeatureMap.cs:135-152 | the obfuscation attributes of the definition in order; strip-after-obfuscation ones are queued for removal and the read count grows by their number |
| FeatureMap.FeatureMap.Combine | src/Vilens/Data/FeatureMap.cs:101-112 | the fold over the definition's attributes, with the same queueing and counting |
| FeatureMap.FeatureMap.GetFeaturesModule | src/Vilens/Data/FeatureMap.cs:46-49 | the module's features as computed at construction |
| FeatureMap.FeatureMap.GetFeaturesType | src/Vilens/Data/FeatureMap.cs:51-70 | a type's own and inherited features: its attributes folded over the features its declaring type (or the module) passes on; cached once computed; queued removals keep their owners, and on success the strip-after-obfuscation attributes of the type, its declaring types, the module and the assembly are queued; nothing but strip-after-obfuscation ObfuscationAttributes, each on its recorded owner, is ever queued (`StripAfterObfuscation` test at line 145) |
| FeatureMap.FeatureMap.GetFeaturesMember | src/Vilens/Data/FeatureMap.cs:72-80 | a member's attributes folded over its declaring type's inherited features; cached once computed; queued removals keep their owners, and on success the strip-after-obfuscation attributes of the member and of every definition it inherits from are queued; nothing but strip-after-obfuscation ObfuscationAttributes, each on its recorded owner, is ever queued |
| FeatureMap.FeatureMap.GetFeatures | src/Vilens/Data/FeatureMap.cs:82-99 | equals the pure inheritance fold for the assembly, module, type or member, whatever the caches hold; queued removals keep their owners, and on success the strip-after-obfuscation attributes along the definition's inheritance chain are queued; nothing but strip-after-obfuscation ObfuscationAttributes, each on its recorded owner, is ever queued |
| FeatureMap.FeatureMap.Cleanup | src/Vilens/Data/FeatureMap.cs:29-39 | every queued attribute, which by the class invariant is a strip-after-obfuscation ObfuscationAttribute, is removed from the definition it was found on and nothing else changes |
| PropertyInline.WithoutNopsMembers | src/Vilens/Features/PropertyInline.cs:154 | the accessor's instructions without Nops: exactly its non-Nop instructions, never more |
| PropertyInline.TryParseAccessorMeaning | src/Vilens/Features/PropertyInline.cs:146-230 | an accessor parses to field f exactly when it has a body, is not an overridable virtual, and its non-Nop instructions are the trivial getter or setter shape for its staticness around f; the shape has 2, 3, 3 or 4 instructions |
| PropertyInline.TryGetAutoPropertyMeaning | src/Vilens/Features/PropertyInline.cs:93-144 | a property is an auto-property with backing field f exactly when it has a getter, the setter (if any) has the same staticness, both accessors are trivial over f, and f is private and declared in the property's type |
| PropertyInline.FieldIsDefined | src/Vilens/Features/PropertyInline.cs:146-230 | a trivial accessor's field is a field of the module |
| PropertyInline.ReplacementsSound | src/Vilens/Features/PropertyInline.cs:67-91 | every table entry comes from an auto-property: its getter maps to ldfld/ldsfld of the backing field, its setter to stfld/stsfld |
| PropertyInline.ReplacementsComplete | src/Vilens/Features/PropertyInline.cs:67-91 | every auto-property's getter, and its setter if it has one, is in the table |
| PropertyInline.GetReplacements | src/Vilens/Features/PropertyInline.cs:67-91 | the loop builds the table property by property, failing as `Dictionary.Add` does on a repeated accessor |
| PropertyInline.ErrorIsDuplicate | src/Vilens/Features/PropertyInline.cs:77-82 | the only failure is a duplicate key |
| PropertyInline.ErrorPersists | src/Vilens/Features/PropertyInline.cs:70-89 | once a duplicate key fails, the whole table fails |
| PropertyInline.TableFieldsDefined | src/Vilens/Features/PropertyInline.cs:67-91 | every field in the table is a field of the module |
| PropertyInline.Rewrite | src/Vilens/Features/PropertyInline.cs:37-60 | a call or callvirt to a tabled accessor whose field belongs to the caller's type becomes the field access; any other instruction is unchanged, and identity, offset and sequence point are kept |
| PropertyInline.InlineCalls | src/Vilens/Features/PropertyInline.cs:36-61 | every instruction of the method body is rewritten in place |
| StringHiding.IsAscii | src/Vilens/Features/StringHiding.cs:259-270 | returns true exactly when every UTF-16 unit of the string is at most 127 |
| StringHiding.TerminatedAscii | src/Vilens/Features/StringHiding.cs:235-241 | appending the NUL terminator keeps an ASCII string ASCII, so the ASCII encoder still applies |
| StringHiding.EntryBytes | src/Vilens/Features/StringHiding.cs:235-242 | the bytes written for a string take one byte per unit for ASCII and two otherwise, counting the NUL added when the string holds none |
| StringHiding.EntryLength | src/Vilens/Features/StringHiding.cs:246-252 | the recorded length is that byte count; it is positive, and it is even for a UTF-16 entry, which the debug assertion at line 186 relies on |
| StringHiding.PackedData | src/Vilens/Features/StringHiding.cs:229-257 | a successful encoding's buffer is the concatenation of the entries' bytes, in input order |
| StringHiding.PackedKeys | src/Vilens/Features/StringHiding.cs:229-257 | a successful encoding has one record per input string and only those, and its inputs were distinct |
| StringHiding.PackedPlaced | src/Vilens/Features/StringHiding.cs:243-253 | each record's offset is the stream position before its bytes were written |
| StringHiding.PackedOkIff | src/Vilens/Features/StringHiding.cs:233-253 | encoding succeeds exactly when the strings are distinct (`values.Add` throws on a duplicate) and the whole buffer, last entry included, fits within the `MemoryStream`'s maximum length `Array.MaxLength` (`stream.Write` throws once the buffer would grow past it) |
| StringHiding.PackedOffsetsFit | src/Vilens/Features/StringHiding.cs:243-244 | on success the buffer is at most `Array.MaxLength` bytes, below int.MaxValue, so every recorded offset and length fits in an int and the `checked` cast of the stream position never throws |
| StringHiding.PackedDistinctError | src/Vilens/Features/StringHiding.cs:244 | with distinct strings the only failure is a write past the stream's maximum length |
| StringHiding.PackedErrorPersists | src/Vilens/Features/StringHiding.cs:233-254 | once a prefix fails, the whole encoding fails with the same error: the loop stops at the first exception |
| StringHiding.Encode | src/Vilens/Features/StringHiding.cs:229-257 | the loop over the strings computes the encoding, its buffer, its records and its error: a write that would grow the stream past `Array.MaxLength` fails before the record is added, and a repeated key fails at `values.Add` |
| StringHiding.PackedEntryAt | src/Vilens/Features/StringHiding.cs:242-252 | the bytes of the k-th string sit in the buffer at its recorded offset, for its recorded length |
| StringHiding.PackedTiles | src/Vilens/Features/StringHiding.cs:243-256 | the entries tile the buffer: the first starts at 0, each next starts where the previous ends, the last ends the buffer |
| StringHiding.DedupMeaning | src/Vilens/Features/StringHiding.cs:69 | `Distinct(StringComparer.Ordinal)` yields distinct strings, exactly those of the input, and leaves an already distinct list unchanged |
| StringHiding.LiteralsComplete | src/Vilens/Features/StringHiding.cs:69 | every string operand in every filtered body is collected |
| StringHiding.LiteralsSound | src/Vilens/Features/StringHiding.cs:69 | every collected string is the operand of some instruction in some body |
| StringHiding.AsciiRoundTrip | src/Vilens/Features/StringHiding.cs:242 | decoding `Encoding.ASCII` bytes of an ASCII string one byte per char gives the string back |
| StringHiding.AsciiZRoundTrip | src/Vilens/Features/StringHiding.cs:180-181 | `new string(sbyte*)` on the bytes of a NUL-free ASCII string followed by NUL reads back the string, whatever follows |
| StringHiding.Utf16RoundTrip | src/Vilens/Features/StringHiding.cs:242 | decoding little-endian UTF-16 bytes gives the units back |
| StringHiding.Utf16ZRoundTrip | src/Vilens/Features/StringHiding.cs:196-197 | `new string(char*)` on a NUL-free string's UTF-16 bytes followed by a NUL unit reads back the string |
| StringHiding.EntryRoundTrip | src/Vilens/Features/StringHiding.cs:169-199 | with the pointer at an entry, the constructor chosen for it, with the length argument passed, rebuilds the string in all four cases (ASCII or UTF-16, with or without NUL) |
| StringHiding.PackedRoundTrip | src/Vilens/Features/StringHiding.cs:169-199 | every packed string reads back from the buffer, as the encoder's output of it (lone surrogates replaced) |
| StringHiding.Sanitized | src/Vilens/Features/StringHiding.cs:242 | replacing lone surrogates keeps the length |
| StringHiding.EntryBytesAsWritten | src/Vilens/Features/StringHiding.cs:242 | the bytes actually written have the same length as the lossless encoding |
| StringHiding.LoneSurrogateAsWritten | src/Vilens/Features/StringHiding.cs:242 | the string U+D800 is written as FD FF 00 00 and decodes to U+FFFD, not to itself |
| StringHiding.SanitizedKeeps | src/Vilens/Features/StringHiding.cs:242 | a string with no lone surrogate is unchanged by the encoder's replacement |
| StringHiding.EntryBytesAgree | src/Vilens/Features/StringHiding.cs:242 | without lone surrogates the bytes written equal the lossless encoding |
| StringHiding.RunAppend | src/Vilens/Features/StringHiding.cs:124-210 | running two instruction lists in turn is running their concatenation, and a failure stops the run |
| StringHiding.DecoderBody | src/Vilens/Features/StringHiding.cs:132-210 | the static constructor's body: the allocation prologue, one segment per entry, the optional free, the return; over 1 MiB without heap allocation it is the NotSupported error |
| StringHiding.EmitDecoder | src/Vilens/Features/StringHiding.cs:132-210 | the emitting loop builds exactly that body or error |
| StringHiding.AssignMeaning | src/Vilens/Features/StringHiding.cs:200 | storing the texts into consecutive fields sets each of those fields to its text and leaves every other field as it was |
| StringHiding.StringOpsRun | src/Vilens/Features/StringHiding.cs:154-201 | the per-string instructions, run from the buffer's start, store the k-th text into the k-th field and leave the pointer at the last entry's offset |
| StringHiding.PrologueRuns | src/Vilens/Features/StringHiding.cs:134-152 | the prologue, either allocation, leaves the buffer's address in `ptr` and an empty stack |
| StringHiding.EpilogueRuns | src/Vilens/Features/StringHiding.cs:203-210 | without heap allocation the epilogue returns; with it, `FreeHGlobal` succeeds only when `ptr` is back at the allocated address, else the run fails (the invalid-handle error noted at line 205) |
| StringHiding.DecoderRuns | src/Vilens/Features/StringHiding.cs:124-210 | the whole constructor ends with every field holding its text, failing exactly when heap memory is freed through a moved pointer |
| StringHiding.FieldTableMeaning | src/Vilens/Features/StringHiding.cs:110-120 | the k-th string gets field `firstField + k`, and only the strings have fields |
| StringHiding.PackedReadsBack | src/Vilens/Features/StringHiding.cs:155-201 | every record of the packing reads back its stored text from the buffer |
| StringHiding.PackedLastOffset | src/Vilens/Features/StringHiding.cs:160-166 | the pointer the loop leaves is at the buffer's start exactly when there was one string |
| StringHiding.HidingOutcomes | src/Vilens/Features/StringHiding.cs:63-227 | Execute does nothing exactly when there is no literal; it never hits a duplicate key; the stream write fails exactly when the whole buffer would be longer than `Array.MaxLength`; it refuses over 1 MiB exactly when stack allocation is used on a larger buffer |
| StringHiding.HideMeaning | src/Vilens/Features/StringHiding.cs:218-222 | an instruction loading a string with a field becomes a load of that field and keeps its identity; every other instruction is unchanged |
| StringHiding.HideLiterals | src/Vilens/Features/StringHiding.cs:216-224 | the replacement loop rewrites each instruction of the body array in place as above |
| StringHiding.HiddenBodyHasNoLiterals | src/Vilens/Features/StringHiding.cs:214-225 | after replacement a body whose strings all have fields holds no string literal |
| StringHiding.HidingReplacesStrings | src/Vilens/Features/StringHiding.cs:214-225 | every string literal of every body has a field and becomes a load of it |
| StringHiding.HidingPreservesStrings | src/Vilens/Features/StringHiding.cs:63-227 | the field that replaces a literal is set by the constructor to the encoder's output of the literal, and to the literal itself when it has no lone surrogate; the constructor runs exactly when stack allocation is used or there is a single string |
| StringHiding.HidingHasFields | src/Vilens/Features/StringHiding.cs:72-76 | when any body holds a literal, Execute produces a decoder |
| StringHiding.HidingRuns | src/Vilens/Features/StringHiding.cs:124-212 | the constructor, when it runs, assigns the stored texts to consecutive fields and nothing else |

## Left out

- Xoshiro.Redraw: the rejection loops in `NextUInt32(max)` and `Next()` give up after `RedrawLimit` (64) redraws and return `None`, where the source loops until a draw is accepted. Their termination is only probabilistic. The same bound applies to `Xoshiro.DrawNonNegative`, `Xoshiro.Xoshiro128.RedrawWhileBelowThreshold`, `Xoshiro.Xoshiro128.NextUInt32Below`, `Xoshiro.Xoshiro128.Next`, `Xoshiro.Xoshiro128.NextBelow` and `Xoshiro.Xoshiro128.NextInRange`, and to every caller in `MathHelper` and `ControlFlow`, which report `None` as `RandomExhausted`.
- Xoshiro.Xoshiro128.constructor: only the `int` seed constructor is modelled. The byte-array seeding used by the ControlFlow feature and the scrambler is not in the source file and is not part of this model, so the method's seed is a parameter.
- BoundedInts: 32-bit words are unbounded integers kept in range by explicit wrap-around, with `checked` conversions as error results. Native pointer width is not modelled.
- MathHelper.CeilSqrt: `Math.Ceiling(Math.Sqrt(n))` in `IsPrime` is the exact integer ceiling square root. Floating-point rounding is not modelled.
- StackHelper: dnlib's `CalculateStackUsage` is not part of this model. Each instruction carries its own push count and pop count (or "clear the stack").
- ControlFlow.FlattenMethod: `Instructions.Optimize` and the `MaxStackCalculator` check that sets `KeepOldMaxStack` are dnlib services and are not part of this model. The new body's `MaxStack` comes from `StackHelper.GetMaxStack`, and its exception is the `StackFailure` error. The debug assertion that this height is at least 2 is not proved.
- ControlFlow.FlattenMethod: methods with more than `MaxBlocks` (65537, a prime) blocks are refused with `NotSupported`, where the source goes on. The bound keeps the padded prime at most 65537, so the state arithmetic `2p < int.MaxValue` used by the dispatcher proofs holds. For larger counts that arithmetic needs a 32-bit overflow analysis the model does not do.
- ControlFlow.FlattenMethod: the `WasTrimmed` filter that removes trimmed methods runs before this per-method step. `DnLibExtensions.WasTrimmed` models the decision, and the caller applies it.
- ControlFlow.EmitBody: a body whose block and stub count exceeds `int.MaxValue` gives `NotSupported`, because an array of that length cannot be passed to the shuffle.
- ControlFlow.Shuffle: `Random.Shuffle` is framework code that is not part of this model. It is Fisher-Yates over the model's Xoshiro128 draws, proved to be a permutation. The exact sequence of draws the framework makes is not claimed.
- ControlFlow: the semantic equivalence of the flattened code with the original needs a CIL interpreter. The model proves the structural properties and dispatch: every instruction kept once, the table and stubs, and each state reaching its block.
- DnLibExtensions.DecodeCompressed: `TryReadCompressedUInt32` and `ReadUtf16String` are dnlib reader code that is not part of this model. They are modelled from section 23.2 of ECMA-335 Partition II (the compressed unsigned integer) and the UTF-16LE layout of section 24.2.4. A lead byte of the form 111xxxxx is rejected as the standard says, whereas dnlib's reader takes it as the 4-byte form, so on such a heap the walk stops where dnlib would read on.
- StringHiding.DecoderBody: the static constructor's closing `body.Instructions.Optimize()` (short-branch and macro rewriting by dnlib) is not part of this model; the body is stated before that rewriting.
- StringHiding.Packed: the `MemoryStream` is reduced to its length limit, `Array.MaxLength` (0x7FFFFFC7 bytes); a write failing earlier because the process runs out of memory is not modelled, and neither is the stream's capacity doubling, which never exceeds that limit.
- StringHiding.DecoderBody: Deflate compression (`Compress`, `Decompress`) is a library stream. The inflating copy fills the allocated memory with the packed buffer, and the compressed length is not modelled.
- StringHiding.Hiding: the `TypeDef`, `FieldDef` and metadata objects are not modelled. The new fields are natural numbers numbered from a parameter. `NamingHelper` names them in the source.
- PropertyInline.TryParseAccessorMeaning: `TryParseAccessor` calls `OptimizeMacros` on the accessor's body (src/Vilens/Features/PropertyInline.cs:153), a dnlib service that is not part of this model. The accessor's body is taken after it has run, and the rewriting of macro opcodes that the call leaves behind in accessor bodies is not modelled.
- FeatureExtensions.Named: case-insensitive name matching folds ASCII letters only. `StringComparison.OrdinalIgnoreCase` also folds non-ASCII letters, but no feature name contains one, so only inputs with non-ASCII letters that fold onto ASCII could differ.
- FeatureMap.FeatureMap: the `ConcurrentDictionary` caches are maps filled on demand, and `GetFeatures` is proved equal to the pure inheritance fold. Attributes are records with an identity, and `Cleanup` removes the recorded ones from their owners' lists.
- VisibilityExtensions.GetVisibility: the source computes each member's visibility once, when the module's data is loaded (src/Vilens/Data/Database.VilensData.cs:18), and does not recompute it after renaming or other changes. The model computes visibility on demand from the member as given.
- NamingHelper.Rename: `IsNameInUse` and `IsTypeNameInUse` are lookups in a finite set of used names, which is a parameter.
- Dictionaries are enumerated in insertion order, which is what .NET's `Dictionary` does when nothing has been removed.
- Concurrency (`Parallel.ForEach`, `Interlocked` counters), logging, cancellation, module load and save, and the command line are not modelled. Each method is processed one at a time.
- The Trimming, Renaming, AttributeCleaning, Corruption and DisOptimize features are traversals of dnlib's metadata graph, or an empty stub. They are not part of this model.

## Findings

| source | as written | input that shows it | evidently intended | confidence | as-written member | corrected member |
|---|---|---|---|---|---|---|
| src/Vilens/Data/FeatureExtensions.cs:13 | `Parse` aggregates the parsed tokens with no seed, and trims each token only after splitting | `""` leaves no token and `Aggregate` throws; `"  ,;\n \r"` leaves blank tokens that trim to `""` and fail to parse (`VilensFeatureTests.cs` expects `None` for both) | blank input and empty tokens parse as no features | high, not executed | FeatureExtensions.BlankFailsAsWritten | FeatureExtensions.BlankParsesAsNone |
| src/Vilens/Features/StringHiding.cs:242 | `Encoding.Unicode.GetBytes` replaces a lone surrogate with U+FFFD | the one-unit string U+D800 | every hidden string reads back unchanged | medium, not executed | StringHiding.LoneSurrogateAsWritten | StringHiding.EntryRoundTrip |
| src/Vilens/Helpers/MathHelper.cs:113-127 | `FindCongruent` draws from `[p, int.MaxValue - i % p)` and rounds down to a multiple of p | `p = int.MaxValue`, `i % p == 0`: the result is `int.MaxValue` | a result below `int.MaxValue`, as its documentation says | medium, not executed | MathHelper.FindCongruentAtMaxValue | MathHelper.PickCongruentCorrected |

The model follows the source where it is used. `FeatureMap.FeatureFlags` parses with `FeatureExtensions.ParseAsWritten`, as `FeatureMap.cs` does. `StringHiding.Packed` writes `StringHiding.EntryBytesAsWritten`, so a hidden string reads back as `StringHiding.Sanitized` of itself, which is the string itself when it has no lone surrogate (`StringHiding.HidingPreservesStrings`). The model's flattening calls `FindCongruent` only with primes up to 65537, where the as-written picker meets its documented bound (`MathHelper.PickCongruentSound`).
