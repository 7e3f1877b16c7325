# A verified model of Centrallix's stateful core

Centrallix's support library and expression engine keep their state in shared structures that are changed in
place. This project models five groups of that code in Dafny and proves what they keep over whole runs.
The five groups share no state and are independent of each other; only `Options.dfy` and `Ints.dfy`, the source's
32-bit integers, are common to them.

**Shared-memory allocator** (`SmChain`, `SmRuns`, `SmLists`, `SmHeaders`, `SmView`, `SmRegion`). The class
`SmRegion.Region` holds the block headers, threaded on the list of all blocks and the list of free blocks, the
statistics, and the bytes of the region. Each pointer manipulation is proved to compute a function on the *chain*
of blocks in address order, and the theorems about runs are proved of those functions. Offsets count from the
region header, 0 is the null pointer, sizes of the two structures are those of an LP64 target.

**Expression engine** (`Money`, `ExpTree`, `ExpOps`, `ExpFail`, `ExpRun`, `ExpStale`, `ExpNodes`, `ExpParse`,
`ExpCompiler`). `ExpNodes` evaluates nodes in place, with coverage masks, delayed-change masks and the parameter list's
change mask; `ExpOps` says what every operator gives, in exact amounts, and `ExpTree` proves that the cached values are those of an evaluation from scratch, `ExpFail` what evaluations that fail
leave, and `ExpRun` that the caches are right over every run of object changes and evaluations. `ExpStale` has the runs
that go wrong. `ExpCompiler` rewires parent and child links; `ExpParse` says which tree results and why no other would
do. Masks are sets of bit numbers; 32-bit wrap-around and truncating division are written out.

**MTASK** (`MtSched`, `MtEvents`, `MtSemaphore`, `MtWriteCache`). Scheduling rounds, the event-wait table, counting
semaphores and the write cache. Ticks used, ticks slept, which threads are runnable, and how much of a buffer the
operating system takes are inputs.

**Caches and copy-on-write** (`XHash`, `LruCache`, `XHashQueue`, `Contexts`, `ContextStack`). The hash table and the
circular queue of the weighted cache refine the value in `LruCache`; the item chain with copy counts refines the
plain stack of frames in `Contexts`. What the discard callback answers, in every round of questions, is an input.

**Text** (`Base64`, `QPrintf`, `StringToken`, `MtLexer`, `StText`, `StParse`). Encoding and decoding, table-driven
escaping into growing buffers, the reader that gets a quoted string back through short reads and short chunks, and
structure files. How long each read is, and how the growth function answers, are inputs.

Most classes carry a ghost value (`chain`, `queue`, `View()`, `Model()`, ...) and their methods' postconditions say
which function of the old value the new one is. The main results are lemmas about those functions.

## Where the code falls short of its promises

These were found while proving; each is stated as a lemma with the exact condition, where one was found.

- A request above 2^64 - 8 bytes is rounded to a smaller one (`SmChain.RoundUpCovers`).
- Sizes pass through an int in two places of the allocator. Freeing a block restores the byte count exactly below
  2^31 bytes (`SmRuns.LostNothing`). A split gives the first part the size asked for exactly below 2^31 bytes
  (`SmChain.SplitTruncates`): a larger request fails an assertion or, from 4 GiB on, can be granted a block that is too
  small (`SmRuns.MallocGrants`, `SmRuns.ReallocGrants`). In regions of up to 2 GiB none of this can happen
  (`SmChain.SmallRegionsAccept`).
- A reference too many overflows a link count, after which the region is no longer well formed (`SmRuns.LinkKeeps`).
- Removing a parameter object stamps nothing. An expression that refers to it keeps its old value
  (`ExpRun.RemoveIsUnseen`, `ExpStale.RemoveLeavesStale`), and changes to the highest slot are no longer noticed when a
  lower one was removed, since evaluations look only at as many slots as there are objects
  (`ExpRun.LastSlotIsUnseen`, `ExpStale.LastSlotLeavesStale`). Harmless are the removals of slots that are not in the
  expression's mask while the last slot counted is not in it either; for a strict expression with a value no others.
- An evaluation that fails drops the delayed changes of the nodes it passes through, and the next one does not know of
  them: `a AND 6 / y` can fail on a division by zero and be true when it is evaluated again
  (`ExpStale.FailureForgets`). The caches stay right exactly when each of these nodes is new or touched by changes that
  remain pending, and no operand behind the failing one misses what was dropped (`ExpFail.WreckTells`,
  `ExpRun.FailTells`); then the evaluation fails again (`ExpRun.RetryFails`). Without AND and OR it always does so
  (`ExpRun.PlainIsScratch`).
- Dividing money by an integer is right exactly when ten thousand times the whole part's remainder, plus the
  fraction, fits in 32 bits (`Money.DivideIntTruncates`); the first divisor that can fail is 214749
  (`Money.DivisorBoundIsSharp`). The two operands whose negation overflows have their own conditions: the amount
  -2147483648 is divided right by 1 and by -2147483648 (`Money.MostNegativeDividend`), and the divisor -2147483648
  divides the other amounts right up to 214748.3648 in magnitude (`Money.MostNegativeDivisor`).
- Integers are compared by their 32-bit difference, which is right unless it overflows and one of greater and less is
  asked for without the other (`ExpOps.CompareTells`).
- A scheduling round may sleep, and one tick of sleep per round is enough to starve a runnable thread for ever
  (`MtSched.SleepStarves`), even when every round sleeps less than its winner uses (`MtSched.ShortSleepStarves`).
  How often a thread can be passed over is bounded by the leads of its competitors, and their weight for every tick
  slept (`MtSched.BoundedWaiting`).
- A post on a semaphore gives units a second time to a request that was served but has not left the table
  (`MtSemaphore.LingererWastes`, `MtSemaphore.PostConserves`).
- Turning the write cache off writes it out but keeps its length, so turning it on again repeats the data
  (`MtWriteCache.File.SetCaching`, `MtWriteCache.CacheTwice`).
- Without a discard callback, a locked element that is asked for leaves the table but stays in the queue
  (`LruCache.UncalledDiscard`).
- Contexts of 64 characters or more are not below themselves, and the order is not transitive from them
  (`Contexts.BelowReflexive`, `Contexts.LongContextsBreakTransitivity`); variables with names that long cannot be
  read back (`Contexts.LongNamesAreLost`). An endorsement's context is stored cut to 63 characters, which can drop
  parts and so endorse more than was asked for (`Contexts.CutWidens`); and asking for `*` is skipped as redundant
  where an endorsement reaches everything but contexts that long (`Contexts.EndorsementLaw`).
- Once a formatted print has overflowed, a later string in the same call that might not fit gets nothing, even if it
  would fit (`QPrintf.StoppedGetsNothing`); a short one is quoted without its opening quote (`QPrintf.AfterOverflow`).
- A limit on the length of a conversion does not cut it off: replacements too long for what is left are skipped and
  later ones copied (`QPrintf.LimitSkips`). What comes out is the translation of a prefix exactly when, behind the
  first replacement that is too long, all others are (`QPrintf.LimitCuts`).
- A structure file whose top group is called BEGIN is printed, but read back as an empty group of that name; and
  names, types and lists beyond the reader's limits, and groups without a type below the top, are printed but not read
  back as they were (`StText.PrintParses`).
- A backslash that ends the input, or stands before a NUL, gives a character of its own (`StringToken.BrokenEscape`).

## Model

| member | source | states |
|---|---|---|
| SmChain.RoundUpCovers | centrallix-lib/src/smmalloc.c:666-667 | the granted size is a multiple of 8, less than 8 bytes larger than the request, and covers it exactly when rounding does not wrap at 64 bits; rounding twice is rounding once |
| SmChain.AllocKeeps | centrallix-lib/src/smmalloc.c:373-430 | splitting and taking any large enough free block leaves an exact tiling with no two free neighbours |
| SmChain.ReleaseKeeps | centrallix-lib/src/smmalloc.c:889-955 | giving a reference back, with merging to both sides, leaves an exact tiling with no two free neighbours |
| SmChain.GrowKeeps | centrallix-lib/src/smmalloc.c:580-646 | resizing in place, by swallowing the next block or moving the boundary, does so too |
| SmChain.SplitTruncates | centrallix-lib/src/smmalloc.c:373-378 | a split whose size travels through an int is the split asked for if and only if the size is below 2^31; otherwise the first part is too short |
| SmChain.SmallRegionsAccept | centrallix-lib/src/smmalloc.c:654-821 | in regions of up to 2 GiB a call is accepted exactly when it points at a block and link counts have room |
| SmRuns.StepKeeps | centrallix-lib/src/smmalloc.c:654-955 | every accepted call of the four operations keeps the region well formed |
| SmRuns.RunKeeps | centrallix-lib/src/smmalloc.c:654-955 | safety over every run of smMalloc, smLinkTo, smFree and smRealloc |
| SmRuns.RunLinks | centrallix-lib/src/smmalloc.c:654-955 | over every run the link counts add up to the references handed out and not given back |
| SmRuns.UnusedIsInit | centrallix-lib/src/smmalloc.c:258-305 | a well-formed region with no reference left is the single free block smInit makes |
| SmRuns.BalancedRunRestoresInit | centrallix-lib/src/smmalloc.c:258-305 | whatever was called in between, freeing every link brings smInit's region back |
| SmRuns.MallocGrants | centrallix-lib/src/smmalloc.c:654-723 | smMalloc fails exactly when no free block is large enough; otherwise the caller has the only reference to a block that starts where the first large enough free block did and has less than a header and 8 bytes too many, no block in use has moved or changed size, and the block is large enough if and only if no split of 2^31 bytes or more was needed |
| SmRuns.ReallocGrants | centrallix-lib/src/smmalloc.c:752-821 | smRealloc refuses shared blocks, changes nothing when it fails, keeps the number of blocks in use and leaves all other blocks in use alone; it grants enough if and only if the block stayed or no split of 2^31 bytes or more was needed |
| SmRuns.ReallocSucceeds | centrallix-lib/src/smmalloc.c:752-821 | smRealloc fails if and only if the block is shared or free, or neither fits tightly, nor has a free block with the room behind it, nor fits a free block elsewhere; it stays in place exactly in the first two cases, and otherwise moves to the first free block that is large enough |
| SmRuns.ReallocTakes | centrallix-lib/src/smmalloc.c:757-821 | the exact size of a block that stays: what it had, what was asked for, or all of the block behind when less than 8 bytes of that would be left |
| SmRuns.LinkGrants | centrallix-lib/src/smmalloc.c:729-745 | smLinkTo gives null exactly for a free block, and otherwise the pointer, with one reference more and nothing else changed |
| SmRuns.MovedFromStays | centrallix-lib/src/smmalloc.c:783-789 | the block smRealloc copies from is still where it was after the allocation in between |
| SmRuns.LostNothing | centrallix-lib/src/smmalloc.c:889-915 | freeing a block restores the byte count if and only if the block is below 2^31 bytes |
| SmRuns.LinkKeeps | centrallix-lib/src/smmalloc.c:729-745 | one more reference keeps the region well formed if and only if the int that counts them has room |
| SmLists.BlkInverse | centrallix-lib/src/smmalloc.c:313-362 | the links of the list of all blocks are mutually inverse |
| SmLists.FreeInverse | centrallix-lib/src/smmalloc.c:313-362 | so are those of the free list |
| SmLists.FreeListWithout | centrallix-lib/src/smmalloc.c:486-522 | unlinking a block leaves a doubly linked list of the others, with the right ends |
| SmLists.FreeListWith | centrallix-lib/src/smmalloc.c:437-480 | linking a block in between its neighbours leaves a doubly linked list in address order, with the right ends |
| SmLists.ListsMoved | centrallix-lib/src/smmalloc.c:599-646 | moving a header redirects both lists, with the right ends |
| SmHeaders.SplitLists | centrallix-lib/src/smmalloc.c:373-430 | both lists survive the header stores of a split |
| SmHeaders.ShiftedLists | centrallix-lib/src/smmalloc.c:599-646 | both lists survive the header stores of moving a boundary |
| SmView.MergeTests | centrallix-lib/src/smmalloc.c:923-940 | comparing a free-list link with a block link tells exactly whether the neighbour in memory is free |
| SmView.FirstFitByList | centrallix-lib/src/smmalloc.c:669-685 | the first fitting member of the free list is the first fit in address order |
| SmView.PayloadsDisjoint | centrallix-lib/src/smmalloc.c:654-723 | payloads of different blocks are disjoint and inside the region |
| SmView.KeptInMove | centrallix-lib/src/smmalloc.c:783-789 | allocating, copying and freeing together copy the payload and change no other payload |
| SmRegion.Region.Init | centrallix-lib/src/smmalloc.c:258-305 | null exactly when there is no room for a header and a byte; otherwise a valid region of one free block with a right byte count |
| SmRegion.Region.SplitBlock | centrallix-lib/src/smmalloc.c:373-430 | the stores of a split, with both lists, the tails and the block count |
| SmRegion.Region.FreeBlock | centrallix-lib/src/smmalloc.c:437-480 | the scan for the next free block puts the block on the free list in address order |
| SmRegion.Region.UnFree | centrallix-lib/src/smmalloc.c:486-522 | the block leaves the free list, and nothing but free links changes |
| SmRegion.Region.CombineWithNext | centrallix-lib/src/smmalloc.c:530-572 | the next block's header is gone and its room belongs to this block |
| SmRegion.Region.ResizeTo | centrallix-lib/src/smmalloc.c:580-646 | growing moves the free block behind up by the difference; shrinking changes nothing |
| SmRegion.Region.Malloc | centrallix-lib/src/smmalloc.c:654-723 | refines the chain's allocation, keeps lists, counts and statistics valid, leaves the byte count as right as it was, and changes no payload in use |
| SmRegion.Region.LinkTo | centrallix-lib/src/smmalloc.c:729-745 | refines the chain's linking and changes no payload; afterwards the region is valid unless the count overflowed |
| SmRegion.Region.Free | centrallix-lib/src/smmalloc.c:889-955 | refines the chain's release; no payload in use changes, also not that of the block itself while it keeps other references; the byte count errs by what the block's size loses in an int |
| SmRegion.Region.Realloc | centrallix-lib/src/smmalloc.c:752-821 | refines the chain's resizing, also of the last block, whose missing successor is read from the region header; on all paths the first min(old, new) bytes are kept and no other payload in use changes |
| SmRegion.Region.LookBehind | centrallix-lib/src/smmalloc.c:779-781 | what the code finds where it looks for the next block's size and count: the next block's, or the region header's own fields |
| SmRegion.Region.CountedRight | centrallix-lib/src/smmalloc.c:889-915 | the byte count is the bytes allocated if and only if the miscount, which Free and Realloc account for, is zero |
| SmRegion.Region.VerifyHolds | centrallix-lib/src/smmalloc.c:313-362 | everything sm_internal_Verify walks the two lists for holds of every valid region |
| Money.NormalIsFloor | centrallix-lib/include/datatypes.h:57-61 | the whole part is the floor and the fraction the remainder; an amount is representable exactly when its whole part fits in 32 bits |
| Money.MinusMoneyExact | centrallix/expression/exp_evaluate.c:671-681 | money minus money is exact in ten-thousandths if and only if the difference is representable |
| Money.IntMinusMoneyExact | centrallix/expression/exp_evaluate.c:616-628 | the same of an integer minus money |
| Money.MoneyMinusIntExact | centrallix/expression/exp_evaluate.c:657-664 | the same of money minus an integer |
| Money.PlusMoneyExact | centrallix/expression/exp_evaluate.c:743-877 | the same of sums |
| Money.PlusIntExact | centrallix/expression/exp_evaluate.c:743-877 | the same of an integer plus money |
| Money.TimesIntExact | centrallix/expression/exp_evaluate.c:438-526 | the same of products with an integer, also when 64 bits are exceeded |
| Money.LongDivision | centrallix/expression/exp_evaluate.c:312-313 | dividing the whole part and then its remainder with the fraction is one division |
| Money.DivideIntTruncates | centrallix/expression/exp_evaluate.c:287-322 | money by integer is refused for zero alone, and otherwise truncates toward zero, for all amounts and divisors, if and only if the stated condition holds: the fraction's dividend fits in 32 bits, or its counterpart where a negation overflows |
| Money.SmallDivisorsTruncate | centrallix/expression/exp_evaluate.c:287-322 | so every divisor up to 214748 in magnitude is safe |
| Money.MostNegativeDividend | centrallix/expression/exp_evaluate.c:291-301 | the amount whose negation overflows is divided right by 1 and by -2147483648 alone |
| Money.MostNegativeDivisor | centrallix/expression/exp_evaluate.c:291-301 | the divisor whose negation overflows divides right exactly the amounts of up to 2^31 ten-thousandths in magnitude |
| Money.DivisorBoundIsSharp | centrallix/expression/exp_evaluate.c:313 | an amount that 214749 divides wrong |
| ExpTree.JoinedSnoc | centrallix/expression/exp_evaluate.c:936-1046 | what one more operand does to a conjunction or disjunction with NULLs and indeterminate values |
| ExpOps.CompareTells | centrallix/objectsystem/obj_datatypes.c:1650-2010 | a comparison of integers and money is right about the exact amounts, unless both are integers, their difference overflows, and it asks for one of greater and less only; then it is wrong |
| ExpOps.PlusTells | centrallix/expression/exp_evaluate.c:743-877 | a sum of integers is the exact one if and only if that fits 32 bits, and differs from it by multiples of 2^32; a sum with money is the exact amount if and only if that is representable |
| ExpOps.MinusTells | centrallix/expression/exp_evaluate.c:560-740 | the same of differences |
| ExpOps.MultiplyTells | centrallix/expression/exp_evaluate.c:379-526 | the same of products; two amounts cannot be multiplied |
| ExpOps.DivideTells | centrallix/expression/exp_evaluate.c:196-376 | division by zero and of an integer by money is refused; a quotient is the one truncated toward zero, with the exact exceptions; money by money is the whole quotient if there is one that fits |
| ExpOps.NullTells | centrallix/expression/exp_evaluate.c:743-760 | with a NULL operand arithmetic gives NULL, a sum with the type of its first operand |
| ExpOps.UnaryTells | centrallix/expression/exp_evaluate.c:881-930 | the truth tables of IS NULL and IS NOT NULL, and of NOT, which is NULL for NULL and refused for money |
| ExpOps.OperatorsCompute | centrallix/expression/exp_evaluate.c:1106-1170 | every operator on every pair of proper values is refused exactly where it has to be, and gives what it has to otherwise |
| ExpOps.JoinedTells | centrallix/expression/exp_evaluate.c:936-1046 | an AND is false when an operand is known to be false, an OR true when one is known not to be; else NULL when an operand is; indeterminate exactly when an operand before the first that settles it is |
| ExpOps.LeafTells | centrallix/expression/exp_evaluate.c:1950-1972 | a constant has its value, and what is bound to nothing is NULL and indeterminate |
| ExpOps.ReferenceTells | centrallix/expression/exp_evaluate.c:1327-1420 | a reference has its attribute's value, NULL without an object, and none without the attribute |
| ExpOps.OperatorTells | centrallix/expression/exp_evaluate.c:1950-2024 | an operator node has from scratch what its operator computes of its operands' values, and doubt from any of them |
| ExpOps.JunctionTells | centrallix/expression/exp_evaluate.c:936-1046 | AND and OR look at their operands up to the first that settles them, whatever stands behind it |
| ExpOps.JunctionRefuses | centrallix/expression/exp_evaluate.c:936-1046 | an operand that is reached and fails, or is money, makes them fail |
| ExpOps.RecalcIsScratch | centrallix/expression/exp_evaluate.c:1969-1988 | when everything is recalculated the value is the one from scratch, whatever the tree remembers |
| ExpTree.MaskedCovers | centrallix/expression/exp_compiler.c:823-855 | after the mask pass every node's mask covers all objects read below it |
| ExpTree.ScratchAgree | centrallix/expression/exp_evaluate.c:1950-1988 | an expression's value does not depend on objects outside its mask |
| ExpTree.ChangeKeeps | centrallix/expression/exp_evaluate.c:1950-1988 | changing objects keeps every cache that is trusted right |
| ExpTree.DeferKeeps | centrallix/expression/exp_evaluate.c:950-962 | noting missed changes on a short-circuited operand loses none of them |
| ExpTree.EvalRight | centrallix/expression/exp_evaluate.c:1950-2024 | one visit leaves the from-scratch value at the top and nothing pending below, skipped operands included |
| ExpTree.EvalUntilRight | centrallix/expression/exp_evaluate.c:936-1046 | a short-circuiting junction concludes what an evaluation from scratch concludes |
| ExpFail.EvalFails | centrallix/expression/exp_evaluate.c:1950-2024 | the evaluator fails only where an evaluation from scratch has no value |
| ExpFail.WreckTells | centrallix/expression/exp_evaluate.c:1994-2005 | a failed visit keeps the trusted caches right if and only if no node it passes through is forgotten and no operand behind the failing one misses the dropped changes |
| ExpFail.UnstrandedMissesNothing | centrallix/expression/exp_evaluate.c:1994-2005 | no operand misses them where the masks show that they do not reach one |
| ExpFail.PlainForgetsNothing | centrallix/expression/exp_evaluate.c:1971-1988 | without delayed changes a node that fails is new or touched by pending changes |
| ExpTree.AbsentIsNull | centrallix/expression/exp_evaluate.c:743-790 | a strict expression that refers to an empty slot is NULL if it has a value at all |
| ExpTree.MaskedStrict | centrallix/expression/exp_compiler.c:823-855 | the mask pass of a strict expression names no slot beyond those it reads |
| ExpRun.EvaluateRight | centrallix/expression/exp_evaluate.c:1866-1942 | an evaluation of sound caches succeeds if and only if the expression has a value from scratch, leaves nothing pending, and caches that value at the root |
| ExpRun.RunKeeps | centrallix/expression/exp_params.c:297-440 | every run of object changes, additions, recalculations, evaluations, and removals and failures that spare the expression keeps the caches sound |
| ExpRun.FailTells | centrallix/expression/exp_evaluate.c:1925-1942 | the caches are sound after a failure if and only if it spares them; where the dropped changes reach no operand behind the failing one, if and only if no node is forgotten |
| ExpRun.RetryFails | centrallix/expression/exp_evaluate.c:1925-1942 | after such a failure the evaluation fails again |
| ExpRun.IncrementalIsScratch | centrallix/expression/exp_evaluate.c:1866-1942 | after any such run from a compiled expression, an evaluation comes to exactly what one from scratch comes to: the same value and flags, or a failure |
| ExpRun.PlainIsScratch | centrallix/expression/exp_evaluate.c:1925-1942 | without AND and OR it does so whatever evaluations failed in between |
| ExpStale.FailureForgets | centrallix/expression/exp_evaluate.c:1994-2005 | a run from a compiled expression in which an evaluation fails, and the same evaluation done again succeeds with a value the expression has not got |
| ExpRun.RemoveIsUnseen | centrallix/expression/exp_params.c:376-398 | the evaluation after a removal changes nothing; it is right if the slot is not in the expression's mask, and for a strict expression with a value only if |
| ExpRun.LastSlotIsUnseen | centrallix/expression/exp_evaluate.c:1891-1912 | after a removal a change of the highest slot is seen by no evaluation; whatever the change, that is right if neither slot is in the mask, and for a strict expression with a value and an emptied slot only if |
| ExpStale.RemoveLeavesStale | centrallix/expression/exp_params.c:376-398 | a run from a compiled expression that ends with a stale value |
| ExpStale.LastSlotLeavesStale | centrallix/expression/exp_evaluate.c:1891-1912 | one that does because the count no longer reaches the slot that changed |
| ExpNodes.ParamObjects.Add | centrallix/expression/exp_params.c:297-350 | the first free slot for a new name and for a duplicate, the slot that has the name when it may be replaced; named, stamped and put into focus as asked; -1, changing nothing, exactly when there are too many or the name is taken and neither is asked for; an addition or a modification of the runs |
| ExpNodes.ParamObjects.Modify | centrallix/expression/exp_params.c:425-435 | a slot gets an object and a new stamp; a modification of the runs |
| ExpNodes.ParamObjects.Remove | centrallix/expression/exp_params.c:376-398 | a slot is freed, the slot below takes over its roles, and no stamp moves; a removal of the runs |
| ExpNodes.ParamObjects.Lookup | centrallix/expression/exp_params.c:272-292 | the first slot with a name, from either end, or 30 |
| ExpNodes.ParamObjects.AllChanged | centrallix/expression/exp_params.c:810-819 | one list-wide stamp instead of one per object; a change of all objects of the runs |
| ExpNodes.Expression.Visit | centrallix/expression/exp_evaluate.c:1950-2024 | refines one visit of the tree and restores the change mask; a failed one leaves operands before the failure up to date, later ones untouched, and drops the delayed changes on its path |
| ExpNodes.Expression.VisitTerms | centrallix/expression/exp_evaluate.c:936-1046 | the loop of AND and OR visits, defers and concludes as specified |
| ExpNodes.Expression.Conclude | centrallix/expression/exp_evaluate.c:1106-1170 | on values that attributes and constants can have, fails exactly where the operator is refused, and leaves on the node what it has to compute, indeterminate when an operand is |
| ExpNodes.Expression.SetCoverageMask | centrallix/expression/exp_compiler.c:823-855 | refines the mask pass |
| ExpNodes.Compiled.Changes | centrallix/expression/exp_evaluate.c:1887-1921 | the mask an evaluation starts with, from the stamps |
| ExpNodes.Compiled.EvalTree | centrallix/expression/exp_evaluate.c:1866-1942 | refines an evaluation of the whole world; stamps are remembered only on success, and a failure is a step of the runs |
| ExpParse.PlaceYields | centrallix/expression/exp_compiler.c:779-812 | placing an operator keeps the tokens in order |
| ExpParse.PlaceBinds | centrallix/expression/exp_compiler.c:779-812 | and keeps left operands from binding looser, and right ones tighter, than their operator |
| ExpParse.Rebuilds | centrallix/expression/exp_compiler.c:779-812 | placing a well-bound tree's operators one by one builds that tree |
| ExpParse.CompileSound | centrallix/expression/exp_compiler.c:55-815 | what is compiled reads back as its input and is bound by left-associative precedence, with the classes written out: multiplication and division, addition and subtraction, comparisons with IN, LIKE and CONTAINS, AND, OR |
| ExpParse.TwoOperators | centrallix/expression/exp_evaluate.c:2140-2152 | of two operators in a row the second takes the middle operand if and only if its class binds tighter |
| ExpParse.CompileInvertsYield | centrallix/expression/exp_compiler.c:55-815 | every well-bound tree is what its own tokens compile to |
| ExpParse.ParseIsUnique | centrallix/expression/exp_evaluate.c:2140-2152 | there is at most one such tree for a token sequence |
| ExpParse.CompileFailsOnlyWhenItMust | centrallix/expression/exp_compiler.c:55-815 | the compiler fails only on sequences that have none |
| ExpCompiler.FilledIsPlaced | centrallix/expression/exp_compiler.c:779-812 | taking a subtree's place below its parent is the placement function |
| ExpCompiler.PlaceOperator | centrallix/expression/exp_compiler.c:779-812 | the climb along parent links and the rewiring leave a proper tree that awaits one operand |
| ExpCompiler.CompileLevel | centrallix/expression/exp_compiler.c:506-517 | one parenthesis level, compiled in place, is the specified tree, of new nodes, none shared |
| ExpCompiler.CompileExpression | centrallix/expression/exp_compiler.c:1009-1045 | the tree built in place is of new nodes, reads back as its input and is bound by those classes; null is for sequences that have no such tree |
| MtSched.LeadsDrop | centrallix-lib/src/mtask.c:1252-1291 | a selection that passes a thread over uses up one of the winner's leads; nobody gets a new one but for what the ticks slept weigh, despite the normalisation |
| MtSched.BoundedWaiting | centrallix-lib/src/mtask.c:1252-1291 | a thread that stays runnable is passed over no more often than the leads at the start, and the competitors' weight for every tick slept, allow |
| MtSched.ChargesAddUp | centrallix-lib/src/mtask.c:960-974 | over every run without sleep, what sets two threads apart is what each was charged: its priority number for every tick it ran |
| MtSched.FairShares | centrallix-lib/src/mtask.c:1252-1291 | while a thread stays runnable no other one's ticks, weighted, exceed its own by more than one turn and what set them apart at the start |
| MtSched.NormalisedLowest | centrallix-lib/src/mtask.c:1275-1291 | after every round the lowest count-down is zero and none is negative |
| MtSched.SleepRepays | centrallix-lib/src/mtask.c:1275-1291 | as many ticks of sleep take back what a thread was charged for running |
| MtSched.SleepStarves | centrallix-lib/src/mtask.c:1275-1291 | with a tick of sleep per round a runnable thread is never chosen, for any number of rounds |
| MtSched.ShortSleepStarves | centrallix-lib/src/mtask.c:1275-1291 | the same when every round sleeps less than its winner is charged for |
| MtSched.Scheduler.Schedule | centrallix-lib/src/mtask.c:960-974 | charges, picks the first runnable thread with the lowest count-down, and brings all down as specified |
| MtSched.Scheduler.Scan | centrallix-lib/src/mtask.c:1252-1273 | the lowest count of all, and the first lowest runnable thread |
| MtEvents.CutIsWithout | centrallix-lib/src/mtask.c:314-330 | cutting a request out is filtering the table for it |
| MtEvents.BackedOut | centrallix-lib/src/mtask.c:1957-1967 | filtering out an appended batch leaves the others in order and none of the batch |
| MtEvents.EventTable.Add | centrallix-lib/src/mtask.c:361-374 | arrival order, -1 when the table is full |
| MtEvents.EventTable.RemoveIdx | centrallix-lib/src/mtask.c:314-330 | the later requests move up, and every request still knows its position |
| MtEvents.EventTable.Remove | centrallix-lib/src/mtask.c:336-355 | removal by identity, with its old position |
| MtEvents.EventTable.AddAll | centrallix-lib/src/mtask.c:1939-1967 | all of a thread's requests are added, or none of them |
| MtEvents.EventTable.RemoveAll | centrallix-lib/src/mtask.c:1968-1976 | none of its own requests is left, and all others are, in order |
| MtSemaphore.NewIsSound | centrallix-lib/src/mtask.c:4371-4388 | where runs start: a new semaphore is sound, with its initial units on the count |
| MtSemaphore.ServeBooks | centrallix-lib/src/mtask.c:4440-4455 | what a post starts with is what it keeps, newly grants, and wastes |
| MtSemaphore.ServesInOrder | centrallix-lib/src/mtask.c:4440-4455 | of requests that all wait, each in table order is served if and only if it asks for no more than those before it have left |
| MtSemaphore.PostServes | centrallix-lib/src/mtask.c:4430-4460 | so a post serves its waiters, and the count keeps what is left |
| MtSemaphore.PostConserves | centrallix-lib/src/mtask.c:4430-4460 | units are conserved by a post if and only if it wastes none |
| MtSemaphore.PostKeeps | centrallix-lib/src/mtask.c:4430-4460 | a post among threads that all still wait conserves units and loses no wake-up |
| MtSemaphore.RunKeeps | centrallix-lib/src/mtask.c:4430-4513 | so does every run of posts, requests and departures |
| MtSemaphore.LingererWastes | centrallix-lib/src/mtask.c:4443-4451 | a post that serves a served request again |
| MtSemaphore.PostSem | centrallix-lib/src/mtask.c:4430-4460 | the loop over the table of all semaphores refines the service of one, and leaves the requests on others alone |
| MtSemaphore.GetSem | centrallix-lib/src/mtask.c:4469-4513 | served at once, refused, or last in the table |
| MtSemaphore.LeaveTable | centrallix-lib/src/mtask.c:336-355 | a departing request is cut out of the table, and its semaphore's waiters lose exactly it |
| MtWriteCache.NothingLost | centrallix-lib/src/mtask.c:2960-2995 | file and cache together are exactly what was written, in order, and the cache never exceeds 4096 bytes |
| MtWriteCache.SmallWritesGather | centrallix-lib/src/mtask.c:2960-2975 | no write reaches the file while all of them together fit the cache of 4096 bytes |
| MtWriteCache.WriteOverflows | centrallix-lib/src/mtask.c:2975-2995 | one that does not fit sends all that waited out; it waits in its place if it can |
| MtWriteCache.CloseCompletes | centrallix-lib/src/mtask.c:3214-3231 | after the flush at close the file is the concatenation of all buffers |
| MtWriteCache.File.WritePkt | centrallix-lib/src/mtask.c:2912-2926 | all of a buffer is written, whatever non-empty prefixes the system takes |
| MtWriteCache.File.WriteBytes | centrallix-lib/src/mtask.c:2928-2995 | refines a cached write; uncached, a non-empty prefix is appended; closing, nothing |
| MtWriteCache.File.Close | centrallix-lib/src/mtask.c:3214-3236 | one flush; a second close changes nothing |
| MtWriteCache.File.SetCaching | centrallix-lib/src/mtask.c:2467-2500 | turning the cache back on repeats no data exactly when nothing was left in it |
| MtWriteCache.CacheTwice | centrallix-lib/src/mtask.c:2508-2530 | a file that ends up with its data twice |
| LruCache.EmptyIsSound | centrallix-lib/src/xhashqueue.c:43-60 | where runs start: a new cache is sound |
| LruCache.RunKeeps | centrallix-lib/src/xhashqueue.c:97-360 | over every run the table and the queue hold the same elements, and the weights add up to the count and stay within the maximum |
| LruCache.RunLinks | centrallix-lib/src/xhashqueue.c:159-315 | over every run the link count of an element is the references handed out by additions, lookups and links, less those given back |
| LruCache.HeldStays | centrallix-lib/src/xhashqueue.c:159-315 | an element to which somebody holds a reference throughout a run is the same at its end, in the queue and found under its key |
| LruCache.DiscardsLastEvictable | centrallix-lib/src/xhashqueue.c:97-126 | discarding takes the last evictable element, and fails, changing nothing, exactly when there is none |
| LruCache.DiscardsOldest | centrallix-lib/src/xhashqueue.c:97-126 | the victim is the evictable element whose last add or unlink is oldest |
| LruCache.AddKeeps | centrallix-lib/src/xhashqueue.c:159-210 | making room and adding keep the invariant, also for a duplicate key |
| LruCache.MakeRoomTells | centrallix-lib/src/xhashqueue.c:97-180 | room is made if and only if the weight that cannot be discarded leaves it; what goes is older than every evictable element that stays, and no more goes than needed |
| LruCache.AddTells | centrallix-lib/src/xhashqueue.c:159-210 | an add succeeds if and only if there is such room and no element of the key is left; the new element is the newest, has one link and weighs at least one |
| LruCache.UnlinkKeeps | centrallix-lib/src/xhashqueue.c:294-303 | moving an element to the head keeps it |
| LruCache.UnlinkTells | centrallix-lib/src/xhashqueue.c:294-303 | an unlinked element is the newest and has one link less; the others keep their order |
| LruCache.RemoveKeeps | centrallix-lib/src/xhashqueue.c:249-290 | removal keeps it, and changes nothing when refused |
| LruCache.RemoveTells | centrallix-lib/src/xhashqueue.c:249-290 | a removal succeeds exactly for the only holder, if the callback agrees or, uncalled, the element is not locked; only that element goes |
| LruCache.LookupFinds | centrallix-lib/src/xhashqueue.c:217-233 | a key is found exactly while an element has it, and it is that element |
| LruCache.UncalledDiscard | centrallix-lib/src/xhashqueue.c:105-123 | without a callback, looking for a victim keeps the invariant exactly when the oldest unheld element is not locked |
| XHash.FindAppended | centrallix-lib/src/xhash.c:142-192 | appending to a chain adds that key alone |
| XHash.FindCut | centrallix-lib/src/xhash.c:198-232 | unlinking an entry removes that key alone |
| XHash.HashTable.ComputeHash | centrallix-lib/src/xhash.c:89-102 | the loop gives the row of the running hash |
| XHash.HashTable.Add | centrallix-lib/src/xhash.c:142-192 | a map update, refused exactly for a key that is there |
| XHash.HashTable.Remove | centrallix-lib/src/xhash.c:198-232 | a map removal |
| XHash.HashTable.Lookup | centrallix-lib/src/xhash.c:236-262 | a map lookup |
| XHashQueue.HashQueue.EnQueue | centrallix-lib/src/xhashqueue.c:133-150 | the circular doubly linked queue with the element at its head |
| XHashQueue.HashQueue.DiscardOne | centrallix-lib/src/xhashqueue.c:97-126 | the walk along the backward links refines the scan |
| XHashQueue.HashQueue.Add | centrallix-lib/src/xhashqueue.c:159-210 | refines adding, so that the caller has the one reference AddTells speaks of; the new element is first in the queue |
| XHashQueue.HashQueue.Lookup | centrallix-lib/src/xhashqueue.c:217-233 | refines a lookup and counts the reference |
| XHashQueue.HashQueue.Remove | centrallix-lib/src/xhashqueue.c:249-290 | refines removal by the last holder |
| XHashQueue.HashQueue.Unlink | centrallix-lib/src/xhashqueue.c:294-303 | refines unlinking; the element is first in the queue |
| XHashQueue.HashQueue.LockItem | centrallix-lib/src/xhashqueue.c:344-359 | refines locking and unlocking one element, which then is so; the order stays |
| Contexts.CompareContexts | centrallix/cxss/cxss_contextstack.c:225-259 | decides whether the first context is at or below the second, part by part |
| Contexts.BelowByParts | centrallix/cxss/cxss_contextstack.c:225-259 | for all contexts, given by their parts: at or below means that each of the first four parts is the same, or is `*`, or faces an empty or missing one; `*` alone is above everything; 64 characters are too long |
| Contexts.BelowReflexive | centrallix/cxss/cxss_contextstack.c:225-259 | a context is below itself if and only if it is shorter than 64 characters |
| Contexts.BelowTransitive | centrallix/cxss/cxss_contextstack.c:225-259 | the order is transitive from every such context, wildcards and missing parts included |
| Contexts.LongContextsBreakTransitivity | centrallix/cxss/cxss_contextstack.c:236-243 | and from no longer one |
| Contexts.EndorsementLaw | centrallix/cxss/cxss_contextstack.c:394-455 | after an add a query holds exactly if it did before or is at or below the added context as stored, also when the add was redundant, for names and contexts of any length; the only exception is stated |
| Contexts.EndorseStores | centrallix/cxss/cxss_contextstack.c:394-425 | names in a frame stay as they were stored: cut |
| Contexts.CutWidens | centrallix/cxss/cxss_contextstack.c:394-425 | for every context of 62 characters, endorsing it with one more part also endorses it without |
| Contexts.VariableLaw | centrallix/cxss/cxss_contextstack.c:490-585 | a variable reads back as it was set, and no other changes |
| Contexts.LongNamesAreLost | centrallix/cxss/cxss_contextstack.c:490-545 | names of 64 characters or more are stored cut and not found again |
| Contexts.NestedLeaves | centrallix/cxss/cxss_contextstack.c:269-345 | a run that pops no more than it pushes leaves all frames below as they were |
| Contexts.PopRestores | centrallix/cxss/cxss_contextstack.c:269-345 | a pop brings back exactly the stack before the matching push |
| Contexts.PushDuplicates | centrallix/cxss/cxss_contextstack.c:318-345 | after a push every variable and endorsement reads as before, and all frames are still there below; a new thread starts with the same |
| Contexts.HistoryTells | centrallix/cxss/cxss_contextstack.c:269-585 | after every run each frame shows exactly what the operations still in force say: a pop takes back everything since the push it matches |
| Contexts.CurrentTells | centrallix/cxss/cxss_contextstack.c:432-585 | so a variable reads as it was last set and not taken back, whatever was pushed since, and an endorsement applies if and only if one at or above it was made and not taken back |
| ContextStack.Thread.PushContext | centrallix/cxss/cxss_contextstack.c:318-345 | raising a copy count keeps all frames and puts a frame on top that answers every question as the one below it, or none when there is none below |
| ContextStack.Thread.PopContext | centrallix/cxss/cxss_contextstack.c:269-305 | lowering it, or dropping the item, removes the top frame; -1 outside any context |
| ContextStack.Thread.CheckCOW | centrallix/cxss/cxss_contextstack.c:355-386 | duplicating the item changes no frame and leaves the top one unshared |
| ContextStack.Thread.SetVariable | centrallix/cxss/cxss_contextstack.c:490-545 | only the top frame's variable changes |
| ContextStack.Thread.AddEndorsement | centrallix/cxss/cxss_contextstack.c:394-425 | only the top frame's endorsements change |
| ContextStack.Thread.HasEndorsement | centrallix/cxss/cxss_contextstack.c:432-455 | 1, 0 or -1 as the top frame says |
| ContextStack.Thread.GetVariable | centrallix/cxss/cxss_contextstack.c:555-585 | the top frame's value or the default |
| ContextStack.Thread.NewThread | centrallix/cxss/cxss_contextstack.c:128-191 | a thread's copy is a stack of one frame that answers every question as the current one, and shares no object |
| Base64.EncodedLength | centrallix-lib/src/qprintf.c:510-570 | four characters for every three bytes begun |
| Base64.DecodeInvertsEncode | centrallix-lib/src/qprintf.c:510-664 | decoding inverts encoding for every byte sequence |
| Base64.EncodeInvertsDecode | centrallix-lib/src/qprintf.c:510-664 | encoding inverts decoding for every text of whole groups without padding |
| Base64.DecodeTells | centrallix-lib/src/qprintf.c:576-664 | a text decodes if and only if it consists of groups of the alphabet and ends, after some of them, by itself, with a NUL or with padding |
| Base64.AlphabetIs | centrallix-lib/src/qprintf.c:512 | the digits are A to Z, a to z, 0 to 9, + and /, in this order |
| Base64.GroupsAreNumbers | centrallix-lib/src/qprintf.c:528-565 | a group is the number that its three bytes make, in base 64 |
| Base64.ShortGroupsArePadded | centrallix-lib/src/qprintf.c:534-560 | missing bytes count as zero, and digits of nothing else are padding |
| Base64.Base64Encode | centrallix-lib/src/qprintf.c:510-570 | the buffer, grown if it must and can be, holds the encoding; -1 exactly when it is too small and does not grow |
| Base64.Base64Decode | centrallix-lib/src/qprintf.c:576-664 | the buffer, grown if it must and can be, holds the decoding up to padding or a NUL; -1 exactly for a bad length, a bad character, or too small a buffer that does not grow |
| QPrintf.HardIsPrefix | centrallix-lib/src/qprintf.c:816-866 | what the careful route writes is the translation of a whole-character prefix that leaves the room asked for |
| QPrintf.RoutesAgree | centrallix-lib/src/qprintf.c:782-870 | the fast route gives what the careful one would, wherever the buffer could have grown |
| QPrintf.RoutedComplete | centrallix-lib/src/qprintf.c:1346-1353 | comparing the returned length with what was written tells exactly whether all of the text is there |
| QPrintf.WillingGoesOn | centrallix-lib/src/qprintf.c:816-866 | with a growth function that never gives up nothing is ever cut off |
| QPrintf.StoppedGetsNothing | centrallix-lib/src/qprintf.c:789-860 | once an overflow has stopped the copying, a text that might not fit gets nothing |
| QPrintf.AfterOverflow | centrallix-lib/src/qprintf.c:1312-1366 | two buffers in which a string is quoted without its opening quote, or as a closing quote alone |
| QPrintf.RoutedUnlimited | centrallix-lib/src/qprintf.c:782-870 | a limit that the translation keeps within changes nothing |
| QPrintf.LimitBinds | centrallix-lib/src/qprintf.c:816-866 | in a buffer that grows on request the full length is reported if and only if the limit allows it |
| QPrintf.LimitCuts | centrallix-lib/src/qprintf.c:816-866 | what a limit leaves is the translation of a prefix if and only if, behind the first replacement longer than what is left, every other is longer too, up to where the buffer overflows |
| QPrintf.LimitSkips | centrallix-lib/src/qprintf.c:820-851 | a limit that cuts skips an escape and copies what follows it |
| QPrintf.QuotedIntoIs | centrallix-lib/src/qprintf.c:1312-1366 | within a limit that holds the text, a quoting is reported complete if and only if it is, is so in a buffer that grows on request, and otherwise leaves whole characters, with either quote possibly missing |
| QPrintf.FixedTells | centrallix-lib/src/qprintf.c:752-766 | in a buffer of fixed size a quoting is complete if and only if nothing overflowed before and it fits with both quotes and the final NUL |
| QPrintf.Buffer.Translate | centrallix-lib/src/qprintf.c:782-870 | appends the text that is routed under the limit, and returns the length counted, in an int; -1, adding nothing, exactly when the longest possible text would overflow the arithmetic |
| QPrintf.PutQuoted | centrallix-lib/src/qprintf.c:1312-1366 | appends exactly the quoting that QuotedIntoIs is about, for every string and limit, also after an earlier overflow in the same call |
| QPrintf.QuotePieces | centrallix-lib/src/qprintf.c:236-251 | what the two quoting tables escape, and that they leave every other character as it is |
| StringToken.CopiesPrefix | centrallix-lib/src/mtlexer.c:365-476 | however the characters of a string are written, as they are, behind a backslash, or by n, t and r, a copy takes as many whole characters as there is room for, and the rest is still there |
| StringToken.BrokenEscape | centrallix-lib/src/mtlexer.c:433-444 | what a backslash gives at the end of the input and before a NUL |
| StringToken.OpenHolds | centrallix-lib/src/mtlexer.c:699-718 | a string token starts with its first 255 characters in hand |
| StringToken.ChunkDelivers | centrallix-lib/src/mtlexer.c:1072-1114 | one chunk delivers the next characters, as many as it has room for |
| StringToken.SpellingIsRecovered | centrallix-lib/src/mtlexer.c:1072-1114 | however it is written, a string is read back exactly, by chunks of any sizes that suffice, and the input then stands behind it |
| StringToken.QuotedIsRecovered | centrallix-lib/src/mtlexer.c:1072-1114 | any NUL-free string that the print library quoted, with white space escaped or without, is read back exactly |
| StringToken.TwoSuffices | centrallix-lib/src/mtlexer.c:1072-1114 | every chunk of two or more makes progress |
| MtLexer.Session.CheckBuffer | centrallix-lib/src/mtlexer.c:189-226 | refilling by one read of any length loses no input, and fails to reach an offset only at the end or when the read came short |
| MtLexer.Session.PeekChar | centrallix-lib/src/mtlexer.c:279-299 | the character at an offset, wherever the buffer ends, if all before it is buffered; beyond that the end may be reported early, and when is stated |
| MtLexer.Session.Copy | centrallix-lib/src/mtlexer.c:365-476 | the copying loop takes what is specified, for every schedule of reads |
| MtLexer.Session.NextString | centrallix-lib/src/mtlexer.c:699-718 | a string token starts with as much as the token buffer holds |
| MtLexer.Session.CopyToken | centrallix-lib/src/mtlexer.c:1072-1114 | refines one chunk: what is held first, then more from the input |
| StText.ParseStructOf | centrallix-lib/src/stparse.c:504-558 | the tokens of a tree that fits parse to that tree |
| StText.InfTokens | centrallix-lib/src/stparse.c:641-717 | printed text is read as the tree's tokens, at every level of indentation |
| StText.WordIsValue | centrallix-lib/src/stparse.c:257-309 | a word without quotes is a string value |
| StText.ReadFits | centrallix-lib/src/stparse.c:257-397 | whatever is read keeps to the limits on names, types, values and items |
| StText.PrintParses | centrallix-lib/src/stparse.c:724-765 | what a tree is printed as, when its names are words and its strings need no escape, parses to that tree if and only if it fits the reader's limits, of 31, 63, 64 and 128, and is not called BEGIN, or is the empty group that comes back then |
| StParse.GenerateGroup | centrallix-lib/src/stparse.c:641-671 | the buffer grows by exactly the group's text |
| StParse.GenerateAttr | centrallix-lib/src/stparse.c:677-717 | the buffer grows by exactly the attribute's text |
| StParse.GenerateMsg | centrallix-lib/src/stparse.c:724-765 | the whole file's text |
| StParse.ParseAttr | centrallix-lib/src/stparse.c:257-309 | fills in the values, and fails exactly when the token function does |
| StParse.ParseGroup | centrallix-lib/src/stparse.c:318-397 | builds the items in place, as a tree of new objects |
| StParse.ParseStruct | centrallix-lib/src/stparse.c:504-558 | builds the specified tree, half-read ones of files that start with BEGIN included, or gives null exactly when there is none |
| StParse.WriteAndRead | centrallix-lib/src/stparse.c:597-615 | writing a tree and reading it gives a tree of new objects, equal to it under exactly that condition |

## Left out

- Allocator: creating, attaching and destroying regions, semaphores and checksums; every operation is atomic under the region lock. Block counters, which would overflow an int beyond 2^31 blocks, are unbounded.
- SmRegion.Region.Init: regions of 2^63 bytes and more, whose offsets would not fit a pointer difference.
- SmRegion.Region.Malloc: requests whose split has a negative size as an int, which fails an assertion or lets the new header overlap the old one.
- SmRegion.Region.Realloc: such requests, and those granted a block too small for what is copied, after which the header behind is overwritten; resizing the last block where the offset of its header, taken as an int, is negative and the request small, which fails an assertion.
- SmRegion.Region.CombineWithNext: the test for the free list ending in the block that was just taken off it is left out, since it cannot hold; the bytes of headers are left open.
- Finalizer and free-request callbacks of the allocator: stored by the code and called by no operation modelled.
- Expressions over strings, doubles, dates, functions, subqueries, aggregates, IN lists and CONTAINS; late binding, remapping, freezing, the current and parent object and reverse evaluation.
- Money by money with a quotient that is not an integer: the result is a double, and the model refuses it.
- NOT of a money amount: the code reads the operand's integer field, which nothing has set, and the model refuses it.
- ExpOps.DivideTells: C defines no result for -2147483648 by -1; the model takes the wrapped one, as for other overflows.
- ExpNodes.Expression.Visit: what value a failed node is left with, which no later result depends on unless changes were dropped.
- ExpNodes.ParamObjects.Add: the other per-object flags and the functions for attributes. References to the current and the parent object are not expressions of the model.
- ExpParse.CompileSound: NOT, IS NULL, comma lists and empty parentheses are not tokens of the model.
- Stamps are unbounded: the wrap-around of the unsigned sequence numbers of the expression engine after 2^32 changes is not modelled.
- MTASK's stacks, thread hand-off, polling, signals, sockets and user identities: operating-system mechanism. A locked thread, and a round in which nobody is runnable, are not rounds of the model.
- MtSched.BoundedWaiting: for a fixed set of threads, as the code gives no bound when threads come and go.
- Destroying a semaphore while threads wait for it; that a thread refused because the table is full is left marked as blocked.
- MtWriteCache.File.WriteBytes: seeking, truncating, compressed files, blocking writes, and write errors.
- The hash queue's callback for a full queue, iteration over the queue, and clearing it; the control semaphore, each operation being atomic under it. The 256 random numbers of the hash are a parameter.
- Listing endorsements, and the thread system's calls of the copy function.
- Base64.Base64Encode: at offset 0 of the destination only; the size needed is unbounded, where the code puts it in an int. The source of Base64.Base64Decode ends where its size says, as with the terminating NUL of a string.
- Format strings, specifier chains and their lookup, other filters, and the other conversion tables, to which the lemmas apply as they stand.
- MtLexer.Session.NextString: read errors, line, separator and file-name modes, comments, and other kinds of tokens.
- StText.PrintParses: tokens are read from the whole text, since refilling is shown for string tokens in MtLexer; numbers other than plain decimals and comments are refused, and scripts and the rest of a form left to code that is not modelled.
- StParse.GenerateMsg: the size of the output buffer, which grows as needed.
- b+tree.c, xarray.c, xstring.c, xringqueue.c, the transports, drivers and servers: not part of this model.
