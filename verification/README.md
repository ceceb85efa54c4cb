# MIT/GNU Scheme microcode: verified models

Dafny models of the algorithmic core of the MIT/GNU Scheme microcode, with proofs.

- **The copying collector** (`gc_*.dfy`, `counting.dfy`).  Memory is an array of tagged words that the methods of
  `GcCollector.Collector` overwrite in place, as `gcloop.c` does: transport with broken hearts, eager cdr transport,
  weak pairs threaded through dead cdrs, ephemerons with their hash table and queue.  The main results are in
  `GcTheorems`: a collection ends, copies exactly the least live set, preserves the graph from every root, and breaks
  exactly the ephemerons and weak cars whose objects died.  `GcFinal.Survives` is the whole result in one predicate.
- **Bignums** (`arith`, `bits`, `knuth`, `rounding`, `bignum_*.dfy`).  A bignum is an array with the header at index 0
  and 62-bit digits of radix R * R, R = 2^31.  Every kernel is a loop on arrays, proved to compute the integer
  operation with every intermediate value inside a signed 64-bit word (`Word`).
- **Environments and variable caches** (`lookup_*.dfy`).  `LookupStore.Store` updates cells, caches, reference lists and
  blocks in place; each method is tied to a function of the state, and the invariant about these functions is
  preserved over every run.  `LookupLaws` says what each operation means for the variables that a program sees, and
  `LookupCaching` that the caches of compiled code cannot be seen.
- **The SCode interpreter** (`interp*.dfy`).  `InterpLoop.Interpreter` is the register and stack machine; it computes
  what a direct recursive evaluator computes, in exactly the stack space the evaluator counts.  `InterpLaws` has the
  laws of the language that this evaluator obeys, construct by construct.
- **Integers** (`bignum_fits.dfy`, `integers.dfy`).  The fixnum and bignum layer of `artutl.c`: an integer has one
  representation, and the operations compute the integer operations on it, with the exact condition for huge results.
- **Bit strings** (`bit_words.dfy`, `bit_copy.dfy`).  `copy_bits` on arrays of 64-bit words, in its three
  alignments, also within one bit string.
- **Dumping** (`fasdump*.dfy`).  `Fasdump.Dumper` copies an object graph and saves every heap word it overwrites; whether
  the dump succeeds or not, the heap is afterwards what it was, and on success the dump is a copy of the graph.
- **AVL trees** (`avl_tree.dfy`, `avl_nodes.dfy`).  `AvlNodes.TreeNode` is rotated and updated in place; its methods are
  tied to insertion, building and lookup on trees, about which order, balance and contents are proved.

The words are those of the 64-bit configuration: 6-bit type codes, 58-bit data, and digits of 62 bits.

Where the code does less than one would like, the exact condition is a lemma:

- `gcloop.c:877-883`: after a match the walk over a hash bucket continues in the queue.  It ends exactly when the bucket
  and the queue do not both hold a match (`WalkEndsExactly`), and a second walk for the same key ends exactly when the
  first has left no match behind (`SecondWalkEndsExactly`); two ephemerons that wait on one live key make the loop at
  `gcloop.c:983-999` run for ever (`SecondWalkHangs`).
- `bignum.c:1460`: the length estimate of `digit_stream_to_bignum` is an `unsigned int` product.  `StreamsFitIff` says
  exactly for which radix and length every stream fits; 2^30 hexadecimal digits do not (`EstimateWraps`).
- `bignum.c:630-646`: `bignum_to_double` truncates exactly when the top digit has 53 bits and the rest would round up
  (`TruncationInexact`), and the exponent for `ldexp` is an `int` that wraps (`ScaleWraps`).  `NearestIff` has the exact
  condition.
- `bignum.c:740-774`: `bignum_fits_in_word_p` looks only at the length and the top digit, and takes the number of bits and
  the length as 32-bit numbers.  It is right exactly for the numbers that are not `Misjudged` (`FitsInWord`).  Of ordinary
  size only some negative numbers are, such as -(2^63 + 1) for a long (`LongMisjudged`); 2^58 is said not to fit in a word
  of 2^32 + 8 bits (`WordLengthWraps`), and a bignum of 2^32 digits is said to fit in a fixnum (`LengthWraps`).  The
  operations of `Integers` that end in `bignum_to_integer` keep a result that is `Held` and lose one that is `Lost`, the
  first being one of 2^32 digits (`FirstLost`); for k * 2^32 + 1 digits the shift at `bignum.c:766` is undefined in C, and
  nothing is said of the value.
- `bitstr.c:365-525`: `copy_bits` reads a word at a time.  Within one bit string the documented order, bit by bit from the
  most significant one, is kept exactly when the source agrees with it where it is read too early (`InOrderIff`), as in
  every move up and every move down by a word or more; two bits moved down by one are not copied in that order
  (`OrderLost`).
- `bignum.c:1339`: `bignum_shift_right` of a negative power of the radix reads the word behind the shortened complement,
  the `#F` left by `BIGNUM_REDUCE_LENGTH`; with that word the result is right.
- `lookup.c:461-470`: defining an unbound parameter keeps the references consistent exactly when there is none to be
  captured (`DefineUnboundParameter`, with the run of `StaleReference`).
- `lookup.c:699`: unbinding a cached global variable keeps the operator links right exactly when there are none
  (`UnbindGlobalKeeps`, with the run of `StaleOperatorLink`).

## Model

| member | source | states |
|---|---|---|
| GcCollector.Collector.Collect | src/microcode/memmag.c:306-334 | a whole collection from any well-formed heap ends, and leaves in newspace exactly the objects of the least live set, once each; every scanned field of a copy and every scanned root word that pointed into fromspace points to the copy with the type it had, any other word is as it was, and weak cars and ephemerons of dead objects are #F |
| GcCollector.Collector.RunGcLoop | src/microcode/gcloop.c:418-439 | the Cheney scan ends; every visited word of the area, and no other, has been scanned, and its target has been copied |
| GcCollector.Collector.PrecheckFrom | src/microcode/gcloop.c:489-508 | outside fromspace the address itself, for a copied object its new address, otherwise 0 with any waiting ephemeron on that key queued |
| GcCollector.Collector.TransportWords | src/microcode/gcloop.c:521-559 | the object is copied word for word to the end of tospace, a broken heart with the newspace address replaces it, and both space pointers advance together |
| GcCollector.Collector.GcTuple | src/microcode/gcloop.c:441-460 | the same type with the address of the copy, or the word itself outside fromspace; the target is copied, and list tails are transported eagerly |
| GcCollector.Collector.TransportCdrs | src/microcode/gcloop.c:446-455 | the eager cdr loop ends and only transports live pairs |
| GcCollector.Collector.GcVector | src/microcode/gcloop.c:462-473 | the same type with the address of the copy, or the word itself outside fromspace; the length word sizes the copy |
| GcCollector.Collector.HandleWeakPair | src/microcode/gcloop.c:596-604 | the same type with the address of the copy, or the word itself outside fromspace; a new copy is registered |
| GcCollector.Collector.HandleEphemeron | src/microcode/gcloop.c:606-620 | the same type with the address of the copy, or the word itself outside fromspace; a new copy is registered |
| GcCollector.Collector.WeakReferentForward | src/microcode/gcloop.c:824-852 | the same type with the address of the copy, or #F if the target has not been copied |
| GcCollector.Collector.TransportWeakPair | src/microcode/gcloop.c:887-908 | a weak pair whose car needs a later update is chained through its old cdr, with its car masked |
| GcCollector.Collector.TransportEphemeron | src/microcode/gcloop.c:910-948 | a copied ephemeron is listed and, if its key is not yet known to be live, put in its hash bucket with its fields masked |
| GcCollector.Collector.QueueEphemeronsForKey | src/microcode/gcloop.c:854-885 | the one waiting ephemeron on the key, if any, moves from its bucket to the queue; the walk ends |
| GcCollector.Collector.ScanEphemerons | src/microcode/gcloop.c:979-1018 | the queue loop ends with every ephemeron whose key is live served, and no waiting ephemeron's key live |
| GcCollector.Collector.UpdateEphemerons | src/microcode/gcloop.c:1032-1052 | every listed ephemeron gets its final five words |
| GcCollector.Collector.UpdateWeakPairs | src/microcode/gcloop.c:1054-1074 | the chain visits each pair that needs an update once and gives its car the final value |
| GcCollector.Collector.SaveTospace | src/microcode/memmag.c:367-374 | the copies end up at the addresses that the forwarded references name, and no other word changes |
| GcTheorems.CopiesAreDisjoint | src/microcode/gcloop.c:521-559 | distinct live objects get distinct, disjoint copies inside tospace: the forwarding map is injective |
| GcTheorems.StrongFieldCopied | src/microcode/gcloop.c:418-439 | a strong field of a copy points to the copy of its target, with the type it had, or is as it was outside fromspace |
| GcTheorems.GraphPreserved | src/microcode/gcloop.c:418-559 | from a word and its new form the same path of strong fields leads to a word and its new form: the type is kept, and the address is that of the copy |
| GcFinal.RootsSaved | src/microcode/memmag.c:306-334 | every visited word of the stack, constant space and the root block is in its new form in the final memory; the data that is not scanned is unchanged |
| GcFinal.Survival | src/microcode/memmag.c:306-334 | a complete collection that has been moved to newspace: the least live set, a separate copy for each member, every field of every copy and every root word |
| GcTheorems.RootsPreserved | src/microcode/memmag.c:306-334 | from every root word, the same path of strong fields leads to a word and its new form |
| GcTheorems.SharingPreserved | src/microcode/gcloop.c:489-508 | two references share a target after the collection just when they did before |
| GcTheorems.EphemeronOutcome | src/microcode/gcloop.c:979-1052 | a live ephemeron keeps its key and datum, in their new form, just when its key is in the least live set or outside fromspace, else both are #F |
| GcTheorems.WeakPairOutcome | src/microcode/gcloop.c:770-852 | a weak car has its new form if its target lives or is outside fromspace, and is #F otherwise; the cdr has its new form |
| GcQueueWalk.WalkEndsExactly | src/microcode/gcloop.c:864-885 | with several ephemerons on one key, the bucket walk ends if and only if the bucket or the queue holds no match |
| GcQueueWalk.WalkTakesFirst | src/microcode/gcloop.c:864-885 | a walk that ends moves just the first match from the bucket to the head of the queue; later ephemerons on the same key stay behind |
| GcQueueWalk.SecondWalkEndsExactly | src/microcode/gcloop.c:983-999 | the second walk for a key ends if and only if the first left no match in the bucket |
| GcQueueWalk.SecondWalkHangs | src/microcode/gcloop.c:983-999 | a bucket with two ephemerons on one key: the first walk ends after one step, the second never does |
| GcQueueWalk.WalkStep | src/microcode/gcloop.c:871-883 | the two writes of the collector's loop, and its going on, are the steps of the walk |
| GcCollector.Collector.FollowEntry | src/microcode/gcloop.c:871-884 | one turn of the loop is one step of the walk, and gets nearer to the end |
| GcCollector.Collector.MoveToQueue | src/microcode/gcloop.c:879-881 | exactly two words change and the entry heads the queue |
| BignumRepr.Trim | src/microcode/bignum.c:2391-2408 | leading zero digits go, stopped by the header at index 0; the value stays and the result is canonical |
| BignumRepr.Canonical | src/microcode/bignum.c:2391-2408 | two canonical bignums with the same value have the same length, sign and digits |
| BignumAdd.Compare | src/microcode/bignum.c:149-170 | the order of the two integers, for all signs and lengths |
| BignumAdd.EqualP | src/microcode/bignum.c:125-136 | true just when the two integers are equal |
| BignumAdd.AddUnsigned | src/microcode/bignum.c:1553-1612 | the sum of the magnitudes, canonical, with the carry running through all digits |
| BignumAdd.SubtractUnsigned | src/microcode/bignum.c:1616-1682 | the difference of the magnitudes with its sign, canonical |
| BignumAdd.Add | src/microcode/bignum.c:172-187 | the sum of the two integers for all signs |
| BignumAdd.Subtract | src/microcode/bignum.c:189-206 | the difference of the two integers for all signs |
| BignumAdd.Negate | src/microcode/bignum.c:208-215 | the negated integer; zero stays zero |
| BignumMultiply.MultiplyAdd | src/microcode/bignum.c:1690-1755 | one digit step is exact and its carry keeps the stated bound, so that no intermediate leaves a signed word |
| BignumMultiply.MultiplyUnsigned | src/microcode/bignum.c:1690-1755 | the exact product, canonical, with the requested sign |
| BignumMultiply.MultiplyUnsignedSmallFactor | src/microcode/bignum.c:1757-1767 | the fast path for one half-digit gives the same product |
| BignumMultiply.DestructiveScaleUp | src/microcode/bignum.c:1769-1797 | the magnitude is multiplied in place; nothing is carried out when the product fits |
| BignumMultiply.Multiply | src/microcode/bignum.c:217-247 | the product of the two integers, for zero, one, small and large operands |
| Knuth.FirstGuess | src/microcode/bignum.c:1909-1926 | the first quotient digit guess is never too small |
| Knuth.NextGuess | src/microcode/bignum.c:1927-1944 | a guess that fails the comparison is too large, and one less is still not too small |
| Knuth.LastGuess | src/microcode/bignum.c:1927-1944 | a guess that passes is at most one too large, and exact for a two-digit divisor |
| Knuth.NormalizedGuess | src/microcode/bignum.c:1909-1944 | with a normalized divisor the first guess is at most two too large |
| BignumLongDivision.GuessDigit | src/microcode/bignum.c:1909-1944 | after at most two corrections the guess is the quotient digit or one more |
| BignumLongDivision.DivideSubtract | src/microcode/bignum.c:1955-2032 | with the guess or one less subtracted, the digit returned is the exact quotient digit and the window holds the remainder; one add-back is enough |
| BignumLongDivision.DivideUnsignedNormalized | src/microcode/bignum.c:1880-1953 | quotient and remainder of the whole long division, the remainder left in place |
| BignumDigitDivide.EstimateHalf | src/microcode/bignum.c:2137-2201 | the corrected half-digit guess is exact |
| BignumDigitDivide.DigitDivideSubtract | src/microcode/bignum.c:2236-2266 | the half-digit subtraction leaves the remainder, even from a guess one too large |
| BignumDigitDivide.DigitDivide | src/microcode/bignum.c:2165-2201 | the exact quotient and remainder of two digits by a normalized one, all intermediates in a signed word |
| BignumScaling.DestructiveNormalization | src/microcode/bignum.c:2094-2117 | the digits are shifted left by the normalizing shift |
| BignumScaling.DestructiveUnnormalization | src/microcode/bignum.c:2119-2135 | the shift is undone and nothing is carried out |
| BignumScaling.DestructiveScaleDown | src/microcode/bignum.c:2291-2313 | the magnitude is divided in place by a half-digit, and the remainder returned |
| BignumDivision.DivideUnsignedLargeDenominator | src/microcode/bignum.c:1830-1878 | quotient and remainder for a divisor of several digits, through normalization |
| BignumDivision.DivideUnsignedMediumDenominator | src/microcode/bignum.c:2034-2092 | quotient and remainder for a divisor of one digit |
| BignumDivision.DivideUnsignedSmallDenominator | src/microcode/bignum.c:2271-2285 | quotient and remainder for a divisor below the radix root |
| BignumDivision.QuotRem | src/microcode/bignum.c:249-317 | the quotient and remainder meant: n = q * d + r, the remainder smaller than d and zero or with the sign of n |
| BignumDivision.DivisionUnique | src/microcode/bignum.c:249-317 | no other pair of integers satisfies these equations |
| BignumDivision.Divide | src/microcode/bignum.c:249-317 | division by zero fails, otherwise both results, canonical, for all signs and lengths |
| BignumDivision.Quotient | src/microcode/bignum.c:319-368 | the same quotient as bignum_divide, with its shortcuts |
| BignumDivision.Remainder | src/microcode/bignum.c:370-420 | the same remainder as bignum_divide, with its shortcuts for one digit and for powers of two |
| BignumDivision.RemainderPowerOfTwo | src/microcode/bignum.c:383-398 | masking the lowest digit gives the remainder by a power of two |
| BignumBitwise.Not | src/microcode/bignum.c:780-784 | -1 - x |
| BignumBitwise.CombineUnsigned | src/microcode/bignum.c:786-816 | the operator applied to the magnitudes bit by bit |
| BignumBitwise.RowCorrect | src/microcode/bignum.c:863-914 | each row of the table of operators is correct for every combination of signs and for zero |
| BignumBitwise.Bitwise | src/microcode/bignum.c:863-914 | all ten operators: every bit of the infinite two's complement of the result is the truth table applied to the operands' bits |
| BignumBitwise.BitwiseUnique | src/microcode/bignum.c:863-914 | these bits determine the result |
| BignumBitwise.OperatorLaw | src/microcode/artutl.c:620-629 | the operators as arithmetic: in terms of the conjunction a, the disjunction is x + y - a, the exclusive one x + y - 2a, the differences x - a and y - a, and the other five are -1 less these |
| BignumBitwise.MaskLaw | src/microcode/artutl.c:620-629 | the conjunction with k ones is the remainder by 2^k, also for negative numbers |
| BignumShift.ShiftLeft | src/microcode/bignum.c:1370-1409 | n * 2^m, canonical, within the length that is allocated |
| BignumShift.ShiftRightUnsigned | src/microcode/bignum.c:1318-1351 | floor of the magnitude divided by 2^m |
| BignumShift.ShiftRight | src/microcode/bignum.c:1353-1368 | floor(n / 2^m) also for negative n, reading the filler word behind a shortened complement |
| BignumRadix.ToDigitStream | src/microcode/bignum.c:1474-1497 | exactly the digits of the magnitude in the radix, least significant first, none leading zero |
| BignumRadix.DigitStreamToBignum | src/microcode/bignum.c:1441-1472 | the number that the stream of digits denotes, canonical, whenever the estimated length is enough |
| BignumRadix.StreamsFitIff | src/microcode/bignum.c:1457-1460 | no stream of n digits overflows the estimated length exactly when the product of n and the bits of the radix is below 2^32, or for the listed lengths in base 2 |
| BignumRadix.EstimateWraps | src/microcode/bignum.c:1457-1460 | an input past the wrap-around that does overflow |
| BignumRadix.RoundTrip | src/microcode/bignum.c:1441-1497 | reading back the reversed stream of a number gives its magnitude |
| BignumRadix.RoundTripDigits | src/microcode/bignum.c:1441-1497 | writing the number that a stream without leading zero denotes gives the stream back |
| Rounding.RoundedIsRepresentable | src/microcode/bignum.c:602-699 | the rounded integer has a significand of at most 53 bits |
| Rounding.RoundedIsNearest | src/microcode/bignum.c:602-699 | no representable integer is nearer, and a tie goes to the even significand |
| Rounding.OverflowThreshold | src/microcode/bignum.c:602-699 | rounding leaves the range of the doubles exactly from 2^1024 - 2^970 on |
| BignumDouble.ToDouble | src/microcode/bignum.c:602-699 | the double for every bignum, with the exponent for `ldexp` as an int; it is the nearest one, ties to even and infinite beyond the range, if and only if the number is not one of the inexact cases |
| BignumDouble.NearestIff | src/microcode/bignum.c:602-699 | the inexact cases: a number to be rounded up whose top digit has 53 bits, or an exponent of 2^31 or more that is taken for one that leaves the number in range |
| BignumDouble.NearestLaw | src/microcode/bignum.c:602-699 | what is meant by the nearest double: infinite with the sign of the number from 2^1024 - 2^970 on, and below that a number of 53 bits than which none is nearer |
| BignumDouble.InexactLaw | src/microcode/bignum.c:630-646 | below 2^31 bits, a number whose double is not the nearest one is truncated to 53 bits |
| BignumDouble.TruncationInexact | src/microcode/bignum.c:630-646 | a two-digit bignum that is truncated |
| BignumDouble.ScaleWraps | src/microcode/bignum.c:690-693 | 2^53 * 2^(62 * 2^31) becomes 2^53 |
| LookupStore.Store.ScanProcedureBindings | src/microcode/lookup.c:1242-1261 | the parameter that binds the symbol, passing over unbound ones unless asked |
| LookupStore.Store.FindBindingCell | src/microcode/lookup.c:1194-1210 | the innermost binding along the frame chain, else the global cell |
| LookupStore.Store.MoveRefPairP | src/microcode/lookup.c:1175-1188 | whether the block's environment is the frame or inside it |
| LookupStore.Store.MovePairs | src/microcode/lookup.c:1133-1164 | exactly the references inside the frame are spliced, reversed, in front of those of the other cache and linked to it; the rest stays in order |
| LookupStore.Store.UpdateReferences | src/microcode/lookup.c:1057-1093 | all three lists are moved and both clones updated |
| LookupStore.Store.CloneUpdate | src/microcode/lookup.c:1344-1370 | a clone appears or goes as the two lists demand, and all assignment slots follow |
| LookupStore.Store.UpdateLinks | src/microcode/lookup.c:432-450 | the new value is stored and every operator slot is linked to it |
| LookupStore.Store.Assign | src/microcode/lookup.c:348-360 | a variable that has a value or is unassigned gets the value, cached or not, and no other variable changes; an unbound variable and a macro are errors that change nothing |
| LookupStore.Store.Define | src/microcode/lookup.c:453-512 | afterwards the frame itself binds the variable, to the value, whether the binding is new, was there, or was an unbound parameter; the frames inside that had the same variable see it, and no other variable changes |
| LookupStore.Store.UnbindCell | src/microcode/lookup.c:726-749 | the binding leaves the extension, and the last one takes its place |
| LookupStore.Store.Unbind | src/microcode/lookup.c:659-712 | a variable that is bound becomes the one that it shadowed, or unbound if it is global; no other variable changes, and the references return to the shadowed one |
| LookupStore.Store.AddReference | src/microcode/lookup.c:911-940 | the reference is listed, the clone updated and the slot filled; no variable changes |
| LookupStore.Store.CompiledAssignment | src/microcode/lookup.c:849-862 | a compiled assignment through the slot, trapping through a clone, assigns the variable for which it was cached |
| LookupStore.Store.Perform | src/microcode/lookup.c:453-940 | any allowed operation keeps the invariant |
| LookupLists.FoundFrame | src/microcode/lookup.c:1194-1210 | the cell that is found belongs to an enclosing frame, and that frame alone would give it |
| LookupMoves.UpdatedReferences | src/microcode/lookup.c:1057-1093 | when just the references to one symbol inside one frame are misplaced, the update restores the whole invariant |
| LookupBindings.FindAfterBind | src/microcode/lookup.c:453-512 | after a new binding, exactly the lookups that passed the frame to the shadowed binding find the new one |
| LookupUnbind.FindAfterUnbind | src/microcode/lookup.c:726-749 | after an unbinding, exactly the lookups that found the binding find the shadowed one |
| LookupOperations.UuoLinksUpdated | src/microcode/lookup.c:432-450 | after an assignment with operator references no stale link is left |
| LookupBindings.AddReferenceKeeps | src/microcode/lookup.c:911-978 | caching a variable keeps the invariant and lists the reference |
| LookupBindings.DefineKeeps | src/microcode/lookup.c:453-512 | definition keeps every reference with the cache of the cell that find_binding_cell gives |
| LookupUnbind.UnbindFrameKeeps | src/microcode/lookup.c:659-724 | unbinding in a procedure frame keeps the invariant |
| LookupUnbind.UnbindGlobalKeeps | src/microcode/lookup.c:692-703 | unbinding a global variable keeps the invariant if and only if no operator reference exists or nothing is unbound |
| LookupRuns.DefineUnboundParameter | src/microcode/lookup.c:461-470 | defining an unbound parameter keeps the invariant if and only if no reference should be captured |
| LookupRuns.StaleOperatorLink | src/microcode/lookup.c:692-703 | a run from the initial state after which a global unbinding leaves a stale link |
| LookupRuns.StaleReference | src/microcode/lookup.c:461-470 | a reachable state in which defining an unbound parameter leaves a reference behind |
| LookupRuns.UnboundReached | src/microcode/lookup.c:659-712 | a run that reaches that state |
| LookupRuns.CompiledLookup | src/microcode/lookup.c:811-815 | a compiled lookup through its cache sees what the interpreter's lookup sees |
| LookupRuns.CompiledOperator | src/microcode/lookup.c:1009-1015 | an operator slot is linked to the present value of the variable |
| LookupRuns.CompiledAssignment | src/microcode/lookup.c:849-862 | a compiled assignment has the same effect as the interpreter's, so none bypasses an operator link |
| LookupRuns.StepKeeps | src/microcode/lookup.c:453-940 | each operation of a run keeps the invariant |
| LookupRuns.RunKeeps | src/microcode/lookup.c:453-940 | over every run of frames, blocks, cachings, assignments, definitions and unbindings each cached reference belongs to the cache of the cell found for it, and slots and clones agree |
| LookupMoves.ReversedAt | src/microcode/lookup.c:1133-1164 | the references that are moved come in the opposite order |
| LookupLaws.ScopeRule | src/microcode/lookup.c:1194-1261 | the binding of a variable is the one in the extension of the frame, or its parameter that has not been unbound, or what the enclosing frame has; what no frame binds is global |
| LookupLaws.LookupRule | src/microcode/lookup.c:204-265 | a lookup answers the content of the cell or of the cache attached to it; unassigned, unbound and macro are told apart as errors |
| LookupLaws.AssignLaw | src/microcode/lookup.c:348-430 | exactly a variable that has a value or is unassigned can be assigned; it has the value afterwards, and all other variables keep theirs |
| LookupLaws.DefineLaw | src/microcode/lookup.c:453-512 | a definition makes the frame bind the variable, with the value; exactly the frames inside it that had the same variable before see the new binding |
| LookupLaws.UnbindLaw | src/microcode/lookup.c:659-749 | a variable that is bound gives way to the binding that it shadowed, or is unbound if it is global; otherwise nothing happens |
| LookupLaws.FrameLaw | src/microcode/interp.c:905-918 | a new frame binds every parameter to its argument and sees what its parent sees; the other frames see what they saw |
| LookupLaws.CacheLaw | src/microcode/lookup.c:911-978 | caching a variable for compiled code changes no variable |
| LookupLaws.CompiledLaw | src/microcode/lookup.c:849-862 | a compiled assignment assigns the variable for which its place was cached |
| LookupCaching.CachingInvisible | src/microcode/lookup.c:348-978 | after any run every variable is the binding, and holds the value, that it would if nothing had been cached and every compiled assignment had been interpreted |
| LookupCaching.InvisibleFromStart | src/microcode/lookup.c:204-978 | so no lookup after a run from the initial state can tell |
| InterpRefinement.Simulate | src/microcode/interp.c:353-780 | from do_expression the machine comes to pop_return with the evaluator's value and exactly the starting stack, or fails with its error, or overflows just when the evaluation needs more stack; an unfinished evaluation keeps the machine running |
| InterpRefinement.SimulateOperands | src/microcode/interp.c:605-626 | operands are evaluated last to first and stored in their slots |
| InterpRefinement.SimulateApply | src/microcode/interp.c:889-918 | the frame on the stack is popped into a new environment frame and the body evaluated with no extra stack, as the evaluator does, whose applications are those of `ClosureLaw` |
| InterpTheorems.HaltsIff | src/microcode/interp.c:353-782 | the machine halts with a value if and only if the evaluator yields it and there is enough stack |
| InterpTheorems.FailsIff | src/microcode/interp.c:353-782 | the same for errors |
| InterpTheorems.OverflowsIff | src/microcode/interp.c:353-782 | the stack overflows if and only if it is smaller than the space the evaluator counts |
| InterpTheorems.FuelDoesNotMatter | src/microcode/interp.c:353-782 | the evaluator's outcome and space do not depend on the bound of the recursion |
| InterpTheorems.TailReached | src/microcode/interp.c:149-165 | every tail position is reached with exactly the stack the expression started with |
| InterpTheorems.TailCallsNeedNoStack | src/microcode/interp.c:149-165 | any number of tail positions in a row needs the space of the largest alone |
| InterpTheorems.TailValue | src/microcode/interp.c:149-165 | an expression has the value of its tail position |
| InterpHealth.StepHealthy | src/microcode/interp.c:353-918 | every step keeps the compiled references consistent with the environments |
| InterpHealth.FreshHealthy | src/microcode/interp.c:256-353 | a fresh machine with ordinary constants and primitives is healthy |
| InterpHealth.RunHealthy | src/microcode/interp.c:353-918 | so does every run of any program with ordinary constants |
| InterpLoop.Interpreter.Interpret | src/microcode/interp.c:259-782 | the loop on the registers and the stack array ends with the evaluator's outcome: the meaning of the program that the laws of `InterpLaws` determine, or an overflow just when the stack is too small |
| InterpLoop.Interpreter.Dispatch | src/microcode/interp.c:395-782 | one turn of the loop is one step of the machine |
| InterpLoop.Interpreter.StartCombination | src/microcode/interp.c:455-470 | slots for the operands, the finger, and the first operand or the operator |
| InterpLoop.Interpreter.SaveOperand | src/microcode/interp.c:605-626 | the value is stored below the finger and the next part taken up |
| InterpLoop.Interpreter.ApplyClosure | src/microcode/interp.c:889-918 | the frame is popped word by word and the body entered, in a new environment that gives the parameters the words of the stack in order and has the closure's own environment behind it |
| InterpLoop.Interpreter.PopValues | src/microcode/interp.c:908-913 | the popped words in order |
| InterpLaws.OneMeaning | src/microcode/interp.c:353-782 | a program has one meaning, a value with a memory or an error |
| InterpLaws.MachineMeans | src/microcode/interp.c:353-782 | the machine comes to this meaning if its stack is large enough, and overflows otherwise |
| InterpLaws.VariableLaw | src/microcode/interp.c:540-559 | a variable has the value that it is bound to; unassigned, unbound and macro are different errors |
| InterpLaws.ProcedureLaw | src/microcode/interp.c:491-519 | a lambda expression makes a closure of itself and the present environment, a delay a promise, at the free pointer |
| InterpLaws.ConditionalLaw | src/microcode/interp.c:669-673 | a conditional means its alternative exactly if the decider yields #F, and otherwise its consequent |
| InterpLaws.DisjunctionLaw | src/microcode/interp.c:675-681 | a disjunction means its alternative if the decider yields #F, and otherwise has the value of the decider |
| InterpLaws.SequenceLaw | src/microcode/interp.c:528-531 | a sequence means its second part, in the memory that the first leaves |
| InterpLaws.ErrorLaw | src/microcode/interp.c:353-782 | an error of the part that is evaluated first is the error of the whole |
| InterpLaws.AssignmentLaw | src/microcode/interp.c:728-758 | an assignment yields the old value, or the unassigned marker; the variable then has the new value and no other changes; unbound variables and macros are errors |
| InterpLaws.DefinitionLaw | src/microcode/interp.c:760-783 | a definition yields the name, and the environment itself then binds it to the value |
| InterpLaws.AssignedThenRead | src/microcode/interp.c:728-758 | a variable that has been assigned has the new value |
| InterpLaws.DefinedThenRead | src/microcode/interp.c:760-783 | a variable that has been defined has the value |
| InterpLaws.CombinationLaw | src/microcode/interp.c:455-470 | a combination means the application of the value of its operator, evaluated last, to the values of its operands, evaluated last to first |
| InterpLaws.ClosureLaw | src/microcode/interp.c:889-918 | a closure that accepts the number of arguments means its body in a new frame where the parameters have the arguments, in order, behind which lies the closure's own environment |
| InterpLaws.ArityLaw | src/microcode/interp.c:893-901 | any other number of arguments is an error |
| InterpLaws.PrimitiveLaw | src/microcode/interp.c:931-951 | a primitive computes its value from the arguments, if it accepts their number, and is an error otherwise |
| InterpLaws.InapplicableLaw | src/microcode/interp.c:1069-1071 | nothing else can be applied |
| InterpLaws.LetLaw | src/microcode/interp.c:889-918 | a lambda expression that is applied to operands: its body with the parameters bound to their values and everything else as it was |
| InterpLaws.ParameterLaw | src/microcode/interp.c:905-918 | each parameter has the value of its own operand |
| InterpLaws.LexicalScope | src/microcode/interp.c:905-918 | a free variable of a procedure is read in the environment where the procedure was made, wherever it is called |
| InterpLaws.ApplicationLaw | src/microcode/interp.c:889-918 | one step of the machine applies a closure: the words of the stack frame become the values of the parameters |
| BignumFits.FitsInWord | src/microcode/bignum.c:740-774 | the answer in terms of the magnitude and the two 32-bit truncations, and the exact set of numbers, lengths and word lengths for which it is not the right one |
| BignumFits.OrdinaryMisjudged | src/microcode/bignum.c:740-774 | below 2^32 bits and digits only negative numbers are judged wrongly: those beyond the range whose length and top digit agree with the bound, or the bound itself when it has a digit more |
| BignumFits.JudgedRight | src/microcode/bignum.c:740-774 | the judgement says whether the number has room, if and only if it is not one of the misjudged ones |
| BignumFits.WordLengthWraps | src/microcode/bignum.c:744-752 | 2^58 is said not to fit in a word of 2^32 + 8 bits |
| BignumFits.LengthWraps | src/microcode/bignum.c:757-762 | a bignum of 2^32 digits is said to fit in a fixnum |
| BignumFits.LongMisjudged | src/microcode/bignum.c:740-774 | -(2^63 + 1) is said to fit in a long, and the conversion gives another number |
| BignumFits.FixnumJudged | src/microcode/artutl.c:199-206 | whether a number fits in a fixnum is judged rightly if and only if its length modulo 2^32 is not mistaken for 0 or 1 |
| BignumFits.ToLong | src/microcode/bignum.c:463-480 | the unsigned accumulator gives the number modulo 2^64, so the number itself if it is in the range of a long |
| Integers.OneRepresentation | src/microcode/artutl.c:199-206 | integers with the same value are the same fixnum, or bignums with the same header and digits |
| Integers.LongToInteger | src/microcode/artutl.c:75-82 | the integer with the value of the word, a fixnum exactly when the value is in range |
| Integers.BignumToInteger | src/microcode/artutl.c:199-206 | a bignum never keeps a value of the fixnum range; the value is kept if its number of digits is not mistaken (`Held`) and lost if that is taken for 0 (`Lost`); in between C leaves it open |
| Integers.FirstLost | src/microcode/artutl.c:199-206 | every number of less than 2^32 digits is kept, and the first one with 2^32 digits is lost |
| Integers.EqualInteger | src/microcode/artutl.c:299-308 | equality of the values |
| Integers.LessInteger | src/microcode/artutl.c:310-319 | the order of the values |
| Integers.NegateInteger | src/microcode/artutl.c:321-328 | the negative value, also when negation leaves or enters the fixnum range, kept or lost like every result |
| Integers.AddIntegers | src/microcode/artutl.c:330-340 | the sum, in its one representation, kept or lost like every result |
| Integers.SubtractIntegers | src/microcode/artutl.c:351-361 | the difference, in its one representation, kept or lost like every result |
| Integers.Mul | src/microcode/mul.c:205-240 | the product of two fixnums from their 32-bit halves, given if and only if its magnitude is below 2^57, without overflow of an unsigned word |
| Integers.MultiplyIntegers | src/microcode/artutl.c:372-388 | the product, in its one representation, kept or lost like every result |
| Integers.DivideIntegers | src/microcode/artutl.c:390-450 | the divisor zero is an error; otherwise the truncating quotient and the remainder with the sign of the dividend, for every mixture of fixnums and bignums, kept or lost like every result |
| Integers.QuotientIntegers | src/microcode/artutl.c:452-484 | #F for the divisor zero, otherwise the same quotient, kept or lost like every result |
| Integers.RemainderIntegers | src/microcode/artutl.c:486-517 | #F for the divisor zero, otherwise the same remainder, kept or lost like every result |
| Integers.NotInteger | src/microcode/artutl.c:596-603 | -1 - n, in its one representation |
| Integers.WordOperatorBit | src/microcode/artutl.c:606-640 | the operator on words of k bits and a sign acts on every bit of the infinite two's complement forms |
| Integers.BitwiseIntegers | src/microcode/artutl.c:606-640 | each bit of the result is the operator applied to the bits of the operands, for all ten operators and every mixture of representations, kept or lost like every result |
| Integers.ShiftedBignum | src/microcode/bignum.c:1411-1439 | the digits of n * 2^m exactly fill the length computed beforehand |
| Integers.ShiftIntegerLeft | src/microcode/artutl.c:668-698 | n * 2^m in its one representation; the test on the bit length decides exactly whether it is a fixnum |
| Integers.ShiftIntegerRight | src/microcode/artutl.c:700-712 | the floor of n / 2^m in its one representation, kept or lost like every result |
| BitCopy.CopyAligned | src/microcode/bitstr.c:365-525 | equal offsets: every bit of the run is the one read from the source, which within one bit string is the overwritten bit just when that lies in a higher word of the run; every other bit of the destination is unchanged |
| BitCopy.CopyRight | src/microcode/bitstr.c:365-525 | the same when the source offset is the smaller one, with words joined from two source words |
| BitCopy.CopyLeft | src/microcode/bitstr.c:365-525 | the same when the source offset is the larger one, with the partial word held in a buffer |
| BitCopy.CopyBits | src/microcode/bitstr.c:365-525 | the same for every length and all offsets below the word size; the original bits arrive unless the run moves down within one bit string by less than its length |
| BitCopy.TransferredIff | src/microcode/bitstr.c:365-525 | the original bits arrive if and only if the source repeats itself, at the distance of the move, where it is overwritten before it is read |
| BitCopy.OneByOneAt | doc/ref-manual/bit-strings.texi:262-264 | copying bit by bit from the top gives at each place the bit already written above it, or the original bit |
| BitCopy.InOrderIff | src/microcode/bitstr.c:365-525 | the result is that of the documented bit by bit copy if and only if the source, where a word at a time is read too early, already has the bits that copy would put there; always when the run moves up, or down by a word or more |
| BitCopy.OrderLost | doc/ref-manual/bit-strings.texi:262-264 | two bits moved down by one place within a word: the result is not that of the documented order |
| FasdumpHeap.FixupAdded | src/microcode/fasdump.c:501-516 | a first visit adds a fixup with the original word, and the addresses stay distinct |
| FasdumpHeap.WholeObject | src/microcode/fasdump.c:384-399 | an object that has not been visited still has all its original words |
| Fasdump.Dumper.AddFixup | src/microcode/fasdump.c:501-516 | the fixup is appended to those recorded, also when the buffer is replaced by one of twice the size |
| Fasdump.Dumper.RunFixups | src/microcode/fasdump.c:518-528 | the heap is the original heap again, and the words outside it are not touched |
| Fasdump.Dumper.PrecheckFrom | src/microcode/fasdump.c:384-388 | zero exactly for the objects that have not been visited |
| Fasdump.Dumper.TransportWords | src/microcode/fasdump.c:390-399 | the copy has the original words and is the last of the copies; the fixup is recorded before the word is overwritten; without room nothing changes |
| Fasdump.Dumper.HandleSymbol | src/microcode/fasdump.c:422-437 | the forwarded pointer; a new copy has the symbol's name and, for its global value, a broken heart of address 0 if it is interned and otherwise the unbound trap, type 0x32 with datum 2 |
| Fasdump.Dumper.HandleVariable | src/microcode/fasdump.c:448-461 | the forwarded pointer; a new copy has the first word, then the constant of type 8 with datum 0, and #F |
| Fasdump.Dumper.HandleEphemeron | src/microcode/fasdump.c:472-479 | each ephemeron that is copied is counted once, at its first visit |
| Fasdump.Dumper.ScanTospace | src/microcode/fasdump.c:324-479 | the scan ends with every scanned word of every copy forwarded, each copy reached by a pointer met in the dump, and the fixups covering exactly the source words that have changed; otherwise the reason is a reached object without room, or a reached environment where they are forbidden |
| Fasdump.Dumper.Dump | src/microcode/fasdump.c:491-528 | on success and on every error the heap is afterwards what it was; on success tospace holds a dump of the graph, with the words of symbols and variables that `WordsReset` gives, and the count of ephemerons is that of the copies; on an error the reason holds of the heap |
| FasdumpImage.CopyAdded | src/microcode/fasdump.c:390-399 | a new copy behind the others keeps what is known of the copies and the broken hearts |
| FasdumpImage.WordStep | src/microcode/fasdump.c:324-352 | forwarding the scanned word and passing over raw data keeps the invariant, and the scan comes to the next word of the copy or to the next copy |
| FasdumpImage.GraphDumped | src/microcode/fasdump.c:324-479 | every path of fields from the root in the heap leads, in the dump, to the same word: a pointer of the same type to the copy of what it pointed to, or an equal word; only the value of a symbol and the cache of a variable are no fields |
| FasdumpImage.WordDumped | src/microcode/fasdump.c:324-479 | each word of a copied object is in the dump, forwarded where the walk comes to it and unchanged where it is raw data |
| FasdumpImage.WordsReset | src/microcode/fasdump.c:422-461 | a copied object that is only reached as an interned symbol, an uninterned symbol or a variable has, in the dump, the broken heart of address 0, the unbound trap 0x32:2, or the words 8:0 and #F |
| FasdumpImage.OnlyReached | src/microcode/fasdump.c:324-479 | every copied object is reached from the root by fields of the heap |
| FasdumpImage.NoEnvironment | src/microcode/fasdump.c:463-470 | after a scan that forbids environments no path in the heap leads to one |
| FasdumpImage.SharingDumped | src/microcode/fasdump.c:384-399 | two pointers lead to one object of the dump just when they do in the heap |
| AvlTree.BeforeTrans | src/microcode/primutl.c:79-98 | the comparison that ignores case is transitive, also through names that differ only in case |
| AvlTree.ComparedLaw | src/microcode/primutl.c:79-98 | characters that are equal or one letter in two cases do not decide; the first other pair decides by its capitals, and a name that ends before the other is less |
| AvlTree.RebalancedLeft | src/microcode/avltree.c:110-125 | a left branch higher by at most two is brought into balance, with the height before or one more |
| AvlTree.RebalancedRite | src/microcode/avltree.c:127-142 | the same for the right branch |
| AvlTree.InsertBalanced | src/microcode/avltree.c:144-169 | insertion keeps all heights right and every node balanced, and the tree grows by one level at most |
| AvlTree.InsertEntries | src/microcode/avltree.c:144-169 | the entries in order are the old ones with the new one in its place, or the old ones for a duplicate |
| AvlTree.InsertedOne | src/microcode/avltree.c:144-169 | exactly the new entry is added |
| AvlTree.InsertSorted | src/microcode/avltree.c:144-169 | the entries stay strictly sorted |
| AvlTree.InsertThenLookup | src/microcode/avltree.c:144-189 | a new name is found with its value; any other name, and a name that was there, is found with the value it had |
| AvlTree.AtLeastFibonacci | src/microcode/avltree.c:45-55 | a balanced tree of height h has at least Fib(h + 2) - 1 nodes |
| AvlTree.LookupFinds | src/microcode/avltree.c:171-189 | in a sorted tree the search finds an entry with the name exactly when there is one |
| AvlTree.BuiltBalanced | src/microcode/avltree.c:191-215 | the tree built from n names is balanced, has n nodes and the height of the bit length of n, whatever the bias is |
| AvlTree.BuiltEntries | src/microcode/avltree.c:191-215 | its entries in order are the names with their indices |
| AvlTree.BuiltLookup | src/microcode/avltree.c:171-215 | in the tree built from strictly sorted names, each name is found with its index |
| AvlTree.BiasOdd | src/microcode/avltree.c:191-215 | building from an odd number of names leaves the static bias as it was |
| AvlTree.BiasEven | src/microcode/avltree.c:191-215 | an even number turns it once more than the one branch of even size does |
| AvlNodes.RotateNodesLeft | src/microcode/avltree.c:86-96 | the nodes are relinked in place into the rotated tree, and no node is lost or added |
| AvlNodes.RotateNodesRite | src/microcode/avltree.c:98-108 | the mirror image |
| AvlNodes.RebalanceNodesLeft | src/microcode/avltree.c:110-125 | the nodes become the rebalanced tree, by none, one or two rotations |
| AvlNodes.RebalanceNodesRite | src/microcode/avltree.c:127-142 | the mirror image |
| AvlNodes.StrcmpCi | src/microcode/primutl.c:79-98 | the loop gives the order of the names without regard to case |
| AvlNodes.InsertNode | src/microcode/avltree.c:144-169 | all the old nodes, and fresh ones for what is added, form the tree of `AvlTree.Insert`; the duplicate is reported exactly when the name was found before |
| AvlNodes.LookupNode | src/microcode/avltree.c:171-189 | the loop finds the node of the tree that `AvlTree.Lookup` describes, or null |
| AvlNodes.BuildNodes | src/microcode/avltree.c:191-215 | fresh nodes that form the tree of `AvlTree.Built`, and the static bias that the next call finds |

## Left out

- Compiled-code objects in the collector (linkage sections, manifest closures, compiled entries).
- Alignment padding of floating-point vectors in the collector (`align_p`): in the 64-bit configuration every address is aligned and no padding word is written.
- GcCollector.Collector.Collect: assumes that live ephemerons whose keys are live objects of fromspace have different keys (`UniqueKeys`); without it the queue loop can run for ever, exactly as `SecondWalkEndsExactly` says. Ephemerons copied after their key need not be counted, but whether that happens depends on the order of the scan.
- GC_DEBUGGING checks, object reference tracing, the ephemeron array's reallocation after a collection.
- Bignum lengths: `LENGTH_MAX` bounds the operands where the header's length field would overflow and the code has only an assertion.
- BignumShift.ShiftRight: the bignum -1 shifted by 1 to 61 bits is excluded, because its complement is zero and has no filler word behind it; -1 is a fixnum, so `Integers.ShiftIntegerRight` has no such exception.
- BignumRadix.DigitStreamToBignum: requires that the estimated length is enough, by the exact condition `EstimateFits`; the radix is below the radix root, as `bignum_destructive_scale_up` asserts although `bignum.c:1448` admits the root itself.
- BignumDouble.ToDouble: a number that a mistaken negative exponent scales down is given as significand and exponent, without the rounding of subnormal numbers.
- Conversion from doubles, bit counts, bit fields, Hamming distance and one-bit masks.
- Weak references emptied by the collector in reference lists, the checks for free heap, `link_variables`, global operator caching, environments that do not end at the global frame, symbol strengthening, and the growth of frame extensions.
- LookupRuns.RunKeeps: a run contains no unbinding of a global variable with operator references and no definition over an unbound parameter that should capture references; both conditions are exact.
- The interpreter's interrupts, garbage collection checks, stepper, history, error continuations, entities, control points, extended lambdas, `access`, `the-environment`, compiled entries and forcing of promises. A primitive is a function from its arguments to a value.
- Integers.ShiftIntegerRight: nothing is said of the value of a fixnum shifted by 64 or more, since C leaves larger shifts of a word undefined.
- Integers.ShiftIntegerLeft: shifts by 2^64 - 57 or more, for which the sum at `artutl.c:678` wraps; no length in a header could hold the result.
- AvlNodes.StrcmpCi: `toupper` is that of the C locale.
- BitCopy.CopyBits: the bit strings of big-endian machines, and the conversions between bit strings and integers.
- The word helpers of `bits.h`: bit lengths are the function `Bits.BitLength`, and bit counts are not needed.
- Fasdump.Dumper.Dump: primitive renumbering, compiled code and the mode that drops its environments, and the file itself.
- AvlNodes.InsertNode: failing `malloc` and `tree_free`.
- FASL files, boot, operating system interface, and the flonum primitives.
