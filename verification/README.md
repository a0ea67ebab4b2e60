# Verification of the arithmetic, allocators and protocols

A Dafny model of five groups of code, with proofs over every input, every run or every
interleaving:

- **Big integers** (`Arith`, `Polynomial`, `Digits`, `BigInt`, `Numerals`, `Karatsuba`): limbs of 32
  bits with a sign, specified by plain integers. `Ntt`, `NttTables` and `SchonhageStrassen` carry the
  number-theoretic transform with its tables, the Chinese remainder step, and the product built
  on them.
- **Heap managers**: the red-black tree of free blocks (`RbShape`, `RbStore`, `RbFixup`, `RbTree`),
  the buddy system (`Dyadic`, `BuddyBlocks`, `Buddy`), the sorted free list (`SortedChunks`,
  `SortedList`) and the boundary tags (`TaggedBlocks`, `BoundaryTags`). `FitModes` and `Links` are
  shared.
- **Streaming search** (`Kmp`).
- **Exact fractions** (`Rational`, `Newton`, `Fraction`).
- **Protocols**: the dining philosophers (`Philosophers`) and the river-crossing server (`River`,
  `RiverServer`).

Code that updates fields, arrays or linked nodes in place is modelled by classes and methods over
arrays and nodes, each proved against a specification on values. The raw memory of an allocator is
an array with one cell per offset: a cell is what a block header at that offset would read. Only
headers of live blocks are constrained; every other cell may hold anything. For framing a cell
counts as the byte at its offset: a header written changes the one cell where it starts, and what
its other bytes would read as is not followed. `dafny verify dfyconfig.toml` checks everything.

## What the proofs brought out

- `a % b` is the remainder of the magnitudes, so `(a/b)*b + a%b` equals `a` exactly when `a` is not
  negative or `b` divides it.
- `*` is multiplication exactly when the right operand has at most 32 limbs or the left one at most
  eight. Beyond that the Karatsuba rule takes the operands apart by limbs and shifts the products by
  bits, and always returns too little. Shifted addition and subtraction mix the units in the same
  way: by limbs where magnitudes are added, by bits where they are subtracted.
- The Schönhage-Strassen product is exact exactly when no coefficient of the digit convolution
  reaches `MOD1*MOD2`. Three full digits on both sides are already too many.
- The buddy allocator adds eight bytes to a request and uses nine, so a request eight below a block
  size, like eight, loses its last byte. Its worst fit is the last fitting block, not the largest.
  For a size that is no power of two it claims more memory than it allocated, and zero is accepted.
- In the buddy system and with boundary tags the owner word survives a release, so the check against
  foreign pointers does not stop a second one.
- The sorted list refuses a free block that would fit the request exactly: it asks for a header's
  bytes more. A pointer to no occupied block is refused only when there is a logger; otherwise the
  list is led to it, and no list of blocks fits the memory any more.
- `x /= x` on one fraction object gives one over its denominator.
- The guard against even roots of negative numbers looks at the numerator, which is never negative
  in canonical form; the n-th root of a negative x, n even, then never meets the exit condition while
  (n-1)^(n-1) * eps^n is below the magnitude of x. The root of zero is refused.
- Where `char` is signed, the search never finds a pattern with a byte of 128 or more.
- The dining philosophers are free of deadlock exactly when there are permits, but fewer than
  philosophers.
- The river server makes a rejected move all the same, so a client that ignores error replies is
  told that all were moved after five moves instead of seven.

## Model

| member | source | states |
|---|---|---|
| BigInts.BigInt.Optimise | arithmetic/big_integer/src/big_int.cpp:14-21 | keeps the number, drops leading zero limbs, and makes zero positive |
| BigInts.BigInt.IsZeroMeans | arithmetic/big_integer/src/big_int.cpp:10-12 | in normal form `is_zero` holds exactly for the number zero |
| BigInts.BigInt.FromInt | arithmetic/big_integer/include/big_int.h:179-189 | the limbs of a machine integer stand for that integer, in normal form |
| BigInts.BigInt.FromDigits | arithmetic/big_integer/src/big_int.cpp:41-45 | any limbs and sign become the normal form of the same number |
| BigInts.NormalFormUnique | arithmetic/big_integer/src/big_int.cpp:112-131 | two normal forms of one number have the same sign and limbs |
| BigInts.BigInt.Compare | arithmetic/big_integer/src/big_int.cpp:112-127 | less, equal and greater exactly as the integers are ordered, and equal exactly for the same sign and limbs |
| BigInts.BigInt.AddLimbs | arithmetic/big_integer/src/big_int.cpp:347-368 | the carry loop leaves limbs whose value is the sum of this magnitude and the other one moved up by `shift` limbs |
| BigInts.BigInt.SubtractLimbs | arithmetic/big_integer/src/big_int.cpp:305-327 | the borrow loop ends without a borrow, and the limbs stand for the difference of the magnitudes |
| BigInts.BigInt.PlusAssign | arithmetic/big_integer/src/big_int.cpp:345-379 | the exact signed sum, in normal form; a shifted operand is moved by limbs if the signs agree and by bits if they differ; the mutual recursion with subtraction ends |
| BigInts.BigInt.MinusAssign | arithmetic/big_integer/src/big_int.cpp:284-334 | the exact signed difference, in normal form; a shifted operand is moved by bits if the signs agree and by limbs if they differ |
| BigInts.ShiftedByLimbsExactly | arithmetic/big_integer/src/big_int.cpp:284-379 | so a shift moves the operand by limbs if and only if it is zero, or nothing is shifted, or the magnitudes are added |
| BigInts.ShiftedMeans | arithmetic/big_integer/src/big_int.cpp:284-379 | the two kinds of shift in numbers: by limbs a power of 2^32, by bits a power of two |
| BigInts.OrIsSum | arithmetic/big_integer/src/big_int.cpp:200 | the or with the carry, below the bits shifted out of the way, is an addition |
| BigInts.BigInt.ShiftBits | arithmetic/big_integer/src/big_int.cpp:197-208 | the loop over the limbs multiplies by 2^bits; every intermediate fits 64 bits |
| BigInts.BigInt.ShiftLeft | arithmetic/big_integer/src/big_int.cpp:189-211 | `<<=` multiplies by 2^shift, in normal form |
| BigInts.BigInt.MultiplyRow | arithmetic/big_integer/src/big_int.cpp:426-435 | one row adds limb times multiplier times BASE^i; the carry never writes past limb i + m, and every intermediate fits 64 bits |
| BigInts.BigInt.MultiplyLimbs | arithmetic/big_integer/src/big_int.cpp:422-436 | the rows together are the product, in n + m limbs |
| BigInts.BigInt.MultiplyAssign | arithmetic/big_integer/src/big_int.cpp:414-442 | trivial rule: the exact signed product, in normal form |
| BigInts.BigInt.QuotientDigit | arithmetic/big_integer/src/big_int.cpp:491-501 | the binary search over [0, BASE] finds the one digit q with q*b <= r < (q+1)*b; q is below BASE, and `mid - 1` is stored in a variable that cannot be negative |
| BigInts.BigInt.DivisionStep | arithmetic/big_integer/src/big_int.cpp:488-507 | bringing down a limb: old remainder * BASE + limb = q * b + new remainder, and the new remainder is below b |
| BigInts.BigInt.LongDivision | arithmetic/big_integer/src/big_int.cpp:485-508 | all steps together divide the dividend's magnitude |
| BigInts.BigInt.DivideAssign | arithmetic/big_integer/src/big_int.cpp:470-514 | the quotient of the magnitudes with the product of the signs; refused exactly for a non-zero number over zero |
| BigInts.BigInt.ModuloAssign | arithmetic/big_integer/src/big_int.cpp:525-565 | the remainder of the magnitudes, never negative; refused exactly for a non-zero number modulo zero |
| BigInts.DivisionOfMagnitudes | arithmetic/big_integer/src/big_int.cpp:470-565 | |a| = |a/b| * |b| + a%b with 0 <= a%b < |b|, and a quotient that is not zero has the product of the signs |
| BigInts.DivisionIdentityExactly | arithmetic/big_integer/src/big_int.cpp:525-565 | (a/b)*b + a%b equals a if and only if a is not negative or b divides it: the remainder drops the dividend's sign |
| BigInts.NegativeDividendExample | arithmetic/big_integer/src/big_int.cpp:525-565 | -7 and 2 are a case where it does not |
| Karatsuba.LimbsOfDigits | arithmetic/big_integer/src/big_int.cpp:14-21 | a normal form has as many limbs as its number needs |
| Karatsuba.Cut | arithmetic/big_integer/src/big_int.cpp:597-618 | the operand's limbs below and above the cut stand for remainder and quotient by BASE^m |
| Karatsuba.Pieces | arithmetic/big_integer/src/big_int.cpp:595-626 | the pieces and their sums are short enough for the recursion to end |
| Karatsuba.Assemble | arithmetic/big_integer/src/big_int.cpp:627-637 | the three products are put together with shifts by bits, with the sign of the product |
| Karatsuba.MultiplyKaratsuba | arithmetic/big_integer/src/big_int.cpp:589-638 | ends, and returns the value those shifts give, in normal form |
| Karatsuba.KaratsubaBelow | arithmetic/big_integer/src/big_int.cpp:589-638 | above eight limbs on both sides that value is below BASE^(n+k-2), where n and k are the lengths |
| Karatsuba.ProductOfPieces | arithmetic/big_integer/src/big_int.cpp:595-626 | remainder and quotient by BASE^m, joined with BASE^(2m) and BASE^m, give the true product |
| Karatsuba.OneLevel | arithmetic/big_integer/src/big_int.cpp:589-638 | for nine to fourteen limbs the rule joins the same pieces, cut at half the longer length rounded up, with 2^(2m) and 2^m |
| Karatsuba.KaratsubaExactly | arithmetic/big_integer/src/big_int.cpp:589-638 | the rule returns the product if and only if one operand has at most eight limbs, and never more than the product |
| Karatsuba.KaratsubaExample | arithmetic/big_integer/src/big_int.cpp:589-638 | BASE^8 times itself comes out as 2^10 * BASE^6 |
| Karatsuba.MultiplyAssignKaratsuba | arithmetic/big_integer/src/big_int.cpp:443-449 | the rule's branch with the product of the signs |
| Karatsuba.TimesAssign | arithmetic/big_integer/src/big_int.cpp:461-463 | `*=` chooses the rule by the length of the right operand |
| Karatsuba.TimesExactly | arithmetic/big_integer/src/big_int.cpp:461-463 | `*=` is multiplication if and only if the right operand has at most 32 limbs or the left one at most eight |
| Numerals.AppendDigit | arithmetic/big_integer/src/big_int.cpp:87-98 | one turn of the parse loop: limbs * radix + digit, no leading zero limb, no overflow of 64 bits |
| Numerals.ParseDigits | arithmetic/big_integer/src/big_int.cpp:80-99 | accepts exactly the strings of digits of the radix, and gives the number they stand for by NextDigit |
| Numerals.Parse | arithmetic/big_integer/src/big_int.cpp:53-100 | the whole string constructor, sign, leading zeros, empty strings and errors included, agrees with what the text means: the number, BadRadix or BadDigit |
| Numerals.DigitValues | arithmetic/big_integer/src/big_int.cpp:22-38 | a character is worth i exactly if it is character i of 0...9A...Z or of 0...9a...z, and -1 exactly if it is in neither |
| Numerals.SignedMeaning | arithmetic/big_integer/src/big_int.cpp:60-79 | a plus sign in front changes nothing, a minus sign the sign of the number only |
| Numerals.NextDigit | arithmetic/big_integer/src/big_int.cpp:80-99 | one more digit, in upper or lower case: the number so far times the radix, plus the place of the digit |
| Numerals.Refusals | arithmetic/big_integer/src/big_int.cpp:53-85 | BadRadix exactly outside 2 to 36; BadDigit exactly if a character behind the sign is not among the first digits |
| Numerals.ReadsHexadecimal | arithmetic/big_integer/src/big_int.cpp:53-100 | ab, +AB and -aB in radix 16 are 171, 171 and -171 |
| Numerals.TakeDigit | arithmetic/big_integer/src/big_int.cpp:258-262 | one turn of the print loop takes the last decimal digit off, and the number shrinks |
| Numerals.ToString | arithmetic/big_integer/src/big_int.cpp:253-268 | the text printed is the canonical decimal numeral of the number: a minus sign exactly below zero, else digits only, none of them a leading zero but in "0"; the loop ends |
| Numerals.PrintedCanonical | arithmetic/big_integer/src/big_int.cpp:253-268 | every printed text has that form |
| Numerals.PrintedExactly | arithmetic/big_integer/src/big_int.cpp:253-268 | and is the only text of that form that means the number |
| Numerals.PrintParseRoundTrip | arithmetic/big_integer/src/big_int.cpp:53-100 | reading a printed number back in radix 10 gives the same number, for every number |
| Numerals.ReparsedFields | arithmetic/big_integer/src/big_int.cpp:253-268 | and the same limbs and sign |
| Ntt.GeometricVanishes | arithmetic/big_integer/src/big_int.cpp:683-705 | the powers of w^d, 0 < d < n, sum to zero modulo m when w is a principal n-th root |
| Ntt.Orthogonality | arithmetic/big_integer/src/big_int.cpp:683-705 | the rows of forward and inverse transform are orthogonal modulo m |
| Ntt.InverseTransform | arithmetic/big_integer/src/big_int.cpp:708-721 | the inverse sum over a spectrum gives n times each coefficient |
| Ntt.Butterflies | arithmetic/big_integer/src/big_int.cpp:691-704 | the in-place butterfly loop joins the two half transforms, and touches nothing outside [l, l+n) |
| Ntt.Fft | arithmetic/big_integer/src/big_int.cpp:683-705 | the recursive strided transform evaluates the strided polynomial at the n powers of the root, in place, scaled by 1/n on the way back |
| Ntt.Pointwise | arithmetic/big_integer/src/big_int.cpp:713-716 | the products of two spectra are the spectrum of the cyclic convolution |
| Ntt.ProductSpectrum | arithmetic/big_integer/src/big_int.cpp:713-716 | evaluating at an n-th root cannot tell a product from its cyclic folding |
| Ntt.RecoverCoefficient | arithmetic/big_integer/src/big_int.cpp:718-720 | transform, scaling by powers of INV2 and inverse roots give each coefficient back modulo m |
| Ntt.PolyMultiply | arithmetic/big_integer/src/big_int.cpp:708-721 | forward, pointwise product and inverse together are the cyclic convolution modulo m, for every power-of-two length: entry j is the sum of a[i] * b[(j - i) mod n] |
| Polynomial.CyclicProduct | arithmetic/big_integer/src/big_int.cpp:708-721 | that sum is the folded product of the two polynomials |
| NttTables.Constants1 | arithmetic/big_integer/src/big_int.cpp:657-658 | W1 is a principal 2^19-th root modulo MOD1, IW1 its inverse, INV21 the inverse of two |
| NttTables.Constants2 | arithmetic/big_integer/src/big_int.cpp:659-660 | the same for the second modulus |
| NttTables.FillTables | arithmetic/big_integer/src/big_int.cpp:665-678 | the squaring loop fills every power-of-two entry of both tables |
| NttTables.RootAt | arithmetic/big_integer/src/big_int.cpp:662-671 | entry n of the table is a principal n-th root, for every power of two up to MAXN |
| NttTables.TablesReady | arithmetic/big_integer/src/big_int.cpp:665-679 | the filled tables meet every hypothesis of the transform, for every length up to MAXN |
| NttTables.CrtRecovers | arithmetic/big_integer/src/big_int.cpp:738-746 | `crt` of the two residues of any number is its residue modulo MOD1*MOD2 |
| NttTables.CrtFits | arithmetic/big_integer/src/big_int.cpp:738-746 | the sum of the two terms fits 64 bits, and every product before it 128 |
| SchonhageStrassen.ExtractDigits | arithmetic/big_integer/src/big_int.cpp:759-768 | the division loop yields the digits of the magnitude in base MOD1 - 1, least first, and ends |
| SchonhageStrassen.Normalize | arithmetic/big_integer/src/big_int.cpp:724-735 | carries leave proper digits of the same value, whatever the number of digits pushed |
| SchonhageStrassen.TransformLength | arithmetic/big_integer/src/big_int.cpp:770-772 | the doubling loop finds a power of two that is long enough and at most MAXN |
| SchonhageStrassen.CombinedProduct | arithmetic/big_integer/src/big_int.cpp:773-782 | both convolutions and `crt` give each product coefficient modulo MOD1*MOD2, without cyclic wrap-around; zeros if an operand has no digits |
| SchonhageStrassen.Reassemble | arithmetic/big_integer/src/big_int.cpp:785-793 | the weighted sum of the digits |
| SchonhageStrassen.Tables.Init | arithmetic/big_integer/src/big_int.cpp:749-755 | the tables are filled once and stay filled |
| SchonhageStrassen.MultiplySchonhageStrassen | arithmetic/big_integer/src/big_int.cpp:748-794 | the result is the value of the coefficients, each taken modulo MOD1*MOD2; zero for a zero operand |
| SchonhageStrassen.MultiplyAssignSsa | arithmetic/big_integer/src/big_int.cpp:450-456 | the same with the product of the signs |
| SchonhageStrassen.CoefficientsMean | arithmetic/big_integer/src/big_int.cpp:757-768 | the coefficients of the digit convolution stand for |a|*|b| |
| SchonhageStrassen.SsaMisses | arithmetic/big_integer/src/big_int.cpp:748-794 | in numbers, for any two magnitudes: the digits are in base 998244352, and the result falls short of the product by 998244353 * 2113929217 times what the residues lose |
| SchonhageStrassen.ExactlyWhenNoOverflow | arithmetic/big_integer/src/big_int.cpp:748-794 | the product is exact if and only if every coefficient is below MOD1*MOD2 |
| SchonhageStrassen.ExactForShortOperand | arithmetic/big_integer/src/big_int.cpp:748-794 | so it is exact whenever one operand has at most two digits |
| SchonhageStrassen.ThreeDigitsOverflow | arithmetic/big_integer/src/big_int.cpp:748-794 | three full digits on each side give a product that is too small |
| RbShape.BalancedExactly | allocator/allocator_red_black_tree/src/allocator_red_black_tree.cpp:322-435 | the invariant kept below is the textbook one: no red node under a red one, equal black counts on all paths from the root |
| RbStore.RotateLeftTree | allocator/allocator_red_black_tree/src/allocator_red_black_tree.cpp:611-636 | a left rotation anywhere in a tree of consistent parent pointers gives the rotated tree, parent pointers consistent again |
| RbStore.RotateRightTree | allocator/allocator_red_black_tree/src/allocator_red_black_tree.cpp:638-663 | the same to the right |
| RbTrees.RbTree.RotateLeft | allocator/allocator_red_black_tree/src/allocator_red_black_tree.cpp:611-636 | every pointer written by the rotation, through the link passed by reference; nothing if there is no right child |
| RbTrees.RbTree.RotateRight | allocator/allocator_red_black_tree/src/allocator_red_black_tree.cpp:638-663 | the mirror image |
| RbTrees.RbTree.FindPlace | allocator/allocator_red_black_tree/src/allocator_red_black_tree.cpp:330-345 | the descent ends at the hole where the new block keeps the order by size |
| RbTrees.RbTree.Attach | allocator/allocator_red_black_tree/src/allocator_red_black_tree.cpp:347-361 | the new block hangs in that hole, by both pointers |
| RbFixup.GrandparentExists | allocator/allocator_red_black_tree/src/allocator_red_black_tree.cpp:371-374 | under a red parent the grandparent is never null and is black |
| RbFixup.RedUncleStep | allocator/allocator_red_black_tree/src/allocator_red_black_tree.cpp:381-387 | recolouring moves the red-red conflict two levels up and keeps order and black heights |
| RbFixup.StraightenStep | allocator/allocator_red_black_tree/src/allocator_red_black_tree.cpp:389-396 | the inner rotation keeps order and black heights |
| RbFixup.FinishStep | allocator/allocator_red_black_tree/src/allocator_red_black_tree.cpp:398-401 | recolouring and the outer rotation remove the conflict and keep order and black heights |
| RbTrees.RbTree.LeftCases | allocator/allocator_red_black_tree/src/allocator_red_black_tree.cpp:376-403 | the left half of a turn, on the pointers, does what the three steps say, and the depth falls |
| RbTrees.RbTree.RightCases | allocator/allocator_red_black_tree/src/allocator_red_black_tree.cpp:404-431 | the right half likewise |
| RbTrees.RbTree.FixUp | allocator/allocator_red_black_tree/src/allocator_red_black_tree.cpp:371-434 | the loop ends; the tree has a black root, no red under red, equal black heights, consistent parents, unchanged order |
| RbTrees.RbTree.Insert | allocator/allocator_red_black_tree/src/allocator_red_black_tree.cpp:322-435 | from any valid tree: a valid tree, whose in-order sequence is the old one with the new block put in by size |
| RbTrees.RbTree.BestFit | allocator/allocator_red_black_tree/src/allocator_red_black_tree.cpp:252-284 | null exactly when no block is large enough, otherwise a smallest one that is |
| RbTrees.RbTree.WorstFit | allocator/allocator_red_black_tree/src/allocator_red_black_tree.cpp:286-305 | null exactly when no block is large enough, otherwise a largest block |
| RbTrees.RbTree.FirstFit | allocator/allocator_red_black_tree/src/allocator_red_black_tree.cpp:236-250 | null exactly when no block is large enough, although only the right spine is walked; otherwise the topmost block there that is |
| Buddies.NearestGreaterK | allocator/allocator_buddies_system/include/allocator_buddies_system.h:14-32 | the bit loop finds the least k with size <= 2^k; for zero the -1 comes back as the largest `size_t` |
| Buddies.BuddyHeap.Create | allocator/allocator_buddies_system/src/allocator_buddies_system.cpp:35-66 | refuses one to eight bytes; otherwise one free block over the arena the heap claims, which is the memory allocated exactly for a power of two, and less than twice as much otherwise |
| Dyadic.BuddyOffset | allocator/allocator_buddies_system/src/allocator_buddies_system.cpp:290-291 | exclusive or with the size takes an aligned block to the other half of its parent, and back |
| BuddyBlocks.BuddyIsLive | allocator/allocator_buddies_system/src/allocator_buddies_system.cpp:284-296 | below the arena's size the buddy's address is the start of a live block, and that block is no larger |
| Buddies.BuddyHeap.BuddyHeaderIsReal | allocator/allocator_buddies_system/src/allocator_buddies_system.cpp:151-154 | so the header read there is that block's own |
| Buddies.BuddyHeap.GetBlocksInfo | allocator/allocator_buddies_system/src/allocator_buddies_system.cpp:229-239 | the iterator meets exactly the blocks that tile the arena, in address order |
| Buddies.BuddyHeap.AvailableMemory | allocator/allocator_buddies_system/src/allocator_buddies_system.cpp:298-311 | the sum over the free blocks; with the bytes of the occupied ones it is the arena |
| Buddies.BytesAddUp | allocator/allocator_buddies_system/src/allocator_buddies_system.cpp:298-311 | free and occupied bytes make up any tiled stretch |
| Buddies.BuddyHeap.GetBlockFirstFit | allocator/allocator_buddies_system/src/allocator_buddies_system.cpp:241-252 | the first free block that is large enough; none exactly if there is none |
| Buddies.BuddyHeap.GetBlockBestFit | allocator/allocator_buddies_system/src/allocator_buddies_system.cpp:254-267 | a smallest one, the first among equals |
| Buddies.BuddyHeap.GetBlockWorstFit | allocator/allocator_buddies_system/src/allocator_buddies_system.cpp:269-282 | the last one that is large enough, whatever its size |
| Buddies.WorstFitNotLargest | allocator/allocator_buddies_system/src/allocator_buddies_system.cpp:269-282 | a merged heap whose worst fit is half as large as another block that fits |
| BuddyBlocks.SplitStep | allocator/allocator_buddies_system/src/allocator_buddies_system.cpp:100-107 | one turn of the split loop keeps tiling and alignment, and leaves only the lower half with a free buddy |
| Buddies.BuddyHeap.SplitLoop | allocator/allocator_buddies_system/src/allocator_buddies_system.cpp:99-107 | ends with the least block that holds the request, headers written inside the chosen block only |
| Buddies.BuddyHeap.Allocate | allocator/allocator_buddies_system/src/allocator_buddies_system.cpp:68-129 | fails exactly when no free block has the request and eight more bytes; otherwise one occupied block more, inside the chosen one, the least that holds them, the pointer nine bytes behind its start; no byte of another occupied block changes |
| Buddies.BuddyHeap.FirstAllocation | allocator/allocator_buddies_system/src/allocator_buddies_system.cpp:68-129 | a fresh arena of 2^k bytes is all free; granted if and only if the request and eight more bytes fit, at offset 9, and what is then missing from the free bytes is the block taken |
| BuddyBlocks.MergeStep | allocator/allocator_buddies_system/src/allocator_buddies_system.cpp:156-166 | one turn of the merge loop keeps tiling and alignment, and leaves only the merged block with a free buddy |
| Buddies.BuddyHeap.MergeLoop | allocator/allocator_buddies_system/src/allocator_buddies_system.cpp:151-166 | ends with no free block beside a free buddy of its size |
| Buddies.BuddyHeap.Deallocate | allocator/allocator_buddies_system/src/allocator_buddies_system.cpp:131-172 | refuses a block with another owner word; otherwise removes exactly that block from the occupied ones and leaves every byte of the others; the owner word stays, though no occupied block starts there any more |
| BuddyBlocks.CanonicalForm | allocator/allocator_buddies_system/src/allocator_buddies_system.cpp:149-166 | two fully merged heaps with the same occupied blocks are the same heap |
| BuddyBlocks.AllFreed | allocator/allocator_buddies_system/src/allocator_buddies_system.cpp:149-166 | a fully merged heap with nothing occupied is one free block of the full size |
| Buddies.BuddyHeap.DeallocateAll | allocator/allocator_buddies_system/src/allocator_buddies_system.cpp:131-172 | freeing everything, in any order, gives that one block |
| Buddies.BuddyHeap.WritePayload | allocator/allocator_buddies_system/src/allocator_buddies_system.cpp:120-123 | what a caller writes behind the nine bytes of its block touches no header |
| Buddies.UsableBytes | allocator/allocator_buddies_system/src/allocator_buddies_system.cpp:75-120 | the block holds the request behind its nine header bytes if and only if request + 8 is not itself a block size: eight bytes are added where nine are used |
| Buddies.EightBytes | allocator/allocator_buddies_system/src/allocator_buddies_system.cpp:75-120 | a request of eight gets sixteen bytes, seven of them behind the header |
| SortedLists.SortedHeap.constructor | allocator/allocator_sorted_list/src/allocator_sorted_list.cpp:3-27 | one free block over the whole arena, sixteen bytes of which are its header |
| SortedLists.SortedHeap.FindFree | allocator/allocator_sorted_list/src/allocator_sorted_list.cpp:136-159 | the search over the free list returns the block the fit mode asks for and the free block before it |
| SortedLists.SortedHeap.Carve | allocator/allocator_sorted_list/src/allocator_sorted_list.cpp:168-191 | cutting the block, or giving it whole when no header and byte would be left, with the list redirected past it |
| SortedLists.SortedHeap.Allocate | allocator/allocator_sorted_list/src/allocator_sorted_list.cpp:129-205 | refused exactly when no free block has the request and sixteen more bytes; otherwise the pointer is sixteen bytes behind the start of the block the fit mode picks, which is cut exactly if 17 bytes or more would be left; no byte of the other occupied blocks changes |
| SortedLists.SortedHeap.FirstAllocation | allocator/allocator_sorted_list/src/allocator_sorted_list.cpp:129-205 | a fresh heap of `space` bytes: granted if and only if size + 16 <= space, at offset 16, leaving the blocks stated |
| SortedLists.ExactFitRefused | allocator/allocator_sorted_list/src/allocator_sorted_list.cpp:129-166 | a fresh heap asked for all of its bytes refuses, though its block holds them |
| SortedLists.CarvedShape | allocator/allocator_sorted_list/src/allocator_sorted_list.cpp:169-178 | carving keeps the sum of sizes and headers and makes no neighbouring free blocks |
| SortedLists.SortedHeap.Advance | allocator/allocator_sorted_list/src/allocator_sorted_list.cpp:392-406 | the iterator steps from block to block and knows the free ones by the list |
| SortedLists.SortedHeap.GetBlocksInfo | allocator/allocator_sorted_list/src/allocator_sorted_list.cpp:323-336 | it visits every block, in order, with its occupied flag |
| SortedLists.SortedHeap.PreviousFree | allocator/allocator_sorted_list/src/allocator_sorted_list.cpp:226-235 | the walk of a release finds the last free block before the one released, or of the whole heap if no block starts there |
| SortedLists.LinkedHeaders | allocator/allocator_sorted_list/src/allocator_sorted_list.cpp:237-246 | the released block stands in the list between its free neighbours |
| SortedLists.SortedHeap.TryMerge | allocator/allocator_sorted_list/src/allocator_sorted_list.cpp:272-292 | merges exactly when the right block starts where the left one ends; the left header gets both sizes and the right link |
| SortedLists.MergeOne | allocator/allocator_sorted_list/src/allocator_sorted_list.cpp:272-292 | in a heap a free block and the next one in the list touch exactly when they are neighbours, and the merge keeps the heap |
| SortedLists.JoinedHeaders | allocator/allocator_sorted_list/src/allocator_sorted_list.cpp:282-287 | the merged block keeps list and sizes |
| SortedLists.MergedShape | allocator/allocator_sorted_list/src/allocator_sorted_list.cpp:282-287 | the sum of sizes and headers, the occupied blocks and the list's head are unchanged by a merge |
| SortedLists.SortedHeap.MergeBoth | allocator/allocator_sorted_list/src/allocator_sorted_list.cpp:248-252 | the left merge first, then the right one from where it left off |
| SortedLists.MergedHeap | allocator/allocator_sorted_list/src/allocator_sorted_list.cpp:248-252 | whichever neighbours are free: afterwards no two free blocks are neighbours |
| SortedLists.SortedHeap.Deallocate | allocator/allocator_sorted_list/src/allocator_sorted_list.cpp:207-270 | refused if and only if the pointer word is not the trusted memory and there is a logger; the pointer of an occupied block removes exactly that block, and the heap is valid: sorted list, no neighbouring free blocks, sizes adding up; any other pointer that passes changes the list as below, and the memory fits no list of blocks any more |
| SortedLists.ReleaseOccupied | allocator/allocator_sorted_list/src/allocator_sorted_list.cpp:207-270 | the same on values: linking and merging the block gives a heap without it |
| SortedLists.ReleaseFree | allocator/allocator_sorted_list/src/allocator_sorted_list.cpp:237-257 | a free block released again is linked to itself |
| SortedLists.ReleaseNothing | allocator/allocator_sorted_list/src/allocator_sorted_list.cpp:226-257 | a pointer to no block is hung behind the last free block, or made the head of an empty list |
| SortedLists.AstrayNoHeap | allocator/allocator_sorted_list/src/allocator_sorted_list.cpp:207-270 | after either, no sequence of blocks describes the memory |
| SortedLists.FreshHeapAstray | allocator/allocator_sorted_list/src/allocator_sorted_list.cpp:207-270 | so any pointer into a fresh heap, released without a logger, destroys it |
| SortedChunks.CanonicalForm | allocator/allocator_sorted_list/src/allocator_sorted_list.cpp:248-252 | two such heaps with the same occupied blocks are the same heap |
| SortedChunks.AllFreed | allocator/allocator_sorted_list/src/allocator_sorted_list.cpp:248-252 | with nothing occupied the heap is one free block again |
| BoundaryTags.TaggedHeap.Create | allocator/allocator_boundary_tags/src/allocator_boundary_tags.cpp:31-55 | refuses a space below 32 bytes; otherwise no blocks |
| BoundaryTags.TaggedHeap.NextFreeBlockSize | allocator/allocator_boundary_tags/src/allocator_boundary_tags.cpp:297-326 | the hole behind a block, or before the first |
| BoundaryTags.TaggedHeap.Begin | allocator/allocator_boundary_tags/src/allocator_boundary_tags.cpp:476-494 | the iterator starts in the first hole, or on the first block if that hole is empty |
| BoundaryTags.TaggedHeap.Advance | allocator/allocator_boundary_tags/src/allocator_boundary_tags.cpp:382-410 | it goes from hole to block and from block to the next non-empty hole or block |
| BoundaryTags.TaggedHeap.Size | allocator/allocator_boundary_tags/src/allocator_boundary_tags.cpp:443-459 | the size of what it stands on |
| BoundaryTags.TaggedHeap.GetBlocksInfo | allocator/allocator_boundary_tags/src/allocator_boundary_tags.cpp:353-363 | it visits exactly the blocks and non-empty holes, no two holes in a row, and their sizes add up to mem_size_ |
| TaggedBlocks.RegionsExactly | allocator/allocator_boundary_tags/src/allocator_boundary_tags.cpp:353-363 | the occupied ones among them are the live blocks, in place and size |
| BoundaryTags.TaggedHeap.GetBlockFirstFit | allocator/allocator_boundary_tags/src/allocator_boundary_tags.cpp:249-260 | the block before the first hole that is large enough; null exactly if there is none |
| BoundaryTags.TaggedHeap.GetBlockBestFit | allocator/allocator_boundary_tags/src/allocator_boundary_tags.cpp:262-275 | before a smallest one, the first among equals |
| BoundaryTags.TaggedHeap.GetBlockWorstFit | allocator/allocator_boundary_tags/src/allocator_boundary_tags.cpp:277-290 | before a largest one, the first among equals |
| TaggedBlocks.InsertHeaders | allocator/allocator_boundary_tags/src/allocator_boundary_tags.cpp:117-135 | the four pointer writes put a block into the doubly linked list |
| BoundaryTags.TaggedHeap.PutBlock | allocator/allocator_boundary_tags/src/allocator_boundary_tags.cpp:102-135 | the same on the memory; no payload byte of another block changes |
| BoundaryTags.TaggedHeap.Allocate | allocator/allocator_boundary_tags/src/allocator_boundary_tags.cpp:57-145 | fails exactly when no hole has the request and 32 more bytes; otherwise the pointer is 32 bytes behind the start of the hole the fit mode picks, with at least the bytes asked for, disjoint from all live blocks |
| BoundaryTags.TaggedHeap.FirstAllocation | allocator/allocator_boundary_tags/src/allocator_boundary_tags.cpp:57-145 | a new heap: granted if and only if size + 32 <= space, at offset 32, and the whole space if fewer than 32 bytes would be left |
| TaggedBlocks.RemoveHeaders | allocator/allocator_boundary_tags/src/allocator_boundary_tags.cpp:168-180 | the pointer writes of a release take a block out of the list |
| BoundaryTags.TaggedHeap.Deallocate | allocator/allocator_boundary_tags/src/allocator_boundary_tags.cpp:147-186 | refuses another owner; otherwise exactly that block leaves the live ones, and no payload byte of the others changes; the owner word stays, though no live block starts there any more |
| BoundaryTags.DoublyLinked | allocator/allocator_boundary_tags/src/allocator_boundary_tags.cpp:117-135 | in every state reached, neighbours in the list point at each other and do not overlap |
| TaggedBlocks.LiveApart | allocator/allocator_boundary_tags/src/allocator_boundary_tags.cpp:57-145 | in every state reached, occupied blocks are disjoint |
| Kmp.ComputeLps | SP/task2/find_string.c:6-23 | entry i is the length of the longest proper border of the first i + 1 characters; the fallback ends |
| Kmp.NextCandidate | SP/task2/find_string.c:14-17 | after a mismatch no border between the current one and the table entry can be extended |
| Kmp.FallBack | SP/task2/find_string.c:39-41 | the inner loop finds the longest match the next character extends, and ends |
| Kmp.KmpSearch | SP/task2/find_string.c:25-55 | true exactly when the pattern is not empty and occurs in the file, each character read once |
| Kmp.SignedCharSearch | SP/task2/find_string.c:37-43 | where char is signed, bytes from 128 on never match: the search is right exactly for patterns without them |
| Kmp.HighByteMissed | SP/task2/find_string.c:37-43 | the byte 200 in a file of that one byte |
| Fractions.Gcd | arithmetic/fraction/src/fraction.cpp:14-21 | the loop computes the greatest common divisor |
| Rationals.GcdSpec | arithmetic/fraction/src/fraction.cpp:14-21 | which divides both numbers and is a combination of them |
| Rationals.GcdGreatest | arithmetic/fraction/src/fraction.cpp:14-21 | and is divided by every common divisor |
| Fractions.Fraction.Optimise | arithmetic/fraction/src/fraction.cpp:23-38 | lowest terms of the same rational number; a zero denominator is refused and left alone |
| Fractions.Fraction.Create | arithmetic/fraction/include/fraction.h:105-110 | refused exactly for a zero denominator |
| Fractions.Fraction.PlusAssign | arithmetic/fraction/src/fraction.cpp:51-56 | the exact sum, in lowest terms, even added to itself |
| Fractions.Fraction.MinusAssign | arithmetic/fraction/src/fraction.cpp:64-69 | the exact difference |
| Fractions.Fraction.TimesAssign | arithmetic/fraction/src/fraction.cpp:77-82 | the exact product, even with itself |
| Fractions.Fraction.DivideAssign | arithmetic/fraction/src/fraction.cpp:90-95 | the exact quotient of two objects; refused for zero, with a zero denominator left behind; divided by itself in place: one over its denominator |
| Fractions.SelfDivisionExactly | arithmetic/fraction/src/fraction.cpp:90-95 | which is right if and only if the denominator is one |
| Fractions.HalfOverItself | arithmetic/fraction/src/fraction.cpp:90-95 | one half stays one half |
| Fractions.Fraction.Negated | arithmetic/fraction/src/fraction.cpp:40-45 | the negative |
| Fractions.Fraction.Absolute | arithmetic/fraction/src/fraction.cpp:10-12 | the magnitude: never negative, and the number or its negative |
| Rationals.CrossEqual | arithmetic/fraction/src/fraction.cpp:103-105 | two canonical fractions with equal cross products have equal fields |
| Fractions.Fraction.EqualsExactly | arithmetic/fraction/src/fraction.cpp:103-105 | equal fields if and only if equal rational numbers |
| Fractions.Fraction.Compare | arithmetic/fraction/src/fraction.cpp:107-126 | less, equivalent and greater exactly as the rationals are ordered |
| Fractions.Fraction.Pow | arithmetic/fraction/src/fraction.cpp:309-323 | squaring in place computes the power |
| Newton.RPowLaws | arithmetic/fraction/src/fraction.cpp:309-323 | the laws of powers that fix what is computed |
| Fractions.Fraction.Improve | arithmetic/fraction/src/fraction.cpp:341-345 | one Newton step, or the division by zero |
| Newton.Bernoulli | arithmetic/fraction/src/fraction.cpp:345 | (1 + t)^n >= 1 + n*t for t >= -1 |
| Newton.NewtonAbove | arithmetic/fraction/src/fraction.cpp:345 | from any positive guess, the next iterate r has r^n >= x |
| Newton.NewtonDescends | arithmetic/fraction/src/fraction.cpp:339-346 | from there on the iterates do not climb |
| Newton.NewtonError | arithmetic/fraction/src/fraction.cpp:339-346 | how far r^n lies above x, in terms of the last step |
| Newton.NewtonSquare | arithmetic/fraction/src/fraction.cpp:339-346 | for square roots r^2 = x + (last step)^2 exactly |
| Newton.NewtonMirror | arithmetic/fraction/src/fraction.cpp:339-346 | odd roots of negative numbers mirror the positive ones |
| Newton.NeverSettles | arithmetic/fraction/src/fraction.cpp:333-346 | an even root of a negative number, any degree: no step from any guess meets the exit condition while (n-1)^(n-1) * eps^n < |x| |
| Newton.NeverSettlesExactly | arithmetic/fraction/src/fraction.cpp:333-346 | and the bound is exact: a guess that settles exists if and only if it is reached; for square roots it is eps^2 (Newton.ReachSquare) |
| Newton.EvenRootNeverEnds | arithmetic/fraction/src/fraction.cpp:333-346 | so however many turns the loop makes from x/n, none of them ends it |
| Newton.NoTolerance | arithmetic/fraction/src/fraction.cpp:339-346 | for epsilon zero only an exact root ends the loop, for a negative one nothing does |
| Fractions.Iterate | arithmetic/fraction/src/fraction.cpp:339-346 | each turn keeps the guess beyond the root, and unless it stops the loop it takes a unit of epsilon off |
| Fractions.Fraction.Root | arithmetic/fraction/src/fraction.cpp:326-351 | ends for every epsilon > 0; the result r has x <= r^n <= x + n*eps*(r + eps)^(n-1), for n = 2 also r^2 <= x + eps^2; refused for degree zero and for the number zero |
| Philosophers.StepConserves | SP/task3/main.c:153-169 | every semaphore operation keeps forks and permits conserved |
| Philosophers.OneMeal | SP/task3/main.c:153-169 | the six semaphore operations of one turn, and what each takes or gives back: a permit, the left fork, the next one, then left, right and permit again |
| Philosophers.RightIsNext | SP/task3/main.c:153-169 | the second fork is that of philosopher i + 1, modulo n |
| Philosophers.ForkExclusion | SP/task3/main.c:45-107 | two neighbours never hold the fork between them |
| Philosophers.EatingExclusion | SP/task3/main.c:156-165 | two neighbours never eat at the same time |
| Philosophers.NoDeadlock | SP/task3/main.c:153-169 | with fewer permits than philosophers someone can move until all have finished |
| Philosophers.RunKeeps | SP/task3/main.c:153-169 | in every interleaving, conservation, and one unit of work per step |
| Philosophers.Restored | SP/task3/main.c:116-127 | when all have finished every semaphore has its first value |
| Philosophers.EveryRun | SP/task3/main.c:116-169 | every maximal run has 18 steps per philosopher and ends with everybody fed three times and all semaphores restored |
| Philosophers.DeadlockWithoutWaiter | SP/task3/main.c:116-169 | with at least as many permits as philosophers, any number of them, there is a run that is stuck before all have finished |
| Philosophers.DeadlockFreeExactly | SP/task3/main.c:116-169 | no run from the start gets stuck if and only if there are permits, but fewer than philosophers |
| River.OthersDoNotMatter | SP/task4/server/main.c:86-97 | a message of another queue leaves a queue's sessions alone |
| River.OwnMessage | SP/task4/server/main.c:122-231 | a queue's own message acts on its newest session, and its reply depends on that session only |
| River.FreshSession | SP/task4/server/main.c:35-53 | a new session has an empty boat and everything on the left |
| River.TakeLaw | SP/task4/server/main.c:134-152 | Take is confirmed exactly if the boat is empty, which it then is not; otherwise an error and the session unchanged |
| River.PutLaw | SP/task4/server/main.c:154-180 | Put is refused exactly if the boat is empty; it leaves every shore as it was, and answers AllMoved exactly if all three and the boat are on the right |
| River.MoveLaw | SP/task4/server/main.c:182-224 | a move brings the boat and exactly its cargo across; an error exactly if wolf and goat, or goat and cabbage, are then together without the boat |
| River.ServeLaw | SP/task4/server/main.c:122-231 | Init is confirmed and puts a fresh session in front; a queue without a session is told so and nothing changes |
| River.ServeFound | SP/task4/server/main.c:134-224 | any other request but Fin changes the queue's newest session, and no other |
| River.FinLaw | SP/task4/server/main.c:55-72 | Fin takes the queue's newest session out, and no other |
| River.AnswerIs | SP/task4/server/main.c:248-275 | each message meets the sessions that all messages before it have left, and is answered from them |
| River.CargoOfRun | SP/task4/server/main.c:134-180 | over any run the cargo is what the last confirmed Take named, if no Put since then was granted; otherwise none |
| River.BoatOfRun | SP/task4/server/main.c:182-189 | over any run the boat is on the right after an odd number of moves, rejected ones counted |
| River.Isolation | SP/task4/server/main.c:122-231 | in any interleaving, a queue's sessions are the replay of its own requests |
| River.FoundSession | SP/task4/server/main.c:86-97 | so what `get_session` finds is the replay of the newest session's requests |
| River.AskedAlone | SP/task4/server/main.c:122-231 | and the replay depends on the queue's own messages only |
| River.SevenMoves | SP/task4/server/main.c:154-224 | a session that is told all were moved has made seven moves, unless one of its moves was answered by an error |
| River.FiveMoves | SP/task4/server/main.c:154-224 | and five in any case |
| River.AllMovedNeedsSeven | SP/task4/server/main.c:154-224 | both for any reply of the server, whatever the other clients send |
| River.SevenSuffice | SP/task4/server/main.c:134-224 | seven are enough |
| River.FiveWithErrors | SP/task4/server/main.c:182-217 | five are enough for a client that ignores error replies: a rejected move is made all the same |
| RiverServer.Server.RegisterClient | SP/task4/server/main.c:35-53 | a fresh session at the front of the list |
| RiverServer.Server.GetSession | SP/task4/server/main.c:86-97 | the first session of the queue, or null |
| RiverServer.Server.UnregisterClient | SP/task4/server/main.c:55-72 | the first session of the queue leaves the list |
| RiverServer.Server.HandleTake | SP/task4/server/main.c:134-152 | confirmed exactly if the queue has a session with an empty boat; otherwise an error and no session changes; new list and reply as the rules say |
| RiverServer.Server.HandlePut | SP/task4/server/main.c:154-180 | refused exactly without a session or without cargo, and then nothing changes; new list and reply as the rules say |
| RiverServer.Server.HandleMove | SP/task4/server/main.c:182-224 | refused unchanged without a session; new list and reply as the rules say |
| RiverServer.Server.HandleInit | SP/task4/server/main.c:122-132 | confirmed, with a new session in front of the old list |
| RiverServer.Server.HandleFin | SP/task4/server/main.c:226-231 | new list as the rules say, and no reply |
| RiverServer.Server.Run | SP/task4/server/main.c:248-275 | the main loop over any sequence of messages leaves the list and sends the replies the rules give |

## Left out

- BigInts.BigInt.AddLimbs: a shifted operand is another object than the one added to; shifted onto
  itself, a number would read limbs it has already overwritten.
- BigInts.BigInt.PlusAssign: the same.
- Bitwise and, or, xor and the right shift of the big integers.
- BigInts.BigInt.FromInt: numbers below 2^64 in magnitude; negating the least `long long` is not
  modelled.
- BigInts.BigInt.MultiplyAssign: the trivial rule; the others have members of their own. The fractions
  are modelled over mathematical integers, because Karatsuba.TimesExactly limits the operator.
- SchonhageStrassen.MultiplySchonhageStrassen: at most 2^19 digits together, the length of the tables.
- SchonhageStrassen.ThreeDigitsOverflow: one family of inputs; the general condition is
  SchonhageStrassen.ExactlyWhenNoOverflow.
- Deletion from the red-black tree, and any claim about black heights after one; the bit packing of
  parent pointer and colour; the block list under the tree.
- Buddies.BuddyHeap.Create: the cells are the arena the metadata claims; that what lies beyond the
  memory allocated cannot be used is not modelled. Powers of two are taken without a machine width.
- Buddies.BuddyHeap.GetBlockWorstFit: states what the code returns, the last fitting block.
- Buddies.BuddyHeap.Deallocate: a pointer outside the arena is not modelled, and what a second
  release does, which the owner word left behind lets pass, is excluded.
- SortedLists.SortedHeap.Deallocate: a pointer outside the arena is not modelled.
- BoundaryTags.TaggedHeap.Deallocate: as in the buddy system.
- The backward step of the boundary iterator.
- Overflow of `size_t` in request sizes, failing `malloc` and parent allocators, mutexes, loggers,
  move and assignment operations, destructors.
- Fractions.Fraction.Root: an even root of a negative number is excluded, since the loop need not
  end there (Newton.EvenRootNeverEnds), and so is an epsilon that is not positive
  (Newton.NoTolerance).
- Trigonometric functions and logarithms of fractions: they have no exact specification. Reading a
  fraction from a stream.
- Kmp.KmpSearch: a failing `malloc` answers false; reading errors are not modelled.
- Philosophers.EveryRun: the semaphore operations succeed and no process is killed.
- RiverServer.Server.Run: messages of unknown kinds (they are only logged), message transport,
  logging and the failing registration of a client.
- Search trees, hash tables, continued fractions, sockets, the login shell, the other small
  programs.
