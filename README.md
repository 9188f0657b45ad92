# Array problems, verified

This project models thirteen C++ solutions to classic array problems. Most files hold a brute-force version next to an optimised one. For each file there is one Dafny module. The problem statement, or the brute-force version, becomes a specification function or predicate. Every solution is a method proved against that specification. The loops of the source are kept as loops with invariants.

Vectors changed in place are `array<int>`. Matrices changed in place are `array2<int>`. Inputs that are only read are sequences. An `unordered_map` is a Dafny `map`. Four shared modules hold what several files need:

- `Order`: sortedness and permutation facts, plus a verified selection sort that stands for `std::sort`.
- `Binomial`: the binomial coefficient by Pascal's rule and its factorial closed form.
- `Tally`: occurrence counting and the pigeonhole principle.
- `Grids`: the contents of an `array2` as a sequence of rows.

What is proved, in short:

- **Reverse pairs:**
  - the brute-force count equals the number of pairs i < j with nums[i] > 2·nums[j];
  - the cross-pair count depends only on the multisets of the two halves;
  - merge sort sorts its range, permutes it, and leaves the rest untouched;
  - merge sort returns the same count as brute force.
- **Majority element (more than n/2):** Moore voting returns the majority whenever one exists, and the hash-map version returns a most frequent value.
- **Majority element (more than n/3):** both versions return exactly the values above n/3, without repeats. Voting returns at most two.
- **Unique paths:**
  - the recursion counts C(m+n-2, m-1);
  - memoisation keeps every filled cell equal to the recursion;
  - tabulation computes the same number.
- **Search in a 2D matrix:** all three searches are correct. The two binary searches are proved for matrices laid out in ascending row-major order.
- **Set matrix zeroes:** both versions make a cell 0 exactly when its original row or column held a 0, and keep every other cell.
- **Next permutation:** the result is a permutation of the input. It is either the lexicographic successor (no permutation lies between the two) or the ascending wrap-around.
- **Best time to buy and sell stock:** both versions compute the largest profit over buy-before-sell pairs, or 0.
- **Pascal's triangle:** the rows have the right lengths, 1 at both ends, the additive rule inside, and equal the binomial coefficients.
- **Merge intervals:**
  - the output is sorted and its blocks are separated;
  - every input interval lies in a block, and the union of points is kept;
  - the two approaches compute the same function.
- **Rotate matrix:** the copy version and the transpose-then-reverse version both rotate a quarter turn clockwise. Four turns restore the matrix.
- **Merge sorted arrays:**
  - the two-pointer merge from the back computes a reference merge function;
  - that merge is sorted and a permutation;
  - append-then-sort gives the same array.
- **Find the duplicate:**
  - sorting and the frequency array return a repeated value, and report when there is none;
  - Floyd's tortoise and hare stays in bounds, terminates, and returns a repeated value;
  - with exactly one repeated value, all three agree.

## Model

| member | source | states |
|---|---|---|
| Order.Sort | Array-II/mergeSortedArrays.cpp:51 | `std::sort` on integers: the array ends ascending and is a permutation of what it held |
| Order.SortBy | Array-II/mergeIntervals.cpp:46 | `std::sort` under any total preorder: the array ends ordered by it and is a permutation |
| Order.SortedUnique | Array-II/mergeSortedArrays.cpp:51 | two ascending sequences with equal multisets are equal, so a sorted result is determined by its contents |
| Order.SortedByUnique | Array-II/mergeIntervals.cpp:46 | the same uniqueness under an antisymmetric total preorder |
| Order.ReversedMultiset | Array-I/nextPermutation.cpp:86 | `std::reverse` keeps the multiset |
| Order.ReversedNonIncreasingIsSorted | Array-I/nextPermutation.cpp:30 | reversing a non-increasing sequence gives an ascending one |
| Order.IntLeIsTotalOrder | Array-II/mergeSortedArrays.cpp:51 | integer `<=` is an antisymmetric total preorder, so `std::sort` on integers is SortBy under it |
| Binomial.PascalRule | Array-I/pascalTriangle.cpp:11-12 | an unfolding helper: C(n,0) = C(n,n) = 1 and C(n,k) = C(n-1,k-1) + C(n-1,k) are Binom's own defining equations; the triangle's promise is carried by Binomial.BinomFactorial and PascalTriangle.BinomRowsAddUp |
| Binomial.BinomFactorial | Array-III/uniquePaths.cpp:172-182 | C(n,k)·k!·(n-k)! = n! |
| Tally.Pigeonhole | Array-II/findDuplictaeNumber.cpp:11-12 | more than n values drawn from 1..n cannot all be distinct |
| Tally.OccurrencesOfThree | Array-III/majorityElement-II.cpp:10-13 | the counts of three different values add up to at most the length |
| Tally.Frequencies | Array-III/majorityElement-I.cpp:36-38 | the frequency map has exactly the values of nums as keys, each mapped to its number of occurrences |
| Grids.SquareEqual | Array-II/rotateMatrix.cpp:10 | two n×n grids with equal cells are equal |
| ReversePairs.ReversePairsBruteForce | Array-III/reversePairs.cpp:32-46 | the nested loops count exactly the pairs i < j with nums[i] > 2·nums[j], and nums is not changed |
| ReversePairs.CountCrossPairs | Array-III/reversePairs.cpp:80-102 | with both halves ascending, the moving cursor counts exactly the pairs (i, j), i in the left half and j in the right, with nums[i] > 2·nums[j] |
| ReversePairs.AboveSortedCursor | Array-III/reversePairs.cpp:92-98 | in an ascending half, the cursor stops exactly after the elements x beats, so j-(mid+1) is the count for x |
| ReversePairs.CrossPermutation | Array-III/reversePairs.cpp:110-120 | the cross count depends only on the multisets of the two halves, which justifies counting after the halves are sorted |
| ReversePairs.PairsInSplit | Array-III/reversePairs.cpp:110-120 | the pairs of a range are the pairs of its left half, plus those of its right half, plus the cross pairs |
| ReversePairs.MergeSort | Array-III/reversePairs.cpp:106-140 | the range ends ascending and a permutation of what it held, everything outside it is unchanged, and the result is the reverse-pair count of its original contents; an empty or single range gives 0 |
| ReversePairs.MergeHalves | Array-III/reversePairs.cpp:123-132 | the two-pointer loop builds the merge of the two halves |
| ReversePairs.MergeOfPermutation | Array-III/reversePairs.cpp:123-132 | the merge is a permutation of the two halves together, so temp holds right-left+1 elements |
| ReversePairs.MergeOfSorted | Array-III/reversePairs.cpp:123-132 | the merge of two ascending halves is ascending |
| ReversePairs.Merge | Array-III/reversePairs.cpp:122-137 | merging two ascending halves leaves the range ascending and permuted, and the rest unchanged |
| ReversePairs.CopyBack | Array-III/reversePairs.cpp:135-137 | the copy-back writes temp over the range and nothing else |
| ReversePairs.ReversePairs | Array-III/reversePairs.cpp:143-145 | the optimal count equals the brute-force count on the original input; nums ends sorted and permuted |
| ReversePairs.Demo | Array-III/reversePairs.cpp:156-167 | both solutions give 2 on {1,3,2,3,1} |
| MajorityElementOne.MajorityOutnumbers | Array-III/majorityElement-I.cpp:11-12 | a majority value outnumbers every other value, so at most one value is a majority |
| MajorityElementOne.MajorityByHashMap | Array-III/majorityElement-I.cpp:32-52 | empty input gives -1; otherwise the result occurs in nums with maximal frequency, and it is the majority whenever one exists |
| MajorityElementOne.MajorityByVoting | Array-III/majorityElement-I.cpp:81-103 | whenever a value occurs more than n/2 times, the surviving candidate is that value |
| MajorityElementOne.Demo | Array-III/majorityElement-I.cpp:114-124 | both give 2 on {2,2,1,1,1,2,2} |
| MajorityElementTwo.AtMostTwo | Array-III/majorityElement-II.cpp:10-13 | among any three values above n/3, two are equal |
| MajorityElementTwo.InMajority | Array-III/majorityElement-II.cpp:43 | a value is in the majority set exactly when it occurs more than n/3 times (integer division) |
| MajorityElementTwo.MajorityByHashMap | Array-III/majorityElement-II.cpp:34-48 | the result holds exactly the values occurring more than n/3 times, each once |
| MajorityElementTwo.Vote | Array-III/majorityElement-II.cpp:112-139 | after the cancelling scan, every value above n/3 is one of the two candidates |
| MajorityElementTwo.SurvivorsCoverMajority | Array-III/majorityElement-II.cpp:115-139 | each cancellation removes three different values, so what is not tracked by a candidate cannot exceed n/3 |
| MajorityElementTwo.CountCandidates | Array-III/majorityElement-II.cpp:158-164 | the recount gives each candidate's occurrences, the second counted only when it differs from the first |
| MajorityElementTwo.MajorityByVoting | Array-III/majorityElement-II.cpp:83-182 | the result has at most two values, holds exactly the values above n/3, and none twice |
| MajorityElementTwo.Demo | Array-III/majorityElement-II.cpp:192-210 | both give {1, 2} as sets on {1,1,1,3,3,2,2,2} |
| UniquePaths.CountPaths | Array-III/uniquePaths.cpp:54-68 | 1 at (m-1,n-1), 0 once i ≥ m or j ≥ n, otherwise the count going down plus the count going right; it terminates because (m-i)+(n-j) decreases, and it is positive exactly when (i,j) has not left the grid |
| UniquePaths.UniquePathsByRecursion | Array-III/uniquePaths.cpp:71-73 | countPaths from (0,0); some path exists exactly when m, n ≥ 1 |
| UniquePaths.CountPathsIsBinomial | Array-III/uniquePaths.cpp:54-68 | the recursive count from (i,j) is C((m-1-i)+(n-1-j), m-1-i) |
| UniquePaths.UniquePathsIsBinomial | Array-III/uniquePaths.cpp:71-73 | the count from (0,0) is C(m+n-2, m-1) = (m+n-2)!/((m-1)!(n-1)!), and 0 when a side is not positive |
| UniquePaths.CountPathsMemo | Array-III/uniquePaths.cpp:100-116 | the memoised count equals the recursive count, and every filled dp cell keeps equal to it |
| UniquePaths.UniquePathsByMemo | Array-III/uniquePaths.cpp:118-121 | the memo solution equals the recursive solution |
| UniquePaths.UniquePathsByTabulation | Array-III/uniquePaths.cpp:149-163 | the table's last cell is C(m+n-2, m-1), the recursive count |
| UniquePaths.Demo | Array-III/uniquePaths.cpp:216-230 | m=3, n=7 gives 28 by every integer approach |
| SearchMatrix.SearchByScan | Array-III/searchIn2dMatrix.cpp:26-39 | true exactly when target is the value of some cell |
| SearchMatrix.BinarySearchRow | Array-III/searchIn2dMatrix.cpp:55-66 | true only when target is in the row, and always true when the row is ascending and holds it |
| SearchMatrix.BracketingRow | Array-III/searchIn2dMatrix.cpp:76 | in an ordered matrix, the only row whose first-to-last range holds target is the row holding it |
| SearchMatrix.SearchByRow | Array-III/searchIn2dMatrix.cpp:68-81 | true only when target occurs; on an ordered matrix true exactly when it occurs |
| SearchMatrix.CellOfIndex | Array-III/searchIn2dMatrix.cpp:113 | for 0 ≤ mid < rows·cols, (mid/cols, mid%cols) is a cell of the matrix |
| SearchMatrix.RowMajor | Array-III/searchIn2dMatrix.cpp:113 | increasing flat indices visit cells in row-major order |
| SearchMatrix.FlattenedAscending | Array-III/searchIn2dMatrix.cpp:9-12 | an ordered matrix read in row-major order is ascending |
| SearchMatrix.SearchFlattened | Array-III/searchIn2dMatrix.cpp:100-126 | true only when target occurs; on an ordered matrix true exactly when it occurs |
| SearchMatrix.Demo | Array-III/searchIn2dMatrix.cpp:136-156 | all three searches find 16 in the example matrix |
| SetMatrixZero.ExpectedZeroIff | Array-I/setMatrixZero.cpp:10-11 | a cell ends as 0 exactly when its row or its column held a 0, and every other cell keeps its value |
| SetMatrixZero.CollectZeroes | Array-I/setMatrixZero.cpp:53-60 | the list holds exactly the positions of the zero cells |
| SetMatrixZero.CoveredIffZeroLine | Array-I/setMatrixZero.cpp:62-76 | a cell shares a row or column with a listed zero exactly when its row or its column held a 0 |
| SetMatrixZero.ZeroRow | Array-I/setMatrixZero.cpp:72-75 | row r becomes 0 and nothing else changes |
| SetMatrixZero.ZeroColumn | Array-I/setMatrixZero.cpp:67-70 | column c becomes 0 and nothing else changes |
| SetMatrixZero.SetZeroesByList | Array-I/setMatrixZero.cpp:46-77 | every cell ends as 0 when its original row or column held a 0, and keeps its value otherwise; the shape is fixed |
| SetMatrixZero.RowContainsZero | Array-I/setMatrixZero.cpp:116-122 | firstRowZero is true exactly when row 0 holds a 0 |
| SetMatrixZero.ColumnContainsZero | Array-I/setMatrixZero.cpp:124-130 | firstColZero is true exactly when column 0 holds a 0 |
| SetMatrixZero.MarkZeroes | Array-I/setMatrixZero.cpp:132-140 | the marker pass writes only into row 0 and column 0: a row's marker is set when the row held a 0 beyond column 0, and likewise for columns |
| SetMatrixZero.MarkersMeanZeroLines | Array-I/setMatrixZero.cpp:133-149 | after marking, a row or column from 1 on has a 0 marker exactly when it held a 0 |
| SetMatrixZero.ClearMarked | Array-I/setMatrixZero.cpp:142-149 | every inner cell whose row or column marker is 0 becomes 0, and nothing else changes |
| SetMatrixZero.SetZeroesByMarkers | Array-I/setMatrixZero.cpp:109-164 | the same final matrix as SetZeroesByList: every cell ends as 0 exactly when its original row or column held a 0 |
| SetMatrixZero.Example | Array-I/setMatrixZero.cpp:13-23 | the 3×3 matrix with a centre 0 becomes 1 0 1 / 0 0 0 / 1 0 1 |
| SetMatrixZero.Demo | Array-I/setMatrixZero.cpp:168-186 | the main's 3×3 matrix with a centre 0 ends as 1 0 1 / 0 0 0 / 1 0 1 under the list version, which is the one the main runs; running the marker version on the same matrix, with the same result, is an extra check of the model |
| NextPermutation.NextUnique | Array-I/nextPermutation.cpp:10-11 | the next permutation is unique |
| NextPermutation.FindPivot | Array-I/nextPermutation.cpp:77-82 | idx is -1 exactly when there is no i with nums[i] < nums[i+1]; otherwise nums[idx] < nums[idx+1], and the suffix after idx is non-increasing |
| NextPermutation.WrapAround | Array-I/nextPermutation.cpp:28-30 | a non-increasing sequence is the greatest permutation of its values, and its reverse is the least |
| NextPermutation.SwapWithNextGreater | Array-I/nextPermutation.cpp:91-96 | the swap happens, with the rightmost element greater than nums[idx], and changes only those two places |
| NextPermutation.SwapKeepsDescent | Array-I/nextPermutation.cpp:35-37 | after the swap, the suffix after idx is still non-increasing |
| NextPermutation.ReverseRange | Array-I/nextPermutation.cpp:99 | `std::reverse` on a range mirrors that range and keeps the rest |
| NextPermutation.NoneBetween | Array-I/nextPermutation.cpp:40-47 | no permutation of the input lies strictly between the input and the result |
| NextPermutation.NextPermutation | Array-I/nextPermutation.cpp:71-99 | the result is a permutation; without a pivot it is the reversed, ascending, least permutation; with one it is the lexicographic successor |
| NextPermutation.Examples | Array-I/nextPermutation.cpp:14-19 | [1,2,3] → [1,3,2] and [3,2,1] → [1,2,3] |
| NextPermutation.DemoNext | Array-I/nextPermutation.cpp:120-131 | the method turns {1,2,3} into {1,3,2} |
| BuySellStocks.MaxProfitUnique | Array-I/buySellStocks.cpp:17 | the best profit is unique, and it is 0 exactly when no later price is higher |
| BuySellStocks.MaxProfitBruteForce | Array-I/buySellStocks.cpp:41-58 | the result is the maximum of 0 and prices[j]-prices[i] over all i < j |
| BuySellStocks.MaxProfit | Array-I/buySellStocks.cpp:92-110 | the one-pass result is the same maximum, so it equals brute force |
| BuySellStocks.Demo | Array-I/buySellStocks.cpp:122-133 | both give 5 on {7,1,5,3,6,4} |
| PascalTriangle.BinomRowsAddUp | Array-I/pascalTriangle.cpp:59-71 | rows of binomial coefficients have length i+1, 1 at both ends, and each inner entry is the sum of the two above |
| PascalTriangle.Generate | Array-I/pascalTriangle.cpp:52-77 | numRows rows (none for numRows ≤ 0); row i is C(i,0..i) |
| PascalTriangle.FillRow | Array-I/pascalTriangle.cpp:57-71 | a row built from the previous row by the additive rule is the next binomial row |
| PascalTriangle.Demo | Array-I/pascalTriangle.cpp:13-22 | numRows = 5 gives the five rows of the example |
| MergeIntervals.IntervalLeIsTotalOrder | Array-II/mergeIntervals.cpp:46 | the lexicographic order `std::sort` uses on [start, end] pairs is an antisymmetric total preorder |
| MergeIntervals.MergeSortedSnoc | Array-II/mergeIntervals.cpp:97-108 | one more interval is absorbed into the last block or starts a new one |
| MergeIntervals.MergeShape | Array-II/mergeIntervals.cpp:17-19 | on input sorted by start, the output is sorted by start, and each block ends before the next begins |
| MergeIntervals.MergeContains | Array-II/mergeIntervals.cpp:52-67 | every input interval lies inside some output interval |
| MergeIntervals.MergeCovered | Array-II/mergeIntervals.cpp:55-63 | every point of an output interval is covered by some input interval |
| MergeIntervals.MergeKeepsUnion | Array-II/mergeIntervals.cpp:100-107 | a point is covered by the output exactly when it is covered by the input |
| MergeIntervals.MergeByCurrentBlock | Array-II/mergeIntervals.cpp:44-69 | on non-empty input, intervals end sorted and permuted, and the result is the merge of the sorted intervals |
| MergeIntervals.MergeByLastBlock | Array-II/mergeIntervals.cpp:92-111 | the same, for any input, so the two approaches agree |
| MergeIntervals.Examples | Array-II/mergeIntervals.cpp:13-15 | [[1,3],[2,6],[8,10],[15,18]] → [[1,6],[8,10],[15,18]], and touching [1,4],[4,5] merge to [1,5] |
| MergeIntervals.Demo | Array-II/mergeIntervals.cpp:122-145 | both approaches give the example result |
| RotateMatrix.Rotated | Array-II/rotateMatrix.cpp:27-32 | the quarter turn keeps the matrix n×n and sends old[r][c] to new[c][n-1-r] |
| RotateMatrix.TransposeThenReverseRotates | Array-II/rotateMatrix.cpp:72-80 | transposing then reversing every row is the quarter turn |
| RotateMatrix.HalfTurn | Array-II/rotateMatrix.cpp:27-32 | two quarter turns send old[i][j] to new[n-1-i][n-1-j] |
| RotateMatrix.FourTurnsRestore | Array-II/rotateMatrix.cpp:27-32 | four quarter turns give back the original matrix |
| RotateMatrix.Involutions | Array-II/rotateMatrix.cpp:72-80 | transposing twice, or reversing the rows twice, gives back the original |
| RotateMatrix.RotateByCopy | Array-II/rotateMatrix.cpp:43-59 | the copy version leaves the matrix rotated a quarter turn clockwise |
| RotateMatrix.Assign | Array-II/rotateMatrix.cpp:58 | `matrix = ans` gives matrix the cells of ans |
| RotateMatrix.Transpose | Array-II/rotateMatrix.cpp:103-107 | after the swap loop, matrix[i][j] = old[j][i] |
| RotateMatrix.SwapRowWithColumn | Array-II/rotateMatrix.cpp:104-106 | row i left of the diagonal swaps with column i above it; the diagonal and everything else keep their values |
| RotateMatrix.ReverseRows | Array-II/rotateMatrix.cpp:110-112 | every row is reversed |
| RotateMatrix.ReverseRow | Array-II/rotateMatrix.cpp:111 | `std::reverse` on row i reverses it and leaves the other rows alone |
| RotateMatrix.RotateInPlace | Array-II/rotateMatrix.cpp:98-113 | the optimal version leaves the same quarter turn as the copy version |
| RotateMatrix.Example | Array-II/rotateMatrix.cpp:83-91 | 1..9 transposes to 1 4 7 / 2 5 8 / 3 6 9 and rotates to 7 4 1 / 8 5 2 / 9 6 3 |
| RotateMatrix.Demo | Array-II/rotateMatrix.cpp:124-153 | both versions give the rotated example |
| MergeSortedArrays.MergeByAppendAndSort | Array-II/mergeSortedArrays.cpp:43-52 | nums1 ends ascending and a permutation of its first m values together with nums2 |
| MergeSortedArrays.MergedMultiset | Array-II/mergeSortedArrays.cpp:15 | the merge is a permutation of both inputs together |
| MergeSortedArrays.MergedSorted | Array-II/mergeSortedArrays.cpp:15 | the merge of two ascending sequences is ascending |
| MergeSortedArrays.MergeFromBack | Array-II/mergeSortedArrays.cpp:84-106 | with both inputs ascending, nums1 ends as their merge: ascending and a permutation of both |
| MergeSortedArrays.PlaceWhileBoth | Array-II/mergeSortedArrays.cpp:91-98 | each step writes the larger last element at k = i+j+1, and everything from k+1 on is final |
| MergeSortedArrays.PlaceRestOfSecond | Array-II/mergeSortedArrays.cpp:100-105 | the leftover of nums2 is copied down, and leftover nums1 elements are already in place |
| MergeSortedArrays.FromBackDone | Array-II/mergeSortedArrays.cpp:105 | once nums2 is used up, nums1 already holds the merge |
| MergeSortedArrays.MergeIsMerged | Array-II/mergeSortedArrays.cpp:41-52 | any sorted permutation of two sorted inputs is their merge, so append-and-sort equals the two-pointer merge |
| MergeSortedArrays.Example | Array-II/mergeSortedArrays.cpp:119-135 | {1,2,3} with {2,5,6} merge to {1,2,2,3,5,6} |
| MergeSortedArrays.Demo | Array-II/mergeSortedArrays.cpp:117-142 | both solutions give {1,2,2,3,5,6} |
| FindDuplicate.TwoPlaces | Array-II/findDuplictaeNumber.cpp:40-41 | equal values at two places make the value repeated |
| FindDuplicate.DistinctIffNoneRepeated | Array-II/findDuplictaeNumber.cpp:44 | all values are distinct exactly when no value occurs twice |
| FindDuplicate.SortedNoTwinsIsDistinct | Array-II/findDuplictaeNumber.cpp:39-44 | an ascending sequence with no equal neighbours has distinct values |
| FindDuplicate.PlacesOf | Array-II/findDuplictaeNumber.cpp:27-28 | a value occurring at least twice sits at two different positions |
| FindDuplicate.FirstTwinIsSmallest | Array-II/findDuplictaeNumber.cpp:39-42 | in a sorted sequence, the first pair of equal neighbours holds the smallest repeated value |
| FindDuplicate.FindBySorting | Array-II/findDuplictaeNumber.cpp:36-45 | arr ends sorted and permuted; a result other than -1 equals a sorted neighbour, is repeated, and is the smallest repeated value; -1 (with -1 not repeated) comes back exactly when all values are distinct |
| FindDuplicate.FindByFrequency | Array-II/findDuplictaeNumber.cpp:64-74 | -1 exactly when all values are distinct; otherwise the value whose second occurrence comes first |
| FindDuplicate.Walk | Array-II/findDuplictaeNumber.cpp:83-86 | following index → value from 0 always stays inside the array, and after a step never returns to 0 |
| FindDuplicate.WalkRepeats | Array-II/findDuplictaeNumber.cpp:86 | by pigeonhole the walk enters a cycle |
| FindDuplicate.MeetingExists | Array-II/findDuplictaeNumber.cpp:89-90 | there is a step count where the hare meets the tortoise, so phase 1 ends |
| FindDuplicate.FindByCycle | Array-II/findDuplictaeNumber.cpp:101-121 | every index stays in bounds, both phases terminate, and the result is a value in 1..n that occurs at least twice |
| FindDuplicate.Compare | Array-II/findDuplictaeNumber.cpp:11-12 | when exactly one value is repeated, all three approaches return it |
| FindDuplicate.Demo | Array-II/findDuplictaeNumber.cpp:130-143 | all three give 2 on {1,3,4,2,2} |

## Left out

- Integer width. Dafny `int` is unbounded, so nothing overflows. This covers:
  - the `long long` casts in reversePairs.cpp, which therefore change nothing;
  - `rows*cols` in the flattened search;
  - the path counts of uniquePaths.cpp;
  - every `int` counter and sum.
- BuySellStocks.MaxProfit requires every price to be at most INT_MAX. The `INT_MAX` sentinel is then a true upper bound, as for 32-bit prices.
- `CombinatoricsSolution` in uniquePaths.cpp computes in `long double` floating point, which is not modelled. The binomial identity it relies on is proved exactly instead (UniquePaths.UniquePathsIsBinomial, Binomial.BinomFactorial).
- Every `main` function prints to the console. Printing is left out. Each demo input becomes a `Demo` method and an example lemma.
- `std::sort` is a verified selection sort (Order.Sort, Order.SortBy). Only its contract matters: sorted and a permutation.
- `std::reverse` and `swap` are written out as loops (NextPermutation.ReverseRange, RotateMatrix.ReverseRow, RotateMatrix.SwapRowWithColumn).
- `unordered_map` iteration order is unspecified. Frequency maps are Dafny maps. The hash-map results of majorityElement-II.cpp are compared as sets.
- MajorityElementOne.MajorityByHashMap leaves open which of several equally frequent values comes back. That choice depends on the map's iteration order.
- The brute-force generate-all-permutations approach of nextPermutation.cpp exists only as a comment and has no code.
- Time and space complexity claims are left out. They are not functional properties.
- Vectors that a solution only reads (nums2, the matrix of the search, the input of the frequency and Floyd approaches, the prices) are sequences. Aliasing between them and other arguments is not modelled.
- RotateMatrix.Assign models `matrix = ans` as a cell-by-cell copy into the same n×n array.
- Several loops of one C++ function are split into helper methods, one per loop, with the same effect. Examples: the marker passes of setZeroes, the two while loops of the backward merge, and the transpose and reverse steps of rotate.
- FindDuplicate.FindBySorting requires a non-empty array. On an empty vector, `arr.size() - 1` wraps around as an unsigned value, and the loop reads out of bounds.
- FindDuplicate.FindByFrequency requires every value to be in 0..n, the range of `freq`. Other values index out of bounds in the source.
- FindDuplicate.FindByCycle requires the stated shape: length at least 2 and values in 1..n. Otherwise `nums[slow]` can go out of bounds.
- MergeIntervals.MergeByCurrentBlock requires a non-empty input, because the source reads `intervals[0]`. The same holds for SetMatrixZero.SetZeroesByList, SetMatrixZero.SetZeroesByMarkers and the three searches of searchIn2dMatrix.cpp, which read `matrix[0]`.
- SearchMatrix.SearchByScan, SearchMatrix.SearchByRow and SearchMatrix.SearchFlattened require every row to have as many cells as row 0 (Rectangular). The source takes `m = matrix[0].size()` as the width of every row, so on a ragged matrix it reads past a short row or skips cells of a long one; that behaviour is not modelled.
- SearchMatrix.SearchByRow also requires at least one column, because the source reads `matrix[i][m-1]` (searchIn2dMatrix.cpp:76), which is out of bounds when m = 0.
- SetMatrixZero.SetZeroesByMarkers runs the column-0 scan only when there is at least one column. With zero columns the source reads `matrix[i][0]` out of bounds (setMatrixZero.cpp:124-130); the model instead treats column 0 as holding no zero, so that case is defined in the model and undefined in the source.
- UniquePaths.UniquePathsByTabulation requires m, n ≥ 1, because it reads `dp[m-1][n-1]`. UniquePaths.UniquePathsByMemo requires m, n ≥ 0, the sizes a vector can have.
