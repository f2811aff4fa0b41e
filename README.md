# cpp_prac core in Dafny

This project models four pieces of the cpp_prac exercises and proves properties of them.

- **Rational numbers** (`1/src/rational.h`): `RationalNumber<int>` with 32-bit numerator and
  denominator, its checked constructors, `get_max_delim` (Euclid with C++'s truncating `%`),
  `make_canonical`, `make_equal_denominator`, the overflow-checked compound operators, the
  by-value binary operators, comparisons, the string forms and `int()`.
- **Sparse matrices** (`1/src/matrix.h`, `1/src/coords.h`): `Matrix<int>` as a map of stored
  elements with a pruning threshold `eps`. The model covers the lazy `delete_zeros`, the element
  accessors, the factories, arithmetic, transpose, equality, the text file format in both
  directions, slices (`Matrix_proxy`) registered with their parent, and the slice coordinates.
- **Game of Life conditions** (`4/src/LifeCondition.cpp`, `4/src/Breed.cpp`, `4/src/MainCycle.cpp`).
  A condition is a square board that does not wrap, stepped by the B3/S23 rule. It caches its
  score after 100 steps. Parents are crossed with one-point breeding, and `BestValue` picks the
  best of a population.
- **Schedules** (`2/src/src/classes.cpp`): `Solution` and `TestSolution`. These assign works to
  processors, score a schedule by the spread of processor loads, and mutate it by moving one work.

Each part has a specification layer of functions on values:
- `Sparse`, `CellMoves`, `Factories` and `FileFormat` (specification part) for the matrix;
- `Life` for the Game of Life;
- the functions of `Rationals` and `Balance`.

Each part also has the procedures that the source runs step by step. These are classes with
fields (`Rationals.RationalNumber`, `Matrices.Matrix`, `Matrices.Proxy`, `Balance.Solution`)
and methods with loops, and each is proved against a specification function.

The rational numbers have two specification layers. The `...AsWritten` functions and
`Reduce` follow the C++ as written, and the object `RationalNumber` is proved against them.
`Normalize` and `Add`, `Sub`, `Mul`, `Div`, `Increment` and `Decrement` are the corrected
arithmetic of the first two findings below, which always keeps the denominator positive. Lemmas
relate the two layers: the as-written result is the corrected one with both signs flipped exactly
where its denominator came out negative.

How values are represented:
- C++ `int` and `unsigned` arithmetic is written out where the source depends on it: `Machine`
  provides truncating division and remainder and 32-bit wrap, and Text provides `stoi`/`stoul`
  ranges.
- Exceptions become `Failure` values of a `Result`.
- `rand()` draws are parameters.
- Files are sequences of lines.

Three behaviours of the source are easy to miss, and the model follows them:
- `RationalNumber(const char*)` throws invalid_string_error when the text has no `/`.
- A slice checks that its parent is alive before it checks its own range.
- `from_file` reads the sizes through `int` variables.

## Model

| member | source | states |
|---|---|---|
| Machine.Wrap32 | 1/src/rational.h:202-210 | the stored result of a wrapped 32-bit operation is a 32-bit value congruent to the exact one modulo 2^32, and equals it when it fits |
| Machine.TDivTRem | 1/src/rational.h:71-75 | C++ truncating division and remainder recombine to the dividend |
| Machine.TRemBounds | 1/src/rational.h:71-75 | the truncating remainder is smaller in magnitude than the divisor and has the dividend's sign |
| Rationals.GetMaxDelim | 1/src/rational.h:65-77 | the loop returns `a` when `a == b` and otherwise the last nonzero value of the remainder sequence; it fails exactly when a remainder traps (INT_MIN % -1) |
| Rationals.EuclidDivides | 1/src/rational.h:65-77 | unless both inputs are 0, the result divides both of them |
| Rationals.MaxDelimZero | 1/src/rational.h:65-77 | the result is 0 only when both inputs are 0 |
| Rationals.MaxDelimScale | 1/src/rational.h:65-77 | scaling both inputs by a nonzero k scales the result by k, sign included |
| Rationals.EuclidNoTrap | 1/src/rational.h:65-77 | the loop cannot trap unless an input is INT_MIN |
| Rationals.Reduce | 1/src/rational.h:185-189 | make_canonical as written: the parts divided by the signed result of get_max_delim; the value is unchanged, the pair is the reduced pair of the inputs, and over a positive denominator the new denominator is negative exactly when get_max_delim is |
| Rationals.ReduceDefined | 1/src/rational.h:185-189 | make_canonical as written cannot trap on a positive denominator with a numerator other than INT_MIN, nor on any nonzero denominator when neither part is INT_MIN |
| Rationals.ReduceAgainstNormalize | 1/src/rational.h:185-189 | where both forms exist, the as-written form is the corrected one when its denominator is positive, and the corrected one with both parts negated when it is negative |
| Rationals.ReduceOverZero | 1/src/rational.h:185-189 | make_canonical of n/0 stores 1/0 for every n other than 0 and divides by zero for 0/0 |
| Rationals.SameValueReducedPair | 1/src/rational.h:185-189 | two fractions have the same value exactly when their reduced pairs are equal |
| Rationals.Normalize | 1/src/rational.h:185-189 | the corrected canonical form: it keeps the value, has a positive denominator, fails with zero division exactly on a zero denominator, and otherwise fails only by overflow |
| Rationals.NormalizeDefined | 1/src/rational.h:185-189 | the corrected canonical form exists for every nonzero denominator when neither part is INT_MIN |
| Rationals.NormalizeCanonical | 1/src/rational.h:185-189 | two fractions normalize to the same pair exactly when they have the same value |
| Rationals.Make | 1/src/rational.h:115-126 | the two-argument constructor throws zero_division_error for denominator 0 and negative_denominator_error for a negative one, and otherwise stores both parts unchanged |
| Rationals.FromInt | 1/src/rational.h:107-112 | an integer becomes that integer over 1 |
| Rationals.Zero | 1/src/rational.h:100-105 | the default constructor is a valid zero |
| Rationals.MakeEqualDenominator | 1/src/rational.h:412-430 | on success both results share one positive denominator and keep the values of the inputs; with positive denominators the only failure is overflow |
| Rationals.ScaleToCommon | 1/src/rational.h:415-429 | the scaling by the cofactors of get_max_delim: on success one positive denominator and the values kept, and with positive denominators a failure is overflow |
| Rationals.EqualDenominatorDefined | 1/src/rational.h:412-430 | whenever the schoolbook products x.den*y.den, x.num*y.den and y.num*x.den fit an int, make_equal_denominator succeeds, with each part equal to that product divided by get_max_delim of the denominators |
| Rationals.SumRaw | 1/src/rational.h:202-221 | the overflow-checked sum or difference over the common denominator has the exact value of the sum or difference; it succeeds whenever the schoolbook cross products and their sum or difference fit an int, with a numerator no larger than that schoolbook numerator |
| Rationals.ProductRaw | 1/src/rational.h:224-235 | the checked product succeeds exactly when both products of the parts fit an int, fails only by overflow, and has the value of the product |
| Rationals.QuotientRaw | 1/src/rational.h:238-249 | the checked cross product succeeds exactly when both cross products fit an int, fails only by overflow, and has the value of the quotient when the divisor is nonzero |
| Rationals.Add | 1/src/rational.h:202-210 | the corrected sum (Findings row 1): with positive denominators a successful sum has a positive denominator and the value x + y, a failure is overflow, and it succeeds whenever the schoolbook cross-multiplication fits an int |
| Rationals.Sub | 1/src/rational.h:213-221 | the corrected difference (Findings row 1): with positive denominators a successful difference has a positive denominator and the value x - y, a failure is overflow, and it succeeds whenever the schoolbook cross-multiplication fits an int |
| Rationals.Mul | 1/src/rational.h:224-235 | the corrected product (Findings row 1): with positive denominators it succeeds exactly when both products of the parts fit an int, with a positive denominator and the value x * y, and otherwise fails by overflow |
| Rationals.Div | 1/src/rational.h:238-249 | the corrected division: a zero divisor is refused; otherwise the quotient has a positive denominator and the value x / y, or fails by overflow, and it succeeds whenever both cross products fit an int other than INT_MIN |
| Rationals.Negate | 1/src/rational.h:192-199 | unary minus fails exactly on numerator INT_MIN, keeps the denominator and negates the value |
| Rationals.Increment | 1/src/rational.h:252-255 | the corrected ++ (Findings row 1): adds exactly 1 with a positive denominator, or fails by overflow, and succeeds whenever num + den fits an int |
| Rationals.Decrement | 1/src/rational.h:265-268 | the corrected -- (Findings row 1): subtracts exactly 1 with a positive denominator, or fails by overflow, and succeeds whenever num - den fits an int |
| Rationals.AddAsWritten | 1/src/rational.h:202-210 | += as written has the value x + y; it is the corrected sum up to the sign of both parts, fails with the same error wherever the corrected sum fails, otherwise fails only by a trapping division, and succeeds whenever the schoolbook cross-multiplication fits an int other than INT_MIN |
| Rationals.SubAsWritten | 1/src/rational.h:213-221 | -= as written has the value x - y, relates to the corrected difference in the same way, and succeeds under the same schoolbook bound |
| Rationals.MulAsWritten | 1/src/rational.h:224-235 | *= as written has the value x * y for nonzero denominators, and is the corrected product up to the sign of both parts; with positive denominators it succeeds only where the corrected product does, fails alike where that fails, and succeeds whenever both products fit an int and the numerator product is not INT_MIN |
| Rationals.DivAsWritten | 1/src/rational.h:238-249 | /= as written: a zero divisor gives 1/0, or overflow, or a division by zero when the numerator product is 0; otherwise the value is x / y, the corrected quotient up to sign, and it succeeds whenever both cross products fit an int other than INT_MIN |
| Rationals.IncrementAsWritten | 1/src/rational.h:252-255 | ++ as written is += 1: the value x + 1, the corrected increment up to the sign of both parts, failing with it, and succeeding whenever num + den fits an int other than INT_MIN |
| Rationals.DecrementAsWritten | 1/src/rational.h:265-268 | -- as written is -= 1: the value x - 1, the corrected decrement up to the sign of both parts, failing with it, and succeeding whenever num - den fits an int other than INT_MIN |
| Rationals.Equals | 1/src/rational.h:310-315 | == compares the as-written canonical forms, which is exactly equality of values; it fails only by a trap, and never with positive denominators and no INT_MIN numerator |
| Rationals.NotEquals | 1/src/rational.h:318-321 | != is exactly inequality of values, failing only where == does |
| Rationals.Less | 1/src/rational.h:324-327 | with nonzero denominators of either sign, a result of < is the order of the values; with positive denominators a failure is overflow; and it succeeds whenever the schoolbook cross products fit an int |
| Rationals.Greater | 1/src/rational.h:346-349 | with nonzero denominators of either sign, a result of > is the reversed order of the values; with positive denominators it fails only by overflow; it succeeds under the same bound as < |
| Rationals.LessEq | 1/src/rational.h:352-355 | with nonzero denominators of either sign, a result of <= is the order of the values; with positive denominators it fails only by overflow; it succeeds under the same bound as < |
| Rationals.GreaterEq | 1/src/rational.h:358-361 | with nonzero denominators of either sign, a result of >= is the order of the values; with positive denominators it fails only by overflow; it succeeds under the same bound as < |
| Rationals.ToInt | 1/src/rational.h:370-376 | int() traps exactly on a zero denominator or INT_MIN / -1; otherwise, for a denominator of either sign, it truncates toward zero: the remainder is smaller than the denominator in magnitude and has the numerator's sign (with two-sided bounds for a positive denominator) |
| Rationals.FromParts | 1/src/rational.h:146-148 | the two-string constructor (in this model, which parses the numerator first) fails with the numerator's stoll error, then the denominator's; with both parsed it narrows each to an int and succeeds exactly when the narrowed denominator is positive, with those parts, and otherwise throws zero_division_error or negative_denominator_error |
| Rationals.FromString | 1/src/rational.h:150-160 | the one-string constructor fails with invalid_string_error exactly when there is no '/', and otherwise is the two-string constructor on the text before and after the first '/' |
| Rationals.ToString | 1/src/rational.h:180-182 | the string form splits at its first '/' into texts that read back as the stored numerator and denominator |
| Rationals.StringRoundTrip | 1/src/rational.h:150-160 | parsing the "n/d" string form of a valid number gives the same number back |
| Rationals.ConstructionTests | 1/src/rational.h:440-446 | the construction tests and the string and int() tests (lines 500-505) hold |
| Rationals.ArithmeticTests | 1/src/rational.h:447-454 | 3/5 + 5/6 = 43/30 and 3/5 - 5/6 = -7/30 in the corrected arithmetic |
| Rationals.ArithmeticTestsAsWritten | 1/src/rational.h:447-472 | as written, 3/5 + 5/6 is 43/30, 3/5 - 5/6 is stored as 7/-30 and still compares equal to -7/30, 3/5 * 5/6 is 1/2 and 3/5 / 5/6 is 18/25 |
| Rationals.SignedGcdExamples | 1/src/rational.h:224-262 | as written, 3/5 * -5/6 is stored as 1/-2 and ++ on -5/2 as 3/-2 |
| Rationals.ProductTests | 1/src/rational.h:455-460 | 3/5 * 5/6 = 1/2 and 3/5 / 5/6 = 18/25 |
| Rationals.ComparisonTests | 1/src/rational.h:473-490 | the six comparison tests of 3/5 against 5/6 hold |
| Rationals.NegativeDenominatorTests | 1/src/rational.h:324-327 | with a stored negative denominator, int(7/-30) is 0 and 1/-6 < 1/4 holds, through get_max_delim(-6, 4) = -2 and the common denominator 12 |
| Rationals.NegativeDenominatorFinding | 1/src/rational.h:185-189 | as written, 3/5 - 5/6 is stored as 7/-30 and adding 1 to it throws; the corrected operations give -7/30 and 23/30 |
| Rationals.DivisionByZeroFinding | 1/src/rational.h:238-249 | as written, 3/5 divided by 0/1 stores 1/0; the corrected division refuses it |
| Rationals.RationalNumber.constructor | 1/src/rational.h:128-129 | the copy constructor: the object holds the given parts |
| Rationals.RationalNumber.MakeCanonical | 1/src/rational.h:185-189 | make_canonical as written: the object becomes the parts divided by the signed get_max_delim (Reduce), which can be a negative denominator or 1/0, and is unchanged where C++ divides by zero |
| Rationals.RationalNumber.AddAssign | 1/src/rational.h:202-210 | += returns AddAsWritten of the old value and rhs and stores it; on failure the object holds what the source leaves behind: the wrapped numerator after an overflow, the raw sum when make_canonical traps |
| Rationals.RationalNumber.SubAssign | 1/src/rational.h:213-221 | -= returns SubAsWritten of the old value and rhs, with the same state left on failure |
| Rationals.RationalNumber.MulAssign | 1/src/rational.h:224-235 | *= returns MulAsWritten of the old value and rhs; after an overflow the object holds the partially written parts |
| Rationals.RationalNumber.DivAssign | 1/src/rational.h:238-249 | /= returns DivAsWritten, with no check of the divisor; after an overflow the object holds the partially written parts |
| Rationals.RationalNumber.NegateInPlace | 1/src/rational.h:192-199 | unary minus negates the object in place, or leaves it unchanged on overflow |
| Rationals.RationalNumber.PreIncrement | 1/src/rational.h:252-255 | prefix ++ is += 1 as written (IncrementAsWritten) |
| Rationals.RationalNumber.PostIncrement | 1/src/rational.h:258-262 | postfix ++ returns the old value and stores IncrementAsWritten of it; on failure it returns that failure and leaves what += 1 leaves |
| Rationals.RationalNumber.PreDecrement | 1/src/rational.h:265-268 | prefix -- is -= 1 as written (DecrementAsWritten) |
| Rationals.RationalNumber.PostDecrement | 1/src/rational.h:271-275 | postfix -- returns the old value and stores DecrementAsWritten of it; on failure it returns that failure and leaves what -= 1 leaves |
| Rationals.NegativeDenominatorObject | 1/src/rational.h:202-221 | an object built valid from 3/5 holds 7/-30 after -= 5/6, and += 1 then throws negative_denominator_error |
| Rationals.ZeroDivisorObject | 1/src/rational.h:238-249 | 3/5 /= 0/1 succeeds and leaves the object at 1/0 |
| Text.Split | 1/src/matrix.h:27-43 | split returns exactly the maximal runs of non-space characters, in order |
| Text.WordsAreNonEmptyRuns | 1/src/matrix.h:27-43 | every word split returns is nonempty and holds no space |
| Text.Stoui | 1/src/matrix.h:18-24 | stoui succeeds exactly when stoul does and the value fits 32 bits |
| Text.StouiOfNat | 1/src/matrix.h:18-24 | stoui reads the decimal form of any number below 2^32 back |
| Text.Stoll | 1/src/rational.h:146-148 | stoll fails with invalid_argument exactly when the text is no integer, with out_of_range when the integer does not fit a long long, and otherwise returns that integer |
| Text.Stoi | 1/src/matrix.h:380-385 | stoi fails with invalid_argument exactly when the text is no integer, with out_of_range when the integer does not fit an int, and otherwise returns that integer |
| Text.ParseIntToString | 1/src/matrix.h:419-430 | the decimal form that to_string writes parses back to the same integer |
| Text.LinesOfJoin | 1/src/matrix.h:350-351 | reading back lines joined with newlines gives the lines |
| Sparse.PruneTwice | 1/src/matrix.h:624-640 | pruning twice is pruning once |
| Sparse.NonPositiveThreshold | 1/src/matrix.h:624-640 | with eps <= 0 delete_zeros erases nothing |
| Sparse.WriteThenRead | 1/src/matrix.h:556-571 | after writing v at x, a read of x gives v unless v is below eps, and reads elsewhere are unchanged |
| Sparse.LazyPrune | 1/src/matrix.h:556-571 | a write through operator[] prunes everything but the written position, which reads as it would after pruning |
| Sparse.Ordered | 1/src/matrix.h:627-628 | the ascending row-major walk of the std::map lists every stored position once, in order |
| Sparse.AscendingUnique | 1/src/matrix.h:627-628 | only one ascending sequence lists a given set of positions |
| Sparse.PrunedAssignAll | 1/src/matrix.h:204-212 | a sequence of writes through operator[] reads, after pruning, like the plain overlay of the writes |
| Sparse.PrunedAddAll | 1/src/matrix.h:460-471 | adding each stored element of b through operator[] reads, after pruning, like the element-wise sum |
| Sparse.AddedRead | 1/src/matrix.h:460-471 | the element-wise sum reads as the sum of the reads |
| Sparse.AddedCommutes | 1/src/matrix.h:460-471 | the element-wise sum is commutative |
| Sparse.NegatedTwice | 1/src/matrix.h:448-456 | negating twice gives the elements back |
| Sparse.AddedNegatedSelf | 1/src/matrix.h:474-477 | with eps > 0, a matrix minus itself stores nothing after pruning |
| CellMoves.MovesRead | 1/src/matrix.h:437-445 | writing moved elements in order reads, after pruning, like the moved map |
| CellMoves.TransposeMeaning | 1/src/matrix.h:437-445 | the transposed map holds (c, r) exactly where the original holds (r, c), with the same value |
| CellMoves.SwapTwice | 1/src/matrix.h:437-445 | transposing twice gives the elements back |
| CellMoves.WindowMeaning | 1/src/matrix.h:197-213 | the slice copy holds exactly the parent's elements inside the window, renumbered from (1, 1) |
| CellMoves.WindowAt | 1/src/matrix.h:197-213 | each position of the slice copy reads the parent's element at the shifted position |
| CellMoves.ProductMeaning | 1/src/matrix.h:480-499 | the product map has an entry at every position of the result shape, and that entry is the dot product of row i and column j |
| CellMoves.ProductDone | 1/src/matrix.h:480-499 | writing the products row by row, column by column yields the product map |
| Factories.FactoryReads | 1/src/matrix.h:255-308 | each factory's map lies in its shape and reads, after pruning, as the identity, all ones or all zeros, depending on eps |
| Factories.FactoryKeys | 1/src/matrix.h:255-308 | a position is stored exactly when the factory writes it; with is_zero(eps) every position is stored |
| Factories.UnaryTest | 1/src/matrix.h:701-705 | make_unary(2, 3, 0.5) stores 1 at (1, 1) and (2, 2) only |
| Factories.OnesTest | 1/src/matrix.h:706-710 | make_ones(2, 1, 0.5) stores 1 at both positions |
| Factories.ZerosTest | 1/src/matrix.h:711-715 | make_zeros(5, 6, 0.5) stores nothing |
| Coords.MakeCoords | 1/src/coords.h:22-36 | the four-bound constructor fails exactly when some bound is neither the -1 sentinel nor representable as unsigned, and the error always carries r1; otherwise it records each bound and whether it is the sentinel |
| Coords.MakeCellCoords | 1/src/coords.h:39-40 | the single-cell form is the window (r, c, r, c) |
| Coords.RowSlice | 1/src/matrix.h:591-593 | operator[] on a Matrix_row_coord (coords.h:52-53) slices the window (r, -1, r, -1) |
| Coords.ColSlice | 1/src/matrix.h:596-598 | operator[] on a Matrix_col_coord (coords.h:62-63) slices the window (-1, c, -1, c) |
| Matrices.CompareCellsAll | 1/src/matrix.h:661-667 | the comparison loop succeeds with true exactly when every listed element equals the right-hand side's read |
| Matrices.CompareMeaning | 1/src/matrix.h:643-669 | with no stored zeros on either side, == is equality of the stored maps |
| Matrices.CompareValuesMeaning | 1/src/matrix.h:643-669 | the corrected comparison is true exactly when every position reads alike, and it is symmetric |
| Matrices.CompareAgrees | 1/src/matrix.h:643-669 | when neither side stores a zero, == as written agrees with the corrected comparison |
| Matrices.EqualsAsymmetric | 1/src/matrix.h:643-669 | with eps = 0 a stored zero makes == depend on the order of its operands |
| Matrices.PositiveThreshold | 1/src/matrix.h:624-640 | with eps > 0, pruning leaves no stored zero |
| Matrices.EraseSmall | 1/src/matrix.h:634-639 | erasing the collected positions is pruning |
| Matrices.CollectSmall | 1/src/matrix.h:626-633 | the collected positions are exactly the stored elements below eps |
| Matrices.NegateEach | 1/src/matrix.h:448-456 | the in-order negation loop negates every stored element |
| Matrices.NegateAllRead | 1/src/matrix.h:448-456 | after k steps of the loop the first k listed elements are negated and the rest are unchanged |
| Matrices.Matrix.constructor | 1/src/matrix.h:175-176 | an empty matrix of the given shape and eps |
| Matrices.Matrix.Copy | 1/src/matrix.h:223-224 | a fresh matrix with the same shape, eps and elements, and no slices |
| Matrices.Matrix.MakeUnary | 1/src/matrix.h:255-278 | make_unary builds the factory map of the identity |
| Matrices.Matrix.MakeZeros | 1/src/matrix.h:281-293 | make_zeros builds the factory map of zeros |
| Matrices.Matrix.MakeOnes | 1/src/matrix.h:296-308 | make_ones builds the factory map of ones |
| Matrices.Matrix.DeleteZeros | 1/src/matrix.h:624-640 | the stored map becomes its pruning |
| Matrices.Matrix.Read | 1/src/matrix.h:606-621 | operator() fails with invalid_index_error outside the shape and changes nothing; inside it prunes and returns the element, 0 when none is stored |
| Matrices.Matrix.Touch | 1/src/matrix.h:556-571 | operator[] alone fails outside the shape; inside it prunes and leaves an element stored at the position |
| Matrices.Matrix.Assign | 1/src/matrix.h:556-571 | `m[x] = v` fails outside the shape and otherwise makes the store the lazy write of v |
| Matrices.Matrix.AddTo | 1/src/matrix.h:556-571 | `m[x] += v` fails outside the shape and otherwise adds v to the pruned read |
| Matrices.Matrix.GetMap | 1/src/matrix.h:535-538 | get_map prunes and returns the pruned elements |
| Matrices.Matrix.CountEntries | 1/src/matrix.h:645-650 | the counting loop counts the stored elements |
| Matrices.Matrix.Equals | 1/src/matrix.h:643-669 | == prunes both sides and returns the as-written comparison of the pruned maps |
| Matrices.Matrix.CompareWith | 1/src/matrix.h:661-667 | the comparison loop returns the comparison of the given elements, in ascending order, against reads of this matrix |
| Matrices.Matrix.AddEach | 1/src/matrix.h:465-469 | the += loop is the in-order sequence of `m[x] += b[x]` |
| Matrices.Matrix.AddAssign | 1/src/matrix.h:460-471 | += fails exactly on different shapes and otherwise stores the pruned element-wise sum of the pruned operands |
| Matrices.Matrix.SubAssign | 1/src/matrix.h:474-477 | -= fails exactly on different shapes and otherwise stores the pruned sum with the negated right-hand side |
| Matrices.Matrix.Transpose | 1/src/matrix.h:437-445 | ~ is a fresh cols × rows matrix that reads, after pruning, as the transposed elements |
| Matrices.Matrix.Negate | 1/src/matrix.h:448-456 | unary - is a fresh matrix of the same shape holding every element negated |
| Matrices.Matrix.MulAssign | 1/src/matrix.h:480-499 | *= fails exactly when the inner sizes differ and otherwise takes the product's shape and elements, which read, after pruning, as the matrix product |
| Matrices.Matrix.Multiply | 1/src/matrix.h:486-497 | the product loops write every position row-major with its dot product |
| Matrices.Matrix.FillRow | 1/src/matrix.h:488-496 | one row of the product loop extends the row-major product by that row |
| Matrices.Matrix.DotAt | 1/src/matrix.h:490-493 | the inner loop computes the dot product of the pruned reads |
| Matrices.Matrix.Slice | 1/src/matrix.h:574-588 | the sentinels resolve to the edges; a reversed or out-of-range window fails with invalid_matrix_coords and otherwise a fresh registered slice of exactly that window is returned |
| Matrices.Matrix.SliceRow | 1/src/matrix.h:591-593 | a row slice succeeds exactly for an existing row and covers the whole row |
| Matrices.Matrix.SliceCol | 1/src/matrix.h:596-598 | a column slice succeeds exactly for an existing column and covers the whole column |
| Matrices.Matrix.DetachProxy | 1/src/matrix.h:601-603 | the slice is no longer registered and nothing else changes |
| Matrices.Matrix.Destroy | 1/src/matrix.h:216-220 | the destructor leaves every registered slice without a parent |
| Matrices.FromMap | 1/src/matrix.h:179-194 | the map constructor fails exactly when a stored position is outside the shape and otherwise stores the pruned map |
| Matrices.Plus | 1/src/matrix.h:512-515 | operator+ is += on a copy of the left operand |
| Matrices.Minus | 1/src/matrix.h:518-521 | operator- is -= on a copy of the left operand |
| Matrices.Times | 1/src/matrix.h:524-527 | operator* is *= on a copy of the left operand and reads as the matrix product |
| Matrices.FromProxy | 1/src/matrix.h:197-213 | a matrix of the slice's size holding the parent's elements inside the window, renumbered from (1, 1) |
| Matrices.CopyWindow | 1/src/matrix.h:204-212 | the copying loop writes exactly the in-window elements, shifted |
| Matrices.Proxy.constructor | 1/src/matrix.h:784-786 | a slice of the given window over the given parent |
| Matrices.Proxy.Read | 1/src/matrix.h:799-810 | a read through a slice fails with parent_deleted_error without a parent, then with invalid_proxy_index_error outside the window, and otherwise is the parent's read at the shifted position |
| Matrices.Proxy.DeleteAsWritten | 1/src/matrix.h:789-791 | the slice's destructor as written dereferences the parent pointer exactly when ~Matrix has cleared it, and otherwise unregisters the slice |
| Matrices.Proxy.Delete | 1/src/matrix.h:789-791 | the corrected destructor unregisters the slice from a live parent and does nothing once the parent is gone |
| Matrices.DeleteAfterDestroy | 1/src/matrix.h:867-880 | a slice destroyed after its matrix makes the as-written destructor dereference null |
| MatrixTests.AddTest | 1/src/matrix.h:742-747 | the addition test's sum |
| MatrixTests.SubTest | 1/src/matrix.h:748-753 | the subtraction test's difference |
| MatrixTests.MulTest | 1/src/matrix.h:754-759 | the multiplication test's product 17, 39 |
| MatrixTests.TransposeTest | 1/src/matrix.h:732-736 | the transpose test moves 4 from (1, 2) to (2, 1) |
| MatrixTests.MinusTest | 1/src/matrix.h:737-741 | the negation test |
| MatrixTests.ChangeElemTest | 1/src/matrix.h:765-769 | writing 8 at (1, 2) reads back as 8 |
| MatrixTests.ProxyTest | 1/src/matrix.h:849-856 | the slice (-1, 2, 2, 4) reads 2, 3, 5, 6 and its copy holds nothing else |
| FileFormat.WriteFile | 1/src/matrix.h:407-434 | to_file_string writes the header line and one line per stored element in ascending order |
| FileFormat.ToFileString | 1/src/matrix.h:407-434 | the matrix's text is the file text of its elements |
| FileFormat.HeaderAt | 1/src/matrix.h:315-320 | the header is the first line that is neither blank nor a comment |
| FileFormat.ParseHeader | 1/src/matrix.h:321-348 | a parsed header has sizes below 2^32 |
| FileFormat.ParseEntry | 1/src/matrix.h:351-385 | a parsed element line names a position inside the shape and a 32-bit value |
| FileFormat.Entries | 1/src/matrix.h:350-393 | every parsed line names a position inside the shape |
| FileFormat.EntriesAfterError | 1/src/matrix.h:350-393 | the first bad line decides the error; later lines are never read |
| FileFormat.ReadHeader | 1/src/matrix.h:314-348 | the header loop and checks compute the header of the lines |
| FileFormat.ReadLine | 1/src/matrix.h:351-385 | one iteration of the line loop parses the line as specified |
| FileFormat.ReadEntries | 1/src/matrix.h:350-393 | the line loop fails with the first error or writes every parsed element in order |
| FileFormat.TouchGrid | 1/src/matrix.h:394-402 | the is_zero touch loop touches every position row-major |
| FileFormat.FromFile | 1/src/matrix.h:311-404 | from_file fails with the error of the parse and otherwise returns a fresh matrix of the parsed shape with the parsed elements |
| FileFormat.TouchAllReads | 1/src/matrix.h:394-402 | touching positions never changes what the matrix reads |
| FileFormat.TouchAllPositive | 1/src/matrix.h:394-401 | with a positive threshold the closing touches leave the pruned store plus a 0 at the last position touched only |
| FileFormat.TinyThresholdStore | 1/src/matrix.h:394-401 | for 0 < eps < 1e-10 from_file's store is the pruned store of the elements read plus a 0 at (rows, cols) |
| FileFormat.TinyThresholdFinding | 1/src/matrix.h:394-401 | a 1 × 2 file with no elements, read with eps = 1e-11, stores (1, 2) but not (1, 1) |
| FileFormat.Padded | 1/src/matrix.h:394-401 | padding adds exactly the given positions and changes no read |
| FileFormat.ReadStoreFullAgrees | 1/src/matrix.h:394-401 | the intended store holds every position when is_zero(eps), reads like the store as written, and equals it whenever eps <= 0 |
| FileFormat.LoadedInRange | 1/src/matrix.h:311-404 | a loaded matrix stores only positions inside its shape, and every position when is_zero(eps) holds and eps <= 0 (Findings row 4 for 0 < eps < 1e-10) |
| FileFormat.HeaderOfHeaderLine | 1/src/matrix.h:419 | the written header parses back to the sizes |
| FileFormat.EntryOfEntryLine | 1/src/matrix.h:423-430 | a written element line parses back to the element |
| FileFormat.RoundTrip | 1/src/matrix.h:311-434 | from_file of to_file_string gives the shape back and a matrix that reads the same everywhere, and exactly the same map when is_zero(eps) is false and nothing stored is below eps |
| FileFormatTests.ToFileStringTest | 1/src/matrix.h:727-731 | make_ones(2, 1, 0.5) writes "matrix integer 2 1\n1 1 1\n2 1 1\n" |
| FileFormatTests.FromFileTest | 1/src/matrix.h:311-404 | a sample file with a comment, a blank line and two elements loads as those elements |
| FileFormatTests.FloatFileRejected | 1/src/matrix.h:335-338 | a float file read as an integer matrix fails with the invalid-type error |
| FileFormatTests.RowIndexRejected | 1/src/matrix.h:365-367 | an element outside the rows fails with invalid row index |
| FileFormatTests.NoHeaderTest | 1/src/matrix.h:315-320 | a file of comments only has no header |
| Life.SameMeaning | 4/src/LifeCondition.cpp:50-62 | == holds exactly for the same size and the same board |
| Life.StationaryMeaning | 4/src/LifeCondition.cpp:131-133 | a condition is stationary exactly when one step leaves its board unchanged |
| Life.GenerationsAdd | 4/src/LifeCondition.cpp:64-129 | a steps then b steps are a + b steps |
| Life.SkipNone | 4/src/LifeCondition.cpp:64-66 | zero steps give the condition back |
| Life.SkipAdd | 4/src/LifeCondition.cpp:64-129 | skipping a then b steps is skipping a + b steps |
| Life.SkipScore | 4/src/LifeCondition.cpp:64-129 | after at least one step the result carries the cached numbers of the zeros constructor, so it is not valid and scores size × size |
| Life.NeighbourOfLive | 4/src/LifeCondition.cpp:74-86 | a cell with a live neighbour is itself a neighbour of a live cell, which is why visiting the neighbours of live cells reaches every cell that can be born |
| Life.ScoredAliveBound | 4/src/LifeCondition.cpp:154-166 | the cached live count never exceeds size × size |
| Life.OptValueExact | 4/src/LifeCondition.cpp:146-148 | for boards up to 46340 across, the unsigned score does not wrap: live count plus size × size when not valid |
| Life.RenderShape | 4/src/LifeCondition.cpp:135-144 | the text has one line of size characters and a newline per row, 'X' for live and '-' for dead cells |
| LifeProcedures.CountAround | 4/src/LifeCondition.cpp:73-86 | the neighbour loop counts the live cells among the eight on the board |
| LifeProcedures.Survey | 4/src/LifeCondition.cpp:73-86 | the neighbour loop also queues every on-board neighbour |
| LifeProcedures.SurveyAll | 4/src/LifeCondition.cpp:70-95 | the first pass records every live cell with 2 or 3 neighbours and queues the neighbours of all live cells |
| LifeProcedures.Recount | 4/src/LifeCondition.cpp:96-116 | the second pass records every queued cell with 2 or 3 neighbours |
| LifeProcedures.Apply | 4/src/LifeCondition.cpp:117-125 | the third pass makes a cell live exactly when it is recorded with 3, or with 2 and live |
| LifeProcedures.RevivedIff | 4/src/LifeCondition.cpp:68-126 | after the three passes a cell is live exactly when the B3/S23 rule makes it live |
| LifeProcedures.StepOnce | 4/src/LifeCondition.cpp:67-126 | one iteration of the step loop gives the next generation with the zeros constructor's cached numbers |
| LifeProcedures.SkipConditions | 4/src/LifeCondition.cpp:64-129 | SkipConditions computes the specified skip |
| LifeProcedures.Equals | 4/src/LifeCondition.cpp:50-62 | the comparison loops compute == |
| LifeProcedures.IsStationary | 4/src/LifeCondition.cpp:131-133 | IsStationary compares one step with the condition |
| LifeProcedures.ToString | 4/src/LifeCondition.cpp:135-144 | ToString builds the board's text |
| LifeProcedures.CountCells | 4/src/LifeCondition.cpp:156-163 | the counting loop counts the live cells |
| LifeProcedures.CountOptValue | 4/src/LifeCondition.cpp:154-166 | CountOptValue caches the live count and stationarity after 100 steps |
| LifeProcedures.FromState | 4/src/LifeCondition.cpp:36-48 | the state constructor throws exactly when the board is not size × size and otherwise scores it |
| LifeProcedures.MakeZeros | 4/src/LifeCondition.cpp:5-34 | the zeros constructor gives a dead board with live count 0 and stationary set |
| LifeProcedures.MakePlaner | 4/src/LifeCondition.cpp:5-34 | the planer constructor gives the glider board, scored |
| Breeding.BreedOne | 4/src/Breed.cpp:15-39 | BreedOne throws on different sizes and otherwise takes the cells with row-major index below the cross point from the first parent and the rest from the second, then scores the board |
| Breeding.BreedRow | 4/src/Breed.cpp:28-35 | the cell loop builds the row the cross point falls in |
| Breeding.Breed | 4/src/Breed.cpp:4-13 | Breed throws on different sizes, returns the parents at cross point 0 or size × size, and otherwise the two complementary crossings |
| Breeding.CrossComplement | 4/src/Breed.cpp:4-13 | at every cell one child has the first parent's value and the other the second's |
| Breeding.CrossPrefix | 4/src/Breed.cpp:15-39 | where the parents differ, a cell comes from the first parent exactly when its row-major index is below the cross point |
| Breeding.CrossEnds | 4/src/Breed.cpp:9-11 | at cross point 0 the crossing is the second parent and at size × size the first |
| Breeding.CrossSame | 4/src/Breed.cpp:15-39 | crossing a board with itself gives it back |
| Selection.BestValue | 4/src/MainCycle.cpp:6-34 | an empty population gives 0 and leaves best alone; with no valid member it returns size × size of the first member; otherwise it returns the least of the first member's score and the valid members' scores, together with a member that has it |
| Selection.BestValueIsLeast | 4/src/MainCycle.cpp:23-32 | the returned value is one of the candidates and no candidate is smaller |
| Balance.Max | 2/src/src/classes.cpp:23 | max_element is attained and bounds every load |
| Balance.Min | 2/src/src/classes.cpp:23 | min_element is attained and is below every load |
| Balance.FirstOther | 2/src/src/classes.cpp:28-31 | the redraw loop settles on a processor that differs from the current one |
| Balance.FirstOtherAt | 2/src/src/classes.cpp:28-31 | that processor is the first draw, taken modulo the processor count, that differs |
| Balance.OneProcessorNeverMoves | 2/src/src/classes.cpp:26-33 | with one processor no draws meet mutate's precondition (CanMove), since every draw modulo 1 is the processor of the drawn work: the redraw loop cannot end |
| Balance.LoadsTotal | 2/src/src/classes.cpp:15-24 | the loads of all processors add up to the total work |
| Balance.LoadsExact | 2/src/src/classes.cpp:20-22 | when the total fits 32 bits, each unsigned load is the exact sum of its works |
| Balance.MoveLoads | 2/src/src/classes.cpp:26-33 | moving one work changes only the loads of the old and the new processor, by that work's length |
| Balance.SpreadZero | 2/src/src/classes.cpp:15-24 | the score is 0 exactly when all processors carry the same load |
| Balance.InitialSpread | 2/src/src/classes.cpp:7-13 | with at least two processors the initial schedule scores the whole work |
| Balance.Solution.Initial | 2/src/src/classes.cpp:7-13 | the Solution constructor assigns every work to processor 0 |
| Balance.Solution.RoundRobin | 2/src/src/classes.cpp:39-48 | the TestSolution constructor assigns work w to processor w mod proc_num |
| Balance.Solution.BaseScore | 2/src/src/classes.cpp:15-24 | Solution::score is the largest load minus the smallest |
| Balance.Solution.Score | 2/src/src/classes.cpp:50-52 | the virtual score is the spread for a Solution and its negation for a TestSolution |
| Balance.Solution.Mutate | 2/src/src/classes.cpp:26-33 | mutate moves the drawn work to the first drawn different processor and changes nothing else |

## Left out

- Matrix elements are unbounded integers. The source's `int` elements overflow with undefined behaviour, and that is not modelled. Only `Matrix<int>` is modelled: `Matrix<double>` and `Matrix<RationalNumber<int>>`, the rational and float file formats, `*=(double)` and `operator*(Matrix, double)` are left out because they rest on floating point. The rows of the std::map, which are erased once empty, are flattened into one map of positions.
- The `0.25` element test of `Matrix<double>` (matrix.h:770-774) and the rational `from_file` test (matrix.h:716-726) are left out, for the same reason. So is the `* 3` test.
- `operator=`, the move constructors and `clone` are left out. They only copy fields.
- `RationalNumber::floor`, `round` and `operator double`, and their tests, are left out. They are floating point.
- The mixed-type `operator<` (rational.h:329-343) is left out. With a single integer type, the same-type overload is the one that is chosen.
- File input and output are sequences of lines. Opening files and `std::getline` are left out.
- FileFormat.FromFile: at end of file, with no header line found, the source's header loop keeps reading empty lines forever. The model returns `MissingHeader` instead.
- FileFormat.TouchGrid: the final touch loop's `unsigned` counter wraps when a size is 2^32 - 1. This is not modelled.
- Text.Stoi: `std::stoi`/`std::stoul` also accept leading blanks, a `+` and trailing garbage. The model accepts only an optional `-` followed by digits.
- Text.Stoll: the same restriction, for the rational string constructor.
- Rationals.MakeEqualDenominator: success is proved under the schoolbook bound (x.den * y.den, x.num * y.den and y.num * x.den fit an int). That bound is sufficient, not necessary: the products divided by get_max_delim can fit when the schoolbook ones do not. SumRaw, Add, Sub, Increment, Decrement, Less, Greater, LessEq, GreaterEq and the as-written sums state the same sufficient bound.
- Rationals.Div: success is proved when both cross products fit an int other than INT_MIN, which is again sufficient only. So it is for DivAsWritten, MulAsWritten and the as-written increment and decrement, whose make_canonical traps only on INT_MIN.
- Matrices.Matrix.MulAssign: requires the `int` loop counters of the product loops not to overflow (CountersFit). That needs fewer than 2^31 - 1 rows, inner size and columns.
- Matrices.Matrix.MakeUnary: requires the `int` loop counters not to overflow (GridFits). So do MakeZeros and MakeOnes when they fill the grid.
- LifeProcedures.MakePlaner: requires size ≥ 3. Below that, the planer constructor writes outside its board.
- The random LifeCondition constructor (LifeCondition.cpp:20-26) is left out. It draws from `rand()`.
- A LifeCondition is a value (datatype Condition). The source copies it by value everywhere.
- Breeding.Breed: the cross-point modulus `size * size + 1` is computed in `unsigned` and wraps when size² ≥ 2^32 - 1. The model uses exact arithmetic.
- Breeding.BreedOne: its index arithmetic `(i + 1) * size - 1` and `i * size + j` wraps in the same range. This is not modelled.
- Selection.BestValue: the result is a `double` in the source. Every value it can take here is an integer below 2^32, so it is a `nat`. Printing "NO CORRECT SOLUTIONS FOUND" is left out.
- The rest of MainCycle.cpp (MainCycle itself, selection, mutation and the timing loop) is left out. Only BestValue is modelled.
- Rationals.FromParts: C++ leaves the order of the two `std::stoll` calls unspecified. When both parts are malformed, the model reports the numerator's error; a compiler that evaluates right to left reports the denominator's.
- Matrices.FromProxy: requires a live parent. The source's `Matrix(const Matrix_proxy&)` dereferences the parent pointer unchecked, which after ~Matrix is the null dereference of the ~Matrix_proxy finding; no corrected behaviour is modelled for it.
- Balance.Solution.RoundRobin: requires at least one processor when there are works. With proc_num 0 the source's `next_proc %= proc_num` (classes.cpp:46) divides by zero.
- Balance.Solution.BaseScore: requires at least one processor. With proc_num 0 the loads vector is empty and `*std::max_element` (classes.cpp:23) dereferences its end.
- Balance.Solution.Mutate: requires some draw, taken modulo the processor count, to differ from the work's current processor. Without one the source's redraw loop never ends. The `rand()` draws are parameters.
- Balance.Solution.BaseScore: walks the works in index order, not in the hash order of the source's `std::map`/`unordered_map`. The unsigned sums modulo 2^32 do not depend on the order.
- Mutator, the annealing loop and the rest of 2/src/src/classes.cpp are left out.

## Findings

| source | as written | input that shows it | evidently intended | confidence | as-written member | corrected member |
|---|---|---|---|---|---|---|
| 1/src/rational.h:185-189 | make_canonical divides both parts by get_max_delim, whose result takes the sign of the last remainder, so a negative denominator can be stored (by +=, -=, *=, /=, ++, -- and the binary operators built on them); the next `+=` then builds a RationalNumber with that denominator and throws negative_denominator_error | `RationalNumber(3, 5) - RationalNumber(5, 6)` is stored as 7/-30, and adding 1 to it throws | divide by the magnitude of the gcd and keep the denominator positive: -7/30, and then 23/30 | not executed | Rationals.NegativeDenominatorFinding, Rationals.NegativeDenominatorObject, Rationals.SignedGcdExamples (Rationals.Reduce, Rationals.AddAsWritten, Rationals.SubAsWritten, Rationals.MulAsWritten, Rationals.IncrementAsWritten, Rationals.DecrementAsWritten, Rationals.ReduceAgainstNormalize, and the RationalNumber methods) | Rationals.Normalize, Rationals.NormalizeCanonical, Rationals.Add, Rationals.Sub, Rationals.Mul, Rationals.Increment, Rationals.Decrement |
| 1/src/rational.h:238-249 | `/=` never checks for a zero divisor, so it stores a zero denominator, which the checked constructor forbids | `RationalNumber(3, 5) /= RationalNumber(0, 1)` stores 1/0 | throw zero_division_error | not executed | Rationals.DivisionByZeroFinding, Rationals.ZeroDivisorObject (Rationals.DivAsWritten, Rationals.ReduceOverZero, Rationals.RationalNumber.DivAssign) | Rationals.Div |
| 1/src/matrix.h:643-669 | with eps <= 0, delete_zeros keeps stored zeros, so element counts differ for equal reads and the comparison depends on which side is on the left | 1 × 2 matrices with eps 0: {(1,1): 0} == {(1,2): 5} is true, but {(1,2): 5} == {(1,1): 0} is false | compare the reads at every position, which is symmetric | not executed | Matrices.EqualsAsymmetric (Matrices.CompareStores) | Matrices.CompareValues, Matrices.CompareValuesMeaning, Matrices.CompareAgrees |
| 1/src/matrix.h:394-401 | when is_zero(eps) holds, each `res[{i, j}];` of the closing loops runs delete_zeros first, which erases the 0 the previous one stored whenever eps > 0 | a 1 × 2 file with no elements, read with eps = 1e-11, stores only position (1, 2) | the comment at matrix.h:397-398: a stored element at every position, so the matrix is full | not executed | FileFormat.TinyThresholdFinding (FileFormat.TinyThresholdStore, FileFormat.TouchAllPositive) | FileFormat.ReadStoreFullAgrees (FileFormat.Padded, FileFormat.ReadStoreFull) |
| 1/src/matrix.h:789-791 | ~Matrix_proxy calls `parent_->detach_proxy(this)` without checking `parent_`, which ~Matrix sets to nullptr (matrix.h:216-220) | make a slice of a 2 × 2 matrix, destroy the matrix, then destroy the slice | detach only while the parent lives, as operator() of the slice already checks (matrix.h:799-801) | not executed | Matrices.DeleteAfterDestroy (Matrices.Proxy.DeleteAsWritten) | Matrices.Proxy.Delete |
