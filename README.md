# Finite-field calculator core in Dafny

This project models the computational core of a small calculator for finite
fields GF(p^k). An element of GF(p^k) is a polynomial of degree below k with
coefficients in Z/pZ. Multiplication is reduced modulo a monic irreducible
polynomial of degree k, which the calculator finds by trial division. The
core consists of four parts:

- **Polynomials over Z/pZ** (`Polynomial.cs`). A polynomial is a list of
  coefficients in canonical form (no trailing zeros, the zero polynomial is
  `[0]`) together with its base prime. The operations are:
  - degree, equality, total order and hash;
  - addition, negation, subtraction and the Cauchy product;
  - Euclidean division;
  - products reduced modulo a polynomial;
  - a brute-force scalar inverse and a brute-force inverse modulo a
    polynomial;
  - left-to-right binary exponentiation;
  - rendering as text.
- **The field view model** (`FiniteFieldVM.cs`):
  - enumerates and sorts the p^k field elements;
  - finds the first monic irreducible polynomial of degree k;
  - computes multiplicative orders by testing only divisors of p^k - 1;
  - picks the first primitive element;
  - builds the addition table, the multiplication table and the listing of
    the powers of the primitive element.
- **Combinatorial enumerators** (`Combinatorics.cs`): permutations and
  combinations with and without repetition, the Fisher-Yates shuffle and
  random samples.
- **Number-theory helpers** (`ComputationVM.cs`, static members only):
  trial-division primality, the prime stream, and the decomposition of n as
  p^k.

## Layout

Each module is one file. They are listed here from the bottom up.

- `wrappers.dfy` (`Wrappers`): `Option`, `Result` and the error causes.
  Each thrown exception of the source becomes one of these causes.
- `search.dfy` (`Searches`): the first element of a sequence that satisfies a
  test, and filtering. LINQ `First` and `Where` are modelled this way.
- `sums.dfy` (`Sums`): finite sums over an index range, used for the ring
  laws of the product.
- `modarith.dfy` (`ModArith`): the integer power `Pow`, C#'s truncating `%`,
  and congruence lemmas.
- `number_theory.dfy` (`NumberTheory`): `IsPrime`, `GetPrimeNumbers` and
  `GetPrimePowerDecomposition`.
- `combinatorics.dfy` (`Combinatorics`): the four enumerators, the three
  shuffles and the two samplers.
- `polynomial.dfy` (`Polynomials`): the value type, the two constructors,
  `Degree`, `Lc`/`Lt`/`Lm`, the comparison operators, `CompareTo` and
  `GetHashCode`.
- `poly_arith.dfy` (`PolyArith`): `+`, unary and binary `-`, `*`, and the
  scalar operators.
- `poly_division.dfy` (`PolyDivision`): `GetInverse`, `Divide(int,int,int)`,
  `PolynomialQuotientRemainder`, `%`, `/`, `Multiply`, `GetInverseModulo` and
  `Divide`.
- `poly_ring.dfy` (`PolyRing`): the ring laws, the laws of the product modulo
  h, and the exact power and the power modulo h (`FPow`, `PowMod`) that the
  specification of `Power` uses.
- `poly_power.dfy` (`PolyPower`): `Convert.ToString(k, 2)` and the `Power`
  loop.
- `poly_text.dfy` (`PolyText`): integer rendering and `ToString`.
- `field_elements.dfy` (`FieldElements`): the sorted element list.
- `irreducible.dfy` (`Irreducibles`): the irreducible search.
- `field_order.dfy` (`FieldOrders`): the multiplicative order and the
  primitive element.
- `field_tables.dfy` (`FieldTables`): the table cells and the power listing.
- `finite_field.dfy` (`FiniteFields`): the class `FiniteFieldVM` with its
  constructor, the loops of the table builders and of the power listing, and
  the factory.

Modelling choices:

- **Imperative source loops.** Each loop becomes a `method` whose `ensures`
  ties its result to a specification function. The properties the source
  promises are proved about those functions.
- **Mutable state.** The state the source mutates is kept as fields of the
  class: the element list, the tables and the listing.
- **Integer semantics.**
  - C#'s `%` truncates toward zero. It is modelled by `ModArith.CsRem`.
  - `Math.Pow` and `Math.Sqrt` become the integer `Pow` and `ISqrt`.
  - Exponents passed to `Power` are 32-bit (`IsInt32`). `Convert.ToString(k, 2)`
    of a negative k is its 32-bit two's complement (`Unsigned32`).

## Model

| member | source | states |
|---|---|---|
| ModArith.CsRem | Polynomial.cs:287 | C#'s `%`: the remainder lies strictly between -p and p, and for a non-negative dividend it is the mathematical remainder |
| ModArith.CsRemCongruent | Polynomial.cs:287 | the truncated remainder is congruent to the dividend |
| NumberTheory.ISqrt | ComputationVM.cs:146 | `(int)Math.Sqrt(n)` is the integer square root: r*r <= n < (r+1)*(r+1) |
| NumberTheory.IsPrime | ComputationVM.cs:138-156 | as written: false below 2, true for 2, otherwise true exactly when no odd i in [3, isqrt(n)] divides n |
| NumberTheory.OddTrialDivisionDecidesPrimality | ComputationVM.cs:146-155 | for odd n >= 3, passing the odd trial division is the same as being prime |
| NumberTheory.EvenIsNotPrime | ComputationVM.cs:146-155 | an even n > 2 is not prime, though the loop never tries 2 |
| NumberTheory.IsPrimeAcceptsFour | ComputationVM.cs:146-155 | 4 passes the trial division but is not prime |
| NumberTheory.IsPrimeCorrected | ComputationVM.cs:138-156 | with 2 tried as a divisor, the answer is true exactly for the primes |
| NumberTheory.GetPrimeNumbers | ComputationVM.cs:124-136 | the stream's prefix below a bound is strictly increasing and holds exactly the primes below the bound (the odd candidates never hit the even-number flaw) |
| NumberTheory.SmallestDivisorFrom | ComputationVM.cs:165-172 | the least divisor of n at or above d: it divides n and nothing between d and it does |
| NumberTheory.SmallestDivisorIsPrime | ComputationVM.cs:165-172 | the least divisor of n >= 2 is prime, so walking the prime stream always reaches a divisor of n |
| NumberTheory.FirstPrimeDivisorInStream | ComputationVM.cs:163-172 | over the primes GetPrimeNumbers returns for the bound n + 1, the first one dividing n is the least divisor of n, where the scan stops |
| NumberTheory.FirstGeneratedPrimeDivisor | ComputationVM.cs:163-172 | walking 2, 3, 5, ... with IsPrime stops at the least divisor of n, which is prime; the trailing dummy return is never reached |
| NumberTheory.InverseExists | Polynomial.cs:413-421 | for prime p and a not divisible by p, some x in [1, p) has a*x % p == 1 |
| NumberTheory.GetPrimePowerDecomposition | ComputationVM.cs:158-193 | n < 2 is refused; otherwise the result is (p, k) with p prime, k >= 1 and p^k == n exactly when n is a prime power, and the not-a-prime-power error otherwise |
| NumberTheory.PrimePowerHasSmallestDivisorAsBase | ComputationVM.cs:172-187 | when the powers of the least divisor step over n, n is no prime power at all |
| Combinatorics.GetPermutationsWithRept | Combinatorics.cs:23-32 | k < 1 fails; k == 1 gives the singletons in pool order |
| Combinatorics.GetPermutationsWithoutRept | Combinatorics.cs:47-56 | k < 1 fails; k == 1 gives the singletons in pool order |
| Combinatorics.GetCombinationsWithRept | Combinatorics.cs:71-80 | k < 1 fails; k == 1 gives the singletons in pool order |
| Combinatorics.GetCombinationsWithoutRept | Combinatorics.cs:95-104 | k < 1 fails; k == 1 gives the singletons in pool order |
| Combinatorics.PermutationsWithReptCount | Combinatorics.cs:10-32 | there are n^k samples with repetition |
| Combinatorics.PermutationsWithReptMembers | Combinatorics.cs:23-32 | the samples are exactly the length-k sequences over the pool |
| Combinatorics.PermutationsWithReptOrder | Combinatorics.cs:10-32 | sample i has at position j the pool entry of the base-n digit of i of weight n^(k-1-j): lexicographic by pool position, first coordinate slowest |
| Combinatorics.PermutationsWithReptDistinct | Combinatorics.cs:23-32 | over a duplicate-free pool no sample is listed twice |
| Combinatorics.PermutationsWithoutReptMembers | Combinatorics.cs:47-56 | the samples are exactly the length-k sequences of pairwise distinct pool entries |
| Combinatorics.PermutationsWithoutReptCount | Combinatorics.cs:34-56 | over a duplicate-free pool there are n(n-1)...(n-k+1) samples |
| Combinatorics.PermutationsWithoutReptEmpty | Combinatorics.cs:47-56 | for k > n there are none |
| Combinatorics.CombinationsWithReptMembers | Combinatorics.cs:71-80 | the combinations are exactly the non-decreasing length-k sequences over the pool |
| Combinatorics.CombinationsWithoutReptMembers | Combinatorics.cs:95-104 | the combinations are exactly the strictly increasing length-k sequences over the pool |
| Combinatorics.Shuffle | Combinatorics.cs:112-124 | for any in-range random choices the array ends as a permutation of its old contents |
| Combinatorics.ShuffledCopy | Combinatorics.cs:135-137 | a shuffled copy has the same length and the same elements |
| Combinatorics.ShuffleFrom | Combinatorics.cs:133-138 | the result is a permutation of the part of the list from pos on (all of it for pos <= 0, nothing past the end) |
| Combinatorics.ShuffleRange | Combinatorics.cs:148-157 | pos outside [0, Count) fails; pos + count >= Count fails; otherwise a permutation of the count entries from pos |
| Combinatorics.DrawRandomSampleWithRept | Combinatorics.cs:167-178 | k draws from a non-empty pool give k pool elements; a draw from an empty pool fails |
| Combinatorics.DrawRandomSampleWithoutRept | Combinatorics.cs:187-202 | k > Count fails; otherwise k elements drawn from distinct positions, a sub-multiset of the pool |
| Polynomials.Trim | Polynomial.cs:183-186 | dropping trailing zeros gives a canonical list no longer than the input |
| Polynomials.FromList | Polynomial.cs:176-190 | the list constructor's RemoveAt loop yields the trimmed list, with [0] for an empty input |
| Polynomials.TrimKeepsCoefficients | Polynomial.cs:176-190 | trimming changes no coefficient |
| Polynomials.TrimCanonical | Polynomial.cs:176-190 | constructing from a canonical list is the identity |
| Polynomials.CoefExtensionality | Polynomial.cs:176-190 | two canonical polynomials over the same prime with the same coefficients are equal |
| Polynomials.Constant | Polynomial.cs:191-195 | the constant constructor has cons at position 0 and zeros elsewhere |
| Polynomials.Monomial | Polynomial.cs:243 | c x^e has c at e and zeros elsewhere |
| Polynomials.Degree | Polynomial.cs:164-172 | -1 exactly for the zero polynomial, otherwise Count - 1 with a nonzero top coefficient above which all are zero |
| Polynomials.DegreeIsHighestNonzero | Polynomial.cs:164-172 | the degree is the index of the highest nonzero coefficient |
| Polynomials.Lc | Polynomial.cs:254-257 | the coefficient at the degree, nonzero unless the polynomial is zero |
| Polynomials.Lt | Polynomial.cs:262-267 | the zero polynomial fails; otherwise the single term of the same degree and leading coefficient |
| Polynomials.Lm | Polynomial.cs:272-277 | the zero polynomial fails; otherwise the monic single term of the same degree |
| Polynomials.Equal | Polynomial.cs:60-79 | `==` holds exactly for equal base prime and equal coefficient list |
| Polynomials.Less | Polynomial.cs:84-101 | `<` is the order by degree, then by coefficients from the top down |
| Polynomials.Greater | Polynomial.cs:102-119 | `>` is the reversed order |
| Polynomials.LessOrEqual | Polynomial.cs:120-137 | `<=` is `<` or an equal coefficient list |
| Polynomials.GreaterOrEqual | Polynomial.cs:138-155 | `>=` is `>` or an equal coefficient list |
| Polynomials.TopDownTotal | Polynomial.cs:84-101 | the top-down comparison is irreflexive and asymmetric, and neither way holds only for equal lists |
| Polynomials.PrecedesTrichotomy | Polynomial.cs:84-101 | exactly one of f < g, f == g, g < f holds |
| Polynomials.PrecedesTransitive | Polynomial.cs:84-101 | `<` is transitive |
| Polynomials.CompareTo | Polynomial.cs:14-33 | 0 exactly when equal, -1 exactly when smaller, 1 otherwise |
| Polynomials.HashOfShiftedList | Polynomial.cs:56-59 | the hash (prime plus coefficient sum) agrees for lists with the same multiset of coefficients, so in particular for equal polynomials |
| PolyArith.SumList | Polynomial.cs:285-299 | the coefficient list of a sum has the length of the longer operand |
| PolyArith.PlusCoef | Polynomial.cs:281-301 | overlapping coefficients are added with `%`, the longer operand's tail is copied |
| PolyArith.PlusCoefReduced | Polynomial.cs:281-301 | on reduced operands each coefficient of f + g is (f_i + g_i) mod p |
| PolyArith.PlusInFp | Polynomial.cs:281-301 | the sum of reduced polynomials is reduced |
| PolyArith.PlusCommutative | Polynomial.cs:281-301 | f + g == g + f |
| PolyArith.PlusZero | Polynomial.cs:281-301 | f + 0 == f |
| PolyArith.NegCoef | Polynomial.cs:302-305 | unary `-` maps each listed coefficient c to p - c, unreduced |
| PolyArith.NegOfZeroIsNotZero | Polynomial.cs:302-305 | -0 is [p], of degree 0 and different from 0 |
| PolyArith.MinusLeavesResidueP | Polynomial.cs:302-313 | 1 - x^2 over p = 3 is [1, 3, 2], with the unreduced coefficient 3 |
| PolyArith.NegReducedCoef | Polynomial.cs:302-305 | the corrected negation maps c to (p - c) mod p |
| PolyArith.MinusReducedCoef | Polynomial.cs:310-313 | each coefficient of the corrected difference is (f_i - g_i) mod p |
| PolyArith.MinusReducedInFp | Polynomial.cs:310-313 | the corrected difference of reduced polynomials is reduced |
| PolyArith.MinusReducedThenPlus | Polynomial.cs:310-313 | (f - g) + g == f for the corrected difference |
| PolyArith.MinusAgreesWhenNotLonger | Polynomial.cs:310-313 | for reduced operands, the source's f - g equals the corrected one whenever g's list is not longer than f's |
| PolyArith.ProductCoef | Polynomial.cs:314-337 | coefficient k of f * g is the reduced Cauchy sum below deg f + deg g + 1 and 0 beyond |
| PolyArith.ProductCoefReduced | Polynomial.cs:324-336 | each coefficient of f * g is the convolution sum mod p |
| PolyArith.ProductInFp | Polynomial.cs:314-337 | the product of reduced polynomials is reduced |
| PolyArith.ProductWithZero | Polynomial.cs:314-337 | 0 * g == 0 |
| PolyArith.GetProductCoeff | Polynomial.cs:324-336 | the accumulating loop computes the specified Cauchy coefficient |
| PolyArith.Times | Polynomial.cs:314-337 | the coefficient-filling loop computes the product |
| PolyArith.NormalizeScalar | Polynomial.cs:354-356 | adding p until non-negative and taking `%` yields a mod p in [0, p) |
| PolyArith.PlusScalar | Polynomial.cs:352-363 | f + a changes only the constant coefficient, to (f_0 + a) mod p |
| PolyArith.TimesScalar | Polynomial.cs:364-375 | a * f multiplies every coefficient by a modulo p and keeps coefficients reduced |
| PolyDivision.ScalarInverseIsLeast | Polynomial.cs:413-421 | the inverse search returns the least inv >= 1 with a * inv == 1 (mod p), and it is below p |
| PolyDivision.GetInverse | Polynomial.cs:413-421 | the do-while loop returns that least inverse |
| PolyDivision.ScalarQuotientLaw | Polynomial.cs:409-412 | Divide(a, b, p) is in [0, p) and times b gives a modulo p |
| PolyDivision.DivideScalar | Polynomial.cs:409-412 | the method computes the scalar quotient |
| PolyDivision.ReductionStep | Polynomial.cs:243-246 | one pass subtracts the leading-term multiple of g and lowers the degree of r |
| PolyDivision.DivLoopCorrect | Polynomial.cs:241-247 | the loop ends with reduced q, r, deg r < deg g and f == q * g + r |
| PolyDivision.DivRem | Polynomial.cs:224-249 | g == 0 fails; deg f < deg g gives (0, f); otherwise f == q * g + r with deg r < deg g |
| PolyDivision.ReducePass | Polynomial.cs:243-246 | one loop pass adds the leading quotient to q and subtracts its multiple of g from r |
| PolyDivision.QuotientRemainder | Polynomial.cs:224-249 | the division loop computes DivRem |
| PolyDivision.DivisionUnique | Polynomial.cs:224-249 | the pair (q, r) with f == q * g + r and deg r < deg g is unique |
| PolyDivision.Mod | Polynomial.cs:338-343 | g == 0 fails; otherwise a reduced remainder of degree below deg g |
| PolyDivision.Div | Polynomial.cs:344-349 | g == 0 fails; otherwise a reduced quotient |
| PolyDivision.DivModIdentity | Polynomial.cs:338-349 | f == (f / g) * g + f % g, and any such pair is the quotient and remainder |
| PolyDivision.ModOfSmaller | Polynomial.cs:229-232 | deg f < deg g gives remainder f and quotient 0 |
| PolyDivision.ZeroRemainderIffDivides | Polynomial.cs:338-343 | f % g == 0 exactly when f is a multiple of g |
| PolyDivision.Multiply | Polynomial.cs:378-381 | h == 0 fails; otherwise a reduced result of degree below deg h |
| PolyDivision.MulMod | Polynomial.cs:378-381 | (f * g) % h is reduced and of degree below deg h |
| PolyDivision.ResidueTupleMembers | Polynomial.cs:398 | the candidate coefficient tuples are exactly the length-k lists over 0..p-1 |
| PolyDivision.ResiduePolysInFp | Polynomial.cs:398 | every candidate is reduced, over p, of degree below k |
| PolyDivision.ResiduePolysComplete | Polynomial.cs:398 | every reduced polynomial of degree below k is a candidate |
| PolyDivision.InverseModulo | Polynomial.cs:387-407 | h == 0 and this == 0 fail; a found candidate c has (this * c) % h == 1 and degree below deg h |
| PolyDivision.InverseModuloFirst | Polynomial.cs:398-406 | the result is the first inverting candidate in enumeration order, and null means no polynomial of degree below deg h inverts |
| PolyDivision.IsInverse | Polynomial.cs:401 | the test is `Multiply(this, c, h) == 1` |
| PolyDivision.FindInverse | Polynomial.cs:399-406 | the foreach loop returns the first inverting candidate or null |
| PolyDivision.GetInverseModulo | Polynomial.cs:387-407 | the method computes InverseModulo |
| PolyDivision.DivideMod | Polynomial.cs:382-385 | Divide fails like GetInverseModulo, fails on a null inverse, and otherwise multiplies f by the inverse modulo h |
| PolyRing.PlusAssociative | Polynomial.cs:281-301 | addition of reduced polynomials is associative |
| PolyRing.ProductCommutative | Polynomial.cs:314-337 | f * g == g * f |
| PolyRing.ProductOne | Polynomial.cs:314-337 | 1 * f == f * 1 == f |
| PolyRing.ProductDistributes | Polynomial.cs:314-337 | (a + b) * c == a * c + b * c |
| PolyRing.ProductAssociative | Polynomial.cs:314-337 | (f * g) * h == f * (g * h) |
| PolyRing.DegreeOfProduct | Polynomial.cs:314-337 | deg(f * g) == deg f + deg g for nonzero factors over a prime |
| PolyRing.ModOfMultiplePlus | Polynomial.cs:338-343 | (q * h + x) % h == x % h |
| PolyRing.MulModCommutative | Polynomial.cs:378-381 | Multiply(f, g, h) == Multiply(g, f, h) |
| PolyRing.MulModReduces | Polynomial.cs:378-381 | reducing either factor modulo h first does not change Multiply |
| PolyRing.MulModAssociative | Polynomial.cs:378-381 | Multiply is associative modulo h |
| PolyRing.MulModOne | Polynomial.cs:378-381 | Multiply(f, 1, h) == f % h |
| PolyRing.DivideModCorrect | Polynomial.cs:382-385 | a successful Divide(f, g, h) times g modulo h gives f % h |
| PolyRing.FPow | Polynomial.cs:428-446 | the exact power of a reduced polynomial is reduced |
| PolyRing.PowMod | Polynomial.cs:428-446 | the power modulo h is reduced and of degree below deg h |
| PolyRing.PowModStep | Polynomial.cs:428-446 | f^n mod h == Multiply(f^(n-1) mod h, f, h) |
| PolyPower.PowModAddTo | Polynomial.cs:428-446 | Multiply(f^a mod h, f^b mod h, h) == f^(a+b) mod h |
| PolyPower.Unsigned32 | Polynomial.cs:431 | the 32-bit unsigned reading of an int: k itself when non-negative, k + 2^32 otherwise |
| PolyPower.DigitsValue | Polynomial.cs:431 | the binary digits of n read back as n |
| PolyPower.ValueDigits | Polynomial.cs:431 | a canonical digit string is the binary rendering of its value |
| PolyPower.BinaryCorrect | Polynomial.cs:431 | `Convert.ToString(k, 2)` is canonical, has value Unsigned32(k), 32 digits for negative k, and one digit exactly for k = 0 and 1 |
| PolyPower.LadderMod | Polynomial.cs:433-444 | squaring per digit and multiplying by f on each 1 gives f^(value of the digits) mod h |
| PolyPower.LadderSnoc | Polynomial.cs:433-444 | one more digit squares the accumulator and multiplies by f on a 1 |
| PolyPower.PowerOf | Polynomial.cs:428-446 | the only failure is division by the zero modulus; results are reduced-coefficient polynomials over p |
| PolyPower.PowerIsPowMod | Polynomial.cs:428-446 | k = 0 and k = 1 return an unreduced copy of f; for other k, h == 0 fails and otherwise the result is f^(unsigned k) mod h |
| PolyPower.Power | Polynomial.cs:428-446 | the per-digit loop computes PowerOf |
| PolyText.NatToString | Polynomial.cs:448-514 | decimal digits, no leading zero, "0" for zero |
| PolyText.NatRoundTrip | Polynomial.cs:448-514 | parsing the rendering of n gives n |
| PolyText.IntRoundTrip | Polynomial.cs:448-514 | parsing the rendering of any int (with '-' for negatives) gives it back |
| PolyText.DigitsRoundTrip | Polynomial.cs:448-514 | a digit string without a leading zero is the rendering of its value |
| PolyText.IntToStringInjective | Polynomial.cs:448-514 | distinct ints render differently |
| PolyText.TextOfConstant | Polynomial.cs:448-514 | a one-coefficient polynomial renders as its coefficient |
| PolyText.TextEndsWithLeadingTerm | Polynomial.cs:448-514 | the text is the nonzero lower terms, each followed by " + ", then the top term |
| PolyText.ToString | Polynomial.cs:448-514 | the StringBuilder loop produces Text |
| FieldElements.Sorted | FiniteFieldVM.cs:178 | sorting keeps length and multiset of elements |
| FieldElements.SortedAscending | FiniteFieldVM.cs:178 | the sorted list ascends strictly in the polynomial order |
| FieldElements.AscendingUnique | FiniteFieldVM.cs:178 | two ascending lists with the same elements are equal, so any correct sort gives the same list |
| FieldElements.FieldElementsCount | FiniteFieldVM.cs:170-179 | there are p^k field elements |
| FieldElements.FieldElementsMembers | FiniteFieldVM.cs:170-179 | the elements are exactly the reduced polynomials over p of degree below k |
| FieldElements.FieldElementsAscending | FiniteFieldVM.cs:170-179 | the element list is strictly ascending, hence pairwise distinct |
| FieldElements.FieldElementsUnique | FiniteFieldVM.cs:170-179 | any ascending list of the same elements is the element list |
| FieldElements.FieldElementsStartWithZero | FiniteFieldVM.cs:170-179 | the first element is 0 |
| Irreducibles.MonicCandidatesMembers | FiniteFieldVM.cs:190-191 | the candidates are exactly the reduced monic polynomials of degree k |
| Irreducibles.PossibleDivisorsMembers | FiniteFieldVM.cs:193 | the trial divisors are exactly the reduced polynomials of degree 1 to k / 2 |
| Irreducibles.PassingIsIrreducible | FiniteFieldVM.cs:196-201 | a monic degree-k candidate that no trial divisor divides has no factorization |
| Irreducibles.IrreducibleIsPassing | FiniteFieldVM.cs:196-201 | an irreducible candidate passes the trial division |
| Irreducibles.TrialDivisionDecides | FiniteFieldVM.cs:198 | for a monic candidate, passing the test is the same as being irreducible |
| Irreducibles.IrreducibleSearchCorrect | FiniteFieldVM.cs:185-204 | the result is monic, irreducible, the first passing candidate with only reducible ones before it; null exactly when no monic irreducible of degree k exists |
| Irreducibles.IrreducibleOfDegreeOne | FiniteFieldVM.cs:185-204 | for k = 1 the result is x |
| FieldOrders.Range | FiniteFieldVM.cs:223 | `Enumerable.Range(start, count)` has count entries |
| FieldOrders.FactorsMembers | FiniteFieldVM.cs:223-224 | the factor list ascends and holds exactly the d in [2, Order - 1] dividing Order - 1 |
| FieldOrders.TestedFactorsMembers | FiniteFieldVM.cs:232 | the loop tries exactly the divisors d of Order - 1 with 2 <= d < Order - 1, ascending |
| FieldOrders.UnitPowerIsPowMod | FiniteFieldVM.cs:234 | `f.Power(d, h) == 1` is f^d mod h == 1 |
| FieldOrders.FirstUnitFactorAt | FiniteFieldVM.cs:232-238 | the loop's exit index is the first tested factor whose power is one |
| FieldOrders.MultiplicativeOrderCorrect | FiniteFieldVM.cs:221-239 | 1 for f == 1; otherwise a divisor of Order - 1, the least tested divisor d with f^d == 1, and Order - 1 when none is found |
| FieldOrders.FoundOrder | FiniteFieldVM.cs:234-236 | a returned factor lies in [2, Order - 1), divides Order - 1 and has f^r == 1 |
| FieldOrders.EarlierFactorFails | FiniteFieldVM.cs:232-238 | factors tried before the result do not give one |
| FieldOrders.ZeroGetsFullOrder | FiniteFieldVM.cs:232-239 | the zero polynomial gets Order - 1 |
| FieldOrders.PrimitiveOfFailure | FiniteFieldVM.cs:210-214 | the search fails only for a missing irreducible (exactly when the search finds none) or a missing primitive element |
| FieldOrders.NoPrimitiveElementIff | FiniteFieldVM.cs:210-214 | `First` throws exactly when no element is nonzero, not one and of full order |
| FieldOrders.PrimitiveOfSuccess | FiniteFieldVM.cs:210-214 | the result is the first qualifying element: reduced, nonzero, not one, of order Order - 1, with no tested divisor giving one |
| FieldOrders.NoPrimitiveInGF2 | FiniteFieldVM.cs:210-214 | for p = 2, k = 1 no element passes the test, because `p != oneP` excludes 1, the generator of GF(2)*, so `First` throws |
| FieldOrders.PrimitiveOfCorrected | FiniteFieldVM.cs:210-214 | with the generator test (nonzero, of order Order - 1, 1 not named out) a result is a nonzero field element, and a failure is a missing irreducible or a missing generator |
| FieldOrders.PrimitiveInGF2Corrected | FiniteFieldVM.cs:210-214 | the generator test finds 1 in GF(2) |
| FieldOrders.PrimitiveOfCorrectedAgrees | FiniteFieldVM.cs:210-214 | for every field other than GF(2) the generator test returns what GetPrimitiveElement returns |
| FieldOrders.PrimitiveOfCorrectedSuccess | FiniteFieldVM.cs:210-214 | the generator found is the first sorted element that is nonzero and of order Order - 1, with no tested divisor giving one; it is 1 only when Order is 2 |
| FieldTables.AdditionCellAt | FiniteFieldVM.cs:98-107 | row i of the addition table has header element i and cell j equal to element i + element j |
| FieldTables.MultiplicationCellAt | FiniteFieldVM.cs:136-145 | row i of the multiplication table has header element i and cell j equal to Multiply(element i, element j, h) |
| FieldTables.AdditionTableCells | FiniteFieldVM.cs:98-107 | the addition table is square, symmetric and closed: every cell is a field element |
| FieldTables.AdditionRowOfZero | FiniteFieldVM.cs:98-107 | the row of 0 repeats the element list |
| FieldTables.MultiplicationTableCells | FiniteFieldVM.cs:136-145 | the multiplication table is square, symmetric and closed |
| FieldTables.MultiplicationRowOfOne | FiniteFieldVM.cs:136-145 | the row of 1 repeats the element list |
| FieldTables.MultiplicationRowOfZero | FiniteFieldVM.cs:136-145 | the row of 0 is all zeros |
| FieldTables.PEViewLines | FiniteFieldVM.cs:150-166 | the listing has Order lines: "0", "a       =  " + PE, then "a^n  =  " + PE^n mod h for n = 2 .. Order - 1 |
| FieldTables.PEViewFirstPower | FiniteFieldVM.cs:156 | the second line shows PE^1 mod h, PE itself being reduced |
| FiniteFields.SearchesShaped | FiniteFieldVM.cs:28-35 | the three searches give reduced elements over p, an irreducible of degree k, and a primitive element of degree below k |
| FiniteFields.FiniteFieldVM.constructor | FiniteFieldVM.cs:28-35 | sets p and k, then the element list, the irreducible search result and the primitive search result, with the tables not yet built |
| FiniteFields.FiniteFieldVM.SetFieldElements | FiniteFieldVM.cs:170-179 | the element list becomes the sorted list of all p^k reduced polynomials of degree below k; nothing else changes |
| FiniteFields.FiniteFieldVM.GetMultiplicativeOrder | FiniteFieldVM.cs:221-239 | the loop over the factors computes MultiplicativeOrder for the field's irreducible modulus |
| FiniteFields.FiniteFieldVM.ComputeAdditionTable | FiniteFieldVM.cs:78-114 | the nested loops build the addition table of the element list |
| FiniteFields.FiniteFieldVM.ComputeMultiplicationTable | FiniteFieldVM.cs:116-148 | the nested loops build the multiplication table modulo the irreducible |
| FiniteFields.FiniteFieldVM.CreatePEView | FiniteFieldVM.cs:150-168 | the repeated multiplication builds the power listing of the primitive element |
| FiniteFields.FiniteFieldVM.Initialize | FiniteFieldVM.cs:38-64 | fills the two tables and the listing, leaving elements, irreducible and primitive element unchanged |
| FiniteFields.FiniteFieldVM.Create | FiniteFieldVM.cs:67-71 | fails exactly when the primitive-element search fails; otherwise a fresh, valid field for (p, k) with both tables and the listing built |

## Left out

- User interface and I/O: `MainWindow.xaml.cs` is not part of this model.
  Also left out are the `INotifyPropertyChanged` plumbing, the property
  setters and the constructor of `ComputationVM.cs`. So are the `DataTable`,
  `DataColumn` and `Caption` machinery: a table is a sequence of rows, each
  a header element and a sequence of cells.
- Concurrency: `InitializeAsync`, `Task.Run` and `Task.WhenAny` run the table
  builders concurrently. The model computes them one after the other, in the
  source's order. The source starts `CreatePEViewAsync` twice and keeps only
  the second result; the model computes the listing once.
- Randomness: `ThreadSafeRandom` is a foreign call. Each random index is an
  arbitrary in-range choice, and the contracts hold for every choice.
- Floating point: `Math.Pow` and `Math.Sqrt` are modelled by the integer
  `Pow` and `ISqrt`.
- 32-bit overflow: integers are unbounded. This covers the Cauchy sums, the
  scalar products, `GetInverse`'s `a * inv`, and the hash's coefficient sum.
  It also covers `prod *= p` in `GetPrimePowerDecomposition`. For an even n
  with 2^30 < n < 2^31 that is not a power of two, the source's product runs
  2^30, then `int.MinValue`, then 0, and the loop never ends. The model
  returns the not-a-prime-power error there.
  The field constructor requires p^k to fit in an `int`, since `Order` casts
  `Math.Pow` to `int`.
- NumberTheory.GetPrimeNumbers: the infinite `yield` stream is modelled by
  its prefix below a bound, which is what its one caller consumes.
- FiniteFields.FiniteFieldVM.constructor: when no irreducible polynomial
  exists, the source carries on with a null modulus. The model records the
  missing modulus, and the factory reports it as an error.
- FieldOrders.MultiplicativeOrderCorrect: it requires a nonzero modulus. With
  a zero modulus the source's `Power` would throw.
- FieldOrders.MultiplicativeOrder: the function itself does not require a
  nonzero modulus. Its meaning is proved only for a nonzero one, and every
  caller passes the irreducible modulus.
- FieldOrders.MultiplicativeOrderCorrect: it does not prove that the value
  is the true group order. That would need Fermat's little theorem for
  GF(p^k), which is not modelled. The same holds for the primitive element
  generating the whole multiplicative group, and for the power listing
  holding every nonzero element.
- Combinatorics.CombinationsWithReptMembers: the Binomial(n + k - 1, k) count
  of combinations with repetition is not proved, only the membership
  characterization.
- Combinatorics.CombinationsWithoutReptMembers: the Binomial(n, k) count of
  combinations without repetition is not proved, only the membership
  characterization.
- Combinatorics.GetCombinationsWithRept and
  Combinatorics.GetCombinationsWithoutRept: the source is generic over any
  `IComparable` element type. The model fixes the element type to `int`,
  ordered by `<=` and `<`.
- FieldElements.Sorted: `List.Sort` is modelled by insertion sort.
  FieldElements.AscendingUnique shows that every correct sort gives this
  same list, because the elements are pairwise distinct.
- FiniteFields.FiniteFieldVM.Initialize: it ensures the light shape
  invariant `Built()` rather than `Valid()`. `Create` re-establishes
  `Valid()`.
- Unary `+` returns its operand and is not modelled.
- `Equals(object)` and the null checks are not modelled, because a Dafny
  value cannot be null.
- `CompareTo` with a non-polynomial argument is not modelled.
- The list constructor's `ArgumentNullException` is not modelled.

## Findings

| source | as written | input that shows it | evidently intended | confidence | as-written member | corrected member |
|---|---|---|---|---|---|---|
| ComputationVM.cs:146-155 | `IsPrime` tries only odd divisors from 3, so an even n > 2 with no small odd divisor is reported prime | n = 4 (also 8, 16, 32, ...): the loop bound isqrt(4) = 2 admits no odd i | reject even numbers above 2 | not executed | NumberTheory.IsPrimeAcceptsFour | NumberTheory.IsPrimeCorrected |
| FiniteFieldVM.cs:210-214 | `GetPrimitiveElement` names 1 out with `p != oneP`, so `CreateAsync(2, 1)` throws although GF(2) is a field | p = 2, k = 1: the elements are 0 and 1, and 1 is the generator of GF(2)* | accept every nonzero element of order Order - 1, which rules out 1 by its order everywhere but GF(2) | not executed | FieldOrders.NoPrimitiveInGF2 | FieldOrders.PrimitiveOfCorrected |
| Polynomial.cs:302-305 | unary `-` maps c to p - c without reducing, so a zero coefficient becomes p and `f - g` can carry coefficients equal to p | p = 3: 1 - x^2 = [1] + [3, 3, 2] = [1, 3, 2] | map c to (p - c) mod p so that results stay in [0, p) | not executed | PolyArith.MinusLeavesResidueP | PolyArith.MinusReducedThenPlus |

The division loop keeps the source's `-`. PolyArith.MinusAgreesWhenNotLonger
and PolyDivision.ReductionStep show that it agrees with the corrected
subtraction there, because the subtracted multiple of g is never longer than
the remainder.

The field view model keeps the source's primitive-element test.
FieldOrders.PrimitiveOfCorrectedAgrees shows that it returns what the
corrected test returns for every field other than GF(2).
