# mylib66 arithmetic and list helpers in Dafny

This project models three parts of the `mylib66` Python package and proves
properties of them.

- **`mymath.py`, the integer arithmetic kernel.** The five two-argument gcd
  routines (Euclid, the subtractive "decrease technique", Stein,
  prime-factor intersection and divisor-list scan) and the validating
  dispatcher `gcd_2`. Also:
  - `gcd` and `lcm` of many numbers, which reduce the list pairwise;
  - `prime_factor` and `factor`;
  - `synthetic_division` and `polynomial_value`;
  - the integer-argument branch of `ratio`.
- **`mylib66/list.py`**: `removed`, `drop`, `type_same` and `list_concat`.
  `mylib66/general.py` carries verbatim copies of these four functions
  (`mylib66/general.py:16-88`, `321-335`). The `ListHelpers` members cover
  both copies.
- **`mylib66/general.py`**: the string splitter `multi_split` and the
  dictionary counter `cnt_add`.

Modules:
- `Wrappers` (`wrappers.dfy`): `Option`, and the `Outcome` of a call. An
  `Outcome` is either a value or one of the failures the Python code raises:
  - `ValueError` for a negative argument or an unknown algorithm name;
  - `TypeError` for a helper called without its arguments;
  - `ZeroDivisionError`;
  - `IndexError`/`ValueError` on an empty sequence.

  It can also mark a loop that never exits as `NonTermination`.
- `NumberTheory` (`number_theory.dfy`): the reference definitions the
  proofs are stated against:
  - divisibility;
  - gcd and lcm, characterised by divisibility;
  - folds over sequences and one pass of pairwise reduction;
  - primes and products.
- `Polynomials` (`polynomials.dfy`): evaluation of a coefficient list, with
  coefficients listed from the highest degree down, as in the source.
- `MyMath` (`mymath.dfy`), `ListHelpers` (`list.dfy`) and `General`
  (`general.dfy`): the models of the three source files.

The source's behaviour is modelled as written, including where it is not
the textbook algorithm:
- the subtractive gcd never exits on equal arguments or a zero argument;
- the divisor-scan "gcd" is wrong when one argument divides the other;
- three branches of `gcd_2` always raise a TypeError;
- `gcd()` of nothing and `ratio` with a zero never return;
- `multi_split` repeats or loses its trailing remainder depending on the
  separators.

Loops in the source are `method`s with loop invariants, each proved
against a specification function or a reference definition. Recursive and
expression-only code is written as functions. The one exception is the
`for` search loop of `prime_factor`, which returns from inside the loop
into a recursive call; it is the recursive function `FirstFactorFrom`.

## Model

| member | source | states |
|---|---|---|
| MyMath.GcdEuclidean | mymath.py:7-11 | The loop returns Euclid's gcd, and that value is a greatest common divisor for the divisibility order: it divides both arguments and every common divisor divides it, with gcd(0, b) = b. |
| NumberTheory.GcdIsGcd | mymath.py:7-11 | Euclid's recursion `a, b = b % a, a` down to `a == 0` yields a greatest common divisor of the two arguments. |
| MyMath.GcdDecreaseTechnique | mymath.py:14-30 | For positive, distinct arguments, halving both while both are even and then replacing (a, b) by (small, big - small) until big = 2 * small returns small times the removed power of two, which is gcd(a, b). |
| MyMath.DegenerateNeverDone | mymath.py:24-30 | When one argument is zero or both are equal, no number of subtraction rounds reaches the exit test small * 2 == big, so the routine never returns. |
| MyMath.ZeroZeroKeepsHalving | mymath.py:16-22 | On (0, 0) the halving loop never exits: after any number of rounds both numbers are still 0, hence both even. |
| MyMath.HalvingKeepsDegenerate | mymath.py:16-22 | Halving two even arguments keeps them zero-or-equal, so a degenerate pair stays degenerate through the halving loop. |
| MyMath.GcdStein | mymath.py:33-50 | The binary gcd loop terminates with measure a + b. Exact halving of even values, all-even steps that double `record`, and the odd step ((a+b)/2, (a-b)/2) keep record * gcd(a, b) invariant, so the result is gcd(a, b). |
| MyMath.SteinOddStep | mymath.py:49-50 | For odd a >= b, gcd((a+b)/2, (a-b)/2) = gcd(a, b). |
| MyMath.FirstFactorFrom | mymath.py:226-227 | The factor search returns the first i >= 2 with i * i <= n that divides n, or reports that no such i exists. |
| MyMath.PrimeFactor | mymath.py:213-229 | The factor list is never empty; 0 and 1 come back as [n]; a number of at least 2 comes back alone exactly when it is prime. |
| MyMath.PrimeFactorProduct | mymath.py:213-229 | The product of `prime_factor(n)` is n. |
| MyMath.PrimeFactorPrimes | mymath.py:224-229 | For n >= 2 every listed factor is prime. |
| MyMath.PrimeFactorSorted | mymath.py:224-229 | The list of factors is non-decreasing. |
| MyMath.PrimeFactorDivides | mymath.py:226-228 | Every listed factor divides n. |
| MyMath.PrimeFactorOfSmall | mymath.py:226-229 | For n = 0 and n = 1 the loop range is empty and the result is [n]. |
| MyMath.GcdPrimeFactorize | mymath.py:53-61 | The loop that removes each common factor from b's list returns the product of the common factors. For a, b >= 1 that product is gcd(a, b). |
| MyMath.RemoveFirst | mymath.py:59 | `list.remove` removes exactly one element. |
| MyMath.RemoveFirstMultiset | mymath.py:59 | `list.remove(x)` takes exactly one occurrence of x out of the multiset of the list. |
| MyMath.CommonFactorsIntersection | mymath.py:57-60 | The factors kept are the multiset intersection of the two factor lists. |
| MyMath.PrimeFactorizeIsGcd | mymath.py:53-61 | For a, b >= 1 the product of the common prime factors is gcd(a, b). |
| MyMath.PrimeFactorizeZero | mymath.py:53-61 | With a = 0 the routine returns 1, while gcd(0, b) = b. |
| MyMath.Factor | mymath.py:232-248 | x is in `factor(n)` iff 1 <= x <= n // 2 and x divides n, and the list is strictly increasing. |
| MyMath.FactorExcludesSelf | mymath.py:245 | For n >= 1 the divisor list never contains n itself. |
| MyMath.FactorTwentyEight | mymath.py:232-248 | `factor(28)` is [1, 2, 4, 7, 14]. |
| MyMath.GcdFactorize | mymath.py:64-69 | Scanning a's divisors from the largest down returns the largest number in both divisor lists. It returns None exactly when the lists share no element. |
| MyMath.FactorizeFindsCommon | mymath.py:64-69 | The divisor lists share an element iff both arguments are at least 2. |
| MyMath.FactorizeIsGcd | mymath.py:64-69 | For a, b >= 1 the value found equals gcd(a, b) iff neither argument divides the other. |
| MyMath.FactorizeFourEight | mymath.py:64-69 | For (4, 8) the routine returns 2, while gcd(4, 8) = 4. |
| MyMath.Gcd2 | mymath.py:89-111 | Checks run in the source's order: a negative a, then a negative b, then an unknown algorithm name, each with its error. Euclidean returns the gcd. The decrease technique returns the gcd or never returns on zero or equal arguments. Stein, prime factorize and factorize always fail with missing arguments. Any value returned is the gcd. |
| MyMath.FirstNegative | mymath.py:130-132 | The argument check finds nothing iff all numbers are non-negative, and otherwise reports the first negative one. |
| MyMath.GcdMany | mymath.py:114-146 | First negative rejected, then an unknown algorithm. An empty list never leaves the loop. One number is returned as is. The broken algorithms fail on two or more numbers. With the decrease technique, two numbers never return exactly when one is 0 or both are equal. Any value returned is the gcd of all the numbers. |
| MyMath.SpliceGcd | mymath.py:142-144 | One round of the pass replaces the pair at 2i, 2i + 1 of the original list by its gcd. Euclidean never fails. The decrease technique fails with NonTermination exactly when that pair has a zero or two equal numbers. The broken algorithms always fail. |
| MyMath.GcdPass | mymath.py:141-144 | One pass of the `for` loop returns the pairwise gcds of the list. Euclidean never fails. The decrease technique fails, with NonTermination, exactly when one of the pairs (xs[0], xs[1]), (xs[2], xs[3]), ... has a zero or two equal numbers. The broken algorithms fail on any list of two or more. |
| NumberTheory.GcdFoldPairGcds | mymath.py:141-144 | One pass that replaces each adjacent pair by its gcd keeps the gcd of the whole list. |
| NumberTheory.PairGcdsDivisors | mymath.py:141-144 | A number divides everything after a pass iff it divides everything before the pass. |
| NumberTheory.GcdFoldIsGcdOf | mymath.py:114-146 | The gcd of a list divides every element, and every common divisor divides it. |
| MyMath.LcmOfPair | mymath.py:168 | `a * b / gcd_2(a, b)` is the lcm of a and b, and divides by zero exactly when both are 0. |
| NumberTheory.LcmTimesGcd | mymath.py:168 | lcm(a, b) * gcd(a, b) = a * b. |
| NumberTheory.LcmIsLcm | mymath.py:168 | lcm(a, b) is a multiple of both arguments that divides every common multiple, also when an argument is zero. |
| MyMath.LcmZero | mymath.py:168 | When not both are zero, the lcm is 0 iff one argument is 0. |
| MyMath.LcmMany | mymath.py:149-171 | A negative number is rejected and the empty list never returns. The pairwise passes divide by zero iff the list holds two or more zeros. Otherwise the result is the lcm of all the numbers. |
| MyMath.LcmPass | mymath.py:166-169 | One pass returns the pairwise lcms and keeps the number of zeros. It fails only with a division by zero, and only when the list holds two or more zeros. |
| NumberTheory.LcmFoldPairLcms | mymath.py:166-169 | One pass of pairwise lcms keeps the lcm of the whole list. |
| NumberTheory.PairLcmsMultiples | mymath.py:166-169 | A number is a multiple of everything after a pass iff it is before the pass. |
| NumberTheory.LcmFoldIsLcmOf | mymath.py:149-171 | The lcm of a list is a multiple of every element and divides every common multiple. |
| MyMath.Minimum | mymath.py:191 | The value is an element of the list and no larger than any element. |
| MyMath.Ratio | mymath.py:174-210 | The result has the input's length and only positive entries. Each entry is in the same proportion to the others as the inputs are. The entries have gcd 1. A negative number, an empty list and a zero get their errors, and ratios are returned iff none of these applies. |
| MyMath.Scale | mymath.py:202-203 | Every number is multiplied by the scale, and the list keeps its length. |
| MyMath.DivideBy | mymath.py:207-208 | Every number is divided exactly by the gcd: each new entry times the gcd is the old entry. |
| MyMath.DividedByGcd | mymath.py:205-208 | Dividing every number by the list's gcd leaves numbers whose gcd is 1. |
| MyMath.SyntheticValues | mymath.py:297-300 | The result has the length of the coefficient list. Entry k is the value at a of the polynomial formed by the first k + 1 coefficients. |
| MyMath.SyntheticRecurrence | mymath.py:297-300 | The first entry is the leading coefficient, and each later entry is its coefficient plus a times the entry before. |
| MyMath.SyntheticDivision | mymath.py:276-300 | The append loop started from [0] produces exactly those values with the leading 0 dropped. |
| MyMath.SyntheticDivisionIdentity | mymath.py:279-300 | With q all entries but the last and r the last, p(x) = (x - a) * q(x) + r at every x. |
| MyMath.FactorTheorem | mymath.py:256-258 | The remainder is p(a), and it is 0 iff x - a divides the polynomial with the computed quotient. |
| MyMath.PolynomialValue | mymath.py:251-273 | An empty coefficient list raises an index error. Otherwise the value is the polynomial evaluated at x. |
| MyMath.SyntheticDivisionExample | mymath.py:292-294 | Dividing x^2 + x - 6 by x - 2 gives [1, 3, 0]. |
| MyMath.PolynomialValueExample | mymath.py:268-270 | 2x^2 + 3 at x = 3 is 21. |
| ListHelpers.Removed | mylib66/list.py:5-26 | The result is the ordered filter of the list. An item is in the result iff it is in the list and not among the values, where a single value counts as a one-item list. The result is no longer than the list. |
| ListHelpers.KeptMembers | mylib66/list.py:21-26 | Exactly the items that are not targets survive the filter. |
| ListHelpers.KeptAppend | mylib66/list.py:21-26 | Filtering a concatenation is the concatenation of the filtered parts, so the original order is kept. |
| ListHelpers.KeptCons | mylib66/list.py:22-24 | The first item is kept exactly when it is not a target. |
| ListHelpers.KeptIdempotent | mylib66/list.py:18-26 | Removing the same values twice removes nothing more. |
| ListHelpers.KeptNoTargets | mylib66/list.py:18-26 | A list without any of the values comes back unchanged. |
| ListHelpers.Drop | mylib66/list.py:29-50 | The result keeps, in order, the elements whose position is not listed. An int index counts as a one-item list. The length drops by exactly the number of listed positions inside 0 .. len - 1. |
| ListHelpers.KeptAtLength | mylib66/list.py:46-48 | One element is lost per distinct listed position inside the list; out-of-range and negative positions cost nothing. |
| ListHelpers.KeptAtNoneValid | mylib66/list.py:46-48 | When every listed position is negative or too large, the list comes back unchanged. |
| ListHelpers.KeptAtOne | mylib66/list.py:43-50 | Dropping one valid position i leaves lst[..i] + lst[i+1..]. |
| ListHelpers.TypeSame | mylib66/list.py:53-77 | The target type defaults to the type of the first element, which fails on an empty list. The result is True iff every element has the target type. Otherwise it is False, or False with the type of the first mismatching element when that is asked for. |
| ListHelpers.ListConcat | mylib66/list.py:80-94 | The left-to-right accumulation is the in-order concatenation of the lists, and its length is the sum of their lengths. |
| ListHelpers.FlattenAppend | mylib66/list.py:90-94 | Concatenating two groups of lists gives the concatenation of the two results. |
| ListHelpers.FlattenMembers | mylib66/list.py:90-94 | An element is in the result iff it is in one of the lists. |
| General.WarnNested | mylib66/general.py:108-112 | The nested warning loops warn iff some separator occurs inside a separator at a different position of the list. |
| General.ScanPosition | mylib66/general.py:119-130 | The inner loop at one position, with its `continue`, match and end-of-string branches, leaves the cursor and the pieces exactly as the reference scan of that position does. |
| General.MultiSplit | mylib66/general.py:91-132 | The warning is raised iff one separator occurs inside another at a different position of the list. The caller's separator list is left sorted. The pieces are those of the position-by-position, separator-by-separator scan over the sorted separators. |
| General.SortStringsSorted | mylib66/general.py:116 | The separators are left in Python's lexicographic string order. |
| General.SortStrings | mylib66/general.py:116 | Sorting keeps the length and the multiset of separators, so the list is permuted and not changed otherwise. |
| General.Insert | mylib66/general.py:116 | Inserting one separator adds exactly that separator to the multiset. |
| General.LexTotal | mylib66/general.py:116 | Any two strings are ordered one way or the other. |
| General.PositionScan | mylib66/general.py:119-130 | The inner loop never moves the cursor `last` backwards and never shortens the list of pieces. |
| General.PositionScanAppends | mylib66/general.py:119-130 | The inner loop only appends: the pieces present before it are a prefix of the pieces after it. |
| General.CoveredPositionSkipped | mylib66/general.py:121-122 | A position at or before `last` is skipped by every separator, so matches never overlap. |
| General.NoMatchUnchanged | mylib66/general.py:119-130 | Before the last position, separators that do not match change nothing. |
| General.FirstMatchWins | mylib66/general.py:118-126 | Before the last position, the first non-empty separator in sorted order that matches wins. The text since the previous match is appended, and the cursor jumps to the separator's last character. |
| General.SepStepAtEnd | mylib66/general.py:121-130 | At the last position a non-empty separator that does not match appends the rest of the text once when it has one character, and nothing when it is longer and does not fit. |
| General.RemainderStep | mylib66/general.py:119-130 | At the last position, a non-matching separator's effect on the pieces is that single append, and the scan continues with the next separator. |
| General.RemainderUpTo | mylib66/general.py:119-130 | At the last position, a run of non-empty separators that do not match appends the rest of the text once per one-character separator in the run. |
| General.RemainderAtEnd | mylib66/general.py:128-130 | At the last position, with no separator matching there, the text after the last match is appended once per one-character separator. Longer separators do not fit and append nothing. |
| General.RemainderThenMatch | mylib66/general.py:118-130 | At the last position, when a separator matches there, every one-character separator sorted before it appends the whole rest of the text, the matching character included; the match then appends the text before it and later separators are skipped. |
| General.EmptySeparatorMatches | mylib66/general.py:121-126 | The empty separator matches at every unconsumed position, appends the text since the previous match and leaves the cursor just before the position. |
| General.SplitEmpty | mylib66/general.py:118 | The empty string yields no pieces. |
| General.SplitDuplicatesRemainder | mylib66/general.py:118-132 | "a,b;c" split on "," and ";" gives ["a", "b", "c", "c"]: the remainder comes out twice. |
| General.SplitRemainderBeforeMatch | mylib66/general.py:118-132 | "a;" split on "," and ";" gives ["a;", "a"]: "," appends the whole rest before ";" matches. |
| General.SplitDropsRemainder | mylib66/general.py:118-132 | "a--b" split on "--" gives ["a"]: the remainder is lost. |
| General.SortExample | mylib66/general.py:116 | "," sorts before ";". |
| General.Increment | mylib66/general.py:199-207 | The counted key gets its old count plus one, or 1 when it was absent; every other key and count is unchanged. |
| General.CntAdd | mylib66/general.py:199-207 | The dictionary is updated in place to that incremented map, and the same dictionary object is returned. |
| General.CountAllCounts | mylib66/general.py:199-202 | Counting a sequence by repeated increments yields exactly its elements as keys, each with its number of occurrences, as `collections.Counter` would. |

## Left out

- Python's integers are unbounded, like Dafny's, so no integer width is modelled.
- The source's `/` is float division in several places. The model uses exact integer division, which agrees with the source as long as the float values stay exact:
  - Stein's halving (`mymath.py:43-50`);
  - `lcm`'s division (`mymath.py:168`);
  - `int(num / i)` in `prime_factor` (`mymath.py:228`);
  - the final division in `ratio` (`mymath.py:208`).
- MyMath.LcmMany: returns an integer where Python's `lcm` returns a float once any division has happened.
- MyMath.GcdMany: with the decrease technique on three or more numbers the contract states only that the result is the gcd or NonTermination. Which pair stalls in a later pass depends on the gcds of the earlier passes. `GcdPass` states exactly when one pass stalls.
- MyMath.FirstFactorFrom: `int(math.sqrt(num))` is modelled as the exact integer square root (`i * i <= n`). Float rounding of `math.sqrt` for very large numbers is not captured.
- MyMath.PrimeFactor: takes a `nat`. `prime_factor` of a negative number raises a math domain error in `math.sqrt`, which is not modelled.
- MyMath.GcdDecreaseTechnique, MyMath.GcdStein, MyMath.GcdPrimeFactorize, MyMath.GcdFactorize: take `nat` arguments. The helpers are private and every caller passes non-negative numbers.
- A loop that never exits is modelled as the outcome `NonTermination`. For the subtractive gcd, `DegenerateNeverDone`, `HalvingKeepsDegenerate` and `ZeroZeroKeepsHalving` prove that the loop's exit test is never met. For `gcd()`/`lcm()` of an empty list the `while len(nums) != 1` loop is unchanged by a pass. For `ratio` with a zero, `least * 10 ** place` stays 0. These two are stated through the outcome only.
- MyMath.Ratio: requires `digits >= 1`. With `digits < 1` the scale `10 ** (digits - 1)` is a float and the source rounds. The fractional-input branch (`mymath.py:195-197`, `203`) works on floats and is not modelled. The downward search at `mymath.py:198-200` never runs for integers >= 1, so `place` is 0.
- `find_a_zeros` (`mymath.py:303-346`): floating-point bisection, not part of this model.
- The `from mylib import *` import at `mymath.py:4` names a module that is not part of this model.
- MyMath.PolynomialValue and MyMath.SyntheticDivision: integer coefficients and points only; the source also accepts floats.
- ListHelpers.TypeSame: an element's Python runtime type is given by a function `typeOf` from elements to tags.
- ListHelpers.Removed, ListHelpers.Drop, ListHelpers.ListConcat: the lists are sequence values, so "the inputs are not modified" holds by construction and is not stated separately. A non-list argument to `list_concat` makes `result_list + i` raise a TypeError, which is not modelled.
- General.MultiSplit: the `warnings.warn` side effect is the returned flag `warned`; the number of warnings and their text are not modelled. The default `seps=None`, which makes `len(seps)` raise a TypeError, is not modelled. Python's `list.sort` on the separator list is modelled as an insertion sort by code-point order; its result is the same sorted permutation. A tuple of separators, which the signature allows, runs the warning loop and then fails at `seps.sort()` with an AttributeError; `StrList` holds a list and this failure is not modelled. The empty separator `""` matches at every unconsumed position; `EmptySeparatorMatches` states its step, while `FirstMatchWins`, `RemainderAtEnd` and `RemainderThenMatch` assume non-empty separators.
- The rest of `mylib66/general.py` (plotting, `isempty`, `isdecimal`, `program_counter`), `mylib66/matplotlib.py`, `mylib66/numpy.py` and `setup.py`: plotting, numpy, timing and packaging, not part of this model.
