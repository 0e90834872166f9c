# Egyptian-fraction expansions, modelled in Dafny

This project models the computational core of a small set of Python
scripts that expand a fraction n/d into sums of distinct unit fractions
1/t1 + 1/t2 + ...:

- `gterms.py` and its simpler twin `kterms.py` search depth first for all
  expansions of n/d with at most kHi terms. The recursive `nextTerm(n, d, k,
  pd)` writes the current term into a shared buffer `terms` and appends
  each completed expansion to `sols`. Afterwards the driver sorts the
  solutions by the sum of their denominators. `gterms.py` also prints two
  single answers: the Engel expansion (`engel`) and the greedy expansion
  (`greedy`).
- `3terms.py` enumerates all expansions of n/d with one, two or three
  terms (`listTerms`), using two nested loops written out by hand.
- `pracfracs.py` builds a prime-factor table `sfn` by sieving with a
  prime list `prl`: each prime overwrites the entries of its multiples, so
  entry j is the last sieving prime that divides j, or j itself when none
  does. `nextPrac(d, u, n)` looks for the next even
  multiplier m that is coprime to d and divisible by 4 or 6, whose sorted
  divisor list (the divisors up to m*n) passes a prefix-sum test that
  detects practical numbers. `findSols` calls it eleven times.

States are modelled in the program's own form:

- The search is the class `Search.Searcher`, with the `terms` buffer as an
  `array<int>` and `sols` as a `seq` field.
- The sieve fills an `array<int>` in place.
- The loops are `while` loops with invariants.
- Each method is proved against a reference function: `Found`, `Listing`,
  `EngelDens`, `GreedyDens`, `DivisorsIn` and the sieve's `Entry`.

The lemmas then say what that function means:

- the search reports exactly the expansions characterised by
  `Search.Admissible`, in lexicographic order;
- `listTerms` prints exactly the one- to three-term expansions, in
  lexicographic order;
- the Engel and greedy lists are expansions of n/d;
- every sieve entry is a prime factor;
- the factorisation multiplies back to m;
- the divisor list is exactly the ascending list of divisors up to the
  bound;
- each reported multiplier is the least accepted one from its start.

Fractions are compared as exact Dafny `real`s, and Python's unbounded
integers are Dafny `int`s.

Where the comments and the code disagree, the model follows the code:

- **The nextPrac docstring.** It (`pracfracs.py:44-45`) promises m > u
  and 2m > d. The start value `max(2*(d//4), 2+((u-2)&~1), 6)` only gives
  m >= u - 1 (m >= u for even u) and 2m > d - 4. For example, d = 17 and
  u = 6 start at m = 8, and 2*8 < 17. `Practical.StartBounds` states what
  the code guarantees.
- **The order of the term slots.** The search writes its k-th term to
  `terms[-k]`, which is slot `len(terms) - k`. So the top call fills slot
  0, and each recorded solution is the buffer prefix up to and including
  the recording call's own slot.
- **What the search reports.** It is not every expansion of at most kHi
  terms. Once a remainder is itself a unit fraction 1/m with m above the
  last term, the search records [.., m] and does not split that remainder
  further. The example output at `gterms.py:15` shows this: for 2/5 it
  lists [3, 15] but not [3, 16, 240]. `Search.Admissible` captures exactly
  this condition.

The gcd and `nextTerm` functions of `kterms.py` and `pracfracs.py` are
textually the same as those of `gterms.py` (apart from `mpz` wrappers).
They are modelled once, by `Divisibility.Euclid` and
`Search.Searcher.NextTerm`.

## Model

| member | source | states |
|---|---|---|
| Divisibility.Euclid | gterms.py:65-68 | the loop `a, b = b % a, a` returns the recursive Euclid gcd; gcd(0, b) = b; the result is 0 exactly when both inputs are 0 |
| Divisibility.GcdIsGcd | gterms.py:65-68 | when a and b are not both 0, the result divides both and every common divisor divides it |
| Divisibility.GcdZero | kterms.py:16-19 | the gcd is 0 exactly when both arguments are 0 |
| Divisibility.ReducedCoprime | gterms.py:103-104 | dividing n and d by their gcd leaves exact cofactors whose gcd is 1 |
| Divisibility.GcdSymmetric | pracfracs.py:22-25 | the gcd does not depend on the order of its arguments |
| Divisibility.Gauss | pracfracs.py:49 | a divisor of b*c that is coprime to b divides c |
| Divisibility.CoprimeMul | pracfracs.py:49 | a product of two numbers coprime to d is coprime to d |
| Fractions.CeilDiv | gterms.py:109 | `(x + c - 1) // c` is the least r with c*r >= x |
| Fractions.CeilDivLeast | gterms.py:109 | every t with c*t >= x is at least the ceiling |
| Fractions.SubRecip | gterms.py:113 | (n*t - d)/(d*t) = n/d - 1/t |
| Fractions.RecipSumBound | gterms.py:111 | k increasing denominators from t on sum to at most k/t, and to strictly less when k > 1 |
| Fractions.GuardBound | gterms.py:111 | an expansion of n/d with first term at least t and at most k terms meets the pruning guard k*d > n*t, unless it is a single term at k = 1 |
| Fractions.LexSortedUnique | 3terms.py:14-36 | two lexicographically sorted lists with the same elements are equal |
| Search.Start | gterms.py:109 | the first candidate is above pd and satisfies n*t >= d1 |
| Search.StartLeast | gterms.py:109 | the first candidate is the least t above pd with n*t >= d1 |
| Search.RecursesWithBudget | gterms.py:115-116 | the recursive call always has budget k - 1 >= 1 |
| Search.NoZeroRemainder | gterms.py:113-115 | after the unit case returned, the remainder n1*t - d1 is never 0, so the test `n2 > 0` only skips negative remainders |
| Search.CandidateBounds | gterms.py:109 | candidates below ceil(d1/n1) leave a negative remainder; the start, computed with the unreduced n, is at most max(pd + 1, ceil(d1/n1)) |
| Search.Reduce | gterms.py:103-104 | the reduced n1/d1 is positive, in lowest terms, equal to n/d, and n1 <= n |
| Search.UnitForm | gterms.py:105 | a reduced fraction equal to 1/m is 1/m itself |
| Search.NotUnitAbove | gterms.py:105-108 | outside the leaf case, the reduced remainder is no unit fraction above pd |
| Search.AdmissibleStep | gterms.py:111-117 | [t] + s' is admissible for n1/d1 with budget k exactly when s' is admissible for the child remainder with budget k - 1 above t |
| Search.LeafOnly | gterms.py:105-108 | when n/d = 1/m with m > pd, [m] is the only admissible list |
| Search.GuardHolds | gterms.py:111 | the loop guard holds while an admissible list starting at t or later lies ahead |
| Search.FoundSound | gterms.py:102-117 | every list one call reports is admissible: an increasing expansion of n/d above pd with at most k terms and no early unit remainder |
| Search.FoundComplete | gterms.py:102-117 | every admissible list is reported |
| Search.FoundFromSound | gterms.py:111-117 | the candidate loop from t on reports only admissible lists |
| Search.FoundFromComplete | gterms.py:111-117 | the candidate loop from t on reports every admissible list whose first term is at least t |
| Search.CandidateSound | gterms.py:112-116 | what one candidate contributes is admissible |
| Search.CandidateComplete | gterms.py:112-116 | an admissible list starting at t is contributed by candidate t |
| Search.FoundSorted | gterms.py:102-117 | the reports come out in strictly increasing lexicographic order, each starting above pd |
| Search.FoundFromSorted | gterms.py:111-117 | the candidate loop's reports are lexicographically sorted and start at t or later |
| Search.Searcher.constructor | gterms.py:120 | a fresh buffer of kHi zero slots and an empty solution list |
| Search.Searcher.NextTerm | gterms.py:102-117 | appends to `sols` the buffer prefix followed by each list of `Found`, in order, and leaves the slots before its own unchanged |
| Search.Searcher.TryCandidate | gterms.py:112-116 | writes t into the slot and appends what candidate t contributes |
| Search.Solve | gterms.py:119-127 | the sorted report holds exactly the admissible lists, as a permutation of the search's output, in ascending order of sums |
| Report.Insert | gterms.py:126 | inserting adds exactly one element |
| Report.SumSnoc | pracfracs.py:67-73 | the running front sum `fsum += divs[j]` is `Sum` of the prefix: a sum adds up from the back too |
| Report.InsertSorted | gterms.py:126 | inserting into a list sorted by sum keeps it sorted |
| Report.SortBySum | gterms.py:126 | the sort is a permutation |
| Report.SortBySumSorted | gterms.py:126 | the sort's result is in ascending order of sum |
| Seeds.EngelStep | gterms.py:78-80 | one Engel step: the term is ceil(ud/un) >= 1 (>= 2 while un < ud), and the new numerator lies in [0, un - 1] |
| Seeds.EngelSum | gterms.py:75-84 | the running products of the Engel series sum to un/(c*ud) |
| Seeds.EngelTerms | gterms.py:77-80 | every series term is at least 1, and at least 2 when un < ud |
| Seeds.EngelFacts | gterms.py:75-84 | the result is empty exactly for n <= 0; it is an expansion of n/d; each denominator divides the next; the first term is ceil(d/n); it is strictly increasing for 0 < n < d |
| Seeds.Engel | gterms.py:75-84 | the two loops compute the Engel expansion, with the properties above |
| Seeds.GreedyStep | gterms.py:93-97 | one greedy step: den = ceil(ud/un), and the reduced remainder a/b equals un/ud - 1/den, is in lowest terms and has a smaller numerator |
| Seeds.GreedySum | gterms.py:90-98 | the greedy denominators sum to un/ud |
| Seeds.GreedyIncreasing | gterms.py:90-98 | for 0 <= un < ud, the greedy denominators strictly increase, starting at ceil(ud/un) |
| Seeds.GreedyFacts | gterms.py:90-98 | the result is empty exactly for n <= 0; it is an expansion of n/d starting at ceil(d/n); it is strictly increasing for 0 < n < d |
| Seeds.Greedy | gterms.py:90-98 | the loop computes the greedy expansion, with the properties above |
| ThreeTerms.FirstStartIs | 3terms.py:16-17 | `d//n`, bumped when n*t1 < d, is exactly ceil(d/n) |
| ThreeTerms.SecondStartIs | 3terms.py:24-25 | the second start is max(t1 + 1, ceil(d2/n2)), so the remainder after it is never negative |
| ThreeTerms.ListingIs | 3terms.py:14-36 | a tuple is printed exactly when it is an expansion of n/d into one to three strictly increasing denominators |
| ThreeTerms.ListingSorted | 3terms.py:14-36 | the tuples come out in strictly increasing lexicographic order, with none repeated |
| ThreeTerms.ListingScale | 3terms.py:15 | not reducing n/d by its gcd changes nothing: c*n/(c*d) prints the same tuples |
| ThreeTerms.InnerSound | 3terms.py:26-35 | the inner loop prints only expansions of n2/d2 whose first term is at least t2 |
| ThreeTerms.InnerComplete | 3terms.py:26-35 | the inner loop prints every one- or two-term expansion of the remainder from t2 on |
| ThreeTerms.OuterSound | 3terms.py:18-36 | the outer loop prints only expansions of n/d with first term at least t1 |
| ThreeTerms.OuterComplete | 3terms.py:18-36 | the outer loop prints every one- to three-term expansion with first term at least t1 |
| ThreeTerms.ListTerms | 3terms.py:14-36 | the printed tuples are `Listing(n, d)`: exactly the one- to three-term expansions, in lexicographic order |
| ThreeTerms.ListTails | 3terms.py:24-35 | the inner loop prints its tuples, each behind t1 |
| Practical.SmallPrimeFactor | pracfracs.py:93-95 | every j >= 2 has a prime factor q that is j itself or has q*q <= j |
| Practical.Processed | pracfracs.py:93-94 | the sieve strikes with exactly the primes of the leading run of prl whose squares are at most fHi |
| Practical.Sieve | pracfracs.py:92-95 | entry j of the table is the last struck prime dividing j, or j when there is none |
| Practical.Strike | pracfracs.py:95 | `for j in range(p, fHi, p): sfn[j] = p` sets exactly the multiples of p from p on, and nothing else |
| Practical.EntryDivides | pracfracs.py:92-95 | each entry for j >= 2 is a divisor of j between 2 and j |
| Practical.EntryPrime | pracfracs.py:89-95 | when prl holds increasing primes and every prime with square below fHi, each entry for 2 <= j < fHi is prime |
| Practical.EntryRuns | pracfracs.py:92-95 | when the entry p divides j/p, the entry for j/p is p again, so equal factors come out in one run |
| Practical.SieveTable | pracfracs.py:89-95 | under that hypothesis on prl, the sieved table is a prime-factor table for every 2 <= j < fHi |
| Practical.Factor | pracfracs.py:52-61 | the (prime, exponent) pairs multiply back to m, with distinct prime bases and positive exponents |
| Practical.DivisorSplit | pracfracs.py:63-64 | a divisor of p^e * r, with p not dividing r, is p^i times a divisor of r for some i <= e |
| Practical.ProductsDivide | pracfracs.py:63-64 | every product of one power per prime divides m |
| Practical.DivisorsAreProducts | pracfracs.py:63-64 | every divisor of m is such a product |
| Practical.ProductsDistinct | pracfracs.py:63-64 | no product occurs twice |
| Practical.Filter | pracfracs.py:64 | the filter keeps exactly the elements up to the bound |
| Practical.SortAsc | pracfracs.py:64 | `sorted` is a permutation |
| Practical.SortAscSorted | pracfracs.py:64 | `sorted` puts the list in ascending order |
| Practical.DivisorsAre | pracfracs.py:63-64 | the sorted list is ascending and holds exactly the divisors of m between 1 and the bound |
| Practical.DivisorsInIs | pracfracs.py:64 | the reference divisor list is strictly increasing and holds exactly the divisors in the range |
| Practical.IncreasingUnique | pracfracs.py:64 | two strictly increasing lists with the same elements are equal |
| Practical.DivisorsExact | pracfracs.py:63-64 | the computed divisor list equals the reference list of the divisors of m up to the bound |
| Practical.PrefixTest | pracfracs.py:67-73 | the test succeeds exactly when each divisor after the first is at most one more than the sum of those before it |
| Practical.StartBounds | pracfracs.py:46 | the start is even, at least 6 and at least u - 1 (u when u is even), and twice it exceeds d - 4 |
| Practical.TwoCoprime | pracfracs.py:49 | 2 is coprime to an odd d |
| Practical.PowerAbove | pracfracs.py:49-50 | for odd d there is a multiple of 4 coprime to d above any bound, so the skip loop ends |
| Practical.SkipToCandidate | pracfracs.py:49-50 | the skip loop stops at the first even m from its start that is a multiple of 4 or 6 and coprime to d |
| Practical.ListDivisors | pracfracs.py:52-64 | factoring m and expanding the products gives exactly the ascending divisors of m up to the bound |
| Practical.Examine | pracfracs.py:52-73 | the divisor list is the divisors of m up to m*n; it is empty only when n < 1; otherwise the verdict is the prefix test |
| Practical.DivisorsNonEmpty | pracfracs.py:64-67 | for n >= 1 the divisor list holds 1, so `divs[0]` exists |
| Practical.RejectedStep | pracfracs.py:69-72 | a rejected m extends the range with no accepted even number by m |
| Practical.NextPrac | pracfracs.py:43-74 | the result m is even, at least the start and the least accepted even number from there, and its divisors are returned; otherwise the IndexError of a lookup past the table (m >= fHi) or of `divs[0]` (n < 1) |
| Practical.MultipliersSnoc | pracfracs.py:82-83 | appending the next accepted multiplier keeps the record of multipliers |
| Practical.MultipliersIncrease | pracfracs.py:82-83 | the reported multipliers strictly increase |
| Practical.FindSols | pracfracs.py:76-85 | n/d is reduced; eleven multipliers are found, each the least accepted even number from `Start(d, previous + 2)`, i.e. from max(2*(d//4), previous + 2, 6) with previous 4 before the first; they increase, and `sols` stays empty; or the run aborts with m past the table |

## Left out

- **Input and output.** Argument parsing, timing, the `print`s and the
  SIGINT handler of `gterms.py` are left out. `listTerms` returns what it
  would print, and `findSols` returns the multipliers it would print.
- **Big integers and fixed width.** Python integers, `mpz` values and the
  `int(...)` conversions are all unbounded Dafny `int`s. `numpy.prod`
  computes in 64 bits, but its operands here are at most m*n, so that
  width is not modelled.
- **The prime list.** `prl` is built with a base-2/3/5/7 Fermat test
  (`pracfracs.py:91`), and that construction is not modelled. The sieve
  takes `prl` as a parameter. Primality of the table is proved under the
  hypothesis `Practical.SievePrimes`: the list holds increasing primes, and
  every prime whose square is below fHi. The values pHi = 600 and fHi =
  10000 are parameters.
- **Method boundaries.** Some loop bodies are separate methods, each
  specified exactly and called once per pass:
  - `Practical.Strike` is the inner loop of the sieve;
  - `Practical.SkipToCandidate`, `Practical.Examine` and
    `Practical.ListDivisors` are the stages of one `nextPrac` pass;
  - `Search.Searcher.TryCandidate` is one candidate of `nextTerm`;
  - `ThreeTerms.ListTails` is the inner loop of `listTerms`.
- **The gcd in the skip loop.** The skip-loop test `gcd(m, d) > 1` uses
  the function `Divisibility.Gcd` rather than a call of the method
  `Divisibility.Euclid`. The two are proved equal.
- **The order of the products.** The product over `itertools.product` is
  modelled as the list `Practical.Products`, which takes one power per
  prime. Its order is not claimed to be that of `itertools`. Only its
  contents matter, because the list is sorted next.
- **Practical.Factor: requires 2 <= m.** Every m that `nextPrac` factors is
  at least 6.
- **Practical.NextPrac: requires d odd.** When d is even, every even m
  shares the factor 2 with d. The source's skip loop then never ends.
- **Practical.FindSols: requires the reduced d odd.** This is the same
  reason. The parameter k is unused in the source and in the model.
  `Practical.FindSols` does not state that `Start` stays inside the table.
  A multiplier past fHi is the Aborted outcome.
- **Seeds.Engel and Seeds.Greedy: require d > 0.** Their callers pass a
  positive denominator. Non-positive d is not modelled.
- **Search.Searcher.NextTerm: requires n > 0, d > 0 and k <= len(terms).**
  The recursion only makes such calls: a remainder n2 > 0, a positive
  d1*t1, and a budget that shrinks by one from kHi.
- **ThreeTerms.ListTerms: requires n > 0 and d > 0.** For n = 0 the
  source divides by zero.
- **Search.Solve: multiset, not stable order.** It states the sorted
  report as a permutation of the search's output, in ascending order of
  sum. It does not state that equal sums keep the search's order, although
  `Report.Insert` is written stably.
- Report.SortBySum and Report.SortBySumSorted: they state a permutation
  in ascending order of sum, not that equal sums keep their input order
  (Python's `sorted` is stable); the insertion is written stably but that
  property is not proved.
