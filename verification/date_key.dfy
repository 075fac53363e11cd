/**
 * The shape both generations of the article-id allocator share: a decimal
 * prefix built from the date, followed by the sequence suffix formatted with
 * `format(iteration, '02d')`, the first two characters dropped, read back with
 * `int()`. Also the counting argument that bounds the allocation loop.
 */
module DateKey {
  import opened Text

  /** The calendar date the allocator is given (in the source, the current UTC time). */
  datatype Date = Date(year: nat, month: nat, day: nat)

  predicate ValidDate(d: Date)
  {
    1 <= d.year <= 9999 && 1 <= d.month <= 12 && 1 <= d.day <= 31
  }

  /** `int((prefix + format(iteration, '02d'))[2:])`. */
  function Candidate(prefix: string, iteration: nat): nat
    requires |prefix| >= 3 && IsDigits(prefix)
  {
    Int((prefix + ZeroPad2(iteration))[2..])
  }

  /** A candidate is the dropped-prefix value shifted past the suffix, plus the suffix. */
  lemma {:induction false} CandidateShape(prefix: string, iteration: nat)
    requires |prefix| >= 3 && IsDigits(prefix)
    ensures Candidate(prefix, iteration)
         == Int(prefix[2..]) * Pow10(|ZeroPad2(iteration)|) + iteration
  {
    var pad := ZeroPad2(iteration);
    assert (prefix + pad)[2..] == prefix[2..] + pad;
    ZeroPad2Value(iteration);
    IntConcat(prefix[2..], pad);
  }

  /** While the suffix has two digits, the candidate is the dropped-prefix value followed by it. */
  lemma {:induction false} TwoDigitSuffixCandidate(prefix: string, iteration: nat)
    requires |prefix| >= 3 && IsDigits(prefix)
    requires iteration < 100
    ensures Candidate(prefix, iteration) == Int(prefix[2..]) * 100 + iteration
  {
    ZeroPad2Value(iteration);
    CandidateShape(prefix, iteration);
    assert Pow10(2) == 100;
  }

  /**
   * For a fixed prefix the candidate strictly increases with the iteration,
   * also where the suffix grows from two digits to three.
   */
  lemma {:induction false} CandidateIncreasing(prefix: string, i: nat, j: nat)
    requires |prefix| >= 3 && IsDigits(prefix)
    requires i < j
    ensures Candidate(prefix, i) < Candidate(prefix, j)
  {
    CandidateShape(prefix, i);
    CandidateShape(prefix, j);
    ZeroPad2LengthMono(i, j);
    Pow10Mono(|ZeroPad2(i)|, |ZeroPad2(j)|);
    MulMono(Int(prefix[2..]), Pow10(|ZeroPad2(i)|), Pow10(|ZeroPad2(j)|));
  }

  lemma MulMono(x: nat, p: nat, q: nat)
    requires p <= q
    ensures x * p <= x * q
  {
  }

  // ---------------------------------------------------------------------------
  // Counting: the allocation loop inspects at most |ids| + 1 candidates.

  /** The existing ids below `c`. */
  ghost function Below(ids: set<int>, c: int): set<int>
  {
    set x | x in ids && x < c
  }

  lemma {:induction false} SubsetCard(a: set<int>, b: set<int>)
    requires a <= b
    ensures |a| <= |b|
  {
    assert b == a + (b - a);
    assert a * (b - a) == {};
  }

  /** Moving past a taken candidate adds it to the ids below the next one. */
  lemma {:induction false} BelowGrows(ids: set<int>, c: int, next: int)
    requires c in ids && c < next
    ensures |Below(ids, c)| < |Below(ids, next)| <= |ids|
  {
    var small := Below(ids, c) + {c};
    assert c !in Below(ids, c);
    assert |small| == |Below(ids, c)| + 1;
    SubsetCard(small, Below(ids, next));
    SubsetCard(Below(ids, next), ids);
  }

  /**
   * The allocation loop both generations share: starting at iteration 1, step
   * the iteration while the candidate is in use; return the first free one.
   */
  method FirstFreeCandidate(candidate: nat -> nat, inUse: int -> bool, ghost ids: set<int>)
    returns (id: nat, iteration: nat)
    requires forall x :: inUse(x) <==> x in ids
    requires forall i, j :: 1 <= i < j ==> candidate(i) < candidate(j)
    ensures 1 <= iteration <= |ids| + 1 && id == candidate(iteration) && !inUse(id)
    ensures forall j :: 1 <= j < iteration ==> inUse(candidate(j))
  {
    iteration := 1;
    id := candidate(iteration);
    while inUse(id)
      invariant 1 <= iteration && id == candidate(iteration)
      invariant forall j :: 1 <= j < iteration ==> inUse(candidate(j))
      invariant iteration - 1 <= |Below(ids, id)|
      decreases |ids| - iteration
    {
      BelowGrows(ids, id, candidate(iteration + 1));
      iteration := iteration + 1;
      id := candidate(iteration);
    }
    BelowBounded(ids, id);
  }

  lemma {:induction false} BelowBounded(ids: set<int>, c: int)
    ensures |Below(ids, c)| <= |ids|
  {
    SubsetCard(Below(ids, c), ids);
  }
}
