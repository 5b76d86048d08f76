/** The two handle allocators. A handle counter is a signed 32-bit integer that
    is post-incremented on every probe; the increment is modelled as
    two's-complement wrap-around. */
module Handles {
  import opened Common

  const INT_MAX := 0x7FFF_FFFF
  const INT_MIN := -0x8000_0000
  const INVALID := -1

  function Wrap32(x: int): int {
    (x - INT_MIN) % 0x1_0000_0000 + INT_MIN
  }

  /** The values a handle counter can take: it is only ever negative right
      after it was incremented past INT_MAX. */
  predicate CounterOk(next: int) {
    0 <= next <= INT_MAX || next == INT_MIN
  }

  predicate HandleOk(h: int) {
    0 <= h <= INT_MAX
  }

  /** One turn of the search loop: the candidate and the counter after it. */
  datatype Probe = Probe(candidate: int, next: int)

  function ProbeOnce(next: int): Probe {
    if next < 0 then Probe(0, 0) else Probe(next, Wrap32(next + 1))
  }

  /** Up to `tries` probes; None is the exhausted outcome. */
  function Allocate(live: set<int>, next: int, tries: nat): (Option<int>, int)
    decreases tries, live
  {
    if tries == 0 then (None, next)
    else
      var p := ProbeOnce(next);
      if p.candidate !in live then (Some(p.candidate), p.next)
      else Allocate(live, p.next, tries - 1)
  }

  /** The candidates that the first `tries` probes look at. */
  ghost function Candidates(next: int, tries: nat): set<int>
    decreases tries
  {
    if tries == 0 then {}
    else {ProbeOnce(next).candidate} + Candidates(ProbeOnce(next).next, tries - 1)
  }

  predicate Between(lo: int, x: int, hi: int) {
    lo <= x < hi
  }

  ghost function Range(lo: int, hi: int): set<int> {
    set x | lo <= x < hi && Between(lo, x, hi)
  }

  lemma {:induction false} RangeSize(lo: int, hi: int)
    requires lo <= hi
    ensures |Range(lo, hi)| == hi - lo
    decreases hi - lo
  {
    if lo == hi {
      assert Range(lo, hi) == {};
    } else {
      RangeSize(lo, hi - 1);
      assert Range(lo, hi) == Range(lo, hi - 1) + {hi - 1};
    }
  }

  /** The probe in terms of the counter's range: a 32-bit counter wraps, and a
      negative counter starts over at 0 without being incremented. */
  lemma ProbeMeaning(next: int)
    requires CounterOk(next)
    ensures INT_MIN == -2147483648 && INT_MAX == 2147483647 && INVALID == -1
    ensures ProbeOnce(next) ==
      if next == -2147483648 then Probe(0, 0)
      else if next == 2147483647 then Probe(2147483647, -2147483648)
      else Probe(next, next + 1)
  {}

  lemma CandidatesStep(next: int, tries: nat)
    requires tries > 0
    ensures Candidates(next, tries) == {ProbeOnce(next).candidate} + Candidates(ProbeOnce(next).next, tries - 1)
  {}

  lemma {:induction false} CandidatesBeforeWrap(next: int, tries: nat)
    requires 0 <= next && next + tries <= INT_MAX + 1
    ensures Candidates(next, tries) == Range(next, next + tries)
    decreases tries
  {
    if tries == 0 {
      assert Range(next, next) == {};
    } else {
      ProbeMeaning(next);
      CandidatesStep(next, tries);
      if tries > 1 {
        CandidatesBeforeWrap(next + 1, tries - 1);
      }
      assert Range(next, next + tries) == {next} + Range(next + 1, next + tries);
    }
  }

  lemma CandidatesAtWrap(tries: nat)
    requires 1 <= tries <= INT_MAX
    ensures Candidates(INT_MIN, tries) == {0} + Range(0, tries - 1)
  {
    ProbeMeaning(INT_MIN);
    CandidatesStep(INT_MIN, tries);
    CandidatesBeforeWrap(0, tries - 1);
  }

  lemma {:induction false} CandidatesAcrossWrap(next: int, tries: nat)
    requires 0 <= next <= INT_MAX && INT_MAX + 1 < next + tries && tries <= INT_MAX
    ensures Candidates(next, tries)
         == Range(next, INT_MAX + 1) + {0} + Range(0, tries - (INT_MAX + 1 - next) - 1)
    decreases tries
  {
    ProbeMeaning(next);
    CandidatesStep(next, tries);
    if next == INT_MAX {
      CandidatesAtWrap(tries - 1);
    } else {
      CandidatesAcrossWrap(next + 1, tries - 1);
    }
    assert Range(next, INT_MAX + 1) == {next} + Range(next + 1, INT_MAX + 1);
  }

  lemma CandidatesSizeAtWrap(tries: nat)
    requires 1 <= tries <= INT_MAX
    ensures |Candidates(INT_MIN, tries)| >= tries - 1
  {
    CandidatesAtWrap(tries);
    RangeSize(0, tries - 1);
    SubsetSize(Range(0, tries - 1), Candidates(INT_MIN, tries));
  }

  lemma CandidatesSizeAcrossWrap(next: int, tries: nat)
    requires 0 <= next <= INT_MAX && INT_MAX + 1 < next + tries && tries <= INT_MAX
    ensures |Candidates(next, tries)| >= tries - 1
  {
    var low := tries - (INT_MAX + 1 - next) - 1;
    CandidatesAcrossWrap(next, tries);
    TwoRangesSize(low, next, INT_MAX + 1);
    SubsetSize(Range(0, low) + Range(next, INT_MAX + 1), Candidates(next, tries));
  }

  /** At most one of up to INT_MAX consecutive probes repeats a candidate
      (handle 0, at the wrap). */
  lemma CandidatesAlmostDistinct(next: int, tries: nat)
    requires CounterOk(next) && 1 <= tries <= INT_MAX
    ensures |Candidates(next, tries)| >= tries - 1
  {
    if next == INT_MIN {
      CandidatesSizeAtWrap(tries);
    } else if next + tries <= INT_MAX + 1 {
      CandidatesBeforeWrap(next, tries);
      RangeSize(next, next + tries);
    } else {
      CandidatesSizeAcrossWrap(next, tries);
    }
  }

  lemma TwoRangesSize(a: int, lo: int, hi: int)
    requires 0 <= a <= lo <= hi
    ensures |Range(0, a) + Range(lo, hi)| == a + hi - lo
  {
    RangeSize(0, a);
    RangeSize(lo, hi);
    assert Range(0, a) !! Range(lo, hi);
  }

  lemma {:induction false} SubsetSize(a: set<int>, b: set<int>)
    requires a <= b
    ensures |a| <= |b|
  {
    assert b == a + (b - a);
  }

  /** The search fails exactly when every candidate it looks at is in use;
      otherwise it returns an unused, non-negative handle. */
  lemma {:induction false} AllocateMeaning(live: set<int>, next: int, tries: nat)
    requires CounterOk(next)
    ensures var (h, next') := Allocate(live, next, tries);
      && CounterOk(next')
      && (h.None? <==> Candidates(next, tries) <= live)
      && (h.Some? ==> HandleOk(h.value) && h.value !in live && h.value in Candidates(next, tries))
    decreases tries
  {
    if tries > 0 {
      ProbeMeaning(next);
      AllocateMeaning(live, ProbeOnce(next).next, tries - 1);
    }
  }

  /** Exhaustion is never reported while at most INT_MAX - 2 objects are live. */
  lemma AllocateSucceeds(live: set<int>, next: int)
    requires CounterOk(next) && |live| <= INT_MAX - 2
    ensures Allocate(live, next, INT_MAX).0.Some?
  {
    AllocateMeaning(live, next, INT_MAX);
    CandidatesAlmostDistinct(next, INT_MAX);
    if Candidates(next, INT_MAX) <= live {
      SubsetSize(Candidates(next, INT_MAX), live);
    }
  }

  /** The bound is sharp: with INT_MAX - 1 live handles, two of the 2^31 handles
      still free, a search that starts at the wrap can miss both of them. */
  lemma AllocateCanExhaust()
    ensures var live := Range(0, INT_MAX - 1);
      |live| == INT_MAX - 1 && Allocate(live, INT_MIN, INT_MAX).0.None?
  {
    RangeSize(0, INT_MAX - 1);
    CandidatesAtWrap(INT_MAX);
    AllocateMeaning(Range(0, INT_MAX - 1), INT_MIN, INT_MAX);
  }

  /** Until the first wrap the counter is above every handle in use, and the
      search ends on its first probe with the counter itself. */
  lemma AllocateFirstProbe(live: set<int>, next: int)
    requires 0 <= next <= INT_MAX && forall h :: h in live ==> h < next
    ensures Allocate(live, next, INT_MAX) == Allocate(live, next, 1) == (Some(next), Wrap32(next + 1))
    ensures Wrap32(next + 1) == if next == INT_MAX then INT_MIN else next + 1
  {
    assert next !in live;
  }
}
