/** What the batched search computes, stated over the digit source alone,
    without the index: which windows each phase of a batch reports, how the
    best answer evolves from batch to batch, and what the search answers.
    A window is identified by its offset in the source; "the window at d
    repeats" means the N digits at d already occurred at some smaller
    offset. */
module Search {
  import opened DigitStream

  datatype Option<T> = None | Some(value: T)

  /** What the program prints as its verdict: an insertion-phase match,
      after which it stops at once, or the best retry-phase match once the
      batch loop ends (`None` prints as Best=0). */
  datatype Report = InsertHit(pos: nat) | Finished(best: Option<nat>)

  /** The window at `d` equals one starting in [lo, hi). */
  ghost predicate MatchesIn(s: Stream, n: nat, d: nat, lo: nat, hi: nat)
  {
    exists e :: lo <= e < hi && Window(s, e, n) == Window(s, d, n)
  }

  /** The window at `d` repeats an earlier one. */
  ghost predicate RepeatAt(s: Stream, n: nat, d: nat)
  {
    MatchesIn(s, n, d, 0, d)
  }

  /** `r` answers the search up to `ceiling`: a repeat at r with none before
      it up to the ceiling, or no repeat at all up to the ceiling. */
  ghost predicate Answers(s: Stream, n: nat, ceiling: nat, r: Option<nat>)
  {
    && (r.Some? ==> RepeatAt(s, n, r.value) && forall d: nat :: d < r.value && d <= ceiling ==> !RepeatAt(s, n, d))
    && (r.None? ==> forall d: nat :: d <= ceiling ==> !RepeatAt(s, n, d))
  }

  /** The insertion phase of the batch at `start`, from its i-th window on:
      window start+i is tested against the windows inserted before it in the
      same batch, and the first one found there is reported. */
  ghost function FirstHit(s: Stream, n: nat, start: nat, i: nat, b: nat): (r: Option<nat>)
    requires i <= b
    ensures r.Some? ==> start + i <= r.value < start + b && MatchesIn(s, n, r.value, start, r.value)
    ensures forall d :: start + i <= d < (if r.Some? then r.value else start + b) ==> !MatchesIn(s, n, d, start, d)
    decreases b - i
  {
    if i == b then None
    else if MatchesIn(s, n, start + i, start, start + i) then Some(start + i)
    else FirstHit(s, n, start, i + 1, b)
  }

  /** The retry loop continues while `dist` is below this bound: below the
      best answer so far, if any, and not past the ceiling. */
  function Bound(best: Option<nat>, ceiling: nat): (r: nat)
    ensures r <= ceiling + 1
    ensures best.Some? ==> r <= best.value
  {
    if best.Some? && best.value <= ceiling then best.value else ceiling + 1
  }

  /** Being below the bound is the retry loop's guard
      `(best==0 || dist<best) && dist<=15000000000`. */
  lemma BoundIsGuard(best: Option<nat>, ceiling: nat, dist: nat)
    ensures dist < Bound(best, ceiling) <==> (best.None? || dist < best.value) && dist <= ceiling
  {
  }

  /** The retry phase: windows from `dist` up to `limit` are tested against
      the windows of the batch, [lo, hi), and the first match is reported. */
  ghost function RetryHit(s: Stream, n: nat, lo: nat, hi: nat, dist: nat, limit: nat): (r: Option<nat>)
    ensures r.Some? ==> dist <= r.value < limit && MatchesIn(s, n, r.value, lo, hi)
    ensures forall d :: dist <= d < (if r.Some? then r.value else limit) ==> !MatchesIn(s, n, d, lo, hi)
    decreases limit - dist
  {
    if dist >= limit then None
    else if MatchesIn(s, n, dist, lo, hi) then Some(dist)
    else RetryHit(s, n, lo, hi, dist + 1, limit)
  }

  /** The best answer after the retry phase of the batch at `start`: the
      first later window that repeats a window of the batch, if one is found
      before the bound, and the previous best otherwise. */
  ghost function BatchBest(s: Stream, n: nat, b: nat, ceiling: nat, start: nat, best: Option<nat>): (r: Option<nat>)
    ensures best.Some? ==> r.Some? && r.value <= best.value
    ensures r != best ==> r.Some? && start + b <= r.value && RepeatAt(s, n, r.value)
  {
    var hit := RetryHit(s, n, start, start + b, start + b, Bound(best, ceiling));
    if hit.Some? then
      MatchesInWider(s, n, hit.value, start, start + b, 0, hit.value);
      hit
    else best
  }

  /** A match in a range is a match in any range around it. */
  lemma MatchesInWider(s: Stream, n: nat, d: nat, lo: nat, hi: nat, lo': nat, hi': nat)
    requires MatchesIn(s, n, d, lo, hi) && lo' <= lo && hi <= hi'
    ensures MatchesIn(s, n, d, lo', hi')
  {
    var e :| lo <= e < hi && Window(s, e, n) == Window(s, d, n);
    assert lo' <= e < hi';
  }

  /** The batch loop of the program as written: an insertion-phase match
      ends the program at once, whatever the best answer so far. */
  ghost function SearchAsWritten(s: Stream, n: nat, b: nat, ceiling: nat, start: nat, best: Option<nat>): (r: Report)
    requires b >= 1
    ensures r.InsertHit? ==> RepeatAt(s, n, r.pos)
    decreases ceiling + 1 - start
  {
    if !((best.None? || start < best.value) && start <= ceiling) then Finished(best)
    else
      var h := FirstHit(s, n, start, 0, b);
      if h.Some? then
        MatchesInWider(s, n, h.value, start, h.value, 0, h.value);
        InsertHit(h.value)
      else
        SearchAsWritten(s, n, b, ceiling, start + b, BatchBest(s, n, b, ceiling, start, best))
  }

  /** The batch loop with the insertion-phase match weighed against the best
      answer a retry phase already found: the smaller of the two is the
      answer. */
  ghost function SearchFrom(s: Stream, n: nat, b: nat, ceiling: nat, start: nat, best: Option<nat>): (r: Option<nat>)
    requires b >= 1
    decreases ceiling + 1 - start
  {
    if !((best.None? || start < best.value) && start <= ceiling) then best
    else
      var h := FirstHit(s, n, start, 0, b);
      if h.Some? then
        (if best.Some? && best.value < h.value then best else h)
      else
        SearchFrom(s, n, b, ceiling, start + b, BatchBest(s, n, b, ceiling, start, best))
  }

  /** The program as written agrees with the corrected search whenever the
      batch loop runs to its end: its final best is the corrected answer.
      When it stops at an insertion-phase match instead, the corrected
      answer is a repeat no later than the one it reports. */
  lemma {:induction false} AsWrittenAgrees(s: Stream, n: nat, b: nat, ceiling: nat, start: nat, best: Option<nat>)
    requires b >= 1
    ensures SearchAsWritten(s, n, b, ceiling, start, best).Finished? ==>
              SearchAsWritten(s, n, b, ceiling, start, best).best == SearchFrom(s, n, b, ceiling, start, best)
    ensures SearchAsWritten(s, n, b, ceiling, start, best).InsertHit? ==>
              && SearchFrom(s, n, b, ceiling, start, best).Some?
              && SearchFrom(s, n, b, ceiling, start, best).value <= SearchAsWritten(s, n, b, ceiling, start, best).pos
    decreases ceiling + 1 - start
  {
    if (best.None? || start < best.value) && start <= ceiling {
      if FirstHit(s, n, start, 0, b).None? {
        AsWrittenAgrees(s, n, b, ceiling, start + b, BatchBest(s, n, b, ceiling, start, best));
      }
    }
  }

  /** The search state between batches: every pair of windows whose earlier
      one starts before `start` and whose later one lies below the bound has
      been compared, and the best answer so far is a repeat. */
  ghost predicate Covered(s: Stream, n: nat, ceiling: nat, start: nat, best: Option<nat>)
  {
    && (best.Some? ==> RepeatAt(s, n, best.value))
    && (forall e: nat, d: nat :: e < start && e < d < Bound(best, ceiling) ==> Window(s, e, n) != Window(s, d, n))
  }

  /** The search answers correctly: it reports a repeat, and there is none
      before it up to the ceiling; when it reports none there is none up to
      the ceiling. */
  lemma SearchOptimal(s: Stream, n: nat, b: nat, ceiling: nat)
    requires b >= 1
    ensures Answers(s, n, ceiling, SearchFrom(s, n, b, ceiling, 0, None))
  {
    SearchFromAnswers(s, n, b, ceiling, 0, None);
  }

  /** The answer is the least repeat whenever one lies at or below the
      ceiling: the search then reports a repeat no later than it. */
  lemma SearchFindsLeast(s: Stream, n: nat, b: nat, ceiling: nat, d: nat)
    requires b >= 1 && d <= ceiling && RepeatAt(s, n, d)
    ensures SearchFrom(s, n, b, ceiling, 0, None).Some?
    ensures SearchFrom(s, n, b, ceiling, 0, None).value <= d
    ensures RepeatAt(s, n, SearchFrom(s, n, b, ceiling, 0, None).value)
  {
    SearchOptimal(s, n, b, ceiling);
  }

  lemma {:induction false} SearchFromAnswers(s: Stream, n: nat, b: nat, ceiling: nat, start: nat, best: Option<nat>)
    requires b >= 1 && Covered(s, n, ceiling, start, best)
    ensures Answers(s, n, ceiling, SearchFrom(s, n, b, ceiling, start, best))
    decreases ceiling + 1 - start
  {
    if !((best.None? || start < best.value) && start <= ceiling) {
      StoppedAnswers(s, n, ceiling, start, best);
    } else {
      var h := FirstHit(s, n, start, 0, b);
      if h.Some? {
        InsertHitAnswers(s, n, b, ceiling, start, best, h.value);
      } else {
        BatchKeepsCovered(s, n, b, ceiling, start, best);
        SearchFromAnswers(s, n, b, ceiling, start + b, BatchBest(s, n, b, ceiling, start, best));
      }
    }
  }

  /** When the batch loop stops, the best answer so far is the answer. */
  lemma StoppedAnswers(s: Stream, n: nat, ceiling: nat, start: nat, best: Option<nat>)
    requires Covered(s, n, ceiling, start, best)
    requires !((best.None? || start < best.value) && start <= ceiling)
    ensures Answers(s, n, ceiling, best)
  {
    forall d: nat | (best.Some? ==> d < best.value) && d <= ceiling
      ensures !RepeatAt(s, n, d)
    {
      forall e: nat | e < d
        ensures Window(s, e, n) != Window(s, d, n)
      {
        assert e < start;
      }
    }
  }

  /** An insertion-phase match, weighed against the best answer so far,
      gives the answer. */
  lemma InsertHitAnswers(s: Stream, n: nat, b: nat, ceiling: nat, start: nat, best: Option<nat>, h: nat)
    requires b >= 1 && Covered(s, n, ceiling, start, best)
    requires (best.None? || start < best.value) && start <= ceiling
    requires FirstHit(s, n, start, 0, b) == Some(h)
    ensures Answers(s, n, ceiling, if best.Some? && best.value < h then best else Some(h))
  {
    var r := if best.Some? && best.value < h then best.value else h;
    if r == h {
      MatchesInWider(s, n, h, start, h, 0, h);
    }
    forall d: nat | d < r && d <= ceiling
      ensures !RepeatAt(s, n, d)
    {
      forall e: nat | e < d
        ensures Window(s, e, n) != Window(s, d, n)
      {
        if e >= start {
          assert !MatchesIn(s, n, d, start, d);
        }
      }
    }
  }

  /** A batch without an insertion-phase match extends the compared pairs to
      every earlier window of the batch, up to the new bound. */
  lemma BatchKeepsCovered(s: Stream, n: nat, b: nat, ceiling: nat, start: nat, best: Option<nat>)
    requires b >= 1 && Covered(s, n, ceiling, start, best)
    requires FirstHit(s, n, start, 0, b).None?
    ensures Covered(s, n, ceiling, start + b, BatchBest(s, n, b, ceiling, start, best))
  {
    var best' := BatchBest(s, n, b, ceiling, start, best);
    var hit := RetryHit(s, n, start, start + b, start + b, Bound(best, ceiling));
    assert Bound(best', ceiling) <= Bound(best, ceiling);
    forall e: nat, d: nat | e < start + b && e < d < Bound(best', ceiling)
      ensures Window(s, e, n) != Window(s, d, n)
    {
      if e >= start {
        if d < start + b {
          assert !MatchesIn(s, n, d, start, d);
        } else {
          assert !MatchesIn(s, n, d, start, start + b);
        }
      }
    }
  }

  /** The digits 1,1,2,3,1,1,1 followed by zeros. */
  function Sample(i: nat): Digit
  {
    if i == 2 then 2 else if i == 3 then 3 else if i < 7 then 1 else 0
  }

  /** Two-digit windows of `Sample` that differ at their j-th digit. */
  lemma SampleDiffer(e: nat, d: nat, j: nat)
    requires j < 2 && Sample(e + j) != Sample(d + j)
    ensures Window(Sample, e, 2) != Window(Sample, d, 2)
  {
    assert Window(Sample, e, 2)[j] != Window(Sample, d, 2)[j];
  }

  /** With N=2 and batches of B=3 windows over `Sample`, the retry phase of
      the first batch finds that the window at 4 repeats the one at 0, so the
      best answer becomes 4; the second batch, at offset 3, still runs since
      3 < 4, and its insertion phase matches the window at 5 with the one at
      4. The program as written reports 5 and stops, although 4 is a repeat;
      weighing the match against the best answer gives 4. */
  lemma AsWrittenMissesBest(ceiling: nat)
    requires ceiling >= 4
    ensures SearchAsWritten(Sample, 2, 3, ceiling, 0, None) == InsertHit(5)
    ensures RepeatAt(Sample, 2, 4) && 4 < 5
    ensures SearchFrom(Sample, 2, 3, ceiling, 0, None) == Some(4)
  {
    SampleFirstBatch(ceiling);
    SampleSecondBatch();
    assert SearchAsWritten(Sample, 2, 3, ceiling, 3, Some(4)) == InsertHit(5);
    assert SearchFrom(Sample, 2, 3, ceiling, 3, Some(4)) == Some(4);
  }

  /** The windows of `Sample` at 0, 4 and 5 are all 11. */
  lemma SampleRepeats()
    ensures Window(Sample, 0, 2) == Window(Sample, 4, 2) == Window(Sample, 5, 2)
  {
    var s := Sample;
    assert Window(s, 0, 2)[0] == Window(s, 4, 2)[0] && Window(s, 0, 2)[1] == Window(s, 4, 2)[1];
    assert Window(s, 4, 2)[0] == Window(s, 5, 2)[0] && Window(s, 4, 2)[1] == Window(s, 5, 2)[1];
  }

  /** First batch over `Sample`: the insertion phase finds 11, 12, 23 all
      new; the retry phase finds 31 new and 11 at 4 a repeat of the window
      at 0. */
  lemma SampleFirstBatch(ceiling: nat)
    requires ceiling >= 4
    ensures FirstHit(Sample, 2, 0, 0, 3) == None
    ensures BatchBest(Sample, 2, 3, ceiling, 0, None) == Some(4)
    ensures RepeatAt(Sample, 2, 4)
  {
    SampleFirstInsertions();
    SampleFirstRetry(ceiling);
  }

  lemma SampleFirstInsertions()
    ensures FirstHit(Sample, 2, 0, 0, 3) == None
  {
    var s := Sample;
    forall e: nat | e < 1 ensures Window(s, e, 2) != Window(s, 1, 2) { SampleDiffer(e, 1, 1); }
    forall e: nat | e < 2 ensures Window(s, e, 2) != Window(s, 2, 2) { SampleDiffer(e, 2, 0); }
    assert FirstHit(s, 2, 0, 2, 3) == None;
    assert FirstHit(s, 2, 0, 1, 3) == None;
  }

  lemma SampleFirstRetry(ceiling: nat)
    requires ceiling >= 4
    ensures BatchBest(Sample, 2, 3, ceiling, 0, None) == Some(4)
    ensures RepeatAt(Sample, 2, 4)
  {
    var s := Sample;
    SampleRepeats();
    forall e: nat | e < 3 ensures Window(s, e, 2) != Window(s, 3, 2) { SampleDiffer(e, 3, 0); }
    assert MatchesIn(s, 2, 4, 0, 3);
    assert RetryHit(s, 2, 0, 3, 4, ceiling + 1) == Some(4);
    assert MatchesIn(s, 2, 4, 0, 4);
  }

  /** Second batch over `Sample`, at offset 3: 31 is new, 11 at 4 is new in
      the batch, and 11 at 5 matches it. */
  lemma SampleSecondBatch()
    ensures FirstHit(Sample, 2, 3, 0, 3) == Some(5)
  {
    var s := Sample;
    SampleRepeats();
    assert Window(s, 3, 2) != Window(s, 4, 2) by { SampleDiffer(3, 4, 0); }
    assert MatchesIn(s, 2, 5, 3, 5);
    assert FirstHit(s, 2, 3, 1, 3) == Some(5);
  }
}
