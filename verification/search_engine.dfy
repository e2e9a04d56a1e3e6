/** The program's main loop: batches of B windows read from the digit
    source, each window keyed by its last K digits and inserted into the
    hash index, followed by a retry phase that streams later windows past the
    finished index. The methods here are proved to compute exactly the
    batch-level descriptions of the search, and through them a repeat with
    no repeat before it at or below the ceiling. */
module Engine {
  import opened DigitStream
  import opened RollingKey
  import opened HashIndex
  import opened Search

  /** The key length K, the batch size B and the last distance the search
      considers, as the program fixes them. */
  const KeyDigits: nat := 8
  const BatchSize: nat := 500_000_000
  const Ceiling: nat := 15_000_000_000

  /** The outcome of a run: refused because K < N does not hold, or the
      report the program prints together with the corrected answer. */
  datatype Run = KeyTooLong | Ran(report: Report, answer: Option<nat>)

  /** The first `len` cells of the buffer hold the source digits from offset
      `start` on. */
  ghost predicate Buffered(digits: seq<Digit>, s: Stream, start: nat, len: nat)
  {
    len <= |digits| && forall t :: 0 <= t < len ==> digits[t] == s(start + t)
  }

  /** The index records, in the chain of each key, exactly the batch offsets
      below `i` whose window has that key. */
  ghost predicate Content(a: Arena, chains: seq<seq<nat>>, s: Stream, start: nat, i: nat, n: nat, k: nat)
    requires k <= n
  {
    forall kk, x: nat :: 0 <= kk < |chains| ==>
      (x in Positions(a, chains[kk]) <==> x < i && KeyOf(Window(s, start + x, n), k) == kk)
  }

  /** Reading one more digit is one more rolling update of the key. */
  lemma {:induction false} KeyAfterNext(key0: nat, s: Stream, start: nat, cnt: nat, k10: nat)
    requires k10 >= 1
    ensures KeyAfter(key0, Window(s, start, cnt + 1), k10) ==
            KeyStep(KeyAfter(key0, Window(s, start, cnt), k10), s(start + cnt), k10)
  {
    assert Window(s, start, cnt + 1)[..cnt] == Window(s, start, cnt);
  }

  /** Once the digits up to the end of the window at `d` have been read, the
      rolling key is that window's key, whatever key the batch started from. */
  lemma {:induction false} KeyIsWindowKey(key0: nat, s: Stream, start: nat, d: nat, n: nat, k: nat)
    requires k < n && start <= d
    ensures KeyAfter(key0, Window(s, start, d + n - start), Pow10(k)) == KeyOf(Window(s, d, n), k)
  {
    var w := Window(s, start, d + n - start);
    KeyAfterSuffix(key0, w, k);
    assert w[|w| - k..] == Window(s, d, n)[n - k..];
  }

  /** A slice of the filled part of the buffer is a window of the source. */
  lemma BufferedWindow(digits: seq<Digit>, s: Stream, start: nat, len: nat, x: nat, n: nat)
    requires Buffered(digits, s, start, len) && x + n <= len
    ensures digits[x..x + n] == Window(s, start + x, n)
  {
  }

  /** The index holds a window equal to the one at `d` exactly when that
      window repeats one of the first `i` windows of the batch. */
  lemma FoundIffMatches(a: Arena, chains: seq<seq<nat>>, digits: seq<Digit>, s: Stream,
                        start: nat, i: nat, n: nat, k: nat, d: nat, key: nat, w: seq<Digit>)
    requires Linked(a, chains) && k < n
    requires Content(a, chains, s, start, i, n, k)
    requires Buffered(digits, s, start, n - 1 + i)
    requires w == Window(s, d, n) && key == KeyOf(w, k) && key < |chains|
    ensures (exists t :: 0 <= t < |chains[key]| && Stored(a, digits, chains[key][t], n) == w)
            <==> MatchesIn(s, n, d, start, start + i)
  {
    var ps := Positions(a, chains[key]);
    assert |w| == n;
    StoredIffPositions(a, chains, digits, key, w);
    if MatchesIn(s, n, d, start, start + i) {
      var e :| start <= e < start + i && Window(s, e, n) == w;
      MatchIsRecorded(a, chains, digits, s, start, i, n, k, key, e - start, w);
    }
    if CopyAt(ps, digits, w) {
      var x := PickRecorded(ps, digits, w);
      RecordedIsMatch(a, chains, digits, s, start, i, n, k, key, x, w);
      assert start <= start + x < start + i && Window(s, start + x, n) == w;
    }
  }

  /** An offset of `ps` that starts a copy of `w` in the buffer. */
  lemma PickRecorded(ps: seq<nat>, digits: seq<Digit>, w: seq<Digit>) returns (x: nat)
    requires CopyAt(ps, digits, w)
    ensures x in ps && x + |w| <= |digits| && digits[x..x + |w|] == w
  {
    x :| x in ps && x + |w| <= |digits| && digits[x..x + |w|] == w;
  }

  lemma MatchIsRecorded(a: Arena, chains: seq<seq<nat>>, digits: seq<Digit>, s: Stream,
                        start: nat, i: nat, n: nat, k: nat, key: nat, x: nat, w: seq<Digit>)
    requires k < n && key < |chains| && x < i
    requires Content(a, chains, s, start, i, n, k) && Buffered(digits, s, start, n - 1 + i)
    requires w == Window(s, start + x, n) && key == KeyOf(w, k)
    ensures CopyAt(Positions(a, chains[key]), digits, w)
  {
    BufferedWindow(digits, s, start, n - 1 + i, x, n);
    assert x in Positions(a, chains[key]) && x + |w| <= |digits| && digits[x..x + |w|] == w;
  }

  lemma RecordedIsMatch(a: Arena, chains: seq<seq<nat>>, digits: seq<Digit>, s: Stream,
                        start: nat, i: nat, n: nat, k: nat, key: nat, x: nat, w: seq<Digit>)
    requires k < n && key < |chains|
    requires Content(a, chains, s, start, i, n, k) && Buffered(digits, s, start, n - 1 + i)
    requires |w| == n && x in Positions(a, chains[key]) && x + |w| <= |digits| && digits[x..x + |w|] == w
    ensures x < i && Window(s, start + x, n) == w
  {
    assert x < i;
    BufferedWindow(digits, s, start, n - 1 + i, x, n);
  }

  /** Recording the offset `i` of a window with key `key` extends the
      content to the first i+1 windows. */
  lemma ContentGrows(a: Arena, chains: seq<seq<nat>>, a': Arena, chains': seq<seq<nat>>,
                     s: Stream, start: nat, i: nat, n: nat, k: nat, key: nat)
    requires k <= n && |chains'| == |chains|
    requires Content(a, chains, s, start, i, n, k)
    requires key == KeyOf(Window(s, start + i, n), k)
    requires forall kk, x :: 0 <= kk < |chains| ==>
               (x in Positions(a', chains'[kk]) <==> x in Positions(a, chains[kk]) || (kk == key && x == i))
    ensures Content(a', chains', s, start, i + 1, n, k)
  {
  }

  /** The insertion phase either stops at window `start + i` or moves on. */
  lemma FirstHitStep(s: Stream, n: nat, start: nat, i: nat, b: nat, hit: bool)
    requires i < b && (hit <==> MatchesIn(s, n, start + i, start, start + i))
    ensures hit ==> FirstHit(s, n, start, i, b) == Some(start + i)
    ensures !hit ==> FirstHit(s, n, start, i, b) == FirstHit(s, n, start, i + 1, b)
  {
  }

  /** Every recorded offset is below `i`, so its window ends before the
      buffer cell `n - 1 + i` that is written next. */
  lemma ContentBelow(a: Arena, chains: seq<seq<nat>>, s: Stream, start: nat, i: nat, n: nat, k: nat)
    requires k <= n && Content(a, chains, s, start, i, n, k)
    ensures forall kk, x :: 0 <= kk < |chains| && x in Positions(a, chains[kk]) ==> x + n <= n - 1 + i
  {
  }

  /** Writing the next source digit extends the filled part of the buffer. */
  lemma BufferedWrite(digits: seq<Digit>, s: Stream, start: nat, len: nat, v: Digit)
    requires Buffered(digits, s, start, len) && len < |digits| && v == s(start + len)
    ensures Buffered(digits[len := v], s, start, len + 1)
  {
  }

  /** Dropping the oldest digit of the window at `dist - 1` and appending the
      next one gives the window at `dist`. */
  lemma SlideTest(s: Stream, dist: nat, n: nat, test: seq<Digit>, v: Digit)
    requires 1 <= n && 1 <= dist && test == Window(s, dist - 1, n) && v == s(dist - 1 + n)
    ensures test[1..] + [v] == Window(s, dist, n)
  {
  }

  /** When no window in [from, dist) matches, the retry phase from `from`
      ends at `dist`: with a hit if `dist` matches below the limit, and with
      none if `dist` has reached the limit. */
  lemma {:induction false} RetryStopsAt(s: Stream, n: nat, lo: nat, hi: nat, from: nat, dist: nat, limit: nat)
    requires from <= dist
    requires forall d :: from <= d < dist ==> !MatchesIn(s, n, d, lo, hi)
    requires dist < limit ==> MatchesIn(s, n, dist, lo, hi)
    ensures RetryHit(s, n, lo, hi, from, limit) == if dist < limit then Some(dist) else None
    decreases dist - from
  {
    if from < dist && from < limit {
      RetryStopsAt(s, n, lo, hi, from + 1, dist, limit);
    }
  }

  /** The retry phase of a batch that stops at `dist` leaves `dist` as the
      best answer when it is below the bound, and the previous best
      otherwise. */
  lemma RetryEndsBatch(s: Stream, n: nat, b: nat, ceiling: nat, start: nat, best: Option<nat>, hi: nat, dist: nat)
    requires hi == start + b <= dist
    requires forall d :: hi <= d < dist ==> !MatchesIn(s, n, d, start, hi)
    requires dist < Bound(best, ceiling) ==> MatchesIn(s, n, dist, start, hi)
    ensures BatchBest(s, n, b, ceiling, start, best) == if dist < Bound(best, ceiling) then Some(dist) else best
  {
    RetryStopsAt(s, n, start, start + b, start + b, dist, Bound(best, ceiling));
  }

  /** The start of a batch: a reader created at the batch offset, and the
      first N-1 digits read into the buffer and fed to the key. */
  method Prime(s: Stream, n: nat, k10: nat, start: nat, key: nat, digits: seq<Digit>)
    returns (g: Gen, key': nat, digits': seq<Digit>)
    requires 1 <= n <= |digits| && k10 >= 1
    ensures g.pos == start + n - 1
    ensures |digits'| == |digits| && Buffered(digits', s, start, n - 1)
    ensures key' == KeyAfter(key, Window(s, start, n - 1), k10)
    // the buffer holds what N-1 reads from make_pi_gen(start) produce, and the
    // reader stands where one reading from offset 0 would after start+N-1 digits
    ensures digits'[..n - 1] == Read(s, MakeGen(start), n - 1)
    ensures g == Skip(s, MakeGen(0), start + n - 1)
  {
    g := MakeGen(start);
    key' := key;
    digits' := digits;
    var i := 0;
    while i < n - 1
      invariant 0 <= i <= n - 1
      invariant g.pos == start + i
      invariant |digits'| == |digits| && Buffered(digits', s, start, i)
      invariant key' == KeyAfter(key, Window(s, start, i), k10)
    {
      var r := Next(s, g);
      g := r.1;
      digits' := digits'[i := r.0];
      KeyAfterNext(key, s, start, i, k10);
      key' := KeyStep(key', r.0, k10);
      i := i + 1;
    }
    ReadIsWindow(s, MakeGen(start), n - 1);
    assert digits'[..n - 1] == Window(s, start, n - 1);
    SkipAdvances(s, MakeGen(0), start + n - 1);
  }

  /** The insertion phase: each of the B windows of the batch is read, keyed
      and looked up in the index, and inserted when it is new; the first
      window already present ends the phase. */
  method InsertPhase(s: Stream, n: nat, k: nat, k10: nat, b: nat, start: nat, g: Gen, key: nat,
                     a: Arena, ghost chains: seq<seq<nat>>, digits: seq<Digit>, ghost key0: nat)
    returns (ins: Option<nat>, g': Gen, key': nat, a': Arena, ghost chains': seq<seq<nat>>, digits': seq<Digit>)
    requires k < n && k10 == Pow10(k)
    requires a.count == 1 && |a.heads| == k10 && |a.nodes| == b + 1 && |digits| == n + b
    requires Valid(a, chains, digits, n, k) && Content(a, chains, s, start, 0, n, k)
    requires g.pos == start + n - 1 && Buffered(digits, s, start, n - 1)
    requires key == KeyAfter(key0, Window(s, start, n - 1), k10)
    ensures ins == FirstHit(s, n, start, 0, b)
    ensures |a'.heads| == k10 && |a'.nodes| == b + 1 && |digits'| == n + b
    ensures ins.None? ==>
              && g'.pos == start + n - 1 + b && Buffered(digits', s, start, n - 1 + b)
              && key' == KeyAfter(key0, Window(s, start, n - 1 + b), k10)
              && Valid(a', chains', digits', n, k) && Content(a', chains', s, start, b, n, k)
  {
    g', key', a', chains', digits' := g, key, a, chains, digits;
    var i := 0;
    while i < b
      invariant 0 <= i <= b
      invariant a'.count == 1 + i && |a'.heads| == k10 && |a'.nodes| == b + 1 && |digits'| == n + b
      invariant Valid(a', chains', digits', n, k) && Content(a', chains', s, start, i, n, k)
      invariant g'.pos == start + n - 1 + i && Buffered(digits', s, start, n - 1 + i)
      invariant key' == KeyAfter(key0, Window(s, start, n - 1 + i), k10)
      invariant FirstHit(s, n, start, i, b) == FirstHit(s, n, start, 0, b)
    {
      var hit;
      hit, g', key', a', chains', digits' := InsertStep(s, n, k, k10, b, start, i, g', key', a', chains', digits', key0);
      FirstHitStep(s, n, start, i, b, hit);
      if hit {
        ins := Some(start + i);
        return;
      }
      i := i + 1;
    }
    ins := None;
  }

  /** One turn of the insertion loop: the next digit completes window
      `start + i` in the buffer and in the key, and the window is tested and
      recorded when new. */
  method InsertStep(s: Stream, n: nat, k: nat, k10: nat, b: nat, start: nat, i: nat, g: Gen, key: nat,
                    a: Arena, ghost chains: seq<seq<nat>>, digits: seq<Digit>, ghost key0: nat)
    returns (hit: bool, g': Gen, key': nat, a': Arena, ghost chains': seq<seq<nat>>, digits': seq<Digit>)
    requires k < n && k10 == Pow10(k) && i < b
    requires a.count == 1 + i && |a.heads| == k10 && |a.nodes| == b + 1 && |digits| == n + b
    requires Valid(a, chains, digits, n, k) && Content(a, chains, s, start, i, n, k)
    requires g.pos == start + n - 1 + i && Buffered(digits, s, start, n - 1 + i)
    requires key == KeyAfter(key0, Window(s, start, n - 1 + i), k10)
    ensures hit <==> MatchesIn(s, n, start + i, start, start + i)
    ensures |a'.heads| == k10 && |a'.nodes| == b + 1 && |digits'| == n + b
    ensures g'.pos == start + n + i && Buffered(digits', s, start, n + i)
    ensures key' == KeyAfter(key0, Window(s, start, n + i), k10)
    ensures !hit ==> a'.count == 2 + i && Valid(a', chains', digits', n, k) && Content(a', chains', s, start, i + 1, n, k)
  {
    var r := Next(s, g);
    g' := r.1;
    ContentBelow(a, chains, s, start, i, n, k);
    WriteKeepsValid(a, chains, digits, n, k, n - 1 + i, r.0);
    BufferedWrite(digits, s, start, n - 1 + i, r.0);
    digits' := digits[n - 1 + i := r.0];
    KeyAfterNext(key0, s, start, n - 1 + i, k10);
    key' := KeyStep(key, r.0, k10);
    KeyIsWindowKey(key0, s, start, start + i, n, k);
    hit, a', chains' := InsertWindow(s, n, k, k10, b, start, i, a, chains, digits', key');
  }

  /** The test of window `start + i` in the insertion phase (set_test with
      insert): it is found exactly when it repeats an earlier window of the
      batch, and otherwise it is recorded. */
  method InsertWindow(s: Stream, n: nat, k: nat, k10: nat, b: nat, start: nat, i: nat,
                      a: Arena, ghost chains: seq<seq<nat>>, digits: seq<Digit>, key: nat)
    returns (hit: bool, a': Arena, ghost chains': seq<seq<nat>>)
    requires k < n && k10 == Pow10(k) && i < b
    requires a.count == 1 + i && |a.heads| == k10 && |a.nodes| == b + 1 && |digits| == n + b
    requires Valid(a, chains, digits, n, k) && Content(a, chains, s, start, i, n, k)
    requires Buffered(digits, s, start, n + i)
    requires key == KeyOf(Window(s, start + i, n), k)
    ensures hit <==> MatchesIn(s, n, start + i, start, start + i)
    ensures |a'.heads| == k10 && |a'.nodes| == b + 1
    ensures !hit ==> a'.count == 2 + i && Valid(a', chains', digits, n, k) && Content(a', chains', s, start, i + 1, n, k)
  {
    BufferedWindow(digits, s, start, n + i, i, n);
    FoundIffMatches(a, chains, digits, s, start, i, n, k, start + i, key, digits[i..i + n]);
    hit, a', chains' := SetTest(a, chains, digits, key, digits[i..i + n], i, n, k, true);
    if !hit {
      ContentGrows(a, chains, a', chains', s, start, i, n, k, key);
    }
  }

  /** The test of window `d` in the retry phase (set_test without insert):
      it is found exactly when it repeats a window of the batch. */
  method LookUp(s: Stream, n: nat, k: nat, k10: nat, b: nat, start: nat, d: nat,
                a: Arena, ghost chains: seq<seq<nat>>, digits: seq<Digit>, key: nat, test: seq<Digit>)
    returns (hit: bool)
    requires k < n && k10 == Pow10(k) && |a.heads| == k10 && |digits| == n + b
    requires Valid(a, chains, digits, n, k) && Content(a, chains, s, start, b, n, k)
    requires Buffered(digits, s, start, n - 1 + b)
    requires test == Window(s, d, n) && key == KeyOf(test, k)
    ensures hit <==> MatchesIn(s, n, d, start, start + b)
  {
    FoundIffMatches(a, chains, digits, s, start, b, n, k, d, key, test);
    var unchangedIndex: Arena;
    ghost var unchangedChains;
    hit, unchangedIndex, unchangedChains := SetTest(a, chains, digits, key, test, 0, n, k, false);
  }

  /** The retry phase: later windows are streamed past the finished index,
      starting right after the batch, while they are below the best answer
      and the ceiling; the first one the index holds becomes the best. */
  method RetryPhase(s: Stream, n: nat, k: nat, k10: nat, b: nat, ceiling: nat, start: nat,
                    best: Option<nat>, g: Gen, key: nat, a: Arena, ghost chains: seq<seq<nat>>,
                    digits: seq<Digit>, ghost key0: nat)
    returns (best': Option<nat>, g': Gen, key': nat)
    requires k < n && 1 <= b && k10 == Pow10(k) && |a.heads| == k10 && |digits| == n + b
    requires Valid(a, chains, digits, n, k) && Content(a, chains, s, start, b, n, k)
    requires g.pos == start + n - 1 + b && Buffered(digits, s, start, n - 1 + b)
    requires key == KeyAfter(key0, Window(s, start, n - 1 + b), k10)
    ensures best' == BatchBest(s, n, b, ceiling, start, best)
  {
    g', key' := g, key;
    var test := digits[b - 1..b - 1 + n];
    BufferedWindow(digits, s, start, n - 1 + b, b - 1, n);
    var dist := start + b;
    ghost var prev: nat := start + b - 1;
    ghost var cnt: nat := n - 1 + b;
    ghost var hi := start + b;
    ghost var limit := Bound(best, ceiling);
    BoundIsGuard(best, ceiling, dist);
    while (best.None? || dist < best.value) && dist <= ceiling
      invariant start + b <= dist && prev + 1 == dist && cnt == dist + n - 1 - start
      invariant test == Window(s, prev, n) && g'.pos == dist + n - 1
      invariant key' == KeyAfter(key0, Window(s, start, cnt), k10)
      invariant forall d :: hi <= d < dist ==> !MatchesIn(s, n, d, start, hi)
      invariant dist < limit <==> (best.None? || dist < best.value) && dist <= ceiling
      decreases ceiling + 1 - dist
    {
      var hit;
      hit, g', key', test := RetryStep(s, n, k, k10, b, start, dist, g', key', a, chains, digits, test, key0, prev, cnt);
      if hit {
        RetryEndsBatch(s, n, b, ceiling, start, best, hi, dist);
        best' := Some(dist);
        return;
      }
      prev := dist;
      cnt := cnt + 1;
      dist := dist + 1;
      BoundIsGuard(best, ceiling, dist);
    }
    RetryEndsBatch(s, n, b, ceiling, start, best, hi, dist);
    best' := best;
  }

  /** One turn of the retry loop: the next digit slides the test window to
      `dist` and the key with it, and the window is looked up. */
  method RetryStep(s: Stream, n: nat, k: nat, k10: nat, b: nat, start: nat, dist: nat, g: Gen, key: nat,
                   a: Arena, ghost chains: seq<seq<nat>>, digits: seq<Digit>, test: seq<Digit>,
                   ghost key0: nat, ghost prev: nat, ghost cnt: nat)
    returns (hit: bool, g': Gen, key': nat, test': seq<Digit>)
    requires k < n && 1 <= b && k10 == Pow10(k) && |a.heads| == k10 && |digits| == n + b
    requires Valid(a, chains, digits, n, k) && Content(a, chains, s, start, b, n, k)
    requires Buffered(digits, s, start, n - 1 + b) && start + b <= dist
    requires prev + 1 == dist && cnt == dist + n - 1 - start
    requires g.pos == dist + n - 1 && test == Window(s, prev, n)
    requires key == KeyAfter(key0, Window(s, start, cnt), k10)
    ensures hit <==> MatchesIn(s, n, dist, start, start + b)
    ensures g'.pos == dist + n && test' == Window(s, dist, n)
    ensures key' == KeyAfter(key0, Window(s, start, cnt + 1), k10)
  {
    var r := Next(s, g);
    g' := r.1;
    SlideTest(s, dist, n, test, r.0);
    test' := test[1..] + [r.0];
    KeyAfterNext(key0, s, start, cnt, k10);
    key' := KeyStep(key, r.0, k10);
    KeyIsWindowKey(key0, s, start, dist, n, k);
    hit := LookUp(s, n, k, k10, b, start, dist, a, chains, digits, key', test');
  }

  /** One batch: clear the index, prime the buffer and the key, run the
      insertion phase and, when it finds nothing, the retry phase. */
  method RunBatch(s: Stream, n: nat, k: nat, k10: nat, b: nat, ceiling: nat, start: nat,
                  best: Option<nat>, key: nat, a: Arena, digits: seq<Digit>)
    returns (ins: Option<nat>, best': Option<nat>, key': nat, a': Arena, digits': seq<Digit>)
    requires k < n && 1 <= b && k10 == Pow10(k)
    requires |a.heads| == k10 && |a.nodes| == b + 1 && |digits| == n + b
    ensures ins == FirstHit(s, n, start, 0, b)
    ensures ins.None? ==> best' == BatchBest(s, n, b, ceiling, start, best)
    ensures |a'.heads| == k10 && |a'.nodes| == b + 1 && |digits'| == n + b
  {
    a' := Clear(a);
    var g;
    g, key', digits' := Prime(s, n, k10, start, key, digits);
    ClearIsEmpty(a, digits', n, k);
    ghost var chains := NoChains(|a.heads|);
    ghost var chains';
    ins, g, key', a', chains', digits' := InsertPhase(s, n, k, k10, b, start, g, key', a', chains, digits', key);
    best' := best;
    if ins.None? {
      best', g, key' := RetryPhase(s, n, k, k10, b, ceiling, start, best, g, key', a', chains', digits', key);
    }
  }

  /** The whole search with key length `k` and batch size `b`: it reports
      what the program as written reports, and also returns the corrected
      answer: a repeat with no repeat before it at or below the ceiling,
      which the program's report can miss. */
  method FindRepeat(s: Stream, n: nat, k: nat, b: nat, ceiling: nat) returns (report: Report, answer: Option<nat>)
    requires k < n && 1 <= b
    ensures report == SearchAsWritten(s, n, b, ceiling, 0, None)
    ensures answer == SearchFrom(s, n, b, ceiling, 0, None)
    ensures Answers(s, n, ceiling, answer)
    // the final report of a loop that runs to its end is the corrected answer
    ensures report.Finished? ==> report.best == answer
    ensures report.InsertHit? ==> answer.Some? && answer.value <= report.pos
  {
    report, answer := BatchLoop(s, n, k, b, ceiling);
    SearchOptimal(s, n, b, ceiling);
    AsWrittenAgrees(s, n, b, ceiling, 0, None);
  }

  /** The batch loop of `main`, batch after batch from offset 0: it computes
      both the program's report and the corrected search's answer. */
  method BatchLoop(s: Stream, n: nat, k: nat, b: nat, ceiling: nat) returns (report: Report, answer: Option<nat>)
    requires k < n && 1 <= b
    ensures report == SearchAsWritten(s, n, b, ceiling, 0, None)
    ensures answer == SearchFrom(s, n, b, ceiling, 0, None)
  {
    var k10 := TenToThe(k);
    var a := Alloc(b, k10);
    var digits: seq<Digit> := seq(n + b, _ => 0);
    var start := 0;
    var best: Option<nat> := None;
    var key := 0;
    while (best.None? || start < best.value) && start <= ceiling
      invariant |a.heads| == k10 && |a.nodes| == b + 1 && |digits| == n + b
      invariant SearchAsWritten(s, n, b, ceiling, start, best) == SearchAsWritten(s, n, b, ceiling, 0, None)
      invariant SearchFrom(s, n, b, ceiling, start, best) == SearchFrom(s, n, b, ceiling, 0, None)
      decreases ceiling + 1 - start
    {
      var ins, best';
      ins, best', key, a, digits := RunBatch(s, n, k, k10, b, ceiling, start, best, key, a, digits);
      BatchUnfolds(s, n, b, ceiling, start, best);
      if ins.Some? {
        report := InsertHit(ins.value);
        answer := if best.Some? && best.value < ins.value then best else ins;
        return;
      }
      best := best';
      start := start + b;
    }
    SearchStops(s, n, b, ceiling, start, best);
    report := Finished(best);
    answer := best;
  }

  /** One batch of the search: an insertion-phase match ends it, otherwise
      it goes on from the next batch with the retry phase's best. */
  lemma BatchUnfolds(s: Stream, n: nat, b: nat, ceiling: nat, start: nat, best: Option<nat>)
    requires 1 <= b && (best.None? || start < best.value) && start <= ceiling
    ensures var h := FirstHit(s, n, start, 0, b);
            && (h.Some? ==> SearchAsWritten(s, n, b, ceiling, start, best) == InsertHit(h.value))
            && (h.Some? ==> SearchFrom(s, n, b, ceiling, start, best) ==
                              if best.Some? && best.value < h.value then best else h)
            && (h.None? ==> SearchAsWritten(s, n, b, ceiling, start, best) ==
                              SearchAsWritten(s, n, b, ceiling, start + b, BatchBest(s, n, b, ceiling, start, best)))
            && (h.None? ==> SearchFrom(s, n, b, ceiling, start, best) ==
                              SearchFrom(s, n, b, ceiling, start + b, BatchBest(s, n, b, ceiling, start, best)))
  {
  }

  /** Once the batch guard fails the search reports the best answer found. */
  lemma SearchStops(s: Stream, n: nat, b: nat, ceiling: nat, start: nat, best: Option<nat>)
    requires 1 <= b && !((best.None? || start < best.value) && start <= ceiling)
    ensures SearchAsWritten(s, n, b, ceiling, start, best) == Finished(best)
    ensures SearchFrom(s, n, b, ceiling, start, best) == best
  {
  }

  /** The program: refuses a window length N not above the key length K, and
      otherwise runs the search with the program's K, B and ceiling. */
  method PiRepeat(s: Stream, n: nat) returns (r: Run)
    ensures n <= KeyDigits <==> r == KeyTooLong
    ensures r.Ran? ==> r.report == SearchAsWritten(s, n, BatchSize, Ceiling, 0, None)
    ensures r.Ran? ==> Answers(s, n, Ceiling, r.answer)
    ensures r.Ran? && r.report.Finished? ==> r.report.best == r.answer
    ensures r.Ran? && r.report.InsertHit? ==> r.answer.Some? && r.answer.value <= r.report.pos
  {
    if !(KeyDigits < n) {
      return KeyTooLong;
    }
    var report, answer := FindRepeat(s, n, KeyDigits, BatchSize, Ceiling);
    r := Ran(report, answer);
  }
}
