/** Lexicographic order on digit strings, the order in which each hash chain
    keeps the leading digits of its windows, and the digit-by-digit
    comparison the chain walk performs. */
module LexOrder {
  import opened DigitStream

  /** `a` precedes `b`: their first digits differ in `b`'s favour, or agree
      and the rest of `a` precedes the rest of `b`. */
  predicate Less(a: seq<Digit>, b: seq<Digit>)
    decreases |a|
  {
    0 < |a| && 0 < |b| && (a[0] < b[0] || (a[0] == b[0] && Less(a[1..], b[1..])))
  }

  /** The order is the one fixed by the first position where the strings
      differ: `a` precedes `b` exactly when, at some index inside both, they
      agree before it and `a` has the smaller digit there. */
  lemma LessIffFirstDifference(a: seq<Digit>, b: seq<Digit>)
    ensures Less(a, b) <==> exists i :: 0 <= i < |a| && i < |b| && a[..i] == b[..i] && a[i] < b[i]
    decreases |a|
  {
    if Less(a, b) {
      LessHasFirstDifference(a, b);
    }
    if exists i :: 0 <= i < |a| && i < |b| && a[..i] == b[..i] && a[i] < b[i] {
      var i :| 0 <= i < |a| && i < |b| && a[..i] == b[..i] && a[i] < b[i];
      LessAt(a, b, i);
    }
  }

  lemma {:induction false} LessHasFirstDifference(a: seq<Digit>, b: seq<Digit>)
    requires Less(a, b)
    ensures exists i :: 0 <= i < |a| && i < |b| && a[..i] == b[..i] && a[i] < b[i]
    decreases |a|
  {
    if a[0] < b[0] {
      assert a[..0] == b[..0];
    } else {
      LessHasFirstDifference(a[1..], b[1..]);
      var i :| 0 <= i < |a| - 1 && i < |b| - 1 && a[1..][..i] == b[1..][..i] && a[1..][i] < b[1..][i];
      assert a[..i + 1] == [a[0]] + a[1..][..i];
      assert b[..i + 1] == [b[0]] + b[1..][..i];
    }
  }

  /** Agreeing before index `i` and having the smaller digit at `i` is
      preceding. */
  lemma {:induction false} LessAt(a: seq<Digit>, b: seq<Digit>, i: nat)
    requires i < |a| && i < |b| && a[..i] == b[..i] && a[i] < b[i]
    ensures Less(a, b)
    decreases i
  {
    if i > 0 {
      assert a[0] == a[..i][0] == b[..i][0] == b[0];
      assert a[1..][..i - 1] == a[..i][1..] == b[..i][1..] == b[1..][..i - 1];
      LessAt(a[1..], b[1..], i - 1);
    }
  }

  lemma {:induction false} LessIrreflexive(a: seq<Digit>)
    ensures !Less(a, a)
    decreases |a|
  {
    if |a| > 0 {
      LessIrreflexive(a[1..]);
    }
  }

  /** No two strings precede each other. */
  lemma {:induction false} LessAsymmetric(a: seq<Digit>, b: seq<Digit>)
    requires Less(a, b)
    ensures !Less(b, a)
    decreases |a|
  {
    if a[0] == b[0] {
      LessAsymmetric(a[1..], b[1..]);
    }
  }

  lemma {:induction false} LessTransitive(a: seq<Digit>, b: seq<Digit>, c: seq<Digit>)
    requires Less(a, b) && Less(b, c)
    ensures Less(a, c)
    decreases |a|
  {
    if a[0] == b[0] && b[0] == c[0] {
      LessTransitive(a[1..], b[1..], c[1..]);
    }
  }

  /** Every string of `ws` precedes all those after it. */
  ghost predicate Increasing(ws: seq<seq<Digit>>)
  {
    forall i, j :: 0 <= i < j < |ws| ==> Less(ws[i], ws[j])
  }

  /** Putting `x` where it belongs, after every string that precedes it and
      before one that follows it, keeps the sequence strictly increasing. */
  lemma InsertKeepsIncreasing(ws: seq<seq<Digit>>, j: nat, x: seq<Digit>)
    requires Increasing(ws) && j <= |ws|
    requires forall t :: 0 <= t < j ==> Less(ws[t], x)
    requires j < |ws| ==> Less(x, ws[j])
    ensures Increasing(ws[..j] + [x] + ws[j..])
  {
    var ws' := ws[..j] + [x] + ws[j..];
    forall t1, t2 | 0 <= t1 < t2 < |ws'|
      ensures Less(ws'[t1], ws'[t2])
    {
      if t1 == j && t2 - 1 > j {
        LessTransitive(x, ws[j], ws[t2 - 1]);
      }
    }
  }

  /** Compares the `len` digits of `digits` at offset `pos` with the first
      `len` digits of `cand`, stopping at the first difference (the inner
      loop of the chain walk): 0 means equal, a negative result means the
      stored digits come first, a positive one that they come later. */
  method ComparePrefix(digits: seq<Digit>, pos: nat, cand: seq<Digit>, len: nat) returns (diff: int)
    requires pos + len <= |digits| && len <= |cand|
    ensures diff == 0 <==> digits[pos..pos + len] == cand[..len]
    ensures diff < 0 ==> Less(digits[pos..pos + len], cand[..len])
    ensures diff > 0 ==> Less(cand[..len], digits[pos..pos + len])
  {
    var i := 0;
    while i < len
      invariant 0 <= i <= len
      invariant digits[pos..pos + i] == cand[..i]
    {
      diff := digits[pos + i] as int - cand[i] as int;
      if diff != 0 {
        ghost var stored := digits[pos..pos + len];
        assert stored[..i] == digits[pos..pos + i] && cand[..len][..i] == cand[..i];
        assert stored[i] != cand[..len][i];
        if diff < 0 {
          LessAt(stored, cand[..len], i);
        } else {
          LessAt(cand[..len], stored, i);
        }
        return;
      }
      i := i + 1;
    }
    diff := 0;
  }
}
