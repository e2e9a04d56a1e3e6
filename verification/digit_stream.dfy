/** The digit source the search consumes: an unbounded sequence of decimal
    digits (the digits of pi), read one at a time from a cursor that can be
    created at any offset. The concrete file-backed reader is not modelled;
    only its contract is. */
module DigitStream {

  /** A decimal digit, the unit of the stream. */
  type Digit = d: int | 0 <= d <= 9

  /** The whole digit source: the digit at every offset. */
  type Stream = nat -> Digit

  /** The `len` digits of the source that start at offset `off`. */
  function Window(s: Stream, off: nat, len: nat): (w: seq<Digit>)
    ensures |w| == len
    ensures forall i :: 0 <= i < len ==> w[i] == s(off + i)
  {
    seq(len, i requires 0 <= i < len => s(off + i))
  }

  /** A live reader of the source (PI_GEN_T): the offset of the next digit. */
  datatype Gen = Gen(pos: nat)

  /** A reader positioned at offset `pos` (make_pi_gen). */
  function MakeGen(pos: nat): Gen
  {
    Gen(pos)
  }

  /** Reads one digit and advances the reader (pi_gen). */
  function Next(s: Stream, g: Gen): (r: (Digit, Gen))
  {
    (s(g.pos), Gen(g.pos + 1))
  }

  /** Discards `m` digits, one `Next` at a time. */
  function Skip(s: Stream, g: Gen, m: nat): Gen
    decreases m
  {
    if m == 0 then g else Skip(s, Next(s, g).1, m - 1)
  }

  /** The digits produced by `m` successive reads. */
  function Read(s: Stream, g: Gen, m: nat): seq<Digit>
    decreases m
  {
    if m == 0 then [] else [Next(s, g).0] + Read(s, Next(s, g).1, m - 1)
  }

  /** A reader created at offset `pos` is the reader created at offset 0 after
      `pos` digits have been discarded. */
  lemma MakeGenIsSkip(s: Stream, pos: nat)
    ensures Skip(s, MakeGen(0), pos) == MakeGen(pos)
  {
    SkipAdvances(s, MakeGen(0), pos);
  }

  lemma {:induction false} SkipAdvances(s: Stream, g: Gen, m: nat)
    ensures Skip(s, g, m) == Gen(g.pos + m)
    decreases m
  {
    if m > 0 {
      SkipAdvances(s, Next(s, g).1, m - 1);
    }
  }

  /** Reading `m` digits from a reader at `g.pos` yields exactly the window of
      the source at that offset: no digit is skipped, repeated or reordered. */
  lemma {:induction false} ReadIsWindow(s: Stream, g: Gen, m: nat)
    ensures Read(s, g, m) == Window(s, g.pos, m)
    decreases m
  {
    if m > 0 {
      ReadIsWindow(s, Next(s, g).1, m - 1);
      assert Read(s, g, m) == [s(g.pos)] + Window(s, g.pos + 1, m - 1);
    }
  }
}
