/**
  The growing-and-shrinking cup of `screensaverxicara`: every UI frame the
  number of triangles drawn, `n_trig`, moves by 10 towards the full model
  (`desenhou_xicara` set) or towards nothing (flag clear), and the flag
  flips once the count passes a third of the index count or reaches zero.

  `m_indices.size()` is a `size_t`, so the first comparison converts
  `n_trig` (taken to be a signed `int`; its declaration is not part of this
  model) to an unsigned 64-bit value; that conversion is written out.
 */
module CupAnimation {

  /** 2^64: the range of `size_t`. */
  const SizeTModulus: int := 0x1_0000_0000_0000_0000

  datatype Cup = Cup(nTrig: int, drawing: bool)

  /** The int-to-size_t conversion of C++: reduction modulo 2^64. */
  function ToSizeT(n: int): (u: nat)
    ensures u < SizeTModulus
    ensures 0 <= n < SizeTModulus ==> u == n
    ensures -SizeTModulus <= n < 0 ==> u == n + SizeTModulus
  {
    n % SizeTModulus
  }

  /** The three statements of `paintUI`, as written. The contract says
      what they mean: the count moves 10 in the flag's direction; the flag
      is set when the count has come down to zero or below, and otherwise
      stays set only while the count is within a third of the index count.
      So the unsigned conversion never matters: for a negative count the
      second test overrides the first. */
  function Step(c: Cup, indexCount: nat): (r: Cup)
    requires indexCount < SizeTModulus
    ensures r.nTrig == c.nTrig + (if c.drawing then 10 else -10)
    ensures -SizeTModulus <= r.nTrig < SizeTModulus ==>
              (r.drawing <==> r.nTrig <= 0 || (c.drawing && r.nTrig <= indexCount / 3))
  {
    var n := if c.drawing then c.nTrig + 10 else c.nTrig - 10;
    var flag1 := if ToSizeT(n) > indexCount / 3 then false else c.drawing;
    var flag2 := if n <= 0 then true else flag1;
    Cup(n, flag2)
  }

  /** The states the animation moves between: growing from at least -10 up
      to a third of the index count, or shrinking from at most 10 past it
      down to a positive count. */
  predicate Bouncing(c: Cup, indexCount: nat) {
    if c.drawing then -10 <= c.nTrig <= indexCount / 3
    else 0 < c.nTrig <= indexCount / 3 + 10
  }

  /** Every step keeps the animation bouncing. */
  lemma StepKeepsBouncing(c: Cup, indexCount: nat)
    requires indexCount < SizeTModulus / 2
    requires Bouncing(c, indexCount)
    ensures Bouncing(Step(c, indexCount), indexCount)
  {
  }

  /** From a count of zero, whichever way the flag starts, one step reaches
      a bouncing state. */
  lemma StartBounces(drawing: bool, indexCount: nat)
    requires indexCount < SizeTModulus / 2
    ensures Bouncing(Step(Cup(0, drawing), indexCount), indexCount)
  {
  }

  /** Frames in a row. */
  function Frames(c: Cup, indexCount: nat, n: nat): Cup
    requires indexCount < SizeTModulus
    decreases n
  {
    if n == 0 then c else Frames(Step(c, indexCount), indexCount, n - 1)
  }

  /** The count stays within [-10, indexCount/3 + 10] forever: the drawn
      triangle count can pass the model's triangle count by up to 10, and
      dip to -10 when the flag starts clear. */
  lemma {:induction false} FramesStayBounded(c: Cup, indexCount: nat, n: nat)
    requires indexCount < SizeTModulus / 2
    requires Bouncing(c, indexCount)
    ensures Bouncing(Frames(c, indexCount, n), indexCount)
    ensures -10 <= Frames(c, indexCount, n).nTrig <= indexCount / 3 + 10
    decreases n
  {
    if n > 0 {
      StepKeepsBouncing(c, indexCount);
      FramesStayBounded(Step(c, indexCount), indexCount, n - 1);
    }
  }

  /** The count turns: a growing cup starts shrinking within
      `(indexCount / 3 - nTrig) / 10 + 1` frames, and a shrinking one
      starts growing again within `nTrig / 10 + 1` frames. */
  lemma {:induction false} EventuallyTurns(c: Cup, indexCount: nat)
    requires indexCount < SizeTModulus / 2
    requires Bouncing(c, indexCount)
    ensures c.drawing ==>
      exists n :: 0 < n <= (indexCount / 3 - c.nTrig) / 10 + 1 && !Frames(c, indexCount, n).drawing
    ensures !c.drawing ==>
      exists n :: 0 < n <= c.nTrig / 10 + 1 && Frames(c, indexCount, n).drawing
    decreases if c.drawing then indexCount / 3 - c.nTrig else c.nTrig
  {
    var next := Step(c, indexCount);
    assert Frames(c, indexCount, 1) == next;
    if next.drawing != c.drawing {
    } else {
      EventuallyTurns(next, indexCount);
      if c.drawing {
        var n :| 0 < n <= (indexCount / 3 - next.nTrig) / 10 + 1 && !Frames(next, indexCount, n).drawing;
        assert Frames(c, indexCount, n + 1) == Frames(next, indexCount, n);
      } else {
        var n :| 0 < n <= next.nTrig / 10 + 1 && Frames(next, indexCount, n).drawing;
        assert Frames(c, indexCount, n + 1) == Frames(next, indexCount, n);
      }
    }
  }

  /** The overshoot is real: with 15 indices (5 triangles), one growing step
      from 0 asks for 10 triangles, and the flag turns over. */
  lemma OvershootExample()
    ensures Step(Cup(0, true), 15) == Cup(10, false)
    ensures Step(Cup(0, true), 15).nTrig > 15 / 3
  {
  }
}
