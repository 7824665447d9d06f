/** Vertical label bands for events: a four-event cycle chosen by position
    in the sorted sequence alone, without measuring text. */
module Layout {

  /** The vertical offset of the event at 0-based index i, as the switch on
      (i + 1) % 4 computes it; a positive offset is lower on the canvas.
      The remainder is never 4, so the branch giving 90 is dead and every
      fourth event falls to the default of -30. */
  function VOffset(i: nat): (v: int)
    ensures v == (if i % 4 == 3 then -30 else 30 * (i % 4))
    ensures v != 90
  {
    var c := (i + 1) % 4;
    if c == 1 then 0
    else if c == 2 then 30
    else if c == 3 then 60
    else if c == 4 then 90
    else -30
  }

  /** The cycle the comment above the loop describes: the first event at 0
      and each of the next three 30 px lower, the switch's `case 4` made
      reachable by switching on i % 4 + 1. */
  function IntendedVOffset(i: nat): (v: int)
    ensures v == 30 * (i % 4)
  {
    var c := i % 4 + 1;
    if c == 1 then 0
    else if c == 2 then 30
    else if c == 3 then 60
    else 90
  }

  /** The intended cycle starts at 0, steps 30 px down three times and
      repeats every four events. */
  lemma IntendedVOffsetCycle(i: nat)
    ensures IntendedVOffset(0) == 0
    ensures i % 4 != 3 ==> IntendedVOffset(i + 1) == IntendedVOffset(i) + 30
    ensures IntendedVOffset(i + 4) == IntendedVOffset(i)
  {
  }

  /** The switch as written and the intended cycle differ exactly on every
      fourth event, which is drawn 120 px higher than intended. */
  lemma VOffsetDiffersOnFourth(i: nat)
    ensures VOffset(i) == IntendedVOffset(i) <==> i % 4 != 3
    ensures i % 4 == 3 ==> IntendedVOffset(i) - VOffset(i) == 120
  {
  }

  /** The offset depends only on the index modulo 4. */
  lemma VOffsetHasPeriodFour(i: nat)
    ensures VOffset(i + 4) == VOffset(i)
    ensures VOffset(i) == VOffset(i % 4)
  {
  }
}
