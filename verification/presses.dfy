/**
 One button press as the capture loop sees it: the tick counter read when
 the button went down and when it came back up, and how the held time is
 read as a long flash, a short flash, or nothing at all.
 */
module Presses {

  import opened Ticks

  /** Presses held for this many ticks or fewer are ignored (`NOT_REGISTER_THRESHOLD`). */
  const NotRegisterThreshold: U32 := 25

  /** Registered presses held longer than this are long (`SHORT_PULSE_THRESHOLD`). */
  const ShortPulseThreshold: U32 := 750

  /** Counter readings taken when the button went down and when it was released. */
  datatype Press = Press(start: U32, end: U32)

  /** What one press contributes to the user pattern. */
  datatype Reading = Ignored | Registered(long: bool)

  /** The press a user makes by holding the button `d` ticks, starting when
      the counter reads `start`. */
  function Hold(start: U32, d: nat): (p: Press)
    requires d < Modulus
    ensures Elapsed(p.start, p.end) == d
  {
    ElapsedMeasuresHold(start, d);
    Press(start, Advance(start, d))
  }

  /** The band of held times that reproduces bit `b`: above 750 for a long
      flash, 26 through 750 for a short one. */
  predicate InBand(elapsed: U32, b: bool) {
    if b then elapsed > 750 else 25 < elapsed <= 750
  }

  /** The registration and long/short decision on an elapsed tick count. */
  function Classify(elapsed: U32): (r: Reading)
    ensures r == Ignored <==> elapsed <= 25
    ensures r == Registered(false) <==> InBand(elapsed, false)
    ensures r == Registered(true) <==> InBand(elapsed, true)
  {
    if elapsed > NotRegisterThreshold then Registered(elapsed > ShortPulseThreshold)
    else Ignored
  }

  /** The reading of one press, from the unsigned difference of its readings. */
  function Read(p: Press): (r: Reading)
    ensures r.Registered? <==> Elapsed(p.start, p.end) > 25
    ensures r.Registered? ==> (r.long <==> Elapsed(p.start, p.end) > 750)
  {
    Classify(Elapsed(p.start, p.end))
  }

  /** The exact thresholds: 25 is ignored, 26 is the shortest registered
      press and is short, 750 is still short, 751 is long. */
  lemma Boundaries()
    ensures Classify(25) == Ignored
    ensures Classify(26) == Registered(false)
    ensures Classify(750) == Registered(false)
    ensures Classify(751) == Registered(true)
  {
  }

  /** The reading of a press depends only on how long it was held, not on
      where the counter stood, so a wrap of the counter between press and
      release does not change it. */
  lemma ReadIgnoresWrap(start: U32, d: nat)
    requires d < Modulus
    ensures Read(Hold(start, d)) == Classify(d)
    ensures Read(Hold(start, d)) == Read(Hold(0, d))
  {
  }
}
