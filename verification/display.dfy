/**
 Showing a pattern on the LED: for each bit in order the LED goes on, stays
 on for a long or short pulse, goes off, and stays off for a fixed gap.
 */
module Display {

  import opened Board
  import opened Wrappers

  const ShortPulseLen: nat := 250
  const LongPulseLen: nat := 1000
  const LedOffLen: nat := 1000

  /** How long the LED stays lit for bit `b`. */
  function OnTime(b: bool): (ms: nat)
    ensures b ==> ms == 1000
    ensures !b ==> ms == 250
  {
    if b then LongPulseLen else ShortPulseLen
  }

  /** The four effects that show one bit. */
  function Flash(b: bool): (t: seq<Event>)
    ensures Output(t) == []
  {
    var t := [Led(true), Delay(OnTime(b)), Led(false), Delay(LedOffLen)];
    OutputSilent(t);
    t
  }

  /** The effects of showing a whole pattern, bit by bit in order. */
  function Show(p: seq<bool>): (t: seq<Event>)
    ensures |t| == 4 * |p|
    ensures Output(t) == []
  {
    if p == [] then []
    else
      var rest := Show(p[1..]);
      OutputAppend(Flash(p[0]), rest);
      Flash(p[0]) + rest
  }

  /** The i-th group of four effects shows the i-th bit. */
  lemma {:induction false} ShowFlashesInOrder(p: seq<bool>)
    ensures forall i :: 0 <= i < |p| ==> Show(p)[4 * i..4 * i + 4] == Flash(p[i])
  {
    if p != [] {
      var rest := Show(p[1..]);
      var t := Show(p);
      ShowFlashesInOrder(p[1..]);
      assert t == Flash(p[0]) + rest;
      forall i | 0 <= i < |p|
        ensures t[4 * i..4 * i + 4] == Flash(p[i])
      {
        if i > 0 {
          assert t[4 * i..4 * i + 4] == rest[4 * (i - 1)..4 * (i - 1) + 4];
          assert p[i] == p[1..][i - 1];
        }
      }
    }
  }

  /** What an observer of the LED reads: each lit interval of the long or the
      short length followed by the off gap is one bit; anything else is not a
      pattern display. */
  function ReadBack(t: seq<Event>): (r: Option<seq<bool>>)
    ensures r.Some? ==> 4 * |r.value| == |t|
  {
    if t == [] then Some([])
    else if |t| < 4 || t[0] != Led(true) || !t[1].Delay? || t[2] != Led(false)
         || t[3] != Delay(LedOffLen) || (t[1].ms != LongPulseLen && t[1].ms != ShortPulseLen)
    then None
    else match ReadBack(t[4..])
      case None => None
      case Some(rest) => Some([t[1].ms == LongPulseLen] + rest)
  }

  /** The observer always recovers the displayed pattern. */
  lemma {:induction false} ReadBackShow(p: seq<bool>)
    ensures ReadBack(Show(p)) == Some(p)
  {
    if p != [] {
      var t := Show(p);
      assert t[4..] == Show(p[1..]);
      ReadBackShow(p[1..]);
      assert [p[0]] + p[1..] == p;
    }
  }

  /** Whatever the observer reads was displayed by showing exactly that
      pattern: no two patterns look alike on the LED. */
  lemma {:induction false} ShowReadBack(t: seq<Event>)
    requires ReadBack(t).Some?
    ensures Show(ReadBack(t).value) == t
  {
    if t != [] {
      var p := ReadBack(t).value;
      ShowReadBack(t[4..]);
      assert p[1..] == ReadBack(t[4..]).value;
      assert Flash(p[0]) == t[..4];
      assert t[..4] + t[4..] == t;
    }
  }
}
