/**
 What the game loop does to the outside world, as an ordered trace of
 events: the LED pin level, blocking delays, and bytes sent on the serial
 line. The game's fixed pattern length also lives here.
 */
module Board {

  /** Number of flashes in a pattern (`NUM_FLASHES`). */
  const NumFlashes: nat := 10

  /** A pattern of long (`true`) and short (`false`) flashes. */
  type Pattern = s: seq<bool> | |s| == NumFlashes
    witness [false, false, false, false, false, false, false, false, false, false]

  /** A byte handed to the serial transmitter. */
  type Byte = x: int | 0 <= x < 256

  datatype Event =
    | StartPressed        // the busy-wait for the start press returned
    | Led(on: bool)       // the LED pin was written high or low
    | Delay(ms: nat)      // a blocking delay of `ms` ticks
    | Putc(b: Byte)       // one byte was sent on the serial line

  /** The bytes a trace sends on the serial line, in order. */
  function Output(t: seq<Event>): (out: seq<Byte>)
    ensures |out| <= |t|
  {
    if t == [] then []
    else (if t[0].Putc? then [t[0].b] else []) + Output(t[1..])
  }

  lemma {:induction false} OutputAppend(a: seq<Event>, b: seq<Event>)
    ensures Output(a + b) == Output(a) + Output(b)
  {
    if a == [] {
      assert a + b == b;
    } else {
      assert (a + b)[0] == a[0];
      assert (a + b)[1..] == a[1..] + b;
      OutputAppend(a[1..], b);
      calc {
        Output(a + b);
        (if a[0].Putc? then [a[0].b] else []) + Output(a[1..] + b);
        (if a[0].Putc? then [a[0].b] else []) + (Output(a[1..]) + Output(b));
        ((if a[0].Putc? then [a[0].b] else []) + Output(a[1..])) + Output(b);
      }
    }
  }

  /** A trace that sends nothing leaves the serial line silent. */
  lemma {:induction false} OutputSilent(t: seq<Event>)
    requires forall i :: 0 <= i < |t| ==> !t[i].Putc?
    ensures Output(t) == []
  {
    if t != [] {
      assert !t[0].Putc?;
      OutputSilent(t[1..]);
    }
  }

  /** Sending `bytes` one at a time. */
  function Emit(bytes: seq<Byte>): (t: seq<Event>)
    ensures |t| == |bytes|
    ensures Output(t) == bytes
    ensures forall i :: 0 <= i < |t| ==> t[i] == Putc(bytes[i])
  {
    if bytes == [] then []
    else
      [Putc(bytes[0])] + Emit(bytes[1..])
  }
}
