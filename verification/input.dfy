/**
 Capturing the user pattern: presses are taken one after another, presses
 that are too short are ignored without advancing the position, and each
 registered press fills the next of the ten positions with its reading.
 */
module Input {

  import opened Board
  import opened Seqs
  import opened Ticks
  import opened Presses
  import opened Serial

  /** What one press adds to the user pattern: its bit if it registered. */
  function Contribution(p: Press): (bits: seq<bool>)
    ensures |bits| <= 1
    ensures bits == [] <==> Read(p) == Ignored
  {
    match Read(p)
    case Ignored => []
    case Registered(b) => [b]
  }

  /** The readings of all registered presses in `presses`, in order: the
      reference against which capture is judged. */
  function RegisteredBits(presses: seq<Press>): (bits: seq<bool>)
    ensures |bits| <= |presses|
  {
    if presses == [] then [] else Contribution(presses[0]) + RegisteredBits(presses[1..])
  }

  lemma {:induction false} RegisteredAppend(a: seq<Press>, b: seq<Press>)
    ensures RegisteredBits(a + b) == RegisteredBits(a) + RegisteredBits(b)
  {
    if a == [] {
      assert a + b == b;
    } else {
      assert (a + b)[0] == a[0];
      assert (a + b)[1..] == a[1..] + b;
      RegisteredAppend(a[1..], b);
    }
  }

  /** Taking one more press adds its contribution at the end. */
  lemma RegisteredStep(presses: seq<Press>, k: nat)
    requires k < |presses|
    ensures RegisteredBits(presses[..k + 1]) == RegisteredBits(presses[..k]) + Contribution(presses[k])
  {
    assert presses[..k + 1] == presses[..k] + [presses[k]];
    RegisteredAppend(presses[..k], [presses[k]]);
    assert RegisteredBits([presses[k]]) == Contribution(presses[k]) + RegisteredBits([]);
  }

  /** The readings of a prefix are a prefix of the readings. */
  lemma RegisteredPrefix(presses: seq<Press>, k: nat)
    requires k <= |presses|
    ensures RegisteredBits(presses) == RegisteredBits(presses[..k]) + RegisteredBits(presses[k..])
  {
    assert presses == presses[..k] + presses[k..];
    RegisteredAppend(presses[..k], presses[k..]);
  }

  /** The result of capture: either all positions were filled after the
      first `used` presses, or the presses ran out first (the firmware would
      go on waiting for a press that never comes). */
  datatype Outcome = Captured(user: seq<bool>, used: nat) | Stalled(partial: seq<bool>)

  /** The capture loop from press `i` on, with positions `user` already filled. */
  function CaptureFrom(presses: seq<Press>, i: nat, user: seq<bool>): (c: Outcome)
    requires i <= |presses| && |user| <= NumFlashes
    ensures c.Captured? ==> i <= c.used <= |presses| && |c.user| == NumFlashes
    ensures c.Stalled? ==> |c.partial| < NumFlashes
    decreases |presses| - i
  {
    if |user| == NumFlashes then Captured(user, i)
    else if i == |presses| then Stalled(user)
    else CaptureFrom(presses, i + 1, user + Contribution(presses[i]))
  }

  /** From press `i` on, capture fills the remaining positions with the
      readings of the next registered presses, and stops right after the
      press that fills the last one. */
  lemma {:induction false} CaptureFromFills(presses: seq<Press>, i: nat, user: seq<bool>)
    requires i <= |presses| && |user| <= NumFlashes
    ensures var c := CaptureFrom(presses, i, user);
      && (c.Captured? ==> c.user == user + RegisteredBits(presses[i..c.used]))
      && (c.Stalled? ==> c.partial == user + RegisteredBits(presses[i..]))
    decreases |presses| - i
  {
    var c := CaptureFrom(presses, i, user);
    if |user| == NumFlashes {
      assert presses[i..i] == [];
    } else if i == |presses| {
      assert presses[i..] == [];
    } else {
      var next := user + Contribution(presses[i]);
      assert c == CaptureFrom(presses, i + 1, next);
      CaptureFromFills(presses, i + 1, next);
      if c.Captured? {
        RegisteredCons(presses, i, c.used);
        Assoc(user, Contribution(presses[i]), RegisteredBits(presses[i + 1..c.used]));
      } else {
        RegisteredCons(presses, i, |presses|);
        assert presses[i..] == presses[i..|presses|];
        assert presses[i + 1..] == presses[i + 1..|presses|];
        Assoc(user, Contribution(presses[i]), RegisteredBits(presses[i + 1..]));
      }
    }
  }

  /** Capture stops right after a press that registers. */
  lemma {:induction false} CaptureFromStops(presses: seq<Press>, i: nat, user: seq<bool>)
    requires i <= |presses| && |user| < NumFlashes
    ensures var c := CaptureFrom(presses, i, user);
      c.Captured? ==> i < c.used && Contribution(presses[c.used - 1]) != []
    decreases |presses| - i
  {
    if i < |presses| {
      var next := user + Contribution(presses[i]);
      if |next| < NumFlashes {
        CaptureFromStops(presses, i + 1, next);
      }
    }
  }

  lemma RegisteredCons(presses: seq<Press>, i: nat, j: nat)
    requires i < j <= |presses|
    ensures RegisteredBits(presses[i..j]) == Contribution(presses[i]) + RegisteredBits(presses[i + 1..j])
  {
    assert presses[i..j][0] == presses[i];
    assert presses[i..j][1..] == presses[i + 1..j];
  }

  /** Capturing the user pattern from a stream of presses. */
  function Capture(presses: seq<Press>): (c: Outcome)
    ensures c.Captured? ==> |c.user| == NumFlashes && 0 < c.used <= |presses|
  {
    CaptureFromStops(presses, 0, []);
    CaptureFrom(presses, 0, [])
  }

  /** The captured pattern is the readings of the first ten presses that
      register; ignored presses take no position, and capture stops right
      after the press that fills the last one. When fewer than ten presses
      register, capture has not completed. */
  lemma CaptureReadsFirstTen(presses: seq<Press>)
    ensures var c := Capture(presses);
      && (c.Captured? <==> |RegisteredBits(presses)| >= NumFlashes)
      && (c.Captured? ==>
            && c.user == RegisteredBits(presses)[..NumFlashes]
            && RegisteredBits(presses[..c.used]) == c.user
            && Read(presses[c.used - 1]).Registered?)
      && (c.Stalled? ==> c.partial == RegisteredBits(presses))
  {
    var c := Capture(presses);
    CaptureFromFills(presses, 0, []);
    CaptureFromStops(presses, 0, []);
    assert presses[0..] == presses;
    if c.Captured? {
      assert presses[0..c.used] == presses[..c.used];
      RegisteredPrefix(presses, c.used);
    }
  }

  /** A press that is too short may be slipped in anywhere without changing
      whether capture completes or what it captures. */
  lemma IgnoredPressIsInvisible(before: seq<Press>, noise: Press, after: seq<Press>)
    requires Elapsed(noise.start, noise.end) <= NotRegisterThreshold
    ensures Capture(before + [noise] + after).Captured? == Capture(before + after).Captured?
    ensures Capture(before + [noise] + after).Captured? ==>
      Capture(before + [noise] + after).user == Capture(before + after).user
  {
    IgnoredPressAddsNothing(before, noise, after);
    CaptureReadsFirstTen(before + [noise] + after);
    CaptureReadsFirstTen(before + after);
  }

  lemma IgnoredPressAddsNothing(before: seq<Press>, noise: Press, after: seq<Press>)
    requires Elapsed(noise.start, noise.end) <= NotRegisterThreshold
    ensures RegisteredBits(before + [noise] + after) == RegisteredBits(before + after)
  {
    assert Read(noise) == Ignored;
    assert RegisteredBits([noise]) == [] by {
      assert [noise][1..] == [];
      assert RegisteredBits([noise]) == Contribution(noise) + RegisteredBits([]);
    }
    RegisteredAppend(before + [noise], after);
    RegisteredAppend(before, [noise]);
    RegisteredAppend(before, after);
    assert RegisteredBits(before + [noise]) == RegisteredBits(before) by {
      assert RegisteredBits(before) + [] == RegisteredBits(before);
    }
  }

  /** The effects of one press: the LED follows the button (on when
      pressed, off when released), then a registered press sends its digit. */
  function PressEffect(p: Press): (t: seq<Event>)
    ensures Output(t) == Digits(Contribution(p))
  {
    var t := [Led(true), Led(false)] + (if Read(p).Registered? then [Putc(Digit(Read(p).long))] else []);
    OutputAppend([Led(true), Led(false)], t[2..]);
    assert t == [Led(true), Led(false)] + t[2..];
    OutputSilent([Led(true), Led(false)]);
    t
  }

  /** The effects of a sequence of presses: every registered press sends its
      digit, so the serial line carries the digits of the readings. */
  function PressEffects(presses: seq<Press>): (t: seq<Event>)
    ensures Output(t) == Digits(RegisteredBits(presses))
  {
    if presses == [] then []
    else
      var rest := PressEffects(presses[1..]);
      OutputAppend(PressEffect(presses[0]), rest);
      DigitsAppend(Contribution(presses[0]), RegisteredBits(presses[1..]));
      PressEffect(presses[0]) + rest
  }

  /** The inner capture loop: takes presses from `from` on until one
      registers, and gives its reading and the position just after it.
      `found` is false when the presses run out first. */
  method AwaitRegistered(presses: seq<Press>, from: nat) returns (found: bool, long: bool, next: nat)
    requires from <= |presses|
    ensures found ==>
      && from < next <= |presses|
      && Read(presses[next - 1]) == Registered(long)
      && RegisteredBits(presses[..next]) == RegisteredBits(presses[..from]) + [long]
    ensures !found ==> RegisteredBits(presses) == RegisteredBits(presses[..from])
  {
    next := from;
    while true
      invariant from <= next <= |presses|
      invariant RegisteredBits(presses[..next]) == RegisteredBits(presses[..from])
      decreases |presses| - next
    {
      if next == |presses| {
        assert presses[..next] == presses;
        return false, false, next;
      }
      var elapsed := Elapsed(presses[next].start, presses[next].end);
      RegisteredStep(presses, next);
      next := next + 1;
      if elapsed > NotRegisterThreshold {
        return true, elapsed > ShortPulseThreshold, next;
      }
    }
  }

  /** The capture loop as the firmware writes it: an outer loop over the ten
      positions and an inner loop that takes presses until one registers.
      `complete` is false when the presses run out first. */
  method CapturePresses(presses: seq<Press>) returns (complete: bool, user: seq<bool>, used: nat)
    ensures complete <==> |RegisteredBits(presses)| >= NumFlashes
    ensures complete ==>
      && user == RegisteredBits(presses)[..NumFlashes]
      && used <= |presses|
      && user == RegisteredBits(presses[..used])
      && 0 < used && Read(presses[used - 1]).Registered?
    ensures !complete ==> user == RegisteredBits(presses)
  {
    user := [];
    used := 0;
    var i := 0;
    while i < NumFlashes
      invariant 0 <= i <= NumFlashes
      invariant used <= |presses|
      invariant |user| == i
      invariant user == RegisteredBits(presses[..used])
      invariant i > 0 ==> 0 < used && Read(presses[used - 1]).Registered?
    {
      var found, long, next := AwaitRegistered(presses, used);
      if !found {
        return false, user, used;
      }
      user := user + [long];
      used := next;
      i := i + 1;
    }
    RegisteredPrefix(presses, used);
    complete := true;
  }
}
