/**
 The game loop: rounds of wait-for-start, report and show the pattern,
 capture, compare and signal the outcome, repeated until a round is won.
 The random pattern of each round and the presses of the user are inputs.
 */
module Game {

  import opened Board
  import opened Seqs
  import opened Ticks
  import opened Presses
  import opened Serial
  import opened Display
  import opened Input
  import opened Compare
  import opened Wrappers

  const FailedFlashes: nat := 2
  const FailedFlashLen: nat := 100
  const FailedCooldownLen: nat := 1000

  /** `n` fast flashes of the LED, each as long on as off. */
  function FailFlashes(n: nat): (t: seq<Event>)
    ensures |t| == 4 * n
    ensures forall i :: 0 <= i < n ==>
      t[4 * i..4 * i + 4] == [Led(true), Delay(100), Led(false), Delay(100)]
  {
    if n == 0 then []
    else
      var rest := FailFlashes(n - 1);
      var t := rest + [Led(true), Delay(FailedFlashLen), Led(false), Delay(FailedFlashLen)];
      assert forall i :: 0 <= i < n - 1 ==> t[4 * i..4 * i + 4] == rest[4 * i..4 * i + 4];
      t
  }

  /** The failure signal: the fast flashes, then the cooldown. */
  function FailSignal(): (t: seq<Event>)
    ensures |t| == 9
    ensures Output(t) == []
  {
    var flashes := FailFlashes(FailedFlashes);
    var t := flashes + [Delay(FailedCooldownLen)];
    assert forall i :: 0 <= i < |t| ==> !t[i].Putc? by {
      assert flashes == flashes[0..4] + flashes[4..8];
    }
    OutputSilent(t);
    t
  }

  /** The failure signal is exactly two flashes of 100 ticks on and 100
      ticks off, followed by one cooldown of 1000 ticks. */
  lemma FailSignalShape()
    ensures FailSignal() == [Led(true), Delay(100), Led(false), Delay(100),
                             Led(true), Delay(100), Led(false), Delay(100),
                             Delay(1000)]
  {
    var flashes := FailFlashes(FailedFlashes);
    assert flashes == flashes[0..4] + flashes[4..8];
  }

  /** The success signal: the LED is left on. */
  function SuccessSignal(): (t: seq<Event>)
    ensures t == [Led(true)]
    ensures Output(t) == []
  {
    var t := [Led(true)];
    OutputSilent(t);
    t
  }

  /** Length of the part of a round before capture. */
  const OpeningLen: nat := 1 + (NumFlashes + 1) + 4 * NumFlashes

  /** The start of every round: the start press is seen, the generated
      pattern is reported on the serial line, then it is shown on the LED. */
  function Opening(pattern: Pattern): (t: seq<Event>)
    ensures |t| == OpeningLen
  {
    [StartPressed] + Emit(EncodeLine(pattern)) + Show(pattern)
  }

  /** The opening reports the generated pattern before anything else reaches
      the serial line, and what it shows on the LED reads back as the
      pattern. */
  lemma OpeningReportsThenShows(pattern: Pattern)
    ensures Opening(pattern)[0] == StartPressed
    ensures Output(Opening(pattern)) == EncodeLine(pattern)
    ensures ReadBack(Opening(pattern)[NumFlashes + 2..]) == Some(pattern)
  {
    var t := Opening(pattern);
    OutputAppend([StartPressed] + Emit(EncodeLine(pattern)), Show(pattern));
    OutputAppend([StartPressed], Emit(EncodeLine(pattern)));
    OutputSilent([StartPressed]);
    assert t[NumFlashes + 2..] == Show(pattern);
    ReadBackShow(pattern);
  }

  /** How a round ends: `Blocked` when the presses run out during capture
      (the firmware waits forever), otherwise `Finished` with the user
      pattern and the number of presses capture took. */
  datatype RoundEnd =
    | Blocked
    | Finished(matched: bool, user: Pattern, used: nat)

  /** One round of the game loop: capture, then compare with the generated
      pattern. */
  function Round(pattern: Pattern, presses: seq<Press>): (r: RoundEnd)
    ensures r.Finished? ==> 0 < r.used <= |presses|
  {
    match Capture(presses)
    case Stalled(_) => Blocked
    case Captured(user, used) => Finished(!WrongPattern(pattern, user), user, used)
  }

  /** The round finishes exactly when ten presses register, with their
      readings as the user pattern, and it is won exactly when the user
      pattern is the generated one. */
  lemma RoundDecides(pattern: Pattern, presses: seq<Press>)
    ensures var r := Round(pattern, presses);
      && (r.Finished? <==> |RegisteredBits(presses)| >= NumFlashes)
      && (r.Finished? ==>
            && r.user == RegisteredBits(presses)[..NumFlashes]
            && (r.matched <==> r.user == pattern)
            && RegisteredBits(presses[..r.used]) == r.user
            && Read(presses[r.used - 1]).Registered?)
  {
    var c := Capture(presses);
    CaptureReadsFirstTen(presses);
    if c.Captured? {
      assert Round(pattern, presses) == Finished(!WrongPattern(pattern, c.user), c.user, c.used);
    } else {
      assert Round(pattern, presses) == Blocked;
    }
  }

  /** The effects of a round that ended as `r`, given the effects of its
      opening and of its capture: a finished capture ends the captured line,
      then the failure or success signal follows. */
  function Effects(opening: seq<Event>, capture: seq<Event>, r: RoundEnd): seq<Event> {
    match r
    case Blocked => opening + capture
    case Finished(matched, _, _) =>
      opening + capture + [Putc(CarriageReturn)] + (if matched then SuccessSignal() else FailSignal())
  }

  /** The presses a round's capture took: all of them when it blocked. */
  function Consumed(presses: seq<Press>, r: RoundEnd): seq<Press>
    requires r.Finished? ==> r.used <= |presses|
  {
    if r.Finished? then presses[..r.used] else presses
  }

  /** The effects of one round of the game loop, from waiting for the start
      press to the outcome signal. */
  function RoundTrace(pattern: Pattern, presses: seq<Press>): seq<Event> {
    var r := Round(pattern, presses);
    Effects(Opening(pattern), PressEffects(Consumed(presses, r)), r)
  }

  /** A round's effects begin with its opening; a lost round ends with the
      failure signal and a won round with the LED switched on. */
  lemma EffectsShape(opening: seq<Event>, capture: seq<Event>, r: RoundEnd)
    ensures var t := Effects(opening, capture, r);
      && |t| >= |opening| && t[..|opening|] == opening
      && (r.Finished? && !r.matched ==> |t| >= 9 && t[|t| - 9..] == FailSignal())
      && (r.Finished? && r.matched ==> t[|t| - 1] == Led(true))
  {
    match r
    case Blocked =>
      Parts(opening, capture, []);
    case Finished(matched, _, _) =>
      var signal := if matched then SuccessSignal() else FailSignal();
      Parts(opening, capture + [Putc(CarriageReturn)], signal);
  }

  /** The serial output of a round is that of its opening, then that of its
      capture, then a carriage return once the capture has finished. */
  lemma EffectsOutput(opening: seq<Event>, capture: seq<Event>, r: RoundEnd)
    ensures Output(Effects(opening, capture, r))
         == Output(opening) + Output(capture) + (if r.Finished? then [CarriageReturn] else [])
  {
    OutputAppend(opening, capture);
    match r
    case Blocked =>
      assert Effects(opening, capture, r) == opening + capture;
    case Finished(matched, _, _) =>
      var c: seq<Event> := [Putc(CarriageReturn)];
      var signal := if matched then SuccessSignal() else FailSignal();
      assert Effects(opening, capture, r) == opening + capture + c + signal;
      OutputAppend(opening + capture + c, signal);
      OutputAppend(opening + capture, c);
      assert Output(c) == [CarriageReturn] by {
        assert c[1..] == [];
      }
      assert Output(signal) == [];
  }

  /** What a round sends on the serial line: the generated line, then the
      captured line once capture completes; a blocked round has sent the
      generated line and the digits of the presses registered so far. */
  lemma RoundOutput(pattern: Pattern, presses: seq<Press>)
    ensures var r := Round(pattern, presses);
      var out := Output(RoundTrace(pattern, presses));
      && (r.Finished? ==> out == EncodeLine(pattern) + EncodeLine(r.user))
      && (r.Blocked? ==> out == EncodeLine(pattern) + Digits(RegisteredBits(presses)))
  {
    var r := Round(pattern, presses);
    var capture := PressEffects(Consumed(presses, r));
    EffectsOutput(Opening(pattern), capture, r);
    OpeningReportsThenShows(pattern);
    RoundDecides(pattern, presses);
    if r.Finished? {
      Assoc(EncodeLine(pattern), Digits(r.user), [CarriageReturn]);
    }
  }

  /** The effects of every round begin with its opening; a lost round ends
      with the failure signal and a won round with the LED switched on. */
  lemma RoundEffects(pattern: Pattern, presses: seq<Press>)
    ensures var r := Round(pattern, presses);
      var t := RoundTrace(pattern, presses);
      && |t| >= OpeningLen && t[..OpeningLen] == Opening(pattern)
      && (r.Finished? && !r.matched ==> |t| >= OpeningLen + 9 && t[|t| - 9..] == FailSignal())
      && (r.Finished? && r.matched ==> t[|t| - 1] == Led(true))
  {
    var r := Round(pattern, presses);
    EffectsShape(Opening(pattern), PressEffects(Consumed(presses, r)), r);
  }

  /** Why the observed run of the game stopped. */
  datatype Ending =
    | Won       // a round was matched: the LED stays on and the loop is left
    | Stuck     // the presses ran out during a capture
    | Waiting   // every drawn pattern was played and lost; waiting for a start press

  /** The rounds played, in order, and why the run stopped. */
  datatype Run = Run(rounds: seq<RoundEnd>, ending: Ending)

  /** The game loop. `patterns[k]` is the pattern drawn in round `k` and
      `presses` all presses the user makes, in order. A lost round sends the
      loop back to wait for the next start press, with the presses left
      over; a won round leaves it for good. */
  function Play(patterns: seq<Pattern>, presses: seq<Press>): (g: Run)
    ensures |g.rounds| <= |patterns|
    ensures g.ending == Waiting ==> |g.rounds| == |patterns|
    ensures g.ending != Waiting ==> |g.rounds| >= 1
    decreases |patterns|
  {
    if patterns == [] then Run([], Waiting)
    else
      var r := Round(patterns[0], presses);
      if r.Blocked? then Run([r], Stuck)
      else if r.matched then Run([r], Won)
      else
        var g := Play(patterns[1..], presses[r.used..]);
        Run([r] + g.rounds, g.ending)
  }

  /** A round that captured a pattern other than the generated one. */
  predicate Lost(r: RoundEnd) {
    r.Finished? && !r.matched
  }

  /** Every round before the last was lost, and so was the last one when
      the run is waiting for the next start press. */
  lemma {:induction false} PlayLosesBeforeLast(patterns: seq<Pattern>, presses: seq<Press>)
    ensures var g := Play(patterns, presses);
      && (forall k :: 0 <= k < |g.rounds| - 1 ==> Lost(g.rounds[k]))
      && (g.ending == Waiting ==> forall k :: 0 <= k < |g.rounds| ==> Lost(g.rounds[k]))
    decreases |patterns|
  {
    if patterns != [] {
      var r := Round(patterns[0], presses);
      if Lost(r) {
        PlayLosesBeforeLast(patterns[1..], presses[r.used..]);
        var g := Play(patterns[1..], presses[r.used..]);
        assert Play(patterns, presses) == Run([r] + g.rounds, g.ending);
      }
    }
  }

  /** The last round of a won run was matched; that of a stuck run blocked. */
  lemma {:induction false} PlayLastRound(patterns: seq<Pattern>, presses: seq<Press>)
    ensures var g := Play(patterns, presses);
      && (g.ending == Won ==> g.rounds[|g.rounds| - 1].Finished? && g.rounds[|g.rounds| - 1].matched)
      && (g.ending == Stuck ==> g.rounds[|g.rounds| - 1] == Blocked)
    decreases |patterns|
  {
    if patterns != [] {
      var r := Round(patterns[0], presses);
      if r.Blocked? {
        assert Play(patterns, presses) == Run([r], Stuck);
      } else if r.matched {
        assert Play(patterns, presses) == Run([r], Won);
      } else {
        PlayLastRound(patterns[1..], presses[r.used..]);
        var g := Play(patterns[1..], presses[r.used..]);
        assert Play(patterns, presses) == Run([r] + g.rounds, g.ending);
        if g.ending != Waiting {
          LastOfAppend([r], g.rounds);
        }
      }
    }
  }

  /** The effects of the whole observed run: the rounds' effects back to back. */
  function Trace(patterns: seq<Pattern>, presses: seq<Press>): seq<Event>
    decreases |patterns|
  {
    if patterns == [] then []
    else
      var r := Round(patterns[0], presses);
      if r.Finished? && !r.matched then RoundTrace(patterns[0], presses) + Trace(patterns[1..], presses[r.used..])
      else RoundTrace(patterns[0], presses)
  }

  /** A lost round ends with the failure signal, and the loop goes back to
      waiting for a start press with the next pattern and the presses that
      are left. */
  lemma LostRoundRestarts(pattern: Pattern, more: seq<Pattern>, presses: seq<Press>)
    requires Round(pattern, presses).Finished? && !Round(pattern, presses).matched
    ensures var r := Round(pattern, presses);
      && Play([pattern] + more, presses) == Run([r] + Play(more, presses[r.used..]).rounds,
                                                Play(more, presses[r.used..]).ending)
      && Trace([pattern] + more, presses) == RoundTrace(pattern, presses) + Trace(more, presses[r.used..])
      && RoundTrace(pattern, presses)[|RoundTrace(pattern, presses)| - 9..] == FailSignal()
  {
    var patterns := [pattern] + more;
    assert patterns[0] == pattern && patterns[1..] == more;
    RoundEffects(pattern, presses);
  }

  /** The last effect of `t` switches the LED on. */
  predicate EndsLit(t: seq<Event>) {
    |t| > 0 && t[|t| - 1] == Led(true)
  }

  lemma EndsLitAppend(t: seq<Event>, rest: seq<Event>)
    requires EndsLit(rest)
    ensures EndsLit(t + rest)
  {
    LastOfAppend(t, rest);
  }

  /** A won run's effects end with the LED switched on. */
  lemma {:induction false} WonRunEndsLit(patterns: seq<Pattern>, presses: seq<Press>)
    requires Play(patterns, presses).ending == Won
    ensures EndsLit(Trace(patterns, presses))
  {
    assert patterns != [];
    var r := Round(patterns[0], presses);
    var t := RoundTrace(patterns[0], presses);
    var whole := Trace(patterns, presses);
    assert r.Finished?;
    if r.matched {
      RoundEffects(patterns[0], presses);
      assert whole == t;
    } else {
      var more, left := patterns[1..], presses[r.used..];
      WonRunEndsLit(more, left);
      assert whole == t + Trace(more, left);
      EndsLitAppend(t, Trace(more, left));
    }
  }

  /** Once a round is won no further round is played: patterns drawn after
      it change neither the rounds nor the effects. */
  lemma {:induction false} WinIsFinal(patterns: seq<Pattern>, more: seq<Pattern>, presses: seq<Press>)
    requires Play(patterns, presses).ending == Won
    ensures Play(patterns + more, presses) == Play(patterns, presses)
    ensures Trace(patterns + more, presses) == Trace(patterns, presses)
  {
    assert (patterns + more)[0] == patterns[0];
    var r := Round(patterns[0], presses);
    if !r.matched {
      assert (patterns + more)[1..] == patterns[1..] + more;
      WinIsFinal(patterns[1..], more, presses[r.used..]);
    }
  }

  /** The user reproduces `pattern` when the i-th press is held in the band
      of the i-th bit: above 750 ticks for a long flash, 26 to 750 for a
      short one. */
  ghost predicate Reproduces(presses: seq<Press>, pattern: Pattern) {
    && |presses| == NumFlashes
    && forall i :: 0 <= i < NumFlashes ==> InBand(Elapsed(presses[i].start, presses[i].end), pattern[i])
  }

  lemma {:induction false} RegisteredOfBands(presses: seq<Press>, bits: seq<bool>)
    requires |presses| == |bits|
    requires forall i :: 0 <= i < |bits| ==> InBand(Elapsed(presses[i].start, presses[i].end), bits[i])
    ensures RegisteredBits(presses) == bits
  {
    if bits != [] {
      assert Read(presses[0]) == Registered(bits[0]);
      RegisteredOfBands(presses[1..], bits[1..]);
      assert [bits[0]] + bits[1..] == bits;
    }
  }

  /** A press that registers leaves a non-empty reading behind it. */
  lemma LastRegisters(presses: seq<Press>, k: nat)
    requires 0 < k <= |presses| && Read(presses[k - 1]).Registered?
    ensures |RegisteredBits(presses[..k])| == |RegisteredBits(presses[..k - 1])| + 1
  {
    RegisteredStep(presses, k - 1);
  }

  /** Pressing as the pattern was generated always wins the round: the
      captured pattern is the generated one, capture takes exactly the ten
      presses and leaves any later ones alone, the serial line carries the
      same line twice, and the loop ends. */
  lemma ReproducingWins(pattern: Pattern, presses: seq<Press>, rest: seq<Press>, more: seq<Pattern>)
    requires Reproduces(presses, pattern)
    ensures Round(pattern, presses + rest) == Finished(true, pattern, NumFlashes)
    ensures (presses + rest)[NumFlashes..] == rest
    ensures Output(RoundTrace(pattern, presses + rest)) == EncodeLine(pattern) + EncodeLine(pattern)
    ensures Play([pattern] + more, presses + rest) == Run([Finished(true, pattern, NumFlashes)], Won)
  {
    var all := presses + rest;
    ReproducingCaptures(pattern, presses, rest);
    assert Round(pattern, all) == Finished(!WrongPattern(pattern, pattern), pattern, NumFlashes);
    assert all[NumFlashes..] == rest;
    RoundOutput(pattern, all);
    assert ([pattern] + more)[0] == pattern;
  }

  /** Capture of presses held in the bands of `pattern` takes exactly those
      ten presses and yields `pattern`. */
  lemma ReproducingCaptures(pattern: Pattern, presses: seq<Press>, rest: seq<Press>)
    requires Reproduces(presses, pattern)
    ensures Capture(presses + rest) == Captured(pattern, NumFlashes)
  {
    var all := presses + rest;
    CaptureReadsFirstTen(all);
    RegisteredOfBands(presses, pattern);
    RegisteredAppend(presses, rest);
    var used := Capture(all).used;
    // every one of the ten presses registers, so capture stops exactly after them
    forall k | 0 <= k <= NumFlashes
      ensures RegisteredBits(all[..k]) == pattern[..k]
    {
      assert all[..k] == presses[..k];
      RegisteredOfBands(presses[..k], pattern[..k]);
    }
    if used < NumFlashes {
      assert false;
    } else if used > NumFlashes {
      assert all[..used - 1][..NumFlashes] == all[..NumFlashes];
      LastRegisters(all, used);
      RegisteredPrefix(all[..used - 1], NumFlashes);
      assert false;
    }
  }

  /** The effects of a run whose first round is won are that round's effects. */
  lemma TraceOfFirstWin(pattern: Pattern, more: seq<Pattern>, presses: seq<Press>)
    requires Round(pattern, presses).Finished? && Round(pattern, presses).matched
    ensures Trace([pattern] + more, presses) == RoundTrace(pattern, presses)
  {
    assert ([pattern] + more)[0] == pattern;
  }

  /** Holding the button exactly as long as the LED was lit reproduces the
      bit: the display lengths lie in the bands the capture loop reads. */
  lemma DisplayLengthsReadBack(b: bool)
    ensures Classify(OnTime(b)) == Registered(b)
  {
  }

  /** The presses of a user who copies the display, each starting wherever
      the tick counter happens to stand. */
  function Mimic(pattern: Pattern, starts: seq<U32>): (presses: seq<Press>)
    requires |starts| == NumFlashes
    ensures Reproduces(presses, pattern)
  {
    var presses := seq(NumFlashes, i requires 0 <= i < NumFlashes => Hold(starts[i], OnTime(pattern[i])));
    assert forall i :: 0 <= i < NumFlashes ==> Elapsed(presses[i].start, presses[i].end) == OnTime(pattern[i]);
    presses
  }

  /** Whatever the pattern, copying the display with one press per flash,
      held as long as the flash was lit, wins the game in one round; the
      serial line carries the pattern's line twice. */
  lemma MimicWins(p: Pattern, starts: seq<U32>)
    requires |starts| == NumFlashes
    ensures Play([p], Mimic(p, starts)) == Run([Finished(true, p, NumFlashes)], Won)
    ensures Output(Trace([p], Mimic(p, starts))) == EncodeLine(p) + EncodeLine(p)
  {
    var presses := Mimic(p, starts);
    ReproducingWins(p, presses, [], []);
    assert presses + [] == presses;
    assert [p] + [] == [p];
    TraceOfFirstWin(p, [], presses);
  }
}
