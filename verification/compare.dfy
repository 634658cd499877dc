/**
 Comparing the user pattern with the displayed one: positions are checked
 in order and the scan stops at the first that differs. Only whether a
 mismatch exists is reported.
 */
module Compare {

  import opened Board
  import opened Wrappers

  /** The first position at or after `i` where the two patterns differ. */
  function FirstMismatch(pattern: seq<bool>, user: seq<bool>, i: nat): (r: Option<nat>)
    requires |pattern| == |user| && i <= |pattern|
    ensures r.None? <==> pattern[i..] == user[i..]
    ensures r.Some? ==>
      && i <= r.value < |pattern|
      && pattern[r.value] != user[r.value]
      && pattern[i..r.value] == user[i..r.value]
    decreases |pattern| - i
  {
    if i == |pattern| then None
    else if pattern[i] != user[i] then Some(i)
    else
      var r := FirstMismatch(pattern, user, i + 1);
      assert pattern[i..] == [pattern[i]] + pattern[i + 1..];
      assert user[i..] == [user[i]] + user[i + 1..];
      if r.Some? then
        assert pattern[i..r.value] == [pattern[i]] + pattern[i + 1..r.value];
        assert user[i..r.value] == [user[i]] + user[i + 1..r.value];
        r
      else
        r
  }

  /** `wrongPattern` as the comparison leaves it. */
  function WrongPattern(pattern: Pattern, user: Pattern): (wrong: bool)
    ensures !wrong <==> pattern == user
  {
    assert pattern[0..] == pattern && user[0..] == user;
    FirstMismatch(pattern, user, 0).Some?
  }

  /** The comparison loop as the firmware writes it, leaving with `break` at
      the first difference. */
  method ComparePatterns(pattern: Pattern, user: Pattern) returns (wrongPattern: bool)
    ensures !wrongPattern <==> pattern == user
    ensures wrongPattern == WrongPattern(pattern, user)
  {
    wrongPattern := false;
    var i := 0;
    while i < NumFlashes
      invariant 0 <= i <= NumFlashes
      invariant pattern[..i] == user[..i]
    {
      if pattern[i] != user[i] {
        wrongPattern := true;
        break;
      }
      i := i + 1;
    }
    assert !wrongPattern ==> pattern == pattern[..i] && user == user[..i];
  }

  /** A pattern of all long flashes answered with a short last flash: the
      scan runs to the last position before it finds the difference. */
  lemma LastPositionMismatch()
    ensures FirstMismatch([true, true, true, true, true, true, true, true, true, true],
                          [true, true, true, true, true, true, true, true, true, false], 0)
         == Some(9)
  {
  }
}
