/** Networks that xor a function of one half into the other, halves taking turns. */
module Feistel {

  import opened Words32

  type Round = word32 -> word32

  /** The half modified last and the other one, after the first n rounds. */
  function After(rounds: seq<Round>, n: nat, last: word32, other: word32): (word32, word32)
    requires n <= |rounds|
    decreases n
  {
    if n == 0 then (last, other)
    else
      var s := After(rounds, n - 1, last, other);
      (Xor32(s.1, rounds[n - 1](s.0)), s.0)
  }

  lemma NoRounds(rounds: seq<Round>, last: word32, other: word32)
    ensures After(rounds, 0, last, other) == (last, other)
  {
  }

  lemma NextRound(rounds: seq<Round>, n: nat, last: word32, other: word32)
    requires n < |rounds|
    ensures var s := After(rounds, n, last, other); After(rounds, n + 1, last, other) == (Xor32(s.1, rounds[n](s.0)), s.0)
  {
  }

  /** The first n rounds in the opposite order. */
  ghost predicate Backwards(back: seq<Round>, rounds: seq<Round>, n: nat) {
    n <= |rounds| && |back| == n && forall m :: 0 <= m < n ==> back[m] == rounds[n - 1 - m]
  }

  /** The rounds in the opposite order, on exchanged halves, retrace every step. */
  lemma {:induction false} Retraces(back: seq<Round>, rounds: seq<Round>, n: nat, m: nat, last: word32, other: word32)
    requires Backwards(back, rounds, n) && m <= n
    ensures var s := After(rounds, n, last, other);
      After(back, m, s.1, s.0) == (After(rounds, n - m, last, other).1, After(rounds, n - m, last, other).0)
  {
    hide Xor32;
    if m > 0 {
      Retraces(back, rounds, n, m - 1, last, other);
      var s := After(rounds, n - m, last, other);
      assert back[m - 1] == rounds[n - m];
      XorTwice(s.1, rounds[n - m](s.0));
    }
  }

  /** All n rounds undone. */
  lemma Undoes(back: seq<Round>, rounds: seq<Round>, n: nat, last: word32, other: word32)
    requires Backwards(back, rounds, n)
    ensures var s := After(rounds, n, last, other); After(back, n, s.1, s.0) == (other, last)
  {
    Retraces(back, rounds, n, n, last, other);
  }
}
