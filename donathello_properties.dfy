/** What `decideMove` promises its caller, stated about `Choice`, the outcome
    `Donathello.DecideMove` is proved to produce. */
module DonathelloProperties {
  import opened Wrappers
  import opened Donathello

  /** A non-null answer is a legal move that is a greedy pick: the mover ends
      with more than zero tokens, no legal move gives more, and every earlier
      legal move gives strictly fewer (the strict `>` keeps the first maximum). */
  lemma ChoicePicksGreedy(s: Turn)
    ensures Choice(s).Success? && Choice(s).value.Some? ==>
              exists k :: 0 <= k < |s.legalMoves| && s.legalMoves[k] == Choice(s).value.value && s.IsGreedyPick(k)
  {

  }

  /** Conversely, whenever the `k`-th legal move is a greedy pick, it is the answer. */
  lemma GreedyPickIsChosen(s: Turn, k: nat)
    requires s.IsGreedyPick(k)
    ensures Choice(s) == Success(Some(s.legalMoves[k]))
  {

  }

  /** The answer is null exactly when every legal move leaves the mover with at
      most zero tokens; in particular when there is no legal move at all. */
  lemma ChoiceNullIff(s: Turn)
    ensures Choice(s) == Success(None) <==>
              s.Readable(|s.legalMoves|) && forall i :: 0 <= i < |s.legalMoves| ==> s.Count(i) <= 0
  {

  }

  /** `decideMove` raises an exception exactly when some legal move leaves a
      count array that the player id does not index, and it does so at the
      first such move. */
  lemma ChoiceFailsIff(s: Turn)
    ensures Choice(s).Failure? <==> exists i :: 0 <= i < |s.legalMoves| && !s.CanRead(i)
    ensures Choice(s).Failure? ==>
              exists i :: 0 <= i < |s.legalMoves| && s.Readable(i) && !s.CanRead(i) &&
                Choice(s).error == IndexOutOfBounds(s.playerInTurn - 1, |s.tokensAfter(s.legalMoves[i])|)
  {

  }

  /** With the two players numbered 1 and 2 and `countTokens` returning one
      count per player, `decideMove` never raises. */
  lemma TwoPlayersNeverFail(s: Turn)
    requires s.playerInTurn == 1 || s.playerInTurn == 2
    requires forall i :: 0 <= i < |s.legalMoves| ==> |s.tokensAfter(s.legalMoves[i])| == 2
    ensures Choice(s).Success?
  {

  }

  /** The answer is a function of the player in turn, the legal moves and the
      counts after those moves alone: nothing else (no randomness) enters it. */
  lemma ChoiceDependsOnlyOnListedCounts(s: Turn, t: Turn)
    requires s.playerInTurn == t.playerInTurn && s.legalMoves == t.legalMoves
    requires forall i :: 0 <= i < |s.legalMoves| ==> s.tokensAfter(s.legalMoves[i]) == t.tokensAfter(t.legalMoves[i])
    ensures Choice(s) == Choice(t)
  {
    var n := |s.legalMoves|;
    FirstUnreadableAgree(s, t, n);
    if s.FirstUnreadable(n) == n {
      MaxCountAgree(s, t, n);
      FirstAttainingAgree(s, t, n, s.MaxCount(n));
    }
  }

  lemma {:induction false} FirstUnreadableAgree(s: Turn, t: Turn, n: nat)
    requires s.playerInTurn == t.playerInTurn && s.legalMoves == t.legalMoves && n <= |s.legalMoves|
    requires forall i :: 0 <= i < |s.legalMoves| ==> s.tokensAfter(s.legalMoves[i]) == t.tokensAfter(t.legalMoves[i])
    ensures s.FirstUnreadable(n) == t.FirstUnreadable(n)
  {
    if n > 0 {
      FirstUnreadableAgree(s, t, n - 1);
    }
  }

  lemma ReadableAgree(s: Turn, t: Turn, n: nat)
    requires s.playerInTurn == t.playerInTurn && s.legalMoves == t.legalMoves && n <= |s.legalMoves|
    requires forall i :: 0 <= i < |s.legalMoves| ==> s.tokensAfter(s.legalMoves[i]) == t.tokensAfter(t.legalMoves[i])
    requires s.Readable(n)
    ensures t.Readable(n)
  {
    forall i | 0 <= i < n
      ensures t.CanRead(i)
    {
      assert s.CanRead(i);
    }
  }

  lemma {:induction false} MaxCountAgree(s: Turn, t: Turn, n: nat)
    requires s.playerInTurn == t.playerInTurn && s.legalMoves == t.legalMoves && n <= |s.legalMoves|
    requires forall i :: 0 <= i < |s.legalMoves| ==> s.tokensAfter(s.legalMoves[i]) == t.tokensAfter(t.legalMoves[i])
    requires s.Readable(n)
    ensures t.Readable(n) && s.MaxCount(n) == t.MaxCount(n)
  {
    ReadableAgree(s, t, n);
    if n > 0 {
      MaxCountAgree(s, t, n - 1);
    }
  }

  lemma {:induction false} FirstAttainingAgree(s: Turn, t: Turn, n: nat, m: int)
    requires s.playerInTurn == t.playerInTurn && s.legalMoves == t.legalMoves && n <= |s.legalMoves|
    requires forall i :: 0 <= i < |s.legalMoves| ==> s.tokensAfter(s.legalMoves[i]) == t.tokensAfter(t.legalMoves[i])
    requires s.Readable(n)
    ensures t.Readable(n) && s.FirstAttaining(n, m) == t.FirstAttaining(n, m)
  {
    ReadableAgree(s, t, n);
    if n > 0 {
      FirstAttainingAgree(s, t, n - 1, m);
    }
  }

  /** Of two legal moves that both attain the largest positive count, the
      later one is never preferred: the answer is the earlier one or a move
      enumerated before it, because the comparison is strict. */
  lemma TieGoesToFirst(s: Turn, i: nat, j: nat)
    requires i < j < |s.legalMoves| && s.Readable(|s.legalMoves|)
    requires s.Count(i) == s.Count(j) == s.MaxCount(|s.legalMoves|) > 0
    ensures exists k :: 0 <= k <= i && Choice(s) == Success(Some(s.legalMoves[k]))
  {
  }
}
