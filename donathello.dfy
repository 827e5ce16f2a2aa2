/** The greedy Othello player `Donathello`: among the legal moves it picks the
    one after which the player in turn owns the most tokens, keeping the
    first such move in enumeration order, and answers null when no move
    gives that player more than zero tokens. */
module Donathello {
  import opened Wrappers

  /** A board cell, column and row. */
  datatype Position = Position(col: int, row: int)

  /** The exception `tokens[tileColor - 1]` raises when the player id does not
      index the array returned by `countTokens`. */
  datatype Fault = IndexOutOfBounds(index: int, length: nat)

  /** What the selector observes of the game state it is given: the player in
      turn, the legal moves in the order the rules engine enumerates them, and
      for each move the array `countTokens()` returns after that move has been
      played on a fresh copy of the state (entry `c - 1` is player `c`'s count). */
  datatype Turn = Turn(playerInTurn: int, legalMoves: seq<Position>, tokensAfter: Position -> seq<int>)
  {
    /** The count of the mover can be read after the `i`-th legal move. */
    predicate CanRead(i: nat)
      requires i < |legalMoves|
    {
      0 <= playerInTurn - 1 < |tokensAfter(legalMoves[i])|
    }

    /** The count of the mover can be read after each of the first `n` legal moves. */
    predicate Readable(n: nat)
      requires n <= |legalMoves|
    {
      forall i :: 0 <= i < n ==> CanRead(i)
    }

    /** The mover's token count after the `i`-th legal move. */
    function Count(i: nat): int
      requires i < |legalMoves| && CanRead(i)
    {
      tokensAfter(legalMoves[i])[playerInTurn - 1]
    }

    /** The index of the first legal move after which the mover's count cannot
        be read, or `|legalMoves|` when there is none. */
    function FirstUnreadable(n: nat): (k: nat)
      requires n <= |legalMoves|
      ensures k <= n
      ensures Readable(k)
      ensures k < n ==> !CanRead(k)
      decreases n
    {
      if n == 0 then 0
      else
        var k := FirstUnreadable(n - 1);
        if k < n - 1 then k
        else if CanRead(n - 1) then n
        else n - 1
    }

    /** The largest of 0 and the mover's counts after the first `n` legal moves. */
    function MaxCount(n: nat): (m: int)
      requires n <= |legalMoves| && Readable(n)
      ensures m >= 0
      ensures forall i :: 0 <= i < n ==> Count(i) <= m
      ensures m == 0 || exists i :: 0 <= i < n && Count(i) == m
      decreases n
    {
      if n == 0 then 0
      else
        var m := MaxCount(n - 1);
        if Count(n - 1) > m then Count(n - 1) else m
    }

    /** The index of the first of the first `n` legal moves whose count is `m`,
        or `n` when there is none. */
    function FirstAttaining(n: nat, m: int): (k: nat)
      requires n <= |legalMoves| && Readable(n)
      ensures k <= n
      ensures forall j :: 0 <= j < k ==> Count(j) != m
      ensures k < n ==> Count(k) == m
      decreases n
    {
      if n == 0 then 0
      else
        var k := FirstAttaining(n - 1, m);
        if k < n - 1 then k
        else if Count(n - 1) == m then n - 1
        else n
    }

    /** The greedy pick among the first `n` legal moves: the first move that
        attains the maximum, or `None` when no count exceeds 0. */
    function BestOf(n: nat): (b: Option<Position>)
      requires n <= |legalMoves| && Readable(n)
      ensures b.None? <==> forall i :: 0 <= i < n ==> Count(i) <= 0
      ensures b.Some? ==> b.value in legalMoves[..n]
    {
      var m := MaxCount(n);
      if m == 0 then None
      else
        var k := FirstAttaining(n, m);
        assert k < n;
        Some(legalMoves[k])
    }

    /** The `k`-th legal move is a greedy pick: positive count, no legal move
        does better, and every earlier move does strictly worse. */
    predicate IsGreedyPick(k: nat)
    {
      && k < |legalMoves|
      && Readable(|legalMoves|)
      && Count(k) > 0
      && (forall j :: 0 <= j < |legalMoves| ==> Count(j) <= Count(k))
      && (forall j :: 0 <= j < k ==> Count(j) < Count(k))
    }
  }

  /** The outcome `decideMove` produces for `s`: the exception raised at the
      first unreadable move, if any; otherwise the greedy pick over all moves. */
  function Choice(s: Turn): Result<Option<Position>, Fault>
  {
    var k := s.FirstUnreadable(|s.legalMoves|);
    if k < |s.legalMoves| then
      Failure(IndexOutOfBounds(s.playerInTurn - 1, |s.tokensAfter(s.legalMoves[k])|))
    else
      Success(s.BestOf(|s.legalMoves|))
  }

  /** How one more move changes the running maximum and the running pick. */
  lemma BestOfStep(s: Turn, i: nat)
    requires i < |s.legalMoves| && s.Readable(i + 1)
    ensures s.Count(i) > s.MaxCount(i) ==>
              s.MaxCount(i + 1) == s.Count(i) && s.BestOf(i + 1) == Some(s.legalMoves[i])
    ensures s.Count(i) <= s.MaxCount(i) ==>
              s.MaxCount(i + 1) == s.MaxCount(i) && s.BestOf(i + 1) == s.BestOf(i)
  {

  }

  /** `decideMove`: walk the legal moves in order, play each one on a fresh
      copy of the state, and keep the move with the strictly largest count of
      the mover's tokens, starting from `maxTokens = 0` and `bestMove = null`. */
  method DecideMove(s: Turn) returns (r: Result<Option<Position>, Fault>)
    ensures r == Choice(s)
    ensures |s.legalMoves| == 0 ==> r == Success(None)
  {
    var tileColor := s.playerInTurn;
    var legalMoves := s.legalMoves;

    var maxTokens := 0;
    var bestMove: Option<Position> := None;

    for i := 0 to |legalMoves|
      invariant s.Readable(i)
      invariant maxTokens == s.MaxCount(i)
      invariant bestMove == s.BestOf(i)
    {
      var tokens := s.tokensAfter(legalMoves[i]);
      if !(0 <= tileColor - 1 < |tokens|) {
        assert s.FirstUnreadable(|legalMoves|) == i by {
          FirstUnreadableAt(s, i);
        }
        return Failure(IndexOutOfBounds(tileColor - 1, |tokens|));
      }
      BestOfStep(s, i);
      if tokens[tileColor - 1] > maxTokens {
        maxTokens := tokens[tileColor - 1];
        bestMove := Some(legalMoves[i]);
      }
    }
    assert s.FirstUnreadable(|legalMoves|) == |legalMoves| by {
      FirstUnreadableNone(s, |legalMoves|);
    }
    r := Success(bestMove);
  }

  /** The first unreadable move is found wherever it lies. */
  lemma FirstUnreadableAt(s: Turn, i: nat)
    requires i < |s.legalMoves| && s.Readable(i) && !s.CanRead(i)
    ensures forall n :: i < n <= |s.legalMoves| ==> s.FirstUnreadable(n) == i
  {

  }

  /** When every count is readable, no move is reported unreadable. */
  lemma FirstUnreadableNone(s: Turn, n: nat)
    requires n <= |s.legalMoves| && s.Readable(n)
    ensures s.FirstUnreadable(n) == n
  {

  }
}
