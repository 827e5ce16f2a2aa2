# Donathello: a verified model of a greedy Othello move selector

This project models `Donathello.decideMove`, the move-choosing engine of the
greedy Othello player in `OthelloProject/Donathello.java`, and proves what it
returns. Given a game state, the engine walks the legal moves in the order the
rules engine enumerates them. For each move it builds a fresh `GameState` from
the board and the player in turn, plays the move, and reads that player's
token count, `tokens[tileColor - 1]`. It keeps the move with the strictly
largest count, starting from `maxTokens = 0` and `bestMove = null`.

How the model represents it:

- `Donathello.Turn` stands for what the engine sees of a game state: the player
  in turn, the legal moves as a sequence, and `tokensAfter`, the array
  `countTokens()` returns once a move has been played on a fresh copy.
  The rules engine (`GameState`, `legalMoves`, `insertToken`, `countTokens`) is
  not part of this model. It enters only through these values.
- Java `null` is `Option.None`. The `ArrayIndexOutOfBoundsException` that
  `tokens[tileColor - 1]` raises for a player id that does not index the array
  is `Result.Failure(IndexOutOfBounds(..))`. It is raised at the first such move,
  and never when the move list is empty, because the loop body then never runs.
- `Donathello.DecideMove` is a method whose `for` loop follows lines 14-23. It is
  proved equal to `Choice`, a declarative reference definition: the first index
  attaining the maximum count, if that maximum is above 0.
  `DonathelloProperties` proves what `Choice` means for the caller.

Files: `wrappers.dfy` (Option, Result), `donathello.dfy` (data, specification
functions, the method), `donathello_properties.dfy` (lemmas).

## Model

| member | source | states |
|---|---|---|
| `Donathello.DecideMove` | OthelloProject/Donathello.java:7-26 | The loop's outcome equals the reference definition `Choice`: the first legal move attaining the largest positive count for the mover, null when none exceeds 0 (so null on an empty list), or the index exception at the first unreadable move. Loop invariants: `maxTokens` is the maximum of 0 and the counts seen so far, and `bestMove` is the first of them attaining it |
| `Donathello.Turn.MaxCount` | OthelloProject/Donathello.java:11-20 | The running `maxTokens` over the first n moves is at least 0, at least every count seen, and is either 0 or the count of one of those moves |
| `Donathello.Turn.FirstAttaining` | OthelloProject/Donathello.java:19-21 | The index kept for a value is the first index whose count equals it, or n when none does |
| `Donathello.Turn.BestOf` | OthelloProject/Donathello.java:11-23 | The running `bestMove` over the first n moves is null exactly when none of their counts exceeds 0, and otherwise is one of those moves |
| `Donathello.Turn.FirstUnreadable` | OthelloProject/Donathello.java:8-19 | The first move whose count array the player id `tileColor - 1` does not index: every earlier one can be read |
| `Donathello.BestOfStep` | OthelloProject/Donathello.java:19-22 | One iteration: a count strictly above `maxTokens` replaces both `maxTokens` and `bestMove` with that move; any other count leaves both unchanged |
| `DonathelloProperties.ChoicePicksGreedy` | OthelloProject/Donathello.java:14-22 | A non-null answer is a legal move with a positive count, no legal move has a larger count, and every earlier move has a strictly smaller one (first maximum wins) |
| `DonathelloProperties.GreedyPickIsChosen` | OthelloProject/Donathello.java:19-21 | Conversely, a legal move with a positive, maximal count that every earlier move falls strictly short of is the answer |
| `DonathelloProperties.ChoiceNullIff` | OthelloProject/Donathello.java:11-25 | The answer is null exactly when every count can be read and none exceeds 0, the empty move list included |
| `DonathelloProperties.ChoiceFailsIff` | OthelloProject/Donathello.java:8-19 | An exception is raised exactly when some move's count array is not indexed by the player id, and it reports the first such move's array |
| `DonathelloProperties.TwoPlayersNeverFail` | OthelloProject/Donathello.java:8-19 | With player id 1 or 2 and two counts per array, no exception is raised |
| `DonathelloProperties.ChoiceDependsOnlyOnListedCounts` | OthelloProject/Donathello.java:14-25 | Two turns with the same player, the same legal moves and the same counts after those moves get the same answer: nothing else, no randomness, enters it |
| `DonathelloProperties.TieGoesToFirst` | OthelloProject/Donathello.java:19-21 | For any two legal moves whose counts both equal the largest count and are above 0, the answer is the earlier of the two or a move enumerated before it, never only the later one: the comparison is strict `>` |

## Left out

- The rules engine: `GameState`, `Position`, the `IOthelloAI` interface, move legality, `insertToken`'s flipping rules and `countTokens` are not part of this model. They enter only as the `Turn` values: the legal-move sequence and the count array after each move.
- `Donathello.Turn.tokensAfter` is a function of the move alone. So the model assumes every trial move is played on the same board. The Java code gets that only if `new GameState(s.getBoard(), ...)` copies the board, and that constructor is not part of this model. For the same reason nothing is claimed about whether `s` is left unchanged.
- Counts are unbounded integers. Java `int` overflow cannot happen for token counts on a board, so it is not modelled.
- `OthelloProject/DumAI.java` and `OthelloProject/RandomAI.java` are not modelled. Their whole choice is one call to `java.util.Random.nextInt`. Their only deterministic part is the `Position(-1, -1)` sentinel for an empty list, which differs from Donathello's `null`.
- A `null` element in the legal-move list, and a `null` array from `countTokens`, are assumed not to occur. Either one would raise a `NullPointerException`, which the model does not represent.
- `tileColor - 1` is computed without 32-bit wrap-around. For a player id of `Integer.MIN_VALUE`, Java indexes 2147483647, but `IndexOutOfBounds` reports -2147483649. Both are failures, so only the index the exception reports differs.
