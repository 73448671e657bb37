# Bachelor Quiz — a verified model of the game logic

Bachelor Quiz is a party quiz. A host creates a game behind a master PIN, and
the game is seeded with a fixed list of questions. Players join with the
game's short code (the generated code has at most four characters; the code
input accepts up to six) and type free-text answers. The host grades each answer
correct or incorrect, and scores are shown between questions and at the end.

This project models the logic behind that flow in Dafny and proves what it
promises. It covers:

- **The game-data layer** (`src/lib/queries.ts`). The four tables (games,
  questions, players, answers) are `seq` fields of one class, `Queries.Store`.
  Every exported query is a method on that class, and inserts draw fresh ids
  from a counter field. The store invariant `Valid()` says five things:
  - ids are unique in every table;
  - ids are below the counter;
  - every question and every player is filed under a game id below the
    counter, so a game created later never inherits rows;
  - every answer names a player id and a question id below the counter, so
    a player or question created later never inherits an answer;
  - no two answers share a (player, question) pair.

  Every query method that writes keeps `Valid()`. The one exception is
  `TakeBackPoints`, the points-reverting first half of `redoQuestion`. It
  promises only how the scores change, and `RedoQuestion`, which calls it,
  re-establishes `Valid()` from that.
  - `submitAnswer` is modelled as an upsert.
  - `redoQuestion` is modelled as a loop that takes points back, followed by
    a delete and a status update.
  - `resetGame` deletes in dependency order, then resets the game row.
- **The server action** `createHostGame` (`src/app/actions.ts`). It is a PIN
  gate followed by a seeding loop, `Actions.AddSeeds`, that calls
  `AddQuestion` once per seed.
- **The landing page** (`src/app/page.tsx`). It is a class holding the
  form's state, with the two submit handlers as methods over the store.
- **The view rules of the components**:
  - the grading panel;
  - the answer box's edit/submit state machine;
  - the leaderboard;
  - the final results;
  - the waiting room's start button.

Shared pieces live in their own modules:

- `Collections`: row filters, `.single()`, updates by filter, unique keys and
  a stable sort.
- `Text`: JavaScript's `trim` and `toUpperCase`.
- `Types`: the records.
- `Ranking`: the score-descending sorted copy.

PostgREST filters map onto the model as follows:

- An `.eq(col, v)` filter is `Where(rows, KeyIs(Col, v))`.
- `.single()` is `Single`, which yields a row only when exactly one matches.
- `.order(col)` is a stable sort on that column, which settles ties by table
  order (the database itself promises no order among ties).

The configured master PIN, the generated join code and the seed question list
are parameters.

## Model

| member | source | states |
|---|---|---|
| Collections.Where | src/lib/queries.ts:49 | An `.eq`/`.in` filter keeps exactly the rows that satisfy the predicate, and never more rows than it was given. |
| Collections.LookupDistinct | src/lib/queries.ts:26-34 | On a unique key, `.single()` finds the row holding the value when there is one, and nothing otherwise. |
| Collections.SortBy | src/lib/queries.ts:50 | `.order(col)` returns a permutation of its input in non-decreasing order of the column. |
| Collections.SortBySorted | src/lib/queries.ts:50 | Ordering rows that are already in order changes nothing. |
| Text.Trim | src/components/AnswerInput.tsx:18 | `trim` cuts white space from both ends only: the result is a middle slice of the input, it neither starts nor ends with white space, and it is empty exactly when the input is blank. |
| Text.TrimIdempotent | src/components/AnswerInput.tsx:19 | A trimmed string is unchanged by a second trim. |
| Text.Upper | src/lib/queries.ts:9 | `toUpperCase` keeps the length, maps each character, and leaves no lower-case letter. |
| Text.UpperIdempotent | src/lib/queries.ts:20 | Upper-casing an upper-cased code changes nothing. |
| Ranking.SortedByScore | src/components/Leaderboard.tsx:13 | The sorted copy holds the same players, each as often as in the input, with scores non-increasing. |
| Ranking.SortedByScoreMembers | src/components/Leaderboard.tsx:13 | The sorted copy has the input's length and exactly the input's players. |
| Ranking.TopAndBottom | src/components/FinalResults.tsx:12-14 | The first sorted player has the highest score of all players, and the last has the lowest. |
| Queries.IdsOf | src/lib/queries.ts:207 | `players.map(p => p.id)` holds the id of every given player and no other id. |
| Queries.PlayerIdsOf | src/lib/queries.ts:201-207 | The ids `resetGame` collects are exactly the ids of the game's players. |
| Queries.WithStatus | src/lib/queries.ts:37-39 | `status` is always written, and `current_question` only when one is supplied. Id and code are kept. |
| Queries.Decremented | src/lib/queries.ts:181 | `Math.max(0, score - 1)` never goes below zero, drops by exactly one from a positive score, is 0 from a score of 0 or less, and keeps the player's other fields. |
| Queries.LookupIgnoresCase | src/lib/queries.ts:16-24 | A code typed in another letter case, or already upper-cased, finds the same game. |
| Queries.CreatedGameIsFound | src/lib/queries.ts:6-24 | A game created with a code no other game holds is found by that code typed in any case. |
| Queries.SharedCodeNotFound | src/lib/queries.ts:16-23 | When two games hold the same code, `.single()` sees two rows and the lookup returns null. |
| Queries.RevertedKeepsIds | src/lib/queries.ts:179-182 | Taking points back changes no player id, so player ids stay unique and bounded. |
| Queries.RevertedKeepsGames | src/lib/queries.ts:179-182 | Taking points back moves no player to another game, so every player stays filed under a game id below the counter. |
| Queries.TakeBackPoint | src/lib/queries.ts:172-184 | One loop turn: the author's row, when found, gets `max(0, score - 1)`. Nothing else changes, and the author is now counted as handled. |
| Queries.CorrectAuthorsDistinct | src/lib/queries.ts:164-168 | The correct answers to a question have pairwise different authors, because the store keeps one answer per (player, question). |
| Queries.CorrectAuthorsAreScorers | src/lib/queries.ts:164-172 | The authors the loop visits are exactly the players with a correct answer to the question. |
| Queries.RewriteAnswer | src/lib/queries.ts:103-112 | Rewriting the text of the existing answer keeps the store's keys unique, changes only that row, and the pair's lookup then finds it. |
| Queries.AppendAnswer | src/lib/queries.ts:115-121 | Inserting an answer for a pair that has none keeps the keys unique, and the pair's lookup then finds the new row. |
| Queries.NoPlayersNoIds | src/lib/queries.ts:206-209 | A game without players has no ids to delete answers for. |
| Queries.DropAnswers | src/lib/queries.ts:188 | Deleting answers keeps the answer keys unique and bounded. |
| Queries.Store.CreateGame | src/lib/queries.ts:6-14 | Inserts exactly one lobby game on question 0 with a fresh id and the upper-cased code. No other table changes. |
| Queries.Store.GetGameByCode | src/lib/queries.ts:16-24 | Returns a game exactly when one game holds the upper-cased code. That game holds the code, and the result is null otherwise. |
| Queries.Store.GetGame | src/lib/queries.ts:26-34 | Returns the game with this id when there is one, and null when there is none. |
| Queries.Store.UpdateGameStatus | src/lib/queries.ts:36-41 | Only the game with this id changes, as `WithStatus` says. All other rows and tables stay. |
| Queries.Store.GetQuestions | src/lib/queries.ts:45-53 | Returns a permutation of the game's questions, and no other question, in ascending `order_num`. |
| Queries.Store.AddQuestion | src/lib/queries.ts:55-63 | Appends one question with a fresh id and the given fields. No other table changes. The game id must be one already handed out. |
| Queries.Store.DeleteQuestion | src/lib/queries.ts:65-68 | Removes exactly the question with this id. Its answers and every other table stay. |
| Queries.Store.JoinGame | src/lib/queries.ts:72-80 | Appends one player with a fresh id, the given game and name, and score 0. The game id must be one already handed out. |
| Queries.Store.GetPlayers | src/lib/queries.ts:82-90 | Returns a permutation of the game's players, and no other player, highest score first. |
| Queries.Store.SubmitAnswer | src/lib/queries.ts:94-122 | An existing answer for the (player, question) pair takes the new text and keeps its id and grade. Otherwise one ungraded answer is appended. Afterwards the pair has exactly one answer, holding the new text. The player and question ids must be ones already handed out. |
| Queries.Store.GetPlayerAnswer | src/lib/queries.ts:124-133 | Returns the player's answer to the question when there is one, and null otherwise. |
| Queries.Store.GetAnswersForQuestion | src/lib/queries.ts:135-142 | Returns the question's answers exactly as the filter yields them: each once, and no other answer. The model yields them in table order. Each one is joined with its author's player row, which is present exactly when that row exists. |
| Queries.Store.GradeAnswer | src/lib/queries.ts:144-150 | Sets `is_correct` on the answer with this id. Every other row is unchanged. |
| Queries.Store.UpdatePlayerScore | src/lib/queries.ts:152-158 | Overwrites the score of the player with this id. Every other row is unchanged. |
| Queries.Store.TakeBackPoints | src/lib/queries.ts:163-185 | Every player with a correct answer to the question ends at `max(0, score - 1)`. Every other player is unchanged. |
| Queries.Store.RedoQuestion | src/lib/queries.ts:162-195 | Scorers lose their point, floored at zero. Every answer to the question is deleted and no other answer is touched. The game becomes `active` on `questionIndex`, and the store stays valid. |
| Queries.Store.ResetGame | src/lib/queries.ts:199-216 | The answers of the game's players are deleted, then its players, then its questions. The game row survives, set to `lobby` on question 0. Other games' rows are untouched. |
| Actions.SeedRows | src/app/actions.ts:14-16 | One row per seed: the i-th row belongs to the new game, carries the i-th seed's text and answer, has `order_num = i`, and takes the i-th fresh id. |
| Actions.SeededQuestionsInOrder | src/app/actions.ts:14-16 | Reading a freshly seeded game's questions back by `order_num` yields exactly the seeds, in seed order. |
| Actions.AddSeeds | src/app/actions.ts:14-16 | Appends exactly the seed rows for the given game, one fresh id per seed in seed order, and keeps the store invariant. Games, players and answers are untouched. |
| Actions.CreateHostGame | src/app/actions.ts:6-19 | A wrong or unconfigured PIN returns 'Invalid PIN.' and writes nothing. Otherwise it creates exactly one lobby game with the upper-cased code, and adds one question per seed: the i-th seed's text and answer, with `order_num = i`. It returns that game's id, and reading the new game's questions back by `order_num` gives exactly the seeds, in seed order. |
| Home.Capped | src/app/page.tsx:109 | `maxLength` keeps a prefix of the typed text, at most `n` code points long. |
| Home.HomePage.constructor | src/app/page.tsx:11-15 | All fields start empty and nothing is loading. |
| Home.HomePage.TypeName | src/app/page.tsx:97 | The name field takes the typed text. |
| Home.HomePage.TypeGameCode | src/app/page.tsx:106-109 | The code field holds the first six typed code points, upper-cased, with no lower-case letter. |
| Home.HomePage.TypeMasterPin | src/app/page.tsx:135-139 | The PIN field holds the first eight typed code points. |
| Home.HomePage.Back | src/app/page.tsx:121 | Back clears the error message. |
| Home.HomePage.JoinDisabled | src/app/page.tsx:114 | Join is disabled exactly while loading or while the name or the code is blank. |
| Home.HomePage.CreateDisabled | src/app/page.tsx:144 | Create is disabled exactly while loading or while the PIN is blank. |
| Home.HomePage.HandleJoin | src/app/page.tsx:17-43 | An unknown code shows "Game not found. Check the code and try again." and writes nothing. A game past its lobby shows "This game has already started." and writes nothing. A lobby game gets exactly one new player with the typed name and the next fresh id, and the page moves to that game. |
| Home.HomePage.HandleCreateGame | src/app/page.tsx:45-65 | A refused PIN shows the server's error, stops loading and does not navigate. An accepted PIN moves on to the new game's host screen, with the store as `createHostGame` leaves it: one new game, its seeded questions, players and answers untouched, and the id counter advanced past them. |
| GradingPanel.VerdictOf | src/components/GradingPanel.tsx:40-44 | A row is correct, incorrect or ungraded exactly when its grade is true, false or null. |
| GradingPanel.EveryGraded | src/components/GradingPanel.tsx:24 | `answers.every(a => a.is_correct !== null)`. |
| GradingPanel.AllGraded | src/components/GradingPanel.tsx:24 | `allGraded` holds exactly when no row is ungraded, so it holds for an empty list. |
| GradingPanel.View | src/components/GradingPanel.tsx:24-89 | Each row shows its answer's text and state. ✓ calls `onGrade(id, true)` and ✗ calls `onGrade(id, false)` for that answer. The expected answer shows when it is non-empty. The empty note shows exactly when there are no answers. The finish control shows exactly when no row is ungraded. |
| GradingPanel.ApplyGrade | src/components/GradingPanel.tsx:53-72 | The effect of an `onGrade(id, isCorrect)` call on the answer list, as the host page's `handleGrade` applies it to its local copy (lines 156-158 of the host game page): every row keeps its id and player. |
| GradingPanel.GradeSetsVerdict | src/components/GradingPanel.tsx:53-72 | After a press, the pressed answer shows the pressed state. Every other row keeps its state, and every row keeps its text. |
| GradingPanel.ApplyAll | src/components/GradingPanel.tsx:53-72 | A sequence of presses keeps the rows and their ids. |
| GradingPanel.ApplyAllGrades | src/components/GradingPanel.tsx:53-72 | A row that some press targets ends up graded, whatever the other presses are. |
| GradingPanel.StaysGraded | src/components/GradingPanel.tsx:53-72 | Later presses never take a grade away. |
| GradingPanel.GradingEveryRowOffersFinish | src/components/GradingPanel.tsx:24 | Once every row has been pressed at least once, in any order, with repeated presses and any grades, the finish control is offered. |
| AnswerForm.AnswerInput.constructor | src/components/AnswerInput.tsx:13-24 | The draft starts as the current answer, or empty when there is none, and editing starts as `!submitted`. So the component opens on the confirmation view exactly when an answer is already in. |
| AnswerForm.AnswerInput.Type | src/components/AnswerInput.tsx:48 | Typing replaces the draft and leaves editing unchanged. |
| AnswerForm.AnswerInput.HandleSubmit | src/components/AnswerInput.tsx:16-22 | A blank draft sends nothing and leaves editing unchanged. Otherwise the trimmed draft is sent once and editing ends. What is sent is non-empty and already trimmed, and a submitted answer then shows the confirmation view with Edit offered. |
| AnswerForm.AnswerInput.SubmitDisabled | src/components/AnswerInput.tsx:56 | Submit is disabled exactly while disabled or while the draft is blank. |
| AnswerForm.AnswerInput.ClickEdit | src/components/AnswerInput.tsx:30-33 | Edit resets the draft to the current answer and reopens the form, so the confirmation no longer shows. |
| Leaderboard.View | src/components/Leaderboard.tsx:12-48 | The title defaults to 'Leaderboard'. The rows are a permutation of the players, highest score first, ranked i + 1. Only row 0 is highlighted. Continue shows exactly when it is requested and has a handler. |
| Leaderboard.LeaderHasTopScore | src/components/Leaderboard.tsx:19-26 | The highlighted first row holds the highest score of all players. |
| FinalResults.FirstPlace | src/components/FinalResults.tsx:14 | Absent exactly when there are no players. Otherwise it is one of them, with the highest score. |
| FinalResults.LastPlace | src/components/FinalResults.tsx:13 | Absent exactly when there are no players. Otherwise it is one of them, with the lowest score. |
| FinalResults.RowStyle | src/components/FinalResults.tsx:34-40 | Danger exactly for last place's id. Gold exactly at index 0 when the row is not Danger. |
| FinalResults.RankedRows | src/components/FinalResults.tsx:31-48 | One row per sorted player, in order, ranked i + 1, styled by `RowStyle`. |
| FinalResults.View | src/components/FinalResults.tsx:11-72 | The winner is first place, present only when there are players. The rows are a permutation of the players, highest first. The last-place callout needs more than one player. Reset shows exactly for a host with a handler. |
| FinalResults.BottomRowIsDanger | src/components/FinalResults.tsx:35-36 | The bottom row always has the danger style. |
| FinalResults.OnlyBottomRowIsDanger | src/components/FinalResults.tsx:34-40 | With unique player ids, danger marks the bottom row and no other. With two players or more, the top row is gold. |
| FinalResults.SolePlayerIsDanger | src/components/FinalResults.tsx:35-52 | A lone player is the winner and the danger row, and gets no last-place callout. |
| WaitingRoom.StartOfferedOnceJoined | src/components/WaitingRoom.tsx:40 | Shown the game's players in any order, the host is offered Start exactly when some player belongs to the game, and a player never is. |
| WaitingRoom.JoinEnablesStart | src/components/WaitingRoom.tsx:40 | Right after a player joins, the host's lobby offers Start. |

## Left out

- The hosted database client, its realtime subscriptions and its network round trips. The tables are in-memory sequences.
- The `if (error) throw error` paths and the errors `redoQuestion` and `resetGame` ignore. Every query is modelled on its successful path. The exception is the lookups' null result, which the `.single()` rule yields.
- Concurrency: the read-then-write of each score in `redoQuestion` can race with other writers. The model runs one call at a time.
- Row ids are numbers drawn from one counter, not generated UUIDs.
- The database's foreign keys are not in the shown code: from questions and players to games, and from answers to players and questions (the `player:players(*)` embed relies on the latter). Queries.Store.AddQuestion and Queries.Store.JoinGame instead require a game id the counter has already handed out. Queries.Store.SubmitAnswer requires a player id and a question id the counter has already handed out. Every caller in the model passes such ids, and the play page passes ids it has already read from the store.
- Home.HomePage.HandleCreateGame: clears the error and raises `loading` right after the server call rather than right before it. The call never reads the form's state, so the resulting state is the same.
- Queries.Store.GetAnswersForQuestion: the model returns the answers in table order. The query has no `.order`, so the database promises no order, and the grading panel shows them in whatever order arrives.
- The `created_at`, `joined_at` and `submitted_at` timestamps are not modelled; no modelled operation reads them.
- Column defaults are not in the shown code. The model assumes status `lobby`, current question 0, score 0 and grade null for new rows.
- `host_pin` is neither stored nor checked. `createHostGame` passes the PIN to `createGame`, which takes only the code and never writes it.
- The join code's generation from `Math.random()` is a parameter.
- The configured master PIN is a parameter: `None` when no PIN is configured, which refuses every PIN.
- The seed question list is a parameter. src/lib/questions.ts is not part of this model.
- Home.Capped: counts Unicode code points, but the browser's `maxLength` counts UTF-16 code units. Text with characters outside the Basic Multilingual Plane, such as emoji, keeps more characters in the model than in the browser. Generated codes are ASCII, so no join outcome changes.
- Text.Upper: upper-cases the ASCII letters only. JavaScript's `toUpperCase` also maps other scripts, and can change a string's length.
- `sessionStorage` writes, router navigation (a `Route` value instead), `console.error`, and the `catch` branches of the page handlers.
- The page's mode switch between choose, join and host.
- The host page's start, close-answers, finish-grading (the +1 score) and next-question steps. Of the host page, only its grade handler is modelled: GradingPanel.ApplyGrade is the local copy it updates after each ✓ or ✗ press.
- The play and scores pages, QuestionCard.tsx and layout.tsx, which render only.
- CSS classes and JSX layout. Row styles are modelled as `Style` or `Verdict` values.
- Collections.SortBy: `.order(col)` is modelled by a stable sort, so `Queries.Store.GetQuestions` returns questions with equal `order_num` in table order. The database promises no order among ties; only the order by `order_num` itself is what the source relies on.
- Queries.Store.TakeBackPoints: requires only the two uniqueness parts of the store invariant, the ones the loop's reasoning uses, and writes only the players table.
- Ranking.SortedByScore: the contract does not say that players with equal scores keep their input order. JavaScript's sort is stable and the model's insertion sort is too, but no caller relies on it.
- Queries.Store.SubmitAnswer: at most one answer per (player, question) is an invariant the model keeps. No database constraint behind it is visible in the shown code.
