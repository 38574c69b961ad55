# Golem Wordle engine, modelled in Dafny

This project models the engine of Golem Wordle, a word-guessing game. The
game holds a secret word. The player guesses words of the same length. Each
guess is scored character by character: Correct, Present elsewhere in the
word, or Absent. A game is won when the guess equals the word. It is lost
when the last allowed attempt is used. An `n`-letter word allows `n - 1`
scored attempts.

The model covers five source files and one host rule:

- `lib/src/core.rs`:
  - the position index of the word (`char_map_from`);
  - the word-list tokeniser (`words_from`), including UTF-8 decoding;
  - the word picker (`pick_word`).
- `lib/src/char_result.rs`: the verdict of one character and the rendering
  of a verdict sequence.
- `lib/src/game_state.rs`: the `GameState` object (word, index, attempts,
  time of last update) and its description.
- `lib/src/session_state.rs`: the outcome of a guess and the evaluator
  `determined_by`.
- `lib/src/app_state.rs`: the holder of the current game.
- The `continue_game` rule of `wasm/src/lib.rs`: a won or lost game is
  dropped from the holder.

Files and modules:

| file | module | models |
|---|---|---|
| `results.dfy` | `Results` | `AppError` kinds, `Option`, `AppResult` |
| `text.dfy` | `Text` | decimal rendering of counts, `join`, ASCII lower-casing |
| `utf8.dfy` | `Utf8` | `from_utf8` as a UTF-8 decoder (table 3-7 of the Unicode Standard, RFC 3629 section 4) and its encoder |
| `core.dfy` | `Core` | `core.rs` |
| `char_result.dfy` | `CharResults` | `char_result.rs` |
| `game_state.dfy` | `Game` | `game_state.rs`: class `GameState` and its value view `GameView` |
| `session_state.dfy` | `Session` | `session_state.rs`: the pure specification `Determine` and the method `DeterminedBy` proved against it |
| `app_state.dfy` | `App` | `app_state.rs` and the host rule of `wasm/src/lib.rs` |

How the model is built:

- Objects the source changes in place are Dafny classes: `GameState` and
  `AppState`.
- `char_map_from` and `describe` build their results in loops. They are
  methods, proved against the functions `PositionIndex` and `Description`.
- `determined_by` changes the game through `add_attempt`. It is a method
  whose outcome and new game state equal those of the function `Determine`
  applied to the old state. Every lemma about the evaluator is stated about
  `Determine`.
- Time is an integer number of seconds, passed as `now`. The five-minute
  idle limit is 300.
- The text form of a timestamp is a function parameter, `showTime`.

The game is meant to measure words in characters and to play only
non-empty words. The code does otherwise in the places below, and the model
follows the code:

- Lengths are `str::len()`, a byte count, both for the word and for the
  guess. The model counts characters, which agrees with the byte count only
  for ASCII words and guesses.
- `GameState::of` accepts any word, including the empty one.
- `words_from` splits lines on single spaces only. Tabs and other
  whitespace stay inside words.

## Model

| member | source | states |
|---|---|---|
| Core.CharMapFrom | lib/src/core.rs:52-71 | the loop builds exactly the position index: each character maps to the set of positions where it occurs |
| Core.PositionIndexSpec | lib/src/core.rs:58-68 | every position is recorded under its own character; the keys are exactly the characters of the word; every recorded position holds that character |
| Core.PositionIndexCovers | lib/src/core.rs:58-68 | the position sets together cover exactly the positions 0..len-1 |
| Core.PositionIndexExamples | lib/src/core.rs:143-171 | "Hello" gives H→{0}, e→{1}, l→{2,3}, o→{4}; "" gives the empty map; "   " gives ' '→{0,1,2} |
| Core.WordsFrom | lib/src/core.rs:73-93 | fails with InvalidCharset exactly when the bytes are not UTF-8; fails only with InvalidCharset or NoWords; a success is a non-empty list |
| Core.WordsOfShape | lib/src/core.rs:80-87 | every word is non-empty, contains no space, no line feed and no capital letter, and is made of characters of the lower-cased text |
| Core.WordsOfConcat | lib/src/core.rs:80-87 | the words, concatenated in order, are the lower-cased text with spaces and line feeds removed, so input order is kept |
| Core.WordsOfEmpty | lib/src/core.rs:82-92 | the word list is empty exactly when the text consists of spaces and line feeds only |
| Core.WordsFromOutcome | lib/src/core.rs:76-92 | for decodable input, NoWords is returned exactly for all-blank text; otherwise the result is the word list |
| Core.SplitOnJoin | lib/src/core.rs:84 | splitting separator-free pieces joined by the separator gives the pieces back |
| Core.WordsOfJoin | lib/src/core.rs:82-87 | any list of non-empty, blank-free, lower-case words, written out with single spaces, tokenises back to that list |
| Core.WordsOfLower | lib/src/core.rs:80 | tokenising depends only on the lower-cased text |
| Core.WordsFromEncoded | lib/src/core.rs:76-92 | the UTF-8 encoding of a text gives its words, or NoWords when it has none |
| Core.WordsOfOneWord | lib/src/core.rs:178-182 | "Hello" gives ["hello"] |
| Core.WordsOfThreeWords | lib/src/core.rs:183-187 | "golem is invincible" gives ["golem", "is", "invincible"] |
| Core.SplitOnAppend | lib/src/core.rs:83-84 | splitting a concatenation gives the pieces of the left part, the last one running on into the first piece of the right part, then the rest of the right part's pieces |
| Core.SplitOnSep | lib/src/core.rs:83-84 | a separator between two texts separates their pieces: the pieces of the whole are those of the left followed by those of the right |
| Core.WordsOfSplit | lib/src/core.rs:80-87 | a space or a line feed ends a word: the words of a text with a blank in it are the words before it followed by the words after it |
| Core.WordsOfBlanksThen | lib/src/core.rs:82-85 | leading spaces and line feeds add no word |
| Core.WordsOfBlanksBetween | lib/src/core.rs:82-85 | any run of spaces and line feeds between a left text without carriage returns and any right text separates their words |
| Core.ThreeWordsAmidBlanks | lib/src/core.rs:80-87 | three plain words with any runs of spaces and line feeds around and between them give exactly those three words, in order |
| Core.WordsOfSpacedThreeWords | lib/src/core.rs:188-192 | " golem     is \n invincible " gives ["golem", "is", "invincible"] |
| Core.WordsOfLinedThreeWords | lib/src/core.rs:193-197 | "    golem   \n    is \n invincible " gives ["golem", "is", "invincible"] |
| Core.WordsOfSpaces | lib/src/core.rs:225-228 | the eight-space test input gives no words |
| Core.WordsOfEmptyText | lib/src/core.rs:233-236 | the empty text gives no words |
| Core.WordsOfBlankLines | lib/src/core.rs:229-232 | the blank-lines test input gives no words |
| Core.WordsFromInvalidCharset | lib/src/core.rs:249-264 | the bytes of "cl\x82ippy" fail with InvalidCharset |
| Core.PickWord | lib/src/core.rs:111-128 | with the random index passed in: Ok(words[index]) exactly when the index is in range, otherwise NoWords |
| Core.PickFromLoaded | lib/src/core.rs:111-128 | an in-range pick from a loaded list is a non-empty word without spaces or line feeds |
| Utf8.DecodeEncode | lib/src/core.rs:76-79 | decoding the UTF-8 encoding of any text gives that text back |
| Utf8.DecodeAscii | lib/src/core.rs:76-79 | ASCII bytes always decode, one character per byte, with the same code |
| Text.LowerSpec | lib/src/core.rs:80 | lower-casing keeps the length, leaves no ASCII capital, and changes only capitals, each to its small letter |
| Text.LowerIdempotent | lib/src/session_state.rs:45-46 | lower-casing twice is lower-casing once |
| Text.NatText | lib/src/game_state.rs:82-85 | the decimal text of a count is non-empty, all digits, and without a leading zero |
| Text.NatTextRoundTrip | lib/src/game_state.rs:82-85 | the decimal text of n reads back as n |
| Text.NatTextInjective | lib/src/game_state.rs:109-112 | different counts have different decimal texts |
| CharResults.New | lib/src/char_result.rs:11-16 | stores exactly the given character and verdict |
| CharResults.CorrectAt | lib/src/char_result.rs:18-25 | the character, with verdict Correct |
| CharResults.AbsentAt | lib/src/char_result.rs:27-34 | the character, with verdict Absent |
| CharResults.PresentAt | lib/src/char_result.rs:36-43 | the character, with verdict Present |
| CharResults.ParseDisplay | lib/src/char_result.rs:45-68 | the rendering of a verdict sequence reads back as exactly that sequence: characters, verdicts and order are kept |
| CharResults.DisplayInjective | lib/src/char_result.rs:45-55 | two verdict sequences render alike only when they are equal |
| CharResults.DisplayShort | lib/src/char_result.rs:45-55 | the empty sequence renders as "[]"; one element renders between brackets with no separator |
| CharResults.JoinRenderSnoc | lib/src/char_result.rs:48-54 | appending an element appends ", " and its rendering |
| CharResults.DisplayExample | lib/src/char_result.rs:78-86 | Correct 'a', Absent 'b', Present 'c' render as "['a' => Correct, 'b' => Absent, 'c' => Present]" |
| Game.DisplayAll | lib/src/game_state.rs:89-94 | one display line per attempt, in order |
| Game.DescriptionFrame | lib/src/game_state.rs:82-119 | 4 lines without attempts, otherwise attempts+5; the welcome line with the word length first, "You had n attempts left." second to last, the instruction last |
| Game.DescriptionFresh | lib/src/game_state.rs:103-105 | without attempts, the second line is the start line with the last-update time |
| Game.DescriptionHistory | lib/src/game_state.rs:89-102 | with attempts, the count line, then each attempt's display in order, then the last-played line |
| Game.DescriptionShowsAttempts | lib/src/game_state.rs:89-102 | the attempt lines of a description read back as the attempts, in order |
| Game.GameState.Of | lib/src/game_state.rs:21-36 | a new game on w at time now: word w, index of w, no attempts, last update now, all len(w) attempts left |
| Game.GameState.AddAttempt | lib/src/game_state.rs:38-46 | appends exactly the attempt at the end and stamps now; within budget, one attempt fewer is left |
| Game.GameState.Word | lib/src/game_state.rs:48-50 | the target word, whose length and index are the game's |
| Game.GameState.WordLength | lib/src/game_state.rs:52-54 | the length of the target word |
| Game.GameState.LastUpdateOlderThan | lib/src/game_state.rs:56-63 | true exactly when strictly more than d seconds separate the last update from now |
| Game.GameState.FindBy | lib/src/game_state.rs:65-70 | None exactly when the character is not in the word; otherwise exactly its non-empty set of positions |
| Game.GameState.AttemptsLeft | lib/src/game_state.rs:72-77 | the attempts left plus the attempts made equal the word length; the attempts made must not exceed the word length |
| Game.GameState.Describe | lib/src/game_state.rs:79-120 | the lines built step by step are the game's description |
| Game.AbbcGame | lib/src/game_state.rs:158-197 | on "abbc": 'a' at {0}, 'b' at {1,2}, 'c' at {3}, 'd' absent, 4 attempts left |
| Session.WonState | lib/src/session_state.rs:19-21 | Won with "Well done, you've guessed the word!" |
| Session.LostState | lib/src/session_state.rs:23-28 | Lost, with a message quoting the word |
| Session.Score | lib/src/session_state.rs:60-79 | one verdict per guess character, in guess order, each read from the index at its position |
| Session.ScoreAgainstWord | lib/src/session_state.rs:60-79 | at each position: Correct exactly when the word has that character there, Present exactly when it has it only elsewhere, Absent exactly when it lacks it |
| Session.Determine | lib/src/session_state.rs:30-110 | an error exactly on a length mismatch; Won exactly when the lower-cased guess is the word; Lost exactly when it is not and at most one attempt is left; the word and the budget are kept, and an attempt is recorded only while fewer attempts than letters remain |
| Session.Running | lib/src/session_state.rs:59-103 | a running guess gives InProgress and records exactly one more attempt on the same word |
| Session.DeterminedBy | lib/src/session_state.rs:30-110 | outcome and new game state are those of Determine on the old state |
| Session.LengthMismatch | lib/src/session_state.rs:37-43 | an error happens exactly when the guess length differs from the word length; it is InvalidGuessLength(word length), and the game is unchanged |
| Session.RightGuessWins | lib/src/session_state.rs:50-53 | a guess of the right length that lower-cases to the word gives the Won message and records nothing |
| Session.LastWrongGuessLoses | lib/src/session_state.rs:55-59 | a wrong guess with at most one attempt left gives Lost quoting the word and records nothing |
| Session.RunningGuess | lib/src/session_state.rs:59-103 | a running guess appends exactly the scored lower-cased guess and stamps now; the reply ends with the guess, its display and the attempts now left, and begins with the old description exactly when the game was idle more than 5 minutes |
| Session.WrongGuessesRunOut | lib/src/session_state.rs:164-234 | repeating a wrong guess keeps the game running until one attempt is left; the next guess loses, so attempts never reach the word length |
| Session.GolemScore | lib/src/session_state.rs:186 | "abcde" against "golem" is Absent four times, then Present for 'e' |
| Session.WrongGuessRuns | lib/src/session_state.rs:49-60 | a wrong guess of the right length with more than one attempt left takes the running branch on the lower-cased guess |
| Session.PromptRunning | lib/src/session_state.rs:60-101 | a guess made at most five minutes after the last update is answered by its three summary lines alone, and the scored attempt is appended with the new stamp |
| Session.WrongGuessSummaries | lib/src/session_state.rs:164-191 | played without a pause, each running reply to a repeated wrong guess is exactly its three summary lines, with the attempts left counting down to one |
| Session.FifthWrongAnswerLoses | lib/src/session_state.rs:193-200 | on a fresh five-letter game, the fifth wrong answer in a row loses, quoting the word |
| Session.GolemLost | lib/src/session_state.rs:164-200 | a fresh "golem" game answers "abcde" four times with exactly the summary lines "Your guess was 'abcde'.", the display of Absent ×4 then Present for 'e', and 4, 3, 2, then 1 attempts left; the fifth answer is Lost quoting "golem" |
| Session.GolemFirstGuesses | lib/src/session_state.rs:124-156 | on a fresh "golem" game, "" is refused with length 5 and "GOLEM" wins |
| App.AppState.Empty | lib/src/app_state.rs:10-13 | holds no game |
| App.AppState.GameStateRef | lib/src/app_state.rs:15-19 | exactly the held game, if any |
| App.AppState.GameStateAsMut | lib/src/app_state.rs:21-26 | exactly the held game, if any |
| App.AppState.SetEmpty | lib/src/app_state.rs:28-30 | holds no game afterwards, whatever it held |
| App.AppState.NewGameWith | lib/src/app_state.rs:32-52 | a provider error is returned with the held game unchanged; a word replaces the held game with a fresh game on that word, with no attempts |
| App.AppState.ContinueGame | wasm/src/lib.rs:29-49 | without a game, the no-game message; otherwise the evaluator's outcome: errors are passed on, a running game replies with its summaries and is kept, a won or lost game replies with its message and is dropped |

## Left out

- The process-wide statics are not modelled: `APP_STATE`, `with_app_state`, `WORDS` and `WORD_POOL_SIZE` (lib/src/core.rs:19-40). `AppState` is an explicit object, and the word list is an argument of `PickWord`.
- `random_number` is randomness. `PickWord` takes the chosen index as a parameter.
- `load_words` reads a bundled asset. `WordsFrom` takes the bytes as a parameter.
- `lib/src/clock.rs` is not part of this model. Time is an integer of seconds passed to each operation that reads the clock. `GameState` keeps no clock reference.
- `determined_by` reads the clock twice: for the idle test and in `add_attempt`. The model uses one `now` for both.
- chrono's timestamp text ("2312-12-18 19:23:00 UTC") is a function parameter `showTime`. The test descriptions are therefore stated by their layout, not as literal lines.
- `lib/src/app_error.rs` is reduced to its `AppError` variants: no message texts, no error reports, no `err_as_string`.
- `app/src/main.rs`, the stdin loop, is not modelled.
- From `wasm/src/lib.rs`, only the rule of `continue_game` is modelled. `new_game` and `game_status` only compose `new_game_with` or `game_state` with `describe`.
- `ContinueGame`: takes the guess already trimmed. The host's `trim()` of surrounding whitespace is not modelled.
- `Text.LowerSpec`: `to_lowercase` is modelled for ASCII letters only. Other characters are kept, so non-ASCII case mappings are not captured, including those that change the length.
- Lengths are byte counts in the source (`str::len()`) and character counts in the model. The two agree only for ASCII words and guesses.
- `Core.WordsOfConcat`: stated only for text without carriage returns, because `lines()` removes a carriage return before a line feed. `Core.Lines` does model that removal.
- `Core.WordsOfEmpty`: stated only for text without carriage returns, for the same reason.
- `Core.WordsFromOutcome`: stated only for text without carriage returns, for the same reason.
- `Core.WordsOfSplit`: stated for a left side without carriage returns, because `lines()` would drop a carriage return that the split puts right before a line feed.
- `Core.WordsOfBlanksBetween`: stated for a left text without carriage returns, for the same reason as `Core.WordsOfSplit`: with "x\r" before a line feed, `lines()` strips the carriage return, so the words of the whole are not those of "x\r" alone.
- `Session.GolemLost`: states the display line as `Display` of the five verdicts. `CharResults.DisplayExample` shows the rendering on a three-element list, but the five-element text of the test is not written out.
- `Game.GameState.AttemptsLeft`: requires at most as many attempts as letters. The source's unsigned subtraction would underflow otherwise: a panic with overflow checks, a wrap-around without, and `Describe` and `DeterminedBy` inherit this requirement.
- Hash map and hash set iteration order plays no part. The index is a Dafny `map` of `set`s.
