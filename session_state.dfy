/** lib/src/session_state.rs: the outcome of one guess, and the evaluator
    that scores a guess against a game and records it. */
module Session {
  import opened Results
  import opened Text
  import opened Core
  import opened CharResults
  import opened Game

  /** `SessionState`: a running game with the lines to show, or a finished
      one with its closing message. */
  datatype SessionState = InProgress(summaries: seq<string>) | Won(message: string) | Lost(message: string)

  /** `Duration::minutes(5)` in seconds: a game idle for longer is described
      again before the next guess is summarised. */
  const IdleLimit: int := 300

  const WonMessage: string := "Well done, you've guessed the word!"

  /** `SessionState::won`. */
  function WonState(): (s: SessionState)
    ensures s.Won? && s.message == WonMessage
  {
    Won(WonMessage)
  }

  /** `SessionState::lost`: the message quotes the word. */
  function LostState(word: string): (s: SessionState)
    ensures s.Lost?
    ensures s.message == "Sorry, better luck next time. The word was '" + word + "'."
  {
    Lost("Sorry, better luck next time. The word was '" + word + "'.")
  }

  /** The verdict on the guessed character `c` at position `i`, read from
      the word's position index. */
  function Verdict(m: CharMap, c: char, i: nat): GuessResult {
    if c in m && i in m[c] then Correct
    else if c in m then Present
    else Absent
  }

  /** The scored attempt: each character of the guess with its verdict. */
  function Score(m: CharMap, guess: string): (attempt: seq<CharResult>)
    ensures |attempt| == |guess|
    ensures forall i :: 0 <= i < |guess| ==> attempt[i] == CharResult(guess[i], Verdict(m, guess[i], i))
  {
    if guess == [] then []
    else Score(m, guess[..|guess| - 1]) + [CharResult(guess[|guess| - 1], Verdict(m, guess[|guess| - 1], |guess| - 1))]
  }

  /** Scored against the index of `word`, character i of the guess is
      Correct exactly when the word has the same character at i, Present
      when the word has it elsewhere only, and Absent when the word lacks
      it. The characters keep their order. */
  lemma ScoreAgainstWord(word: string, guess: string, i: nat)
    requires i < |guess|
    ensures var x := Score(PositionIndex(word), guess)[i];
      && x.ch == guess[i]
      && (x.result == Correct <==> i < |word| && word[i] == guess[i])
      && (x.result == Present <==> guess[i] in word && !(i < |word| && word[i] == guess[i]))
      && (x.result == Absent <==> guess[i] !in word)
  {
    PositionIndexSpec(word);
  }

  /** The three lines that close every running-game reply. */
  function GuessSummary(guess: string, attempt: seq<CharResult>, left: nat): seq<string> {
    [ "Your guess was '" + guess + "'.",
      "Here's how you did: " + Display(attempt) + ".",
      "You now have " + NatText(left) + " attempts left." ]
  }

  /** What `determined_by` answers for the guess `input` made at `now`
      against the game `v`, and the game it leaves behind. */
  function Determine(v: GameView, input: string, now: int, showTime: int -> string)
    : (out: (AppResult<SessionState>, GameView))
    requires InBudget(v)
    ensures InBudget(out.1) && out.1.word == v.word
    ensures out.1.attempts == v.attempts || |out.1.attempts| < |v.word|
    ensures out.0.Err? <==> |input| != |v.word|
    ensures (out.0.Ok? && out.0.value.Won?) <==> |input| == |v.word| && Lower(input) == v.word
    ensures (out.0.Ok? && out.0.value.Lost?) <==>
              |input| == |v.word| && Lower(input) != v.word && |v.word| - |v.attempts| <= 1
  {
    if |input| != |v.word| then (Err(InvalidGuessLength(|v.word|)), v)
    else
      var guess := Lower(input);
      if guess == v.word then (Ok(WonState()), v)
      else
        var left := |v.word| - |v.attempts|;
        if left > 1 then Running(v, guess, now, showTime)
        else (Ok(LostState(v.word)), v)
  }

  /** A wrong guess while more than one attempt is left: the guess is scored
      and recorded, and the reply summarises it, after the description of
      the game when the game has been idle for too long. */
  function Running(v: GameView, guess: string, now: int, showTime: int -> string)
    : (out: (AppResult<SessionState>, GameView))
    requires InBudget(v) && |v.word| - |v.attempts| > 1
    ensures out.0.Ok? && out.0.value.InProgress?
    ensures out.1.word == v.word && |out.1.attempts| == |v.attempts| + 1
  {
    var attempt := Score(PositionIndex(v.word), guess);
    var before := if now - v.lastUpdate > IdleLimit then Description(v, showTime) else [];
    (Ok(InProgress(before + GuessSummary(guess, attempt, |v.word| - |v.attempts| - 1))),
     GameView(v.word, v.attempts + [attempt], now))
  }

  /** `determined_by`. It reads the game through its getters and records a
      running guess through `add_attempt`. */
  method DeterminedBy(userInput: string, g: GameState, now: int, showTime: int -> string)
    returns (r: AppResult<SessionState>)
    requires g.Valid() && g.WithinBudget()
    modifies g
    ensures (r, g.View()) == Determine(old(g.View()), userInput, now, showTime)
    ensures g.WithinBudget()
  {
    ghost var v := g.View();
    var wordLength := g.WordLength();
    if |userInput| != wordLength {
      return Err(InvalidGuessLength(wordLength));
    }
    var guess := Lower(userInput);
    var theWord := g.Word();
    if guess == theWord {
      return Ok(WonState());
    }
    var attemptsLeft := g.AttemptsLeft();
    if attemptsLeft > 1 {
      var attempt := Score(g.charMap, guess);
      var summaries: seq<string>;
      if g.LastUpdateOlderThan(now, IdleLimit) {
        summaries := g.Describe(showTime);
      } else {
        summaries := [];
      }
      var sessionSummary := GuessSummary(guess, attempt, attemptsLeft - 1);
      g.AddAttempt(attempt, now);
      summaries := summaries + sessionSummary;
      r := Ok(InProgress(summaries));
      assert (r, g.View()) == Running(v, guess, now, showTime);
      return;
    }
    return Ok(LostState(theWord));
  }

  /** A guess whose length differs from the word's is refused with the
      expected length, and only then; the game is left as it was. */
  lemma LengthMismatch(v: GameView, input: string, now: int, showTime: int -> string)
    requires InBudget(v)
    ensures var (r, w) := Determine(v, input, now, showTime);
      && (r.Err? <==> |input| != |v.word|)
      && (r.Err? ==> r.error == InvalidGuessLength(|v.word|) && w == v)
  {
  }

  /** A right guess wins and records nothing. */
  lemma RightGuessWins(v: GameView, input: string, now: int, showTime: int -> string)
    requires InBudget(v)
    requires |input| == |v.word| && Lower(input) == v.word
    ensures Determine(v, input, now, showTime) == (Ok(WonState()), v)
  {
  }

  /** A wrong guess with at most one attempt left loses, quoting the word,
      and records nothing. */
  lemma LastWrongGuessLoses(v: GameView, input: string, now: int, showTime: int -> string)
    requires InBudget(v)
    requires |input| == |v.word| && Lower(input) != v.word
    requires |v.word| - |v.attempts| <= 1
    ensures Determine(v, input, now, showTime) == (Ok(LostState(v.word)), v)
  {
  }

  /** A running guess records exactly one attempt, the scored lower-cased
      guess, stamped with `now`; the reply ends with the guess, its display
      and the attempts now left, and begins with the description of the
      game as it was exactly when that game had been idle for more than
      five minutes. */
  lemma RunningGuess(v: GameView, input: string, now: int, showTime: int -> string)
    requires InBudget(v)
    requires |input| == |v.word| && Lower(input) != v.word
    requires |v.word| - |v.attempts| > 1
    ensures var out := Determine(v, input, now, showTime);
      var attempt := Score(PositionIndex(v.word), Lower(input));
      && out.0.Ok? && out.0.value.InProgress?
      && out.1 == GameView(v.word, v.attempts + [attempt], now)
      && var s := out.0.value.summaries;
      && |s| >= 3
      && s[|s| - 3..] == GuessSummary(Lower(input), attempt, |v.word| - |out.1.attempts|)
      && (now - v.lastUpdate > IdleLimit ==> s[..|s| - 3] == Description(v, showTime))
      && (now - v.lastUpdate <= IdleLimit ==> |s| == 3)
  {
  }

  /** A state after `k` guesses: the outcomes of playing `guesses` in turn
      from `v`, each at time `now`. */
  function Outcomes(v: GameView, guesses: seq<string>, now: int, showTime: int -> string)
    : (rs: seq<AppResult<SessionState>>)
    requires InBudget(v)
    ensures |rs| == |guesses|
    decreases |guesses|
  {
    if guesses == [] then []
    else
      var (r, w) := Determine(v, guesses[0], now, showTime);
      [r] + Outcomes(w, guesses[1..], now, showTime)
  }

  function Repeat(s: string, n: nat): (r: seq<string>)
    ensures |r| == n && forall k :: 0 <= k < n ==> r[k] == s
  {
    if n == 0 then [] else [s] + Repeat(s, n - 1)
  }

  /** With the same wrong guess repeated until the game ends, a game with
      `a` attempts on an `n`-letter word stays running for the next
      n - 1 - a guesses and is lost on the one after: the evaluator never
      lets the attempts reach the word length. */
  lemma {:induction false} WrongGuessesRunOut(v: GameView, wrong: string, now: int, showTime: int -> string)
    requires |v.attempts| < |v.word|
    requires |wrong| == |v.word| && Lower(wrong) != v.word
    ensures var n := |v.word| - |v.attempts|;
      var rs := Outcomes(v, Repeat(wrong, n), now, showTime);
      && (forall k :: 0 <= k < n - 1 ==> rs[k].Ok? && rs[k].value.InProgress?)
      && rs[n - 1] == Ok(LostState(v.word))
    decreases |v.word| - |v.attempts|
  {
    var n := |v.word| - |v.attempts|;
    var gs := Repeat(wrong, n);
    var (r, w) := Determine(v, wrong, now, showTime);
    if n == 1 {
      assert gs[1..] == [];
    } else {
      RunningGuess(v, wrong, now, showTime);
      assert gs[1..] == Repeat(wrong, n - 1);
      WrongGuessesRunOut(w, wrong, now, showTime);
    }
  }

  /** A running wrong guess is the running step on the lower-cased guess. */
  lemma {:induction false} WrongGuessRuns(v: GameView, input: string, now: int, showTime: int -> string)
    requires InBudget(v)
    requires |input| == |v.word| && Lower(input) != v.word
    requires |v.word| - |v.attempts| > 1
    ensures Determine(v, input, now, showTime) == Running(v, Lower(input), now, showTime)
  {
  }

  /** A running step made within five minutes of the last update is
      answered by the guess's summary alone. */
  lemma {:induction false} PromptRunning(v: GameView, guess: string, now: int, showTime: int -> string)
    requires InBudget(v) && |v.word| - |v.attempts| > 1 && now - v.lastUpdate <= IdleLimit
    ensures var attempt := Score(PositionIndex(v.word), guess);
      Running(v, guess, now, showTime)
      == (Ok(InProgress(GuessSummary(guess, attempt, |v.word| - |v.attempts| - 1))),
          GameView(v.word, v.attempts + [attempt], now))
  {
    var attempt := Score(PositionIndex(v.word), guess);
    assert [] + GuessSummary(guess, attempt, |v.word| - |v.attempts| - 1)
        == GuessSummary(guess, attempt, |v.word| - |v.attempts| - 1);
  }

  /** Played without a pause, each running reply of a repeated wrong guess
      is just its summary, counting the attempts left down to one. */
  lemma {:induction false} WrongGuessSummaries(v: GameView, wrong: string, now: int, showTime: int -> string)
    requires |v.attempts| < |v.word| && v.lastUpdate == now
    requires |wrong| == |v.word| && Lower(wrong) != v.word
    ensures var n := |v.word| - |v.attempts|;
      var rs := Outcomes(v, Repeat(wrong, n), now, showTime);
      forall k :: 0 <= k < n - 1 ==>
        rs[k] == Ok(InProgress(GuessSummary(Lower(wrong), Score(PositionIndex(v.word), Lower(wrong)), n - 1 - k)))
    decreases |v.word| - |v.attempts|
  {
    var n := |v.word| - |v.attempts|;
    if n > 1 {
      var guess := Lower(wrong);
      var attempt := Score(PositionIndex(v.word), guess);
      var w := GameView(v.word, v.attempts + [attempt], now);
      WrongGuessRuns(v, wrong, now, showTime);
      PromptRunning(v, guess, now, showTime);
      var gs := Repeat(wrong, n);
      assert gs[1..] == Repeat(wrong, n - 1);
      WrongGuessSummaries(w, wrong, now, showTime);
      var rs := Outcomes(v, gs, now, showTime);
      var ts := Outcomes(w, Repeat(wrong, n - 1), now, showTime);
      assert |w.word| - |w.attempts| == n - 1;
      assert ts == Outcomes(w, Repeat(wrong, |w.word| - |w.attempts|), now, showTime);
      assert rs == [Ok(InProgress(GuessSummary(guess, attempt, n - 1)))] + ts;
      assert forall j :: 0 <= j < n - 2 ==> ts[j] == Ok(InProgress(GuessSummary(guess, attempt, n - 2 - j)));
      forall k | 1 <= k < n - 1
        ensures rs[k] == Ok(InProgress(GuessSummary(guess, attempt, n - 1 - k)))
      {
        assert rs[k] == ts[k - 1];
      }
    }
  }

  /** The word of the test game. */
  const GolemWord: string := "golem"

  /** The wrong answer of the test game. */
  const WrongAnswer: string := "abcde"

  /** The test game: "abcde" against "golem" scores only the 'e' Present. */
  lemma GolemScore()
    ensures Score(PositionIndex(GolemWord), WrongAnswer)
         == [AbsentAt('a'), AbsentAt('b'), AbsentAt('c'), AbsentAt('d'), PresentAt('e')]
  {
    var x := Score(PositionIndex(GolemWord), WrongAnswer);
    forall i | 0 <= i < 5
      ensures x[i].ch == WrongAnswer[i]
      ensures x[i].result == if i == 4 then Present else Absent
    {
      ScoreAgainstWord(GolemWord, WrongAnswer, i);
      assert WrongAnswer[i] in GolemWord <==> i == 4 by {
        assert GolemWord[3] == 'e';
      }
    }
  }

  /** The test game played with "abcde" against a fresh "golem" game: four
      running replies, each the summary of the guess with 4, 3, 2 and then
      1 attempts left, then Lost quoting "golem". */
  lemma GolemLost(now: int, showTime: int -> string)
    ensures var rs := Outcomes(GameView(GolemWord, [], now), Repeat(WrongAnswer, 5), now, showTime);
      && (forall k :: 0 <= k < 4 ==>
            rs[k] == Ok(InProgress(GuessSummary(WrongAnswer,
                       [AbsentAt('a'), AbsentAt('b'), AbsentAt('c'), AbsentAt('d'), PresentAt('e')], 4 - k))))
      && rs[4] == Ok(LostState(GolemWord))
  {
    var v := GameView(GolemWord, [], now);
    WrongAnswerIsLower();
    GolemRunning(v, WrongAnswer, now, showTime);
    assert WrongAnswer[0] != GolemWord[0];
    FifthWrongAnswerLoses(v, WrongAnswer, now, showTime);
  }

  lemma WrongAnswerIsLower()
    ensures Lower(WrongAnswer) == WrongAnswer
  {
    LowerOfLower(WrongAnswer);
  }

  /** On a fresh five-letter game, the fifth wrong answer loses it. */
  lemma {:induction false} FifthWrongAnswerLoses(v: GameView, wrong: string, now: int, showTime: int -> string)
    requires |v.word| == 5 && v.attempts == []
    requires |wrong| == 5 && Lower(wrong) != v.word
    ensures Outcomes(v, Repeat(wrong, 5), now, showTime)[4] == Ok(LostState(v.word))
  {
    assert |v.word| - |v.attempts| == 5;
    WrongGuessesRunOut(v, wrong, now, showTime);
  }

  /** The four running replies of the test game. */
  lemma {:induction false} GolemRunning(v: GameView, wrong: string, now: int, showTime: int -> string)
    requires v.word == GolemWord && v.attempts == [] && v.lastUpdate == now
    requires wrong == WrongAnswer && Lower(wrong) == wrong
    ensures var rs := Outcomes(v, Repeat(wrong, 5), now, showTime);
      forall k :: 0 <= k < 4 ==>
        rs[k] == Ok(InProgress(GuessSummary(wrong,
                   [AbsentAt('a'), AbsentAt('b'), AbsentAt('c'), AbsentAt('d'), PresentAt('e')], 4 - k)))
  {
    assert wrong[0] != v.word[0];
    WrongGuessSummaries(v, wrong, now, showTime);
    GolemScore();
  }

  /** The test game's first replies: an empty guess is refused with the
      length 5, and "GOLEM" wins, whatever time it is. */
  lemma GolemFirstGuesses(now: int, showTime: int -> string)
    ensures Determine(GameView(GolemWord, [], now), "", now, showTime).0 == Err(InvalidGuessLength(5))
    ensures Determine(GameView(GolemWord, [], now), "GOLEM", now, showTime).0 == Ok(WonState())
  {
    assert Lower("GOLEM") == GolemWord by {
      LowerSpec("GOLEM");
    }
  }
}
