/** lib/src/game_state.rs: the state of one game — the target word, its
    position index, the scored attempts so far and the time of the last
    update — and its multi-line description. */
module Game {
  import opened Results
  import opened Text
  import opened Core
  import opened CharResults

  /** `GAME_INSTRUCTION`: the closing line of every description. */
  const GameInstruction: string :=
    "You can continue this game by using the `continue-game` command, or you can start a new game by using the `new-game` command."

  /** The parts of a game state that its operations read and write, as a
      value: the word, the attempts in the order they were made and the time
      of the last update (seconds). */
  datatype GameView = GameView(word: string, attempts: seq<seq<CharResult>>, lastUpdate: int)

  /** An attempt count that `attempts_left` can subtract from the word
      length without the unsigned subtraction underflowing. */
  predicate InBudget(v: GameView) {
    |v.attempts| <= |v.word|
  }

  /** The `display` of each attempt, in order. */
  function DisplayAll(attempts: seq<seq<CharResult>>): (lines: seq<string>)
    ensures |lines| == |attempts|
    ensures forall k :: 0 <= k < |attempts| ==> lines[k] == Display(attempts[k])
  {
    if attempts == [] then []
    else DisplayAll(attempts[..|attempts| - 1]) + [Display(attempts[|attempts| - 1])]
  }

  function WelcomeLine(wordLength: nat): string {
    "Welcome to Golem Wordle! Please describe Golem in a " + NatText(wordLength) + "-letter word."
  }

  function CountLine(count: nat): string {
    "Here are your previous " + NatText(count) + " guesses."
  }

  function LastPlayedLine(stamp: string): string {
    "Last time you played was on " + stamp + "."
  }

  function StartedLine(stamp: string): string {
    "You started this game on " + stamp + "."
  }

  function AttemptsLeftLine(left: nat): string {
    "You had " + NatText(left) + " attempts left."
  }

  /** What `describe` returns for a game in state `v`, where `showTime`
      renders a timestamp. */
  function Description(v: GameView, showTime: int -> string): seq<string>
    requires InBudget(v)
  {
    var stamp := showTime(v.lastUpdate);
    var middle :=
      if |v.attempts| > 0 then
        [CountLine(|v.attempts|)] + DisplayAll(v.attempts) + [LastPlayedLine(stamp)]
      else
        [StartedLine(stamp)];
    [WelcomeLine(|v.word|)] + middle + [AttemptsLeftLine(|v.word| - |v.attempts|), GameInstruction]
  }

  /** The frame of a description: 4 lines for a game without attempts and
      |attempts| + 5 otherwise; the welcome line with the word length first,
      the remaining attempts second to last and the instruction last. */
  lemma DescriptionFrame(v: GameView, showTime: int -> string)
    requires InBudget(v)
    ensures var d := Description(v, showTime);
      && |d| == (if v.attempts == [] then 4 else |v.attempts| + 5)
      && d[0] == WelcomeLine(|v.word|)
      && d[|d| - 2] == AttemptsLeftLine(|v.word| - |v.attempts|)
      && d[|d| - 1] == GameInstruction
  {
  }

  /** A game without attempts is described by its start time. */
  lemma DescriptionFresh(v: GameView, showTime: int -> string)
    requires InBudget(v) && v.attempts == []
    ensures Description(v, showTime)[1] == StartedLine(showTime(v.lastUpdate))
  {
  }

  /** A game with attempts lists, after the welcome line, the count line,
      every attempt's `display` in order and the last-played line. */
  lemma DescriptionHistory(v: GameView, showTime: int -> string)
    requires InBudget(v) && v.attempts != []
    ensures var d := Description(v, showTime);
      && |d| == |v.attempts| + 5
      && d[1] == CountLine(|v.attempts|)
      && (forall k :: 0 <= k < |v.attempts| ==> d[k + 2] == Display(v.attempts[k]))
      && d[|v.attempts| + 2] == LastPlayedLine(showTime(v.lastUpdate))
  {
    var shown := DisplayAll(v.attempts);
    var d := Description(v, showTime);
    assert d == [WelcomeLine(|v.word|)] + ([CountLine(|v.attempts|)] + shown + [LastPlayedLine(showTime(v.lastUpdate))])
              + [AttemptsLeftLine(|v.word| - |v.attempts|), GameInstruction];
    forall k | 0 <= k < |v.attempts|
      ensures d[k + 2] == Display(v.attempts[k])
    {
      assert d[k + 2] == shown[k];
    }
  }

  /** A description determines the attempts it lists: the lines between the
      count line and the last-played line read back, through `display`, as
      exactly the attempts, in order. */
  lemma DescriptionShowsAttempts(v: GameView, showTime: int -> string, k: nat)
    requires InBudget(v)
    requires k < |v.attempts|
    ensures Parse(Description(v, showTime)[k + 2]) == Some(v.attempts[k])
  {
    DescriptionHistory(v, showTime);
    ParseDisplay(v.attempts[k]);
  }

  /** `GameState`. The word, its length and its index never change after
      `of`; the attempts and the last-update time do. The clock of the
      source is replaced by the time passed to each operation that reads
      it. */
  class GameState {
    const word: string
    const wordLength: nat
    const charMap: CharMap
    var attempts: seq<seq<CharResult>>
    var lastUpdate: int

    /** The length and the index agree with the word. */
    predicate Valid() {
      wordLength == |word| && charMap == PositionIndex(word)
    }

    /** The attempts have not outrun the word length. */
    predicate WithinBudget()
      reads this
    {
      |attempts| <= wordLength
    }

    function View(): (v: GameView)
      reads this
      ensures Valid() ==> (InBudget(v) <==> WithinBudget())
    {
      GameView(word, attempts, lastUpdate)
    }

    /** `GameState::of`: a game on `w` started at `now`, with no attempts
        and the whole budget left. */
    constructor Of(w: string, now: int)
      ensures Valid() && WithinBudget()
      ensures word == w && charMap == PositionIndex(w)
      ensures attempts == [] && lastUpdate == now
      ensures AttemptsLeft() == |w|
    {
      var m := CharMapFrom(w);
      word := w;
      wordLength := |w|;
      charMap := m;
      attempts := [];
      lastUpdate := now;
    }

    /** `add_attempt`: records `attempt` after the earlier ones and stamps
        the game with `now`; one attempt fewer is left. */
    method AddAttempt(attempt: seq<CharResult>, now: int)
      modifies this
      ensures attempts == old(attempts) + [attempt]
      ensures lastUpdate == now
      ensures old(|attempts|) < wordLength ==>
                WithinBudget() && AttemptsLeft() == wordLength - old(|attempts|) - 1
    {
      attempts := attempts + [attempt];
      lastUpdate := now;
    }

    /** `word`: the target, whose index is the game's index. */
    function Word(): (w: string)
      requires Valid()
      ensures w == word
      ensures |w| == wordLength && PositionIndex(w) == charMap
    {
      word
    }

    /** `word_length`: the length of the target word. */
    function WordLength(): (n: nat)
      requires Valid()
      ensures n == |Word()|
    {
      wordLength
    }

    /** `last_update_older_than`: strictly more than `d` seconds have passed
        between the last update and `now`. */
    function LastUpdateOlderThan(now: int, d: int): (older: bool)
      reads this
      ensures older <==> lastUpdate < now - d
    {
      now - lastUpdate > d
    }

    /** `find_by`: the positions of `c` in the word, or None when `c` does
        not occur in it. */
    function FindBy(c: char): (r: Option<set<nat>>)
      requires Valid()
      ensures r.Some? <==> c in word
      ensures r.Some? ==> r.value != {} && forall i: nat :: i in r.value <==> i < |word| && word[i] == c
    {
      PositionIndexSpec(word);
      if c in charMap then Some(charMap[c]) else None
    }

    /** `attempts_left`: the attempts still allowed, the word length less
        the attempts made (the unsigned subtraction must not underflow). */
    function AttemptsLeft(): (n: nat)
      reads this
      requires WithinBudget()
      ensures n + |attempts| == wordLength
    {
      wordLength - |attempts|
    }

    /** `describe`: builds the description line by line. */
    method Describe(showTime: int -> string) returns (lines: seq<string>)
      requires Valid() && WithinBudget()
      ensures lines == Description(View(), showTime)
    {
      lines := [WelcomeLine(wordLength)];
      var count := |attempts|;
      var middle: seq<string>;
      if count > 0 {
        var shown: seq<string> := [];
        for i := 0 to count
          invariant shown == DisplayAll(attempts[..i])
        {
          assert attempts[..i + 1][..i] == attempts[..i];
          shown := shown + [Display(attempts[i])];
        }
        assert attempts[..count] == attempts;
        middle := [CountLine(count)] + shown;
        middle := middle + [LastPlayedLine(showTime(lastUpdate))];
      } else {
        middle := [StartedLine(showTime(lastUpdate))];
      }
      lines := lines + middle;
      lines := lines + [AttemptsLeftLine(AttemptsLeft())];
      lines := lines + [GameInstruction];
    }
  }

  /** The test game on "abbc": 'a' sits at 0, 'b' at 1 and 2, 'c' at 3. */
  method AbbcGame(now: int) returns (g: GameState)
    ensures fresh(g) && g.Valid() && g.WithinBudget()
    ensures g.FindBy('a') == Some({0}) && g.FindBy('b') == Some({1, 2})
    ensures g.FindBy('c') == Some({3}) && g.FindBy('d') == None
    ensures g.AttemptsLeft() == 4
  {
    g := new GameState.Of("abbc", now);
    var w := "abbc";
    assert PositionsOf(w, 'a') == {0} by {
      forall i: nat | i < |w| && w[i] == 'a' ensures i == 0 { }
    }
    assert PositionsOf(w, 'b') == {1, 2} by {
      forall i: nat | i < |w| && w[i] == 'b' ensures i in {1, 2} { }
    }
    assert PositionsOf(w, 'c') == {3} by {
      forall i: nat | i < |w| && w[i] == 'c' ensures i == 3 { }
    }
    assert 'd' !in PositionIndex(w);
  }
}
