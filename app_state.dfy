/** lib/src/app_state.rs: the holder of the game in progress, if any, and
    the host rule of wasm/src/lib.rs that drops a finished game. */
module App {
  import opened Results
  import opened Game
  import opened Session

  /** The reply when a guess arrives and no game is held. */
  const NoGameMessage: string :=
    "Currently no game in progress. You can start a new game by using the `new-game` command."

  /** `AppState`: at most one game. */
  class AppState {
    var game: Option<GameState>

    /** A held game is well formed and within its attempt budget. */
    predicate Valid()
      reads this, if game.Some? then {game.value} else {}
    {
      game.Some? ==> game.value.Valid() && game.value.WithinBudget()
    }

    /** `AppState::empty`. */
    constructor Empty()
      ensures game == None && Valid()
    {
      game := None;
    }

    /** `game_state`: the held game, if any. */
    function GameStateRef(): (r: Option<GameState>)
      reads this
      ensures r == game
    {
      game
    }

    /** `game_state_as_mut`: the held game, if any, for the caller to
        change. */
    method GameStateAsMut() returns (r: Option<GameState>)
      ensures r == game
    {
      r := game;
    }

    /** `set_empty`: whatever was held is dropped. */
    method SetEmpty()
      modifies this
      ensures game == None && Valid()
    {
      game := None;
    }

    /** `new_game_with`: `picked` is what the word provider returned. Its
        error is passed on before anything changes; a word replaces any held
        game with a fresh game on that word, started at `now`. */
    method NewGameWith(picked: AppResult<string>, now: int) returns (r: AppResult<GameState>)
      modifies this
      ensures picked.Err? ==> r == Err(picked.error) && game == old(game)
      ensures picked.Ok? ==>
                && r.Ok? && fresh(r.value) && game == Some(r.value)
                && r.value.word == picked.value && r.value.attempts == []
                && r.value.lastUpdate == now && r.value.AttemptsLeft() == |picked.value|
                && Valid()
    {
      if picked.Err? {
        return Err(picked.error);
      }
      SetEmpty();
      var g := new GameState.Of(picked.value, now);
      game := Some(g);
      return Ok(g);
    }

    /** `continue_game` of wasm/src/lib.rs: with no game the reply is the
        no-game message; otherwise the guess is evaluated, a running game
        replies with its summaries, and a won or lost game replies with its
        message and is dropped. An evaluation error is passed on. */
    method ContinueGame(guess: string, now: int, showTime: int -> string)
      returns (r: AppResult<seq<string>>)
      requires Valid()
      modifies this, if game.Some? then {game.value} else {}
      ensures Valid()
      ensures old(game).None? ==> r == Ok([NoGameMessage]) && game == None
      ensures old(game).Some? ==>
                var (res, w) := Determine(old(game.value.View()), guess, now, showTime);
                && (res.Err? ==> r == Err(res.error) && game == old(game))
                && (res.Ok? && res.value.InProgress? ==>
                      r == Ok(res.value.summaries) && game == old(game))
                && (res.Ok? && !res.value.InProgress? ==>
                      r == Ok([res.value.message]) && game == None)
                && (game.Some? ==> game.value.View() == w)
    {
      var held := GameStateAsMut();
      if held.None? {
        return Ok([NoGameMessage]);
      }
      var outcome := DeterminedBy(guess, held.value, now, showTime);
      if outcome.Err? {
        return Err(outcome.error);
      }
      match outcome.value {
        case InProgress(summaries) =>
          r := Ok(summaries);
        case Won(msg) =>
          SetEmpty();
          r := Ok([msg]);
        case Lost(msg) =>
          SetEmpty();
          r := Ok([msg]);
      }
    }
  }
}
