/**
 * The shared game state: the player's channel record and the store that
 * holds the single current state and replaces it through an updater.
 */
module Game {

  /**
   * The player's channel as the customize dialog sees it: the five fields
   * it edits, and `rest` for every other field (id, counters, flags such
   * as `hasAdvertised`), which it only carries along.
   */
  datatype Channel<R> = Channel(
    name: string,
    bio: string,
    avatar: string,
    banner: string,
    homepageLayout: seq<string>,
    rest: R)

  /** The whole game state: the channel and everything else (`isGameStarted`, content, ...). */
  datatype GameState<R, O> = GameState(channel: Channel<R>, rest: O)

  /** The game provider's state cell; `setGameState` applies an updater to the previous state. */
  class GameStore<R, O> {
    var state: GameState<R, O>

    constructor (initial: GameState<R, O>)
      ensures state == initial
    {
      state := initial;
    }

    method SetGameState(update: GameState<R, O> -> GameState<R, O>)
      modifies this
      ensures state == update(old(state))
    {
      state := update(state);
    }
  }
}
