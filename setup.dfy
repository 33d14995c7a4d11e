/**
 * The name gate of the game-setup screen: the Start handler, the Enter
 * key and the Start button's `disabled` flag all test `channelName.trim()`.
 * `isSpace` is the set of characters `trim` removes.
 */
module GameSetup {
  import opened Wrappers
  import opened Text

  /**
   * `handleStartGame`: `Some(arg)` when it calls `startGame` (once, with
   * `arg`), `None` when it calls nothing.
   */
  function HandleStartGame(channelName: string, isSpace: char -> bool): (arg: Option<string>)
    ensures arg.None? <==> AllSpace(channelName, isSpace)
    ensures arg.Some? ==> arg.value == Trim(channelName, isSpace)
    ensures arg.Some? ==> arg.value != "" && !isSpace(arg.value[0]) && !isSpace(arg.value[|arg.value| - 1])
  {
    var trimmed := Trim(channelName, isSpace);
    TrimEmptyIffAllSpace(channelName, isSpace);
    assert trimmed == "" <==> AllSpace(channelName, isSpace);
    if trimmed != "" then Some(trimmed) else None
  }

  /** The Start button's `disabled` flag: set exactly when the handler would do nothing. */
  function StartDisabled(channelName: string, isSpace: char -> bool): (disabled: bool)
    ensures disabled <==> HandleStartGame(channelName, isSpace).None?
    ensures disabled <==> AllSpace(channelName, isSpace)
  {
    TrimEmptyIffAllSpace(channelName, isSpace);
    Trim(channelName, isSpace) == ""
  }

  /** The name field's key handler: Enter runs the Start handler, any other key does nothing. */
  function OnKeyPress(key: string, channelName: string, isSpace: char -> bool): (arg: Option<string>)
    ensures key == "Enter" ==> arg == HandleStartGame(channelName, isSpace)
    ensures key != "Enter" ==> arg.None?
  {
    if key == "Enter" then HandleStartGame(channelName, isSpace) else None
  }

  /** A started game's name is the typed name with whitespace runs cut from both ends. */
  lemma StartNameIsTypedName(channelName: string, isSpace: char -> bool)
    requires HandleStartGame(channelName, isSpace).Some?
    ensures IsTrimmedFrom(HandleStartGame(channelName, isSpace).value, channelName, isSpace)
  {
    TrimIsInfix(channelName, isSpace);
  }
}
