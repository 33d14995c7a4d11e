# Punsta profile customization and name gate, in Dafny

This project models the two pieces of rule-bearing logic in the front-end
of the Punsta rap-career simulator:

- **The customize-channel dialog** (`components/customize-channel-modal.tsx`).
  The dialog stages edits to the player's channel. These are the name, the
  bio, the avatar and banner query texts, and the ordered list of visible
  homepage sections. A checkbox toggles a section id on (append) or off
  (filter). A drag-and-drop moves one id from a source index to a
  destination index with two `splice` calls on a copy of the list. Save
  hands the game store an updater. The updater overwrites the channel's
  name, bio, avatar, banner and layout, and keeps every other field. It
  builds the image references from a fixed template plus `&query=` and the
  encoded query, or the bare template when the query is empty. When the
  dialog is mounted, its `useState` initializers read each query back by
  splitting the stored reference on `query=`. Cancel only asks the host to close the dialog.
- **The name gate of the setup screen** (`components/game-setup.tsx`). The
  Start handler calls `startGame` only when the trimmed name is non-empty,
  and passes the trimmed name. The Enter key runs the same handler. The
  Start button is disabled by the same test.

Modules:

- `Text`: the JavaScript string operations the core uses: `trim`, and
  `split` with a non-empty separator. `IndexOf` (JavaScript's `indexOf`
  for a non-empty pattern) and `Join` are helpers that specify `split`.
- `Sections`: the section catalogue, the toggle and the filter, and the
  drag move. The move is specified by the function `Moved` and carried out
  in place on an array by `Reorder`.
- `Game`: the channel and game-state records, and the store whose
  `SetGameState` applies an updater to the previous state.
- `CustomizeChannel`: references, reopening, the save updater, and the
  dialog as a class over its `useState` cells.
- `GameSetup`: the name gate.

`encodeURIComponent` is the parameter `encode`. The set of characters
`trim` removes is the parameter `isSpace`. Fields the dialog never reads
are the type parameters `R` (of the channel) and `O` (of the game state).

## Model

| member | source | states |
|---|---|---|
| `Text.TrimStart` | components/game-setup.tsx:17 | the result is the longest suffix of the input that does not start with whitespace; all characters removed are whitespace |
| `Text.TrimEnd` | components/game-setup.tsx:17 | the result is the longest prefix of the input that does not end in whitespace; all characters removed are whitespace |
| `Text.Trim` | components/game-setup.tsx:17 | the trimmed name is no longer than the typed one and neither of its ends is whitespace |
| `Text.TrimIsInfix` | components/game-setup.tsx:17-18 | the trimmed name is a contiguous part of the input with only whitespace around it (that its ends are not whitespace is `Text.Trim`'s own contract) |
| `Text.TrimEmptyIffAllSpace` | components/game-setup.tsx:17 | trimming yields "" exactly when every character is whitespace |
| `Text.TrimIdempotent` | components/game-setup.tsx:18 | trimming the trimmed name changes nothing |
| `Text.IndexOfIsFirst` | components/customize-channel-modal.tsx:42-43 | the index found is an occurrence at or after the start index with no earlier one; when none is found, there is no occurrence at or after the start index |
| `Text.IndexOfFirst` | components/customize-channel-modal.tsx:42-43 | conversely, the first occurrence at or after the start index is the one found |
| `Text.IndexOfNone` | components/customize-channel-modal.tsx:42-43 | conversely, when nothing occurs at or after the start index, nothing is found |
| `Text.Split` | components/customize-channel-modal.tsx:42-43 | a split always has at least one piece |
| `Text.JoinSplit` | components/customize-channel-modal.tsx:42-43 | joining the pieces of a split with the separator gives back the string |
| `Text.SplitPiecesFree` | components/customize-channel-modal.tsx:42-43 | no piece of a split contains the separator |
| `Text.SplitSecondPieceToEnd` | components/customize-channel-modal.tsx:42-43 | with one separator only, there is a second piece and it runs from the end of the separator to the end of the string |
| `Text.SplitSecondPieceToNext` | components/customize-channel-modal.tsx:42-43 | with a second separator, the second piece runs from the end of the first separator up to the second one |
| `Sections.CatalogueIds` | components/customize-channel-modal.tsx:30-35 | the catalogue ids are exactly `latestVideos`, `popularVideos` and `playlists` |
| `Sections.Without` | components/customize-channel-modal.tsx:47 | the filtered list has no occurrence of the id, holds every other entry as often as before, and is a subsequence of the input (relative order kept) |
| `Sections.WithoutUnique` | components/customize-channel-modal.tsx:47 | any subsequence that keeps every other entry and drops every occurrence of the id is the filtered list |
| `Sections.Toggle` | components/customize-channel-modal.tsx:47 | checking appends the id after unchanged earlier entries; unchecking removes every occurrence and keeps the rest in order |
| `Sections.ToggleKeepsNoDuplicates` | components/customize-channel-modal.tsx:47 | a duplicate-free list stays duplicate-free when the id is appended only if absent |
| `Sections.ToggleKeepsKnown` | components/customize-channel-modal.tsx:145-150 | toggling a catalogue id keeps every entry a catalogue id |
| `Sections.ToggleOnThenOff` | components/customize-channel-modal.tsx:47 | checking an absent id and then unchecking it restores the list |
| `Sections.PermutationKeepsNoDuplicates` | components/customize-channel-modal.tsx:54-57 | a permutation of a duplicate-free list is duplicate-free |
| `Sections.NoDuplicatesIffSingletons` | components/customize-channel-modal.tsx:54-57 | a list has no repeated entry exactly when each value occurs at most once in its multiset |
| `Sections.RemoveAt` | components/customize-channel-modal.tsx:55 | `splice(i, 1)` shortens the list by one, removes one copy of the entry at `i`, and shifts later entries left |
| `Sections.InsertAt` | components/customize-channel-modal.tsx:56 | `splice(i, 0, x)` places `x` at `i`, adds one copy of `x`, and removing it again restores the list |
| `Sections.Moved` | components/customize-channel-modal.tsx:54-56 | a move gives a permutation of the same length, puts the moved id at the destination, and keeps all other ids in their relative order |
| `Sections.MovedToSamePlace` | components/customize-channel-modal.tsx:54-56 | dropping an entry where it was picked up leaves the list unchanged |
| `Sections.MovedKeepsInvariants` | components/customize-channel-modal.tsx:54-57 | a move keeps the list duplicate-free and made of catalogue ids |
| `Sections.SpliceOut` | components/customize-channel-modal.tsx:55 | the in-place `splice(i, 1)` leaves the list without the entry at `i` in the first `length - 1` slots |
| `Sections.SpliceIn` | components/customize-channel-modal.tsx:56 | the in-place `splice(i, 0, x)` leaves the first `length - 1` slots with `x` put in at `i` |
| `Sections.Reorder` | components/customize-channel-modal.tsx:54-56 | the two in-place splices on the array leave exactly the moved list |
| `Sections.Reordered` | components/customize-channel-modal.tsx:54-56 | copying the list and splicing the copy returns the moved list |
| `Sections.OnDragEnd` | components/customize-channel-modal.tsx:50-58 | a drop with no destination returns the list unchanged; any other drop returns the moved list |
| `Game.GameStore.SetGameState` | components/customize-channel-modal.tsx:61 | the new state is the updater applied to the previous state |
| `CustomizeChannel.Reference` | components/customize-channel-modal.tsx:67-72 | an image reference always starts with its template, and is the bare template exactly when the query is empty |
| `CustomizeChannel.OpeningQuery` | components/customize-channel-modal.tsx:42-43 | the query read back is non-empty only when the reference holds `query=`, and never holds `query=` itself |
| `CustomizeChannel.InitialEdits` | components/customize-channel-modal.tsx:39-43 | a freshly mounted dialog stages the channel's layout, name and bio, and query texts that hold no `query=`; a reference without `query=` gives an empty query |
| `CustomizeChannel.OpeningQueryBetweenMarkers` | components/customize-channel-modal.tsx:42-43 | the query read back is the text between the first `query=` and the next one, or the end; it is "" when there is no `query=` |
| `CustomizeChannel.ReferenceReopens` | components/customize-channel-modal.tsx:67-72 | a reference built from an empty query reads back as ""; one built from a non-empty query reads back as the encoded query, whenever the template has no `q` and the encoded query has no `=` |
| `CustomizeChannel.DefaultReferencesReopenEmpty` | components/customize-channel-modal.tsx:42-43 | the bare avatar and banner references read back as an empty query |
| `CustomizeChannel.SaveUpdate` | components/customize-channel-modal.tsx:61-75 | save sets name, bio, avatar, banner and layout (the layout to exactly the staged list) and keeps every other channel field and every other game-state field |
| `CustomizeChannel.SaveIdempotent` | components/customize-channel-modal.tsx:61-75 | applying the save updater twice gives the same state as applying it once |
| `CustomizeChannel.ReopenAfterSave` | components/customize-channel-modal.tsx:39-43 | a dialog freshly mounted on a saved channel stages the saved name, bio and layout, and the encoded queries |
| `CustomizeChannel.SaveAgainEncodesTwice` | components/customize-channel-modal.tsx:39-43 | saving, mounting a fresh dialog on the saved channel and saving again without edits stores references built from the encoded queries, so each non-empty query is encoded twice |
| `CustomizeChannel.UncheckPlaylistsThenSave` | components/customize-channel-modal.tsx:60-75 | unchecking "playlists" and saving a new bio stores that bio and the other two sections in their old order |
| `CustomizeChannel.CustomizeChannelDialog.constructor` | components/customize-channel-modal.tsx:39-43 | mounting seeds the staged cells from the channel, with the queries read back from the references |
| `CustomizeChannel.CustomizeChannelDialog.HandleCheckboxChange` | components/customize-channel-modal.tsx:46-48 | the staged list becomes the toggled list; no other cell changes |
| `CustomizeChannel.CustomizeChannelDialog.ClickCheckbox` | components/customize-channel-modal.tsx:147-150 | a click checks an absent id and unchecks a present one; a duplicate-free list of catalogue ids stays so |
| `CustomizeChannel.CustomizeChannelDialog.DragEnd` | components/customize-channel-modal.tsx:50-58 | no destination leaves the staged cells unchanged; otherwise the list becomes the moved list and stays duplicate-free and made of catalogue ids |
| `CustomizeChannel.CustomizeChannelDialog.EditProfileName` | components/customize-channel-modal.tsx:101 | only the staged name changes |
| `CustomizeChannel.CustomizeChannelDialog.EditProfileBio` | components/customize-channel-modal.tsx:113 | only the staged bio changes |
| `CustomizeChannel.CustomizeChannelDialog.EditAvatarQuery` | components/customize-channel-modal.tsx:125 | only the staged avatar query changes |
| `CustomizeChannel.CustomizeChannelDialog.EditBannerQuery` | components/customize-channel-modal.tsx:137 | only the staged banner query changes |
| `CustomizeChannel.CustomizeChannelDialog.Save` | components/customize-channel-modal.tsx:60-81 | the store's new state is the save updater applied to the old state and the staged edits, and the dialog asks to close |
| `CustomizeChannel.CustomizeChannelDialog.Cancel` | components/customize-channel-modal.tsx:194 | the store's state is unchanged (the store is outside the method's frame); the dialog asks to close |
| `GameSetup.HandleStartGame` | components/game-setup.tsx:16-20 | `startGame` is not called when the name is whitespace only; otherwise it is called once with the trimmed name, which is non-empty and has no whitespace at either end |
| `GameSetup.StartDisabled` | components/game-setup.tsx:53 | the Start button is disabled exactly when the handler would call nothing, that is when the name is whitespace only |
| `GameSetup.OnKeyPress` | components/game-setup.tsx:45-47 | Enter runs the Start handler and obeys its gate; other keys call nothing |
| `GameSetup.StartNameIsTypedName` | components/game-setup.tsx:17-18 | the name passed to `startGame` is the typed name with a whitespace run cut from each end |

## Left out

- Rendering is not modelled. This covers the dialog, input, checkbox, card and avatar primitives and the icons. It also covers the toast shown after save (components/customize-channel-modal.tsx:76-79).
- The drag-and-drop library is not modelled beyond the `source.index` and `destination.index` it delivers. Both indices are required to be in range (`Sections.InRange`). JavaScript's `splice` behaviour on out-of-range indices is not modelled.
- `encodeURIComponent` is the parameter `encode`. The only fact assumed about it is that it emits no `=`, and only where a lemma needs it. Reopening a saved reference yields the encoded query, not the typed one. So no round trip through the query text is claimed: mounting on a saved channel and then saving without edits encodes the query a second time (`CustomizeChannel.SaveAgainEncodesTwice`).
- The cells are seeded by `useState` initializers (components/customize-channel-modal.tsx:39-43), which run once per mount, not each time `open` becomes true. Whether a closed dialog is unmounted and so reseeded on the next opening depends on its caller, which is not part of this model. `CustomizeChannel.CustomizeChannelDialog.constructor`, `CustomizeChannel.InitialEdits`, `CustomizeChannel.ReopenAfterSave` and `CustomizeChannel.SaveAgainEncodesTwice` describe a fresh mount. A dialog kept mounted keeps its staged cells across closing: after Cancel the cancelled edits, after Save the typed (not encoded) queries.
- JavaScript's whitespace table for `trim` is the parameter `isSpace`.
- `onClose` belongs to the dialog's host, which is not part of this model. The dialog records only that it asked to close (`closeRequested`).
- The rendering lookup that skips unknown section ids (components/customize-channel-modal.tsx:165-166) is display logic. The staged list is a list of id strings, as in the source. "Only catalogue ids" is an invariant the dialog keeps, not a restriction of the type.
- `startGame`, `setGameState` and the game provider that owns them are not part of this model. The store applies the updater it is given. The initial profile that `startGame` builds is not modelled, so `HandleStartGame` only states whether `startGame` is called and with which argument.
- React's scheduling and batching of state updates are not modelled. Each handler sees the current staged cells.
- `String.prototype.split` is modelled only with a non-empty separator and no limit, the only form the core uses.
- `components/about-channel-modal.tsx` is not part of this model. Its number formatting uses floating-point division and `toFixed` rounding, and its joined date comes from the clock and locale formatting.
- `components/header.tsx`, `app/page.tsx` and `app/layout.tsx` are display-only. They cover the initials and avatar fallback, the one-time ad flag, the render gate on `isGameStarted`, the sidebar hover toggle and the page metadata.
