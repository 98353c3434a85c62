# Tic-tac-toe board, turn rules and move messages

This project models the game logic of the tic-tac-toe scripts:

- the 3x3 board of `grid.py`;
- the local two-player loop of `game.py`;
- the networked server of `server.py`.

A cell holds `0` while empty (`Board.Cell.Empty`) and otherwise the string stored in it (`Board.Cell.Mark`). Cells are addressed as `grid[y][x]`. `get_mouse` is the move rule. It marks an empty cell for "X" or "O" and records in `switch_player` whether the cell was empty.

The local game passes the turn only after an accepted move. A click at pixel `(px, py)` targets cell `(px // 200, py // 200)`.

The server plays "X". It acts on a left click only when three things hold:

- a client is connected;
- `turn` is set;
- the game is not over.

After acting on a click, the server sends `"{x}-{y}-yourturn-{playing}"` and gives up the turn. A received message is split on `'-'`. It takes the turn back on `yourturn`, ends the game on `False`, and places an "O" on an empty cell.

Modules:

- `Outcomes`: the Python exceptions that can be raised (`ValueError`, `IndexError`, `AttributeError`), with `Result` and `Option`.
- `Board`: `grid.py`.
- `LocalGame`: `game.py`.
- `Protocol`: the message text, built from three Python behaviours:
  - `str.split('-')` and `'-'.join`;
  - `str()` of a non-negative integer;
  - `int()` of a message field. It accepts surrounding whitespace, an optional `+` and digits grouped by single underscores.
- `Server`: `server.py`, as a sequential state machine over an explicit `State`. `turn`, `playing` and `game_over` are fields of that state. The event types are:
  - `Accept`: a client connects;
  - `Click`: a left click;
  - `Message`: one message handed to the receiving loop;
  - `SpaceKey`: the space key.

Calls into pygame and sockets are replaced by these events and by the `sent` part of a step's result.

## Model

| member | source | states |
|---|---|---|
| Board.New | grid.py:10-18 | A new grid is 3x3, every cell is `0`, `switch_player` is True, and nothing is filled |
| Board.Get | grid.py:33-34 | `get_cell_value(x, y)` reads column `x` of row `y`, which is entry `3*y + x` of the row-by-row order `draw` visits |
| Board.Flat | grid.py:26-27 | The row-by-row view has nine entries, and entry `3*y + x` is `grid[y][x]` |
| Board.Set | grid.py:36-37 | After `set_cell_value(x, y, v)`, cell `(x, y)` reads `v`, every other cell is unchanged, and `switch_player` is untouched |
| Board.GetMouse | grid.py:39-47 | Both directions: `switch_player` is set exactly when the target cell was empty. An empty cell gets "X" or "O" when the player is "X" or "O". For any other player, or for an occupied cell, the board is unchanged. Other cells never change |
| Board.FlatOfSet | grid.py:36-37 | Writing one cell replaces exactly entry `3*y + x` of the row-by-row view |
| Board.CountOfSet | grid.py:36-37 | Writing `v` over a cell moves one unit of count from the old value to `v` and leaves every other count alone |
| Board.AllEmpty | grid.py:16 | A board of empty cells has no filled cell and no mark of any kind |
| Board.GetMouseExtends | grid.py:39-47 | `get_mouse` never overwrites a filled cell |
| Board.GetMouseFilled | grid.py:39-47 | The number of filled cells never decreases and grows by at most one. It grows exactly when the cell was empty and the player is "X" or "O" |
| Board.GetMouseKeepsMarks | grid.py:39-45 | If every cell is `0`, "X" or "O" before a `get_mouse`, that still holds afterwards, whatever the player argument |
| LocalGame.Opponent | game.py:28-31 | The next player is always "X" or "O". After "X" comes "O" and after "O" comes "X" |
| LocalGame.Start | game.py:13-17 | The game starts on an empty board with "X" to move |
| LocalGame.CellIndex | game.py:26 | `p // 200` (the 600-pixel window is set at game.py line 10) is the band `i` with `200*i <= p < 200*(i+1)`. Inside the 600-pixel window it lies in 0..2 |
| LocalGame.Click | game.py:24-31 | A click applies `get_mouse` to the clicked cell for the current player. The player changes exactly when the cell was empty, and then to the opponent |
| LocalGame.Run | game.py:19-31 | Over any sequence of clicks no mark is overwritten. The number of filled cells never falls and grows by at most one per click |
| LocalGame.EmptyBalanced | game.py:13-17 | An empty board with "X" to move is balanced: equal counts of "X" and "O", and only marks on the board |
| LocalGame.ClickBalanced | game.py:24-31 | A click preserves the invariant. The player is "X" when the counts are equal and "O" when "X" leads by one, and the board holds only marks |
| LocalGame.RunBalanced | game.py:19-31 | Every click sequence from a balanced game stays balanced |
| LocalGame.PlayFromEmpty | game.py:13-31 | From an empty board with "X" to move, the player is always "X" or "O", and the count of "X" minus the count of "O" stays in {0, 1} |
| Protocol.Split | server.py:30 | `split('-')` gives at least one field. No field contains `'-'`, and joining the fields with `'-'` gives back the message |
| Protocol.SplitPrefix | server.py:30 | Splitting `w + t` for a separator-free `w` puts `w` in front of the first field of `t` |
| Protocol.SplitJoin | server.py:30 | Splitting undoes joining separator-free fields (the other direction of the round trip) |
| Protocol.SplitCount | server.py:30 | `split('-')` yields one field more than the message has `'-'` characters |
| Protocol.Decimal | server.py:72 | `str(n)` is a non-empty string of digits without a leading zero |
| Protocol.DecimalValue | server.py:72 | The digits of `str(n)` denote `n` |
| Protocol.ParseInt | server.py:31 | `int(field)` fails only with ValueError, and an empty field always fails. An accepted field holds nothing but digits, underscores, `+` and whitespace, and its value is the number its digits denote |
| Protocol.ParseLiteral | server.py:31 | Every literal is accepted: whitespace, an optional `+`, digits grouped by single underscores, then whitespace. Its value is the number its digits denote |
| Protocol.ParsedShape | server.py:31 | Every accepted field is such a literal, and its value is the number the literal's digits denote. With `ParseLiteral` this makes acceptance an if-and-only-if |
| Protocol.Untrimmed | server.py:31 | A field without surrounding whitespace is accepted exactly when, after an optional leading `+`, it is a digit group |
| Protocol.RejectedUnderscores | server.py:31 | `int()` refuses `_1`, `1_` and `1__0` with ValueError: underscores only separate digits, one at a time |
| Protocol.RejectedSpaceAndSign | server.py:31 | `int()` refuses `1 2`, `+` and `1+` with ValueError: no whitespace inside the digits, and a sign needs digits after it |
| Protocol.ParsedPieces | server.py:31 | An accepted field is whitespace, an optional `+`, digits grouped by single underscores, and whitespace. Its digits are exactly those of the group |
| Protocol.StrayCharacterRejected | server.py:31 | A field holding any character other than a digit, `_`, `+` or whitespace raises ValueError |
| Protocol.FileSeparatorRejected | server.py:31 | `int('\x1c1')` raises ValueError: the ASCII information separators U+001C..U+001F are not whitespace to `int()` |
| Protocol.PlayingText | server.py:58 | The `playing` text is `True` or `False`, `True` exactly when the flag holds, and it contains no `'-'` |
| Protocol.ParseDigits | server.py:31 | `int()` of a plain digit string is the number those digits denote |
| Protocol.ParseDecimal | server.py:31 | `int(str(n)) == n` |
| Protocol.Encode | server.py:72 | The sent message is the four fields `str(x)`, `str(y)`, `yourturn` and `playing`, joined by `'-'` |
| Protocol.Coordinates | server.py:31 | The coordinates parse exactly when there are at least two fields and both parse. Evaluation runs left to right: a bad first field raises ValueError before the second is looked up. A missing second field then raises IndexError, and a bad second field raises ValueError |
| Protocol.Decode | server.py:30-34 | A message decodes exactly when it has at least four fields and numeric first two fields. Fields 2 and 3 are kept verbatim. A rejected message raises what the coordinates raise, or else IndexError for a missing field |
| Protocol.SplitEncode | server.py:30 | A sent message splits back into its four fields |
| Protocol.DecimalCoordinates | server.py:31 | Fields starting with `str(x)` and `str(y)` give the coordinates `(x, y)` |
| Protocol.EncodeDecode | server.py:30-31 | Round trip: decoding an encoded move gives back `x`, `y`, `yourturn` and the `playing` text, for every `x`, `y`, with messages formatted as at server.py line 72 |
| Server.Init | server.py:49-58 | The server starts on an empty board with `turn` and `playing` True, the game not over, and no client |
| Server.ClickEnabled | server.py:64-66 | A click is acted on exactly when a client is connected and the guard `turn and not grid.game_over` evaluates to True with `game_over` holding the current flag |
| Server.FinishClick | server.py:70-74 | After the move, `playing` is True exactly when it was True and the game is not over. The turn passes to the client. The text sent is exactly `'{x}-{y}-yourturn-{playing}'` with the new `playing`, and it decodes to the clicked cell and that `playing` |
| Server.LocalClick | server.py:64-74 | A click is ignored unless a client is connected, `turn` holds and the game is not over. Otherwise it applies `get_mouse` for "X". `turn` becomes False whether or not the cell was empty. The text sent is exactly `'{x}-{y}-yourturn-{playing}'` for the clicked cell, and it decodes back to that cell |
| Server.Raise | server.py:28-37 | An exception raised in the receiving loop ends it: the link records the exception, and the board, `turn`, `playing` and `game_over` keep what the message had already set |
| Server.PlaceNought | server.py:36-37 | A received move places "O" only on an empty cell. Otherwise the board is unchanged, and no other cell changes |
| Server.Receive | server.py:29-37 | A received message only adds "O" marks on empty cells and never touches `playing`. It sets `turn` exactly when field 2 is `yourturn` and the coordinates parsed, or when `turn` was already set. It never clears `game_over`. An exception stops the receiving loop |
| Server.ReceiveDecodes | server.py:29-37 | The statement-by-statement reading agrees with `Decode`. A rejected message raises the same exception and leaves the board and `game_over` alone. A decoded move sets `turn` on `yourturn` and `game_over` on `False`, then places "O" on an empty in-range cell. An off-board cell raises IndexError |
| Server.ShortMessageTakesTurn | server.py:31-34 | A message such as `1-2-yourturn`, with only three fields, sets `turn` before IndexError is raised for field 3 |
| Server.PressSpace | server.py:76-80 | The space key resets `game_over` to False and `playing` to True, and installs the cleared board, only when the game is over. Otherwise nothing changes |
| Server.Step | server.py:60-80 | Each event does what its handler does. `Accept` takes a waiting server to listening, as the connection thread does at server.py lines 42-45. A click is `LocalClick`, a message read while listening is `Receive`, and the space key is `PressSpace`. Only a click sends anything. A message is ignored unless the receiving loop runs, and a click before any client connects is ignored. A connected server never returns to waiting, and a stopped receiving loop stays stopped |
| Server.Run | server.py:60-80 | Over any sequence of events, once a client has connected the server never waits for one again. A sequence holding an `Accept` always ends connected, and once the receiving loop has died no later message revives it |
| Server.ClickReachesPeer | server.py:68-72 | The move sent for a processed click decodes on the other side to the clicked cell, inside the board |
| Server.RunExtends | server.py:36-37 | Without a space key, no sequence of events overwrites a mark |
| Server.RunKeepsPlaying | server.py:70-71 | In a sequential run, `playing` stays True |
| Server.TurnReturnsOnlyByMessage | server.py:32-33 | Once the turn has passed to the client, only a received message with `yourturn` in field 2 gives it back |
| Server.ClickGuardAsWritten | server.py:66 | As written, `turn and not grid.game_over` raises AttributeError exactly when `turn` holds and the attribute was never assigned. It admits a click exactly when `turn` holds and the attribute holds False |
| Server.FirstClickRaisesAsWritten | grid.py:10-18 | As written, the first click on a fresh server raises AttributeError |
| Server.SpaceGuardAsWritten | server.py:77 | As written, `event.key == pygame.K_SPACE and grid.game_over` raises AttributeError exactly when the key is space and the attribute was never assigned. It starts a new round exactly when the key is space and the attribute holds True |
| Server.SpaceRaisesAsWritten | server.py:77 | As written, the space key on a fresh server raises AttributeError, while the corrected model starts with `game_over` False |
| Server.SpaceBeforeGameOverIgnored | server.py:76-80 | With `game_over` starting False, the space key before any game has ended changes nothing and sends nothing |
| Server.FirstClickAccepted | server.py:64-74 | With `game_over` starting False, the first click after a client connects places "X" and sends the move |

## Left out

- Rendering: `Grid.draw` and the image loads, and `print_grid`. These are pygame drawing and console output. The row-by-row order `draw` visits is kept only as `Board.Flat`.
- pygame windows, event polling, and the mouse-button test `get_pressed()[0]`. A `Click` event stands for a left click reported inside the 600x600 window. The QUIT and Escape handling only stops the loop.
- Sockets and threads: `bind`, `listen`, `accept`, `send`, `recv` and the daemon thread.
  - `Accept` stands for the connection being accepted.
  - A `Message` event is one `recv` result, already decoded as text. TCP may merge or split messages, and invalid UTF-8 raises in `.decode()`. Neither is modelled.
  - The receiving loop runs one whole message per step. The receiving thread could set `game_over` between the check at server.py:66 and the test at server.py:70. The model does not interleave there, which is why `Server.RunKeepsPlaying` holds in it.
- menu.py and the widget toolkit under `Python 3.10/`. They only build menus with a library that is not part of this model.
- Server.PressSpace: grid.py defines no `clear_grid`. So the board it leaves is a parameter of the space-key event rather than an invented semantics. As written, the call would also raise AttributeError.
- Board.Get: coordinates must lie in 0..2. Python's negative-index wrap-around is not modelled. In the modelled paths it cannot arise:
  - clicks come from the window;
  - received coordinates cannot carry a `'-'` sign, because the message is split on `'-'`.
- Protocol.ParseInt: only ASCII digits are accepted. Python's `int()` also accepts other Unicode decimal digits. Whitespace is tab, line feed, vertical tab, form feed, carriage return and space, plus the non-ASCII characters `str.isspace` accepts. The ASCII information separators U+001C..U+001F count as `str.isspace` whitespace but not as `int()` whitespace, and the model follows `int()`. Python 3.10.7 and later refuse a decimal string of more than 4300 digits. A 1024-byte `recv` cannot carry such a field, but the model does not bound the text of a `Message`, so it accepts numerals of any length.
- Board.GetMouse: a cell holds either `0` or a string. Python's `== 0` would also treat `False` or `0.0` as empty, but no script stores such values.
- Server.Init: `game_over` starts as False. Until a received message carries `False` in field 3 (server.py lines 34-35), nothing assigns it, so a click or space key before that reads an unassigned attribute (see Findings).
- Win and draw detection: none exists in the scripts.

## Findings

| source | as written | input that shows it | evidently intended | confidence | as-written member | corrected member |
|---|---|---|---|---|---|---|
| server.py:66 | `grid.game_over` is read, but `Grid.__init__` (grid.py:10-18) never assigns it. Only a received message with `False` in field 3 assigns it, and then only to True | The first left click after a client connects, with `turn` still True and no message with `False` in field 3 received yet | `game_over` starts as False, so the first click is acted on | high (not executed) | Server.ClickGuardAsWritten | Server.FirstClickAccepted |
| server.py:77 | The space-key test reads `grid.game_over` as well, so it raises AttributeError for the same reason | The space key pressed before any received message has ended a game | `game_over` starts as False, so the key is ignored until a game is over | high (not executed) | Server.SpaceRaisesAsWritten | Server.SpaceBeforeGameOverIgnored |
