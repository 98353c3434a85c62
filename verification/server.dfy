/** The networked variant of `server.py`, as sequential transitions over an explicit state:
    local clicks by "X", moves received from the client (placed as "O"), and the space key
    that starts a new round once the game is over. */
module Server {
  import opened Outcomes
  import opened Board
  import opened Protocol
  import LocalGame

  /** The server always plays "X". */
  const ServerPlayer: string := "X"

  /** The connection as the receiving thread sees it: no client accepted yet, reading
      messages, or stopped by the exception a message raised. */
  datatype Link = Waiting | Listening | Stopped(fault: Fault)

  /** The module-level variables the event loop and the receiving thread share; `playing`
      is the string 'True' or 'False' held as a boolean. */
  datatype State = State(grid: Grid, turn: bool, playing: bool, gameOver: bool, link: Link)

  /** What a step leaves behind: the new state and the message sent to the client, if any. */
  datatype Reaction = Reaction(state: State, sent: Option<string>)

  /** The events the loop and the receiving thread react to. `SpaceKey` carries the board
      `grid.clear_grid()` leaves, a method not defined in grid.py. */
  datatype Event = Accept | Click(px: int, py: int) | Message(text: string) | SpaceKey(cleared: Grid)

  ghost predicate ValidEvent(e: Event) {
    match e
    case Click(px, py) => LocalGame.InWindow(px, py)
    case SpaceKey(cleared) => WellFormed(cleared)
    case _ => true
  }

  /** The state before the first event: an empty board, the server to move, `playing` 'True',
      the game not over, no client yet. */
  function Init(): (s: State)
    ensures WellFormed(s.grid) && forall x, y :: InRange(x, y) ==> Get(s.grid, x, y) == Empty
    ensures s.turn && s.playing && !s.gameOver && s.link == Waiting
  {
    State(New(), true, true, false, Waiting)
  }

  /** Whether a left click is acted on: a client is connected, it is the server's turn and the
      game is not over. */
  predicate ClickEnabled(s: State)
    ensures ClickEnabled(s) <==>
      s.link != Waiting && ClickGuardAsWritten(s.turn, Assigned(s.gameOver)) == Ok(true)
  {
    s.link != Waiting && s.turn && !s.gameOver
  }

  /** The rest of a processed click once the move is made: `playing` drops to 'False' if the
      game is over by now, the move is sent, and the turn passes to the client. */
  function FinishClick(s: State, x: nat, y: nat): (r: Reaction)
    ensures !r.state.turn
    ensures r.state.playing <==> s.playing && !s.gameOver
    ensures r.sent == Some(Encode(x, y, r.state.playing))
    ensures Decode(r.sent.value) == Ok(Move(x, y, YourTurn, PlayingText(r.state.playing)))
    ensures r.state.grid == s.grid && r.state.gameOver == s.gameOver && r.state.link == s.link
  {
    var playing := if s.gameOver then false else s.playing;
    EncodeDecode(x, y, playing);
    Reaction(s.(playing := playing, turn := false), Some(Encode(x, y, playing)))
  }

  /** A left click at pixel `(px, py)`. */
  function LocalClick(s: State, px: int, py: int): (r: Reaction)
    requires WellFormed(s.grid) && LocalGame.InWindow(px, py)
    ensures WellFormed(r.state.grid)
    ensures !ClickEnabled(s) ==> r == Reaction(s, None)
    ensures ClickEnabled(s) ==>
      var x, y := LocalGame.CellIndex(px), LocalGame.CellIndex(py);
      && !r.state.turn
      && r.state.playing == s.playing
      && r.state.grid == GetMouse(s.grid, x, y, ServerPlayer)
      && r.sent == Some(Encode(x, y, s.playing))
      && Decode(r.sent.value) == Ok(Move(x, y, YourTurn, PlayingText(s.playing)))
    ensures r.state.gameOver == s.gameOver && r.state.link == s.link
  {
    if ClickEnabled(s) then
      var x, y := LocalGame.CellIndex(px), LocalGame.CellIndex(py);
      FinishClick(s.(grid := GetMouse(s.grid, x, y, ServerPlayer)), x, y)
    else
      Reaction(s, None)
  }

  /** The exception `f` ends the receiving thread; the variables keep what the message
      had already set. */
  function Raise(s: State, f: Fault): (r: State)
    ensures r.link == Stopped(f)
    ensures r.grid == s.grid && r.turn == s.turn && r.playing == s.playing && r.gameOver == s.gameOver
  {
    s.(link := Stopped(f))
  }

  /** `if grid.get_cell_value(x, y) == 0: grid.set_cell_value(x, y, 'O')`. */
  function PlaceNought(s: State, x: int, y: int): (r: State)
    requires WellFormed(s.grid) && InRange(x, y)
    ensures WellFormed(r.grid)
    ensures Get(s.grid, x, y) == Empty ==> Get(r.grid, x, y) == NoughtCell
    ensures Get(s.grid, x, y) != Empty ==> r.grid == s.grid
    ensures forall i, j :: InRange(i, j) && (i, j) != (x, y) ==> Get(r.grid, i, j) == Get(s.grid, i, j)
    ensures r == s.(grid := r.grid)
    ensures OnlyNoughtsAdded(s.grid, r.grid)
  {
    if Get(s.grid, x, y) == Empty then s.(grid := Set(s.grid, x, y, NoughtCell)) else s
  }

  /** One pass of the receiving loop over a message, statement by statement: parse the two
      coordinates, take the turn on 'yourturn', mark the game over on 'False', then place an
      "O" on the cell if it is empty. Any exception stops the loop where it was raised. */
  function Receive(s: State, msg: string): (r: State)
    requires WellFormed(s.grid)
    ensures WellFormed(r.grid)
    ensures OnlyNoughtsAdded(s.grid, r.grid)
    ensures r.playing == s.playing
    ensures r.turn <==> s.turn || (|Split(msg)| >= 3 && Split(msg)[2] == YourTurn && Coordinates(Split(msg)).Ok?)
    ensures s.gameOver ==> r.gameOver
    ensures r.link == s.link || r.link.Stopped?
  {
    var fields := Split(msg);
    match Coordinates(fields)
    case Err(f) => Raise(s, f)
    case Ok((x, y)) =>
      if |fields| < 3 then Raise(s, IndexError)
      else
        var s1 := if fields[2] == YourTurn then s.(turn := true) else s;
        if |fields| < 4 then Raise(s1, IndexError)
        else
          var s2 := if fields[3] == "False" then s1.(gameOver := true) else s1;
          if !InRange(x, y) then Raise(s2, IndexError) else PlaceNought(s2, x, y)
  }

  /** `h` differs from `g` only where `g` was empty and `h` holds an "O". */
  ghost predicate OnlyNoughtsAdded(g: Grid, h: Grid)
    requires WellFormed(g) && WellFormed(h)
  {
    forall x, y :: InRange(x, y) && h.rows[y][x] != g.rows[y][x] ==>
      g.rows[y][x] == Empty && h.rows[y][x] == NoughtCell
  }

  /** The space key starts a new round, but only once the game is over. */
  function PressSpace(s: State, cleared: Grid): (r: State)
    ensures s.gameOver ==> r.grid == cleared && !r.gameOver && r.playing
    ensures !s.gameOver ==> r == s
    ensures r.turn == s.turn && r.link == s.link
  {
    if s.gameOver then s.(grid := cleared, gameOver := false, playing := true) else s
  }

  /** One event. A message is read only while the receiving thread runs; a second
      `accept` never happens. */
  function Step(s: State, e: Event): (r: Reaction)
    requires WellFormed(s.grid) && ValidEvent(e)
    ensures WellFormed(r.state.grid)
    ensures r.sent.Some? ==> e.Click?
    ensures e.Message? && s.link != Listening ==> r.state == s
    ensures e.Click? && s.link == Waiting ==> r == Reaction(s, None)
    ensures s.link != Waiting ==> r.state.link != Waiting
    ensures s.link.Stopped? ==> r.state.link == s.link
    ensures e.Accept? ==> r == Reaction(if s.link == Waiting then s.(link := Listening) else s, None)
    ensures e.Click? ==> r == LocalClick(s, e.px, e.py)
    ensures e.Message? && s.link == Listening ==> r == Reaction(Receive(s, e.text), None)
    ensures e.SpaceKey? ==> r == Reaction(PressSpace(s, e.cleared), None)
  {
    match e
    case Accept => Reaction(if s.link == Waiting then s.(link := Listening) else s, None)
    case Click(px, py) => LocalClick(s, px, py)
    case Message(text) => Reaction(if s.link == Listening then Receive(s, text) else s, None)
    case SpaceKey(cleared) => Reaction(PressSpace(s, cleared), None)
  }

  /** The events in order; the state after the last one. */
  function Run(s: State, events: seq<Event>): (r: State)
    requires WellFormed(s.grid)
    requires forall k :: 0 <= k < |events| ==> ValidEvent(events[k])
    ensures WellFormed(r.grid)
    ensures s.link != Waiting ==> r.link != Waiting
    ensures s.link.Stopped? ==> r.link == s.link
    ensures Accept in events ==> r.link != Waiting
    decreases |events|
  {
    if events == [] then s else Run(Step(s, events[0]).state, events[1..])
  }

  /** A received message agrees with `Decode`: a message `Decode` rejects raises the same
      exception and leaves the board and the game-over flag alone; a decoded move takes the
      turn on 'yourturn', ends the game on 'False', and places an "O" on an empty cell in
      range, while a cell off the board raises IndexError. */
  lemma ReceiveDecodes(s: State, msg: string)
    requires WellFormed(s.grid)
    ensures Decode(msg).Err? ==>
      var r := Receive(s, msg);
      r.link == Stopped(Decode(msg).fault) && r.grid == s.grid && r.gameOver == s.gameOver
    ensures Decode(msg).Ok? ==>
      var m, r := Decode(msg).value, Receive(s, msg);
      && r.turn == (s.turn || m.turnField == YourTurn)
      && r.gameOver == (s.gameOver || m.playingField == "False")
      && (InRange(m.x, m.y) ==>
            r.link == s.link
            && r.grid == (if Get(s.grid, m.x, m.y) == Empty then Set(s.grid, m.x, m.y, NoughtCell) else s.grid))
      && (!InRange(m.x, m.y) ==> r.link == Stopped(IndexError) && r.grid == s.grid)
  {
    var fields := Split(msg);
    match Coordinates(fields)
    case Err(f) =>
      assert Decode(msg) == Err(f);
    case Ok((x, y)) =>
      if |fields| < 4 {
        assert Decode(msg) == Err(IndexError);
        assert Receive(s, msg).grid == s.grid;
      } else {
        assert Decode(msg) == Ok(Move(x, y, fields[2], fields[3]));
      }
  }

  /** A message cut short after 'yourturn', such as "1-2-yourturn", hands the turn over
      before the missing fourth field raises IndexError and stops the receiving thread. */
  lemma ShortMessageTakesTurn(s: State, msg: string, x: nat, y: nat)
    requires WellFormed(s.grid)
    requires Split(msg) == [Decimal(x), Decimal(y), YourTurn]
    ensures var r := Receive(s, msg);
      r.turn && r.link == Stopped(IndexError) && r.grid == s.grid && r.gameOver == s.gameOver
  {
    var fields := Split(msg);
    DecimalCoordinates(fields, x, y);
    assert Receive(s, msg) == Raise(s.(turn := true), IndexError);
  }

  /** The move the server sends is the one the client receives: decoding it on the other
      side yields the clicked cell. */
  lemma ClickReachesPeer(s: State, px: int, py: int)
    requires WellFormed(s.grid) && LocalGame.InWindow(px, py) && ClickEnabled(s)
    ensures var r := LocalClick(s, px, py);
      && r.sent.Some?
      && Decode(r.sent.value).Ok?
      && InRange(Decode(r.sent.value).value.x, Decode(r.sent.value).value.y)
      && Decode(r.sent.value).value.x == LocalGame.CellIndex(px)
      && Decode(r.sent.value).value.y == LocalGame.CellIndex(py)
  {
  }

  /** Without a new round, no event erases or replaces a mark on the board. */
  lemma {:induction false} RunExtends(s: State, events: seq<Event>)
    requires WellFormed(s.grid)
    requires forall k :: 0 <= k < |events| ==> ValidEvent(events[k]) && !events[k].SpaceKey?
    ensures Extends(s.grid, Run(s, events).grid)
    decreases |events|
  {
    if events != [] {
      var t := Step(s, events[0]).state;
      assert Extends(s.grid, t.grid) by {
        match events[0]
        case Click(px, py) =>
          if ClickEnabled(s) {
            GetMouseExtends(s.grid, LocalGame.CellIndex(px), LocalGame.CellIndex(py), ServerPlayer);
          }
        case _ =>
      }
      RunExtends(t, events[1..]);
    }
  }

  /** In a sequential run `playing` never drops to 'False': a click is acted on only while the
      game is not over, and nothing else clears the flag. The 'False' branch is reachable only
      if the receiving thread sets the game over between the check and the send. */
  lemma {:induction false} RunKeepsPlaying(s: State, events: seq<Event>)
    requires WellFormed(s.grid) && s.playing
    requires forall k :: 0 <= k < |events| ==> ValidEvent(events[k])
    ensures Run(s, events).playing
    decreases |events|
  {
    if events != [] {
      RunKeepsPlaying(Step(s, events[0]).state, events[1..]);
    }
  }

  /** Only a received message whose third field is 'yourturn' gives the turn back. */
  lemma TurnReturnsOnlyByMessage(s: State, e: Event)
    requires WellFormed(s.grid) && ValidEvent(e) && !s.turn
    ensures Step(s, e).state.turn ==> e.Message? && |Split(e.text)| >= 3 && Split(e.text)[2] == YourTurn
  {
  }

  /** What `grid.game_over` holds: `Grid.__init__` in grid.py never assigns it. */
  datatype Attribute = Unassigned | Assigned(value: bool)

  /** The click guard `turn and not grid.game_over` as written, where reading an attribute
      never assigned raises; `and` reads the attribute only when `turn` holds. */
  function ClickGuardAsWritten(turn: bool, gameOver: Attribute): (r: Result<bool>)
    ensures r.Err? <==> turn && gameOver == Unassigned
    ensures r.Err? ==> r.fault == AttributeError
    ensures r == Ok(true) <==> turn && gameOver == Assigned(false)
  {
    if !turn then Ok(false)
    else
      match gameOver
      case Unassigned => Err(AttributeError)
      case Assigned(over) => Ok(!over)
  }

  /** The space-key guard `event.key == pygame.K_SPACE and grid.game_over` as written;
      `and` reads the attribute only for the space key. */
  function SpaceGuardAsWritten(space: bool, gameOver: Attribute): (r: Result<bool>)
    ensures r.Err? <==> space && gameOver == Unassigned
    ensures r.Err? ==> r.fault == AttributeError
    ensures r == Ok(true) <==> space && gameOver == Assigned(true)
  {
    if !space then Ok(false)
    else
      match gameOver
      case Unassigned => Err(AttributeError)
      case Assigned(over) => Ok(over)
  }

  /** As written, the space key on a fresh server raises: nothing has assigned
      `grid.game_over` yet. */
  lemma SpaceRaisesAsWritten()
    ensures SpaceGuardAsWritten(true, Unassigned) == Err(AttributeError)
    ensures !Init().gameOver
  {
  }

  /** With the game-over flag starting False, the space key before any game has ended
      leaves everything as it was. */
  lemma SpaceBeforeGameOverIgnored(cleared: Grid, accepted: bool)
    requires WellFormed(cleared)
    ensures var s := if accepted then Step(Init(), Accept).state else Init();
      Step(s, SpaceKey(cleared)) == Reaction(s, None)
  {
  }

  /** As written, the first click on a fresh server raises instead of placing a mark: the
      turn starts True and nothing has assigned `grid.game_over` yet. */
  lemma FirstClickRaisesAsWritten()
    ensures ClickGuardAsWritten(Init().turn, Unassigned) == Err(AttributeError)
  {
  }

  /** With the game-over flag starting False, the first click after a client connects is
      acted on: the mark is placed and the move is sent. */
  lemma FirstClickAccepted(px: int, py: int)
    requires LocalGame.InWindow(px, py)
    ensures var s := Step(Init(), Accept).state;
      var r := Step(s, Click(px, py));
      && r.sent.Some?
      && Get(r.state.grid, LocalGame.CellIndex(px), LocalGame.CellIndex(py)) == CrossCell
  {
    var s := Step(Init(), Accept).state;
    assert s == Init().(link := Listening);
    assert ClickEnabled(s);
    assert Get(s.grid, LocalGame.CellIndex(px), LocalGame.CellIndex(py)) == Empty;
  }
}
