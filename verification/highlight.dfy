/**
 The board-highlight resource of the graphical client: one slot per cell of
 the 8x8 board, holding the cell's highlight colour, and a queue of pending
 requests that the per-frame system drains and applies.

 Colours and entities are only compared for equality, so both are abstract
 here. The startup system spawns a new entity for every cell, so distinct
 slots own distinct sprites; each sprite's visibility and material colour
 are therefore modelled as fields of its slot.
 */
module BoardHighlight {
  import opened Wrappers

  type Color(==)
  type Entity(==)

  newtype u8 = x: int | 0 <= x < 256

  /** A cell position (x, y) as the client passes it. */
  type Pos = (u8, u8)

  /** Cells on a side of the board, and cells in all. */
  const Side: nat := 8
  const Cells: nat := Side * Side

  datatype HighlightCommand =
    | Highlight(pos: Pos, color: Color)
    | Clear(pos: Pos)
    | ClearAll

  /** One cell's sprite and the colour it is highlighted with, if any. */
  datatype Slot = Slot(entity: Entity, color: Option<Color>, visible: bool, material: Color)

  /** The resource: the slots and the pending requests. */
  datatype HighlightState = HighlightState(data: seq<Slot>, commands: seq<HighlightCommand>)

  predicate OnBoard(pos: Pos)
  {
    pos.0 as nat < Side && pos.1 as nat < Side
  }

  /** The slot index of a cell: row-major in x. */
  function PosToIndex(pos: Pos): (i: nat)
    ensures OnBoard(pos) ==> i < Cells
  {
    pos.0 as nat * Side + pos.1 as nat
  }

  /** The cell a slot index belongs to: the inverse of `PosToIndex` on the board. */
  function IndexToPos(i: nat): (pos: Pos)
    requires i < Cells
    ensures OnBoard(pos)
  {
    ((i / Side) as u8, (i % Side) as u8)
  }

  /** On the board, the index mapping is a bijection onto 0..64. */
  lemma PosToIndexBijection(pos: Pos, i: nat)
    ensures OnBoard(pos) ==> IndexToPos(PosToIndex(pos)) == pos
    ensures i < Cells ==> PosToIndex(IndexToPos(i)) == i
  {
  }

  /** Off the board the mapping is not injective: a byte position with a
      column past 7 lands on a cell of the next row. */
  lemma PosToIndexAliases()
    ensures PosToIndex((0, 9)) == PosToIndex((1, 1))
  {
  }

  /** The resource as the plugin installs it, before the startup system runs. */
  function Build(): (h: HighlightState)
    ensures |h.data| == 0 && |h.commands| == 0
  {
    HighlightState([], [])
  }

  /** Queues a request to highlight `pos` with `color`. */
  function RequestHighlight(h: HighlightState, pos: Pos, color: Color): (h': HighlightState)
    ensures h'.data == h.data
    ensures |h'.commands| == |h.commands| + 1
    ensures h'.commands[..|h.commands|] == h.commands
    ensures h'.commands[|h.commands|] == Highlight(pos, color)
  {
    h.(commands := h.commands + [Highlight(pos, color)])
  }

  /** Queues a request to clear `pos`. */
  function RequestClear(h: HighlightState, pos: Pos): (h': HighlightState)
    ensures h'.data == h.data
    ensures |h'.commands| == |h.commands| + 1
    ensures h'.commands[..|h.commands|] == h.commands
    ensures h'.commands[|h.commands|] == Clear(pos)
  {
    h.(commands := h.commands + [Clear(pos)])
  }

  /** Drops every pending request and queues a single clear-all. */
  function RequestClearAll(h: HighlightState): (h': HighlightState)
    ensures h'.data == h.data
    ensures h'.commands == [ClearAll]
  {
    h.(commands := [ClearAll])
  }

  /** A slot is shown exactly when it holds a colour, and then its material
      has that colour. */
  predicate SlotConsistent(s: Slot)
  {
    (s.visible <==> s.color.Some?) && (s.color.Some? ==> s.material == s.color.value)
  }

  predicate Consistent(data: seq<Slot>)
  {
    forall i :: 0 <= i < |data| ==> SlotConsistent(data[i])
  }

  /** The startup system: spawns a hidden sprite per cell, x outer and y
      inner, each with the initial material, and records it with no colour.
      `spawn` is the entity the world hands out for a cell. */
  method Setup(spawn: Pos -> Entity, initial: Color) returns (h: HighlightState)
    ensures h.commands == []
    ensures |h.data| == Cells
    ensures forall x: u8, y: u8 :: x < 8 && y < 8 ==>
              h.data[PosToIndex((x, y))] == Slot(spawn((x, y)), None, false, initial)
    ensures Consistent(h.data)
  {
    h := Build();
    var x: u8 := 0;
    while x < 8
      invariant x <= 8
      invariant h.commands == []
      invariant |h.data| == x as nat * 8
      invariant forall i :: 0 <= i < |h.data| ==> h.data[i] == Slot(spawn(IndexToPos(i)), None, false, initial)
    {
      var y: u8 := 0;
      while y < 8
        invariant y <= 8
        invariant h.commands == []
        invariant |h.data| == x as nat * 8 + y as nat
        invariant forall i :: 0 <= i < |h.data| ==> h.data[i] == Slot(spawn(IndexToPos(i)), None, false, initial)
      {
        assert IndexToPos(|h.data|) == (x, y);
        h := h.(data := h.data + [Slot(spawn((x, y)), None, false, initial)]);
        y := y + 1;
      }
      x := x + 1;
    }
    forall x: u8, y: u8 | x < 8 && y < 8
      ensures h.data[PosToIndex((x, y))] == Slot(spawn((x, y)), None, false, initial)
    {
      PosToIndexBijection((x, y), 0);
    }
  }

  /** What clear-all does to one slot: a coloured slot loses its colour and is hidden. */
  function ClearSlot(s: Slot): Slot
  {
    if s.color == None then s else s.(color := None, visible := false)
  }

  function ClearAllSlots(data: seq<Slot>): (r: seq<Slot>)
    ensures |r| == |data|
    ensures forall i :: 0 <= i < |data| && data[i].color != None ==> !r[i].visible
    ensures forall i :: 0 <= i < |data| ==>
              r[i].color == None && r[i].entity == data[i].entity && r[i].material == data[i].material
    ensures forall i :: 0 <= i < |data| && data[i].color == None ==> r[i] == data[i]
  {
    seq(|data|, i requires 0 <= i < |data| => ClearSlot(data[i]))
  }

  /** Whether applying `cmd` to `n` slots stays within the slots. */
  predicate InBounds(cmd: HighlightCommand, n: nat)
  {
    match cmd
    case Highlight(pos, _) => PosToIndex(pos) < n
    case Clear(pos) => PosToIndex(pos) < n
    case ClearAll => true
  }

  /** Applies one request to the slots; `None` is the panic of an index
      past the end of the slots. */
  function Apply(data: seq<Slot>, cmd: HighlightCommand): (r: Option<seq<Slot>>)
    ensures r.Some? <==> InBounds(cmd, |data|)
    ensures r.Some? ==> |r.value| == |data|
  {
    match cmd
    case Highlight(pos, color) =>
      var i := PosToIndex(pos);
      if i >= |data| then None
      else if data[i].color == Some(color) then Some(data)
      else Some(data[i := data[i].(color := Some(color), visible := true, material := color)])
    case Clear(pos) =>
      var i := PosToIndex(pos);
      if i >= |data| then None
      else if data[i].color == None then Some(data)
      else Some(data[i := data[i].(color := None, visible := false)])
    case ClearAll =>
      Some(ClearAllSlots(data))
  }

  /** Highlighting sets the cell's colour, shows it with that colour and
      touches no other slot; a cell that already has that colour is left as
      it was. */
  lemma ApplyHighlight(data: seq<Slot>, pos: Pos, color: Color)
    requires PosToIndex(pos) < |data|
    ensures var r := Apply(data, Highlight(pos, color)).value;
      var i := PosToIndex(pos);
      && r[i].color == Some(color)
      && r[i].entity == data[i].entity
      && (data[i].color != Some(color) ==> r[i] == data[i].(color := Some(color), visible := true, material := color))
      && (Consistent(data) ==> r[i].visible && r[i].material == color)
      && (forall j :: 0 <= j < |data| && j != i ==> r[j] == data[j])
      && (data[i].color == Some(color) ==> r == data)
  {
  }

  /** Clearing removes the cell's colour, hides it and touches no other
      slot; the material is kept; a cell without a colour is left as it was. */
  lemma ApplyClear(data: seq<Slot>, pos: Pos)
    requires PosToIndex(pos) < |data|
    ensures var r := Apply(data, Clear(pos)).value;
      var i := PosToIndex(pos);
      && r[i].color == None
      && r[i].entity == data[i].entity
      && r[i].material == data[i].material
      && (data[i].color != None ==> r[i] == data[i].(color := None, visible := false))
      && (Consistent(data) ==> !r[i].visible)
      && (forall j :: 0 <= j < |data| && j != i ==> r[j] == data[j])
      && (data[i].color == None ==> r == data)
  {
  }

  /** Clearing everything twice is the same as clearing it once. */
  lemma ClearAllIdempotent(data: seq<Slot>)
    ensures Apply(Apply(data, ClearAll).value, ClearAll) == Apply(data, ClearAll)
  {
    var once := ClearAllSlots(data);
    assert ClearAllSlots(once) == once;
  }

  lemma ApplyKeepsConsistent(data: seq<Slot>, cmd: HighlightCommand)
    requires Consistent(data)
    requires InBounds(cmd, |data|)
    ensures Consistent(Apply(data, cmd).value)
  {
  }

  /** Applies the requests in queue order, stopping at the first panic. */
  function Run(data: seq<Slot>, cmds: seq<HighlightCommand>): Option<seq<Slot>>
    decreases |cmds|
  {
    if cmds == [] then Some(data)
    else match Apply(data, cmds[0])
      case None => None
      case Some(next) => Run(next, cmds[1..])
  }

  /** Draining a queue with one more request at its end is draining the
      queue and then applying that request. */
  lemma {:induction false} RunAppend(data: seq<Slot>, cmds: seq<HighlightCommand>, cmd: HighlightCommand)
    ensures Run(data, cmds + [cmd]) ==
              match Run(data, cmds)
              case None => None
              case Some(d) => Apply(d, cmd)
    decreases |cmds|
  {
    if cmds == [] {
      assert cmds + [cmd] == [cmd];
    } else {
      assert (cmds + [cmd])[0] == cmds[0];
      assert (cmds + [cmd])[1..] == cmds[1..] + [cmd];
      var next := Apply(data, cmds[0]);
      if next.Some? {
        RunAppend(next.value, cmds[1..], cmd);
      }
    }
  }

  /** A run panics exactly when some queued request falls outside the slots,
      and otherwise keeps the number of slots. */
  lemma {:induction false} RunPanicsIff(data: seq<Slot>, cmds: seq<HighlightCommand>)
    ensures Run(data, cmds).None? <==> exists k :: 0 <= k < |cmds| && !InBounds(cmds[k], |data|)
    ensures Run(data, cmds).Some? ==> |Run(data, cmds).value| == |data|
    decreases |cmds|
  {
    if cmds != [] {
      var next := Apply(data, cmds[0]);
      if next.Some? {
        RunPanicsIff(next.value, cmds[1..]);
        if exists k :: 0 <= k < |cmds| && !InBounds(cmds[k], |data|) {
          var k :| 0 <= k < |cmds| && !InBounds(cmds[k], |data|);
          assert cmds[1..][k - 1] == cmds[k];
        }
        assert forall k :: 0 <= k < |cmds| - 1 ==> cmds[1..][k] == cmds[k + 1];
      }
    }
  }

  /** Whether a request names a board cell, or no cell at all. */
  predicate OnBoardRequest(cmd: HighlightCommand)
  {
    cmd.ClearAll? || OnBoard(cmd.pos)
  }

  /** On a fully set-up board, requests for board cells never panic. */
  lemma RunOnBoardNeverPanics(data: seq<Slot>, cmds: seq<HighlightCommand>)
    requires |data| == Cells
    requires forall k :: 0 <= k < |cmds| ==> OnBoardRequest(cmds[k])
    ensures Run(data, cmds).Some?
  {
    RunPanicsIff(data, cmds);
  }

  /** Applying requests keeps every slot consistent. */
  lemma {:induction false} RunKeepsConsistent(data: seq<Slot>, cmds: seq<HighlightCommand>)
    requires Consistent(data)
    ensures Run(data, cmds).Some? ==> Consistent(Run(data, cmds).value)
    decreases |cmds|
  {
    if cmds != [] && InBounds(cmds[0], |data|) {
      ApplyKeepsConsistent(data, cmds[0]);
      RunKeepsConsistent(Apply(data, cmds[0]).value, cmds[1..]);
    }
  }

  /** A highlight request takes effect in the next frame: once the requests
      queued before it are applied, its cell holds the colour, and on a
      consistent board it is shown with that colour; every other slot is as
      the earlier requests left it. */
  lemma RequestHighlightTakesEffect(h: HighlightState, pos: Pos, color: Color)
    requires Run(h.data, h.commands).Some?
    requires PosToIndex(pos) < |h.data|
    ensures var before := Run(h.data, h.commands).value;
      var r := Run(h.data, RequestHighlight(h, pos, color).commands);
      var i := PosToIndex(pos);
      && |before| == |h.data|
      && r.Some?
      && |r.value| == |h.data|
      && r.value[i].color == Some(color)
      && (Consistent(h.data) ==> r.value[i].visible && r.value[i].material == color)
      && (forall j :: 0 <= j < |h.data| && j != i ==> r.value[j] == before[j])
  {
    RunAppend(h.data, h.commands, Highlight(pos, color));
    RunPanicsIff(h.data, h.commands);
    if Consistent(h.data) {
      RunKeepsConsistent(h.data, h.commands);
    }
    ApplyHighlight(Run(h.data, h.commands).value, pos, color);
  }

  /** A clear request takes effect in the next frame: once the requests
      queued before it are applied, its cell has no colour, and on a
      consistent board it is hidden; every other slot is as the earlier
      requests left it. */
  lemma RequestClearTakesEffect(h: HighlightState, pos: Pos)
    requires Run(h.data, h.commands).Some?
    requires PosToIndex(pos) < |h.data|
    ensures var before := Run(h.data, h.commands).value;
      var r := Run(h.data, RequestClear(h, pos).commands);
      var i := PosToIndex(pos);
      && |before| == |h.data|
      && r.Some?
      && |r.value| == |h.data|
      && r.value[i].color == None
      && (Consistent(h.data) ==> !r.value[i].visible)
      && (forall j :: 0 <= j < |h.data| && j != i ==> r.value[j] == before[j])
  {
    RunAppend(h.data, h.commands, Clear(pos));
    RunPanicsIff(h.data, h.commands);
    if Consistent(h.data) {
      RunKeepsConsistent(h.data, h.commands);
    }
    ApplyClear(Run(h.data, h.commands).value, pos);
  }

  /** With clearing on each frame, a highlight requested after the frame's
      clear-all was queued survives the next frame: its cell holds the
      colour and every other cell has none. */
  lemma HighlightSurvivesFrameClear(data: seq<Slot>, pos: Pos, color: Color)
    requires PosToIndex(pos) < |data|
    ensures var r := Run(data, [ClearAll, Highlight(pos, color)]);
      && r.Some?
      && |r.value| == |data|
      && r.value[PosToIndex(pos)].color == Some(color)
      && (forall j :: 0 <= j < |data| && j != PosToIndex(pos) ==> r.value[j].color == None)
  {
    var cleared := ClearAllSlots(data);
    assert Apply(data, ClearAll) == Some(cleared);
    assert [ClearAll, Highlight(pos, color)][1..] == [Highlight(pos, color)];
    RunAppend(cleared, [], Highlight(pos, color));
    assert [] + [Highlight(pos, color)] == [Highlight(pos, color)];
    ApplyHighlight(cleared, pos, color);
  }

  /** After a clear-all request, the next frame leaves every slot without a
      colour, whatever was queued before it. */
  lemma ClearAllDiscardsPending(h: HighlightState)
    ensures Run(RequestClearAll(h).data, RequestClearAll(h).commands) == Some(ClearAllSlots(h.data))
    ensures forall i :: 0 <= i < |h.data| ==> ClearAllSlots(h.data)[i].color == None
  {
  }

  /** The per-frame system: drains the queue, applying each request in
      order, then queues a clear-all for the next frame when the plugin is
      configured to clear on each frame. `None` is a panic on an index past
      the end of the slots. */
  method ApplyRequests(h: HighlightState, clearOnEachFrame: bool) returns (r: Option<HighlightState>)
    ensures r.None? <==> exists k :: 0 <= k < |h.commands| && !InBounds(h.commands[k], |h.data|)
    ensures r.Some? ==> Some(r.value.data) == Run(h.data, h.commands)
    ensures r.Some? ==> r.value.commands == (if clearOnEachFrame then [ClearAll] else [])
    ensures r.Some? && Consistent(h.data) ==> Consistent(r.value.data)
  {
    RunPanicsIff(h.data, h.commands);
    if Consistent(h.data) {
      RunKeepsConsistent(h.data, h.commands);
    }
    var data := h.data;
    var i := 0;
    while i < |h.commands|
      invariant 0 <= i <= |h.commands|
      invariant Run(h.data, h.commands) == Run(data, h.commands[i..])
    {
      assert h.commands[i..][0] == h.commands[i];
      assert h.commands[i..][1..] == h.commands[i + 1..];
      var next := Apply(data, h.commands[i]);
      if next.None? {
        return None;
      }
      data := next.value;
      i := i + 1;
    }
    var commands := if clearOnEachFrame then [ClearAll] else [];
    r := Some(HighlightState(data, commands));
  }
}
