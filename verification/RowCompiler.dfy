/**
 The row compiler: a shortest-path search over the 112 display states and the 40 columns
 that decides which cells of a row give way to control codes.
 */
module RowCompiler {
  import opened Bytes
  import opened Saa5050

  const STATE_COUNT: nat := 112
  const INFINITE: uint16 := 0xffff

  // ---------------------------------------------------------------------------------------
  // State numbering

  function StateIndex(s: State): (i: nat)
    ensures i < STATE_COUNT
  {
    ((if s.mode == Alpha then 0 else 1) * 8 + s.background) * 7 + s.foreground - 1
  }

  function StateFromIndex(index: nat): State
    requires index < STATE_COUNT
  {
    State(index % 7 + 1, index / 7 % 8, if index / 7 / 8 == 0 then Alpha else Graphics)
  }

  lemma IndexRoundTrip(s: State)
    ensures StateFromIndex(StateIndex(s)) == s
  {
    var high := (if s.mode == Alpha then 0 else 1) * 8 + s.background;
    assert StateIndex(s) == high * 7 + (s.foreground - 1);
    assert StateIndex(s) / 7 == high && StateIndex(s) % 7 == s.foreground - 1;
  }

  lemma StateRoundTrip(index: nat)
    requires index < STATE_COUNT
    ensures StateIndex(StateFromIndex(index)) == index
  {
    var high := index / 7;
    assert high == high / 8 * 8 + high % 8;
    assert high / 8 == 0 || high / 8 == 1;
  }

  // ---------------------------------------------------------------------------------------
  // The transition relation of the search

  function SetHighBit(value: byte): byte {
    if value < 0x80 then value + 0x80 else value
  }

  /** From state s the compiler may emit value for cell, which leads to state t at the given cost. */
  ghost predicate Move(cell: Cell, s: State, value: byte, t: State, cost: nat) {
    || (Blank(cell) && s.background == cell.background && value == 0x20 && t == s && cost == 0)
    || (ShowsPlain(cell, s) && value == cell.glyph && t == s && cost == 0)
    || (ShowsInverse(cell, s) && value == SetHighBit(cell.glyph) && t == s && cost == 0)
    || (cost == ControlLoss(cell) && ControlMove(cell, s, value, t))
  }

  predicate ShowsPlain(cell: Cell, s: State) {
    !Blank(cell) && s.mode == cell.mode && s.foreground == cell.foreground && s.background == cell.background
  }

  predicate ShowsInverse(cell: Cell, s: State) {
    !Blank(cell) && s.mode == cell.mode && s.foreground == cell.background && s.background == cell.foreground
  }

  ghost predicate ControlMove(cell: Cell, s: State, value: byte, t: State) {
    || (cell.background == s.background && 1 <= value <= 7 && t == s.(foreground := value, mode := Alpha))
    || (cell.background == s.background && 0x11 <= value <= 0x17 &&
        t == s.(foreground := value - 0x10, mode := Graphics))
    || (cell.background == BLACK && value == 0x1c && t == s.(background := BLACK))
    || (cell.background == s.foreground && value == 0x1d && t == s.(background := s.foreground))
  }

  /** A way through the first columns of a row, one move per column. */
  datatype Path = Start | Extend(init: Path, value: byte, state: State, cost: nat)
  {
    function Length(): nat {
      if Start? then 0 else init.Length() + 1
    }

    function End(): State {
      if Start? then INITIAL else state
    }

    function Cost(): nat {
      if Start? then 0 else init.Cost() + cost
    }

    function Output(): (bytes: seq<byte>)
      ensures |bytes| == Length()
    {
      if Start? then [] else init.Output() + [value]
    }
  }

  ghost predicate IsPath(cells: seq<Cell>, p: Path) {
    p.Extend? ==>
      && IsPath(cells, p.init)
      && p.init.Length() < |cells|
      && Move(cells[p.init.Length()], p.init.End(), p.value, p.state, p.cost)
  }

  // ---------------------------------------------------------------------------------------
  // One column of the search

  datatype Predecessor = Predecessor(previous: byte, output: byte, valid: bool)

  /** Every reached state was reached by a move from the state its record names. */
  ghost predicate Sound(cell: Cell, costs: seq<uint16>, next: seq<uint16>, row: seq<Predecessor>) {
    && |costs| == |next| == |row| == STATE_COUNT
    && forall t :: 0 <= t < STATE_COUNT ==> Justified(cell, costs, next, row, t)
  }

  ghost predicate Justified(cell: Cell, costs: seq<uint16>, next: seq<uint16>, row: seq<Predecessor>, t: nat)
    requires |costs| == |next| == |row| == STATE_COUNT && t < STATE_COUNT
  {
    next[t] != INFINITE ==>
      && row[t].valid
      && row[t].previous < STATE_COUNT
      && costs[row[t].previous] <= next[t]
      && Move(cell, StateFromIndex(row[t].previous), row[t].output, StateFromIndex(t), next[t] - costs[row[t].previous])
  }

  /** No move out of state s would still improve the next column. */
  ghost predicate Covers(cell: Cell, costs: seq<uint16>, next: seq<uint16>, s: nat)
    requires |costs| == |next| == STATE_COUNT && s < STATE_COUNT
  {
    forall value: byte, t: State, cost: nat ::
      Move(cell, StateFromIndex(s), value, t, cost) ==> next[StateIndex(t)] <= costs[s] + cost
  }

  /** Entries of the next column only ever get cheaper. */
  ghost predicate NoDearer(next: seq<uint16>, before: seq<uint16>) {
    |next| == |before| == STATE_COUNT && forall t :: 0 <= t < STATE_COUNT ==> next[t] <= before[t]
  }

  method Relax(nextCosts: array<uint16>, predecessors: array<Predecessor>,
               previous: byte, next: byte, output: byte, cost: uint16)
    requires nextCosts.Length == predecessors.Length == STATE_COUNT && next < STATE_COUNT
    modifies nextCosts, predecessors
    ensures if cost < old(nextCosts[next]) then
              && nextCosts[..] == old(nextCosts[..])[next := cost]
              && predecessors[..] == old(predecessors[..])[next := Predecessor(previous, output, true)]
            else
              nextCosts[..] == old(nextCosts[..]) && predecessors[..] == old(predecessors[..])
  {
    if cost < nextCosts[next] {
      nextCosts[next] := cost;
      predecessors[next] := Predecessor(previous, output, true);
    }
  }

  lemma RelaxKeepsSound(cell: Cell, costs: seq<uint16>, next: seq<uint16>, row: seq<Predecessor>,
                        index: byte, target: State, output: byte, cost: uint16)
    requires Sound(cell, costs, next, row) && index < STATE_COUNT && costs[index] <= cost
    requires Move(cell, StateFromIndex(index), output, target, cost - costs[index])
    ensures Sound(cell, costs, next[StateIndex(target) := cost],
                  row[StateIndex(target) := Predecessor(index, output, true)])
  {
    IndexRoundTrip(target);
    var nextAfter := next[StateIndex(target) := cost];
    var rowAfter := row[StateIndex(target) := Predecessor(index, output, true)];
    forall t | 0 <= t < STATE_COUNT
      ensures Justified(cell, costs, nextAfter, rowAfter, t)
    {
      assert Justified(cell, costs, next, row, t);
    }
  }

  /** Relax one move and keep the bookkeeping of the column. */
  method RelaxMove(cell: Cell, costs: array<uint16>, nextCosts: array<uint16>, predecessors: array<Predecessor>,
                   index: byte, target: State, output: byte, cost: uint16)
    requires costs.Length == nextCosts.Length == predecessors.Length == STATE_COUNT
    requires costs != nextCosts
    requires index < STATE_COUNT && costs[index] <= cost
    requires Move(cell, StateFromIndex(index), output, target, cost - costs[index])
    requires Sound(cell, costs[..], nextCosts[..], predecessors[..])
    modifies nextCosts, predecessors
    ensures Sound(cell, costs[..], nextCosts[..], predecessors[..])
    ensures NoDearer(nextCosts[..], old(nextCosts[..]))
    ensures nextCosts[StateIndex(target)] <= cost
  {
    RelaxKeepsSound(cell, costs[..], nextCosts[..], predecessors[..], index, target, output, cost);
    Relax(nextCosts, predecessors, index, StateIndex(target), output, cost);
    assert costs[..] == old(costs[..]);
  }

  /** Moves that show the cell. */
  method RelaxGlyph(cell: Cell, costs: array<uint16>, nextCosts: array<uint16>, predecessors: array<Predecessor>,
                    index: byte)
    requires costs.Length == nextCosts.Length == predecessors.Length == STATE_COUNT
    requires costs != nextCosts && index < STATE_COUNT
    requires Sound(cell, costs[..], nextCosts[..], predecessors[..])
    modifies nextCosts, predecessors
    ensures Sound(cell, costs[..], nextCosts[..], predecessors[..])
    ensures NoDearer(nextCosts[..], old(nextCosts[..]))
    ensures CoversGlyph(cell, StateFromIndex(index), nextCosts[..], costs[index])
  {
    var state := StateFromIndex(index);
    if Blank(cell) && state.background == cell.background {
      RelaxMove(cell, costs, nextCosts, predecessors, index, state, 0x20, costs[index]);
    }
    if ShowsPlain(cell, state) {
      RelaxMove(cell, costs, nextCosts, predecessors, index, state, cell.glyph, costs[index]);
    }
    if ShowsInverse(cell, state) {
      RelaxMove(cell, costs, nextCosts, predecessors, index, state, SetHighBit(cell.glyph), costs[index]);
    }
  }

  /** Foreground and mode controls: set-after, so they need the old background. */
  method RelaxColours(cell: Cell, costs: array<uint16>, nextCosts: array<uint16>, predecessors: array<Predecessor>,
                      index: byte, cost: uint16)
    requires costs.Length == nextCosts.Length == predecessors.Length == STATE_COUNT
    requires costs != nextCosts && index < STATE_COUNT && cost == costs[index] + ControlLoss(cell)
    requires Sound(cell, costs[..], nextCosts[..], predecessors[..])
    modifies nextCosts, predecessors
    ensures Sound(cell, costs[..], nextCosts[..], predecessors[..])
    ensures NoDearer(nextCosts[..], old(nextCosts[..]))
    ensures CoversColours(cell, StateFromIndex(index), nextCosts[..], 8, cost)
  {
    var state := StateFromIndex(index);
    if cell.background == state.background {
      for colour := 1 to 8
        invariant Sound(cell, costs[..], nextCosts[..], predecessors[..])
        invariant NoDearer(nextCosts[..], old(nextCosts[..]))
        invariant CoversColours(cell, state, nextCosts[..], colour, cost)
      {
        var changed := state.(foreground := colour, mode := Alpha);
        RelaxMove(cell, costs, nextCosts, predecessors, index, changed, colour, cost);
        changed := changed.(mode := Graphics);
        RelaxMove(cell, costs, nextCosts, predecessors, index, changed, 0x10 + colour, cost);
      }
    }
  }

  /** Background controls: set-at, so they need the new background. */
  method RelaxBackgrounds(cell: Cell, costs: array<uint16>, nextCosts: array<uint16>, predecessors: array<Predecessor>,
                          index: byte, cost: uint16)
    requires costs.Length == nextCosts.Length == predecessors.Length == STATE_COUNT
    requires costs != nextCosts && index < STATE_COUNT && cost == costs[index] + ControlLoss(cell)
    requires Sound(cell, costs[..], nextCosts[..], predecessors[..])
    modifies nextCosts, predecessors
    ensures Sound(cell, costs[..], nextCosts[..], predecessors[..])
    ensures NoDearer(nextCosts[..], old(nextCosts[..]))
    ensures CoversBackgrounds(cell, StateFromIndex(index), nextCosts[..], cost)
  {
    var state := StateFromIndex(index);
    if cell.background == BLACK {
      RelaxMove(cell, costs, nextCosts, predecessors, index, state.(background := BLACK), 0x1c, cost);
    }
    if cell.background == state.foreground {
      RelaxMove(cell, costs, nextCosts, predecessors, index, state.(background := state.foreground), 0x1d, cost);
    }
  }

  ghost predicate CoversGlyph(cell: Cell, s: State, next: seq<uint16>, cost: uint16)
    requires |next| == STATE_COUNT
  {
    (Blank(cell) && s.background == cell.background) || ShowsPlain(cell, s) || ShowsInverse(cell, s) ==>
      next[StateIndex(s)] <= cost
  }

  ghost predicate CoversColours(cell: Cell, s: State, next: seq<uint16>, limit: nat, cost: uint16)
    requires |next| == STATE_COUNT
  {
    cell.background == s.background ==>
      forall c: Ink, mode: Mode :: c < limit ==> next[StateIndex(s.(foreground := c, mode := mode))] <= cost
  }

  ghost predicate CoversBackgrounds(cell: Cell, s: State, next: seq<uint16>, cost: uint16)
    requires |next| == STATE_COUNT
  {
    && (cell.background == BLACK ==> next[StateIndex(s.(background := BLACK))] <= cost)
    && (cell.background == s.foreground ==> next[StateIndex(s.(background := s.foreground))] <= cost)
  }

  /** All moves out of one state. */
  method RelaxState(cell: Cell, costs: array<uint16>, nextCosts: array<uint16>, predecessors: array<Predecessor>,
                    index: byte)
    requires costs.Length == nextCosts.Length == predecessors.Length == STATE_COUNT
    requires costs != nextCosts
    requires index < STATE_COUNT && costs[index] <= 200 * COLUMNS
    requires Sound(cell, costs[..], nextCosts[..], predecessors[..])
    modifies nextCosts, predecessors
    ensures Sound(cell, costs[..], nextCosts[..], predecessors[..])
    ensures NoDearer(nextCosts[..], old(nextCosts[..]))
    ensures Covers(cell, costs[..], nextCosts[..], index)
  {
    var controlCost: uint16 := (costs[index] + ControlLoss(cell)) % 0x1_0000;
    RelaxGlyph(cell, costs, nextCosts, predecessors, index);
    RelaxColours(cell, costs, nextCosts, predecessors, index, controlCost);
    RelaxBackgrounds(cell, costs, nextCosts, predecessors, index, controlCost);
  }

  /** One column: the cheapest known way into every state of the next column. */
  method RelaxColumn(cell: Cell, costs: array<uint16>, nextCosts: array<uint16>) returns (row: seq<Predecessor>)
    requires costs.Length == nextCosts.Length == STATE_COUNT && costs != nextCosts
    requires forall s :: 0 <= s < STATE_COUNT ==> costs[s] == INFINITE || costs[s] <= 200 * COLUMNS
    modifies nextCosts
    ensures Sound(cell, costs[..], nextCosts[..], row)
    ensures forall s :: 0 <= s < STATE_COUNT && costs[s] != INFINITE ==> Covers(cell, costs[..], nextCosts[..], s)
  {
    var predecessors := new Predecessor[STATE_COUNT](_ => Predecessor(0, 0, false));
    for state := 0 to STATE_COUNT
      invariant forall s :: 0 <= s < state ==> nextCosts[s] == INFINITE
    {
      nextCosts[state] := INFINITE;
    }
    for index := 0 to STATE_COUNT
      invariant Sound(cell, costs[..], nextCosts[..], predecessors[..])
      invariant forall s :: 0 <= s < index && costs[s] != INFINITE ==> Covers(cell, costs[..], nextCosts[..], s)
    {
      if costs[index] == INFINITE {
        continue;
      }
      ghost var before := nextCosts[..];
      RelaxState(cell, costs, nextCosts, predecessors, index);
      forall s | 0 <= s < index && costs[s] != INFINITE
        ensures Covers(cell, costs[..], nextCosts[..], s)
      {
        assert Covers(cell, costs[..], before, s);
      }
    }
    row := predecessors[..];
  }

  // ---------------------------------------------------------------------------------------
  // Columns and paths

  /** The cost table of one column, with a cheapest path for every state that has any. */
  ghost predicate Layer(cells: seq<Cell>, column: nat, costs: seq<uint16>, best: map<nat, Path>) {
    && |costs| == STATE_COUNT
    && (forall s: nat :: s in best <==> s < STATE_COUNT && costs[s] != INFINITE)
    && (forall s :: s in best ==> BestPath(cells, column, costs[s], s, best[s]))
    && (forall p: Path :: IsPath(cells, p) && p.Length() == column ==> Dominated(costs, p))
  }

  ghost predicate BestPath(cells: seq<Cell>, column: nat, cost: uint16, s: nat, p: Path)
    requires s < STATE_COUNT
  {
    && IsPath(cells, p) && p.Length() == column && p.End() == StateFromIndex(s)
    && p.Cost() == cost <= 200 * column
  }

  ghost predicate Dominated(costs: seq<uint16>, p: Path)
    requires |costs| == STATE_COUNT
  {
    costs[StateIndex(p.End())] != INFINITE && costs[StateIndex(p.End())] <= p.Cost()
  }

  /** The predecessor records of a column continue the paths of the column before. */
  ghost predicate Linked(before: map<nat, Path>, row: seq<Predecessor>, best: map<nat, Path>) {
    && |row| == STATE_COUNT
    && forall t :: t in best ==>
        && t < STATE_COUNT && row[t].valid && row[t].previous in before
        && best[t].Extend? && best[t].init == before[row[t].previous] && best[t].value == row[t].output
  }

  lemma NextDominated(cells: seq<Cell>, column: nat, costs: seq<uint16>, next: seq<uint16>, p: Path)
    requires column < |cells| && |costs| == |next| == STATE_COUNT
    requires IsPath(cells, p) && p.Length() == column + 1
    requires Dominated(costs, p.init) && p.Cost() < INFINITE
    requires Covers(cells[column], costs, next, StateIndex(p.init.End()))
    ensures Dominated(next, p)
  {
    IndexRoundTrip(p.init.End());
    var s := StateIndex(p.init.End());
    assert Move(cells[column], StateFromIndex(s), p.value, p.state, p.cost);
    assert next[StateIndex(p.state)] <= costs[s] + p.cost;
  }

  lemma {:induction false} PathCost(cells: seq<Cell>, p: Path)
    requires IsPath(cells, p)
    ensures p.Cost() <= 200 * p.Length()
  {
    if p.Extend? {
      PathCost(cells, p.init);
    }
  }

  lemma NextBest(cells: seq<Cell>, column: nat, costs: seq<uint16>, before: map<nat, Path>,
                 next: seq<uint16>, row: seq<Predecessor>, t: nat) returns (p: Path)
    requires column < |cells|
    requires Layer(cells, column, costs, before)
    requires Sound(cells[column], costs, next, row)
    requires t < STATE_COUNT && next[t] != INFINITE
    ensures row[t].valid && row[t].previous < STATE_COUNT && row[t].previous as nat in before
    ensures costs[row[t].previous] <= next[t]
    ensures p == Extend(before[row[t].previous], row[t].output, StateFromIndex(t), next[t] - costs[row[t].previous])
    ensures BestPath(cells, column + 1, next[t], t, p)
  {
    assert Justified(cells[column], costs, next, row, t);
    var previous: nat := row[t].previous;
    assert costs[previous] != INFINITE;
    assert BestPath(cells, column, costs[previous], previous, before[previous]);
    p := Extend(before[previous], row[t].output, StateFromIndex(t), next[t] - costs[previous]);
  }

  lemma NextLayer(cells: seq<Cell>, column: nat, costs: seq<uint16>, before: map<nat, Path>,
                  next: seq<uint16>, row: seq<Predecessor>) returns (best: map<nat, Path>)
    requires column < |cells| == COLUMNS
    requires Layer(cells, column, costs, before)
    requires Sound(cells[column], costs, next, row)
    requires forall s :: 0 <= s < STATE_COUNT && costs[s] != INFINITE ==> Covers(cells[column], costs, next, s)
    ensures Layer(cells, column + 1, next, best)
    ensures Linked(before, row, best)
  {
    best := NextBests(cells, column, costs, before, next, row);
    hide Sound, Linked, Covers, BestPath;
    forall p: Path | IsPath(cells, p) && p.Length() == column + 1
      ensures Dominated(next, p)
    {
      LongerDominated(cells, column, costs, before, next, p);
    }
  }

  lemma LongerDominated(cells: seq<Cell>, column: nat, costs: seq<uint16>, before: map<nat, Path>,
                        next: seq<uint16>, p: Path)
    requires column < |cells| == COLUMNS && |next| == STATE_COUNT
    requires Layer(cells, column, costs, before)
    requires forall s :: 0 <= s < STATE_COUNT && costs[s] != INFINITE ==> Covers(cells[column], costs, next, s)
    requires IsPath(cells, p) && p.Length() == column + 1
    ensures Dominated(next, p)
  {
    hide Covers, BestPath;
    PathCost(cells, p);
    assert Dominated(costs, p.init);
    NextDominated(cells, column, costs, next, p);
  }

  lemma NextBests(cells: seq<Cell>, column: nat, costs: seq<uint16>, before: map<nat, Path>,
                  next: seq<uint16>, row: seq<Predecessor>) returns (best: map<nat, Path>)
    requires column < |cells| && |costs| == STATE_COUNT
    requires Layer(cells, column, costs, before)
    requires Sound(cells[column], costs, next, row)
    ensures forall t: nat :: t in best <==> t < STATE_COUNT && next[t] != INFINITE
    ensures forall t :: t in best ==> BestPath(cells, column + 1, next[t], t, best[t])
    ensures Linked(before, row, best)
  {
    hide Layer, BestPath, Justified;
    forall t: nat | t < STATE_COUNT && next[t] != INFINITE
      ensures row[t].valid && row[t].previous < STATE_COUNT
      ensures row[t].previous as nat in before && costs[row[t].previous] <= next[t]
    {
      var p := NextBest(cells, column, costs, before, next, row, t);
    }
    best := map t: nat | t < STATE_COUNT && next[t] != INFINITE ::
      Extend(before[row[t].previous], row[t].output, StateFromIndex(t), next[t] - costs[row[t].previous]);
    forall t: nat | t in best
      ensures BestPath(cells, column + 1, next[t], t, best[t])
    {
      var p := NextBest(cells, column, costs, before, next, row, t);
      assert p == best[t];
    }
  }

  lemma FirstLayer(cells: seq<Cell>, costs: seq<uint16>)
    requires |costs| == STATE_COUNT
    requires forall s :: 0 <= s < STATE_COUNT ==> costs[s] == if s == StateIndex(INITIAL) then 0 else INFINITE
    ensures Layer(cells, 0, costs, map[StateIndex(INITIAL) := Start])
  {
    IndexRoundTrip(INITIAL);
  }

  /** A path through the whole row that no other path undercuts. */
  ghost predicate Cheapest(cells: seq<Cell>, p: Path) {
    && IsPath(cells, p) && p.Length() == |cells|
    && forall q: Path :: IsPath(cells, q) && q.Length() == |cells| ==> p.Cost() <= q.Cost()
  }

  /** The tables of all columns so far belong together. */
  ghost predicate Searched(cells: seq<Cell>, costs: seq<uint16>, history: seq<seq<Predecessor>>,
                           best: seq<map<nat, Path>>) {
    && |best| == |history| + 1
    && Layer(cells, |history|, costs, best[|history|])
    && Traceable(history, best)
  }

  ghost predicate Traceable(history: seq<seq<Predecessor>>, best: seq<map<nat, Path>>) {
    && |best| == |history| + 1
    && forall k :: 0 <= k < |history| ==> Linked(best[k], history[k], best[k + 1])
  }

  /** Compile one row into the forty bytes of output at offset. */
  method CompileRow(cells: seq<Cell>, output: array<byte>, offset: nat) returns (ok: bool)
    requires |cells| == COLUMNS && offset + COLUMNS <= output.Length
    modifies output
    ensures ok ==> exists p: Path :: Cheapest(cells, p) && p.Output() == output[offset..offset + COLUMNS]
    ensures !ok ==> forall p: Path :: !(IsPath(cells, p) && p.Length() == COLUMNS)
    ensures !ok ==> output[..] == old(output[..])
    ensures output[..offset] == old(output[..offset])
    ensures output[offset + COLUMNS..] == old(output[offset + COLUMNS..])
  {
    hide Searched, Traceable, Layer, Cheapest, IsPath;
    var costs := new uint16[STATE_COUNT](_ => INFINITE);
    var nextCosts := new uint16[STATE_COUNT](_ => INFINITE);
    costs[StateIndex(INITIAL)] := 0;
    var history: seq<seq<Predecessor>> := [];
    ghost var before, best: seq<map<nat, Path>> := output[..], [map[StateIndex(INITIAL) := Start]];
    FirstSearched(cells, costs[..]);

    for column := 0 to COLUMNS
      invariant |history| == column
      invariant Searched(cells, costs[..], history, best)
      invariant output[..] == before
    {
      var row;
      row, best := SearchColumn(cells, costs, nextCosts, history, best);
      history := history + [row];
    }

    SearchDone(cells, costs[..], history, best);
    var finalState, finalCost := Minimum(costs);
    if finalCost == INFINITE {
      NoPath(cells, costs[..], best[COLUMNS]);
      return false;
    }
    ghost var path := CheapestPath(cells, costs[..], best[COLUMNS], finalState);
    ok := Backtrack(history, finalState, output, offset, best);
  }

  lemma FirstSearched(cells: seq<Cell>, costs: seq<uint16>)
    requires |costs| == STATE_COUNT
    requires forall s :: 0 <= s < STATE_COUNT ==> costs[s] == if s == StateIndex(INITIAL) then 0 else INFINITE
    ensures Searched(cells, costs, [], [map[StateIndex(INITIAL) := Start]])
  {
    hide Layer;
    FirstLayer(cells, costs);
  }

  lemma SearchDone(cells: seq<Cell>, costs: seq<uint16>, history: seq<seq<Predecessor>>, best: seq<map<nat, Path>>)
    requires Searched(cells, costs, history, best)
    ensures |best| == |history| + 1 && Layer(cells, |history|, costs, best[|history|]) && Traceable(history, best)
  {
  }

  lemma NoPath(cells: seq<Cell>, costs: seq<uint16>, best: map<nat, Path>)
    requires Layer(cells, COLUMNS, costs, best) && |costs| == STATE_COUNT
    requires forall s :: 0 <= s < STATE_COUNT ==> INFINITE <= costs[s]
    ensures forall p: Path :: !(IsPath(cells, p) && p.Length() == COLUMNS)
  {
    assert forall p: Path :: IsPath(cells, p) && p.Length() == COLUMNS ==> Dominated(costs, p);
  }

  lemma LayerBounded(cells: seq<Cell>, column: nat, costs: seq<uint16>, best: map<nat, Path>)
    requires Layer(cells, column, costs, best) && column <= COLUMNS
    ensures forall s :: 0 <= s < STATE_COUNT ==> costs[s] == INFINITE || costs[s] <= 200 * COLUMNS
  {
    forall s | 0 <= s < STATE_COUNT && costs[s] != INFINITE
      ensures costs[s] <= 200 * COLUMNS
    {
      assert BestPath(cells, column, costs[s], s, best[s]);
    }
  }

  lemma TraceableExtend(history: seq<seq<Predecessor>>, best: seq<map<nat, Path>>,
                        row: seq<Predecessor>, layer: map<nat, Path>)
    requires Traceable(history, best) && Linked(best[|history|], row, layer)
    ensures Traceable(history + [row], best + [layer])
  {
    forall k | 0 <= k < |history| + 1
      ensures Linked((best + [layer])[k], (history + [row])[k], (best + [layer])[k + 1])
    {
      assert k < |history| ==> Linked(best[k], history[k], best[k + 1]);
    }
  }

  lemma SearchedExtend(cells: seq<Cell>, now: seq<uint16>, history: seq<seq<Predecessor>>, best: seq<map<nat, Path>>,
                       next: seq<uint16>, row: seq<Predecessor>) returns (extended: seq<map<nat, Path>>)
    requires |history| < |cells| == COLUMNS
    requires Searched(cells, now, history, best)
    requires Sound(cells[|history|], now, next, row)
    requires forall s :: 0 <= s < STATE_COUNT && now[s] != INFINITE ==> Covers(cells[|history|], now, next, s)
    ensures Searched(cells, next, history + [row], extended)
  {
    var layer := NextLayer(cells, |history|, now, best[|history|], next, row);
    extended := best + [layer];
    TraceableExtend(history, best, row, layer);
    var longer := history + [row];
    assert |longer| == |history| + 1 && extended[|longer|] == layer;
  }

  method CopyCosts(from: array<uint16>, to: array<uint16>)
    requires from.Length == to.Length
    modifies to
    ensures to[..] == old(from[..])
  {
    forall s | 0 <= s < from.Length {
      to[s] := from[s];
    }
  }

  /** Search one more column and make its costs the current ones. */
  method SearchColumn(cells: seq<Cell>, costs: array<uint16>, nextCosts: array<uint16>,
                      history: seq<seq<Predecessor>>, ghost best: seq<map<nat, Path>>)
    returns (row: seq<Predecessor>, ghost extended: seq<map<nat, Path>>)
    requires costs.Length == nextCosts.Length == STATE_COUNT && costs != nextCosts
    requires |history| < |cells| == COLUMNS
    requires Searched(cells, costs[..], history, best)
    modifies costs, nextCosts
    ensures Searched(cells, costs[..], history + [row], extended)
  {
    ghost var now := costs[..];
    LayerBounded(cells, |history|, now, best[|history|]);
    row := RelaxColumn(cells[|history|], costs, nextCosts);
    assert costs[..] == now;
    extended := SearchedExtend(cells, now, history, best, nextCosts[..], row);
    CopyCosts(nextCosts, costs);
  }

  /** The first cheapest state of the last column. */
  method Minimum(costs: array<uint16>) returns (finalState: byte, finalCost: uint16)
    requires costs.Length == STATE_COUNT
    ensures finalState < STATE_COUNT
    ensures finalCost != INFINITE ==> finalCost == costs[finalState]
    ensures forall s :: 0 <= s < STATE_COUNT ==> finalCost <= costs[s]
  {
    finalState, finalCost := 0, INFINITE;
    for state := 0 to STATE_COUNT
      invariant finalState < STATE_COUNT
      invariant finalCost != INFINITE ==> finalCost == costs[finalState]
      invariant forall s :: 0 <= s < state ==> finalCost <= costs[s]
    {
      if costs[state] < finalCost {
        finalState, finalCost := state, costs[state];
      }
    }
  }

  lemma CheapestPath(cells: seq<Cell>, costs: seq<uint16>, best: map<nat, Path>, s: nat) returns (p: Path)
    requires Layer(cells, |cells|, costs, best)
    requires |costs| == STATE_COUNT && s < STATE_COUNT && costs[s] != INFINITE
    requires forall t :: 0 <= t < STATE_COUNT ==> costs[s] <= costs[t]
    ensures s in best && p == best[s] && Cheapest(cells, p) && p.Length() == |cells|
  {
    assert s in best && BestPath(cells, |cells|, costs[s], s, best[s]);
    p := best[s];
    forall q: Path | IsPath(cells, q) && q.Length() == |cells|
      ensures p.Cost() <= q.Cost()
    {
      assert Dominated(costs, q);
    }
  }

  /** Read the bytes of the chosen path off the predecessor records, last column first. */
  method Backtrack(history: seq<seq<Predecessor>>, start: byte, output: array<byte>, offset: nat,
                   ghost best: seq<map<nat, Path>>)
    returns (ok: bool)
    requires offset + |history| <= output.Length && Traceable(history, best)
    requires start as nat in best[|history|] && best[|history|][start].Length() == |history|
    modifies output
    ensures ok && output[offset..offset + |history|] == best[|history|][start].Output()
    ensures output[..offset] == old(output[..offset])
    ensures output[offset + |history|..] == old(output[offset + |history|..])
  {
    var finalState := start;
    var column := |history|;
    ghost var path := best[column][finalState];
    while column > 0
      invariant 0 <= column <= |history| && finalState as nat in best[column]
      invariant best[column][finalState].Length() == column
      invariant path.Output() == best[column][finalState].Output() + output[offset + column..offset + |history|]
      invariant output[..offset] == old(output[..offset])
      invariant output[offset + |history|..] == old(output[offset + |history|..])
    {
      column := column - 1;
      assert Linked(best[column], history[column], best[column + 1]);
      var predecessor := history[column][finalState];
      if !predecessor.valid {
        assert false;  // the source gives up here; no search leads to this place
      }
      output[offset + column] := predecessor.output;
      finalState := predecessor.previous;
    }
    return true;
  }
}
