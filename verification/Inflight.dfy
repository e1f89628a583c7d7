/** Per-key coalescing with a cooldown: callers share a cell, the first one to get
    there runs, and the cell leaves the map a while after it is filled. */
module Inflight {
  import opened Options

  /** A once-cell: `runner` is executing for it, `runs` counts completed executions. */
  datatype Cell = Cell(key: string, value: Option<int>, runner: Option<int>, runs: nat)

  datatype Pc = Holding | Got(outcome: int) | Returned(result: int) | Cancelled

  datatype Caller = Caller(key: string, cell: int, pc: Pc)

  /** The map from keys to cells, every cell ever made, callers, and timers by the
      cell they were started for. */
  datatype State = State(slots: map<string, int>, cells: map<int, Cell>,
                         callers: map<int, Caller>, timers: map<int, int>)

  datatype Action =
    | Enter(caller: int, key: string, id: int)
    | Begin(caller: int)
    | Finish(caller: int, outcome: int)
    | Cancel(caller: int)
    | Receive(caller: int)
    | Leave(caller: int, timer: int)
    | Fire(timer: int)

  ghost predicate Step(s: State, a: Action, s': State) {
    match a
    case Enter(c, key, id) =>
      && c !in s.callers && id !in s.cells
      && s' == (if key in s.slots then s.(callers := s.callers[c := Caller(key, s.slots[key], Holding)])
                else State(s.slots[key := id], s.cells[id := Cell(key, None, None, 0)],
                           s.callers[c := Caller(key, id, Holding)], s.timers))
    case Begin(c) =>
      && c in s.callers && s.callers[c].pc == Holding && s.callers[c].cell in s.cells
      && var cell := s.cells[s.callers[c].cell];
         && cell.value.None? && cell.runner.None?
         && s' == s.(cells := s.cells[s.callers[c].cell := cell.(runner := Some(c))])
    case Finish(c, v) =>
      && c in s.callers && s.callers[c].cell in s.cells && s.cells[s.callers[c].cell].runner == Some(c)
      && var cell := s.cells[s.callers[c].cell];
         s' == s.(cells := s.cells[s.callers[c].cell := cell.(value := Some(v), runner := None, runs := cell.runs + 1)])
    case Cancel(c) =>
      && c in s.callers && s.callers[c].pc == Holding && s.callers[c].cell in s.cells
      && var cell := s.cells[s.callers[c].cell];
         s' == s.(cells := s.cells[s.callers[c].cell := if cell.runner == Some(c) then cell.(runner := None) else cell],
                  callers := s.callers[c := s.callers[c].(pc := Cancelled)])
    case Receive(c) =>
      && c in s.callers && s.callers[c].pc == Holding && s.callers[c].cell in s.cells
      && s.cells[s.callers[c].cell].value.Some?
      && s' == s.(callers := s.callers[c := s.callers[c].(pc := Got(s.cells[s.callers[c].cell].value.value))])
    case Leave(c, t) =>
      && c in s.callers && s.callers[c].pc.Got? && t !in s.timers
      && var r := s.callers[c];
         s' == s.(callers := s.callers[c := r.(pc := Returned(r.pc.outcome))],
                  timers := if r.key in s.slots && s.slots[r.key] == r.cell then s.timers[t := r.cell] else s.timers)
    case Fire(t) =>
      && t in s.timers && s.timers[t] in s.cells
      && var key := s.cells[s.timers[t]].key;
         s' == s.(slots := if key in s.slots && s.slots[key] == s.timers[t] then s.slots - {key} else s.slots,
                  timers := s.timers - {t})
  }

  ghost predicate CellInv(s: State, id: int)
    requires id in s.cells
  {
    var cell := s.cells[id];
    && cell.runs == (if cell.value.Some? then 1 else 0)
    && (cell.runner.Some? ==> cell.value.None? && cell.runner.value in s.callers
                              && s.callers[cell.runner.value].cell == id && s.callers[cell.runner.value].pc == Holding)
  }

  ghost predicate CallerInv(s: State, c: int)
    requires c in s.callers
  {
    var r := s.callers[c];
    && r.cell in s.cells && s.cells[r.cell].key == r.key
    && (r.pc.Got? ==> s.cells[r.cell].value == Some(r.pc.outcome))
    && (r.pc.Returned? ==> s.cells[r.cell].value == Some(r.pc.result))
  }

  ghost predicate Inv(s: State) { SlotsInv(s) && CellsInv(s) && CallersInv(s) }

  /** The map leads to cells of its own keys, and timers to cells that are filled. */
  ghost predicate SlotsInv(s: State) {
    && (forall k :: k in s.slots ==> s.slots[k] in s.cells && s.cells[s.slots[k]].key == k)
    && (forall t :: t in s.timers ==> s.timers[t] in s.cells && s.cells[s.timers[t]].value.Some?)
  }

  ghost predicate CellsInv(s: State) { forall id :: id in s.cells ==> CellInv(s, id) }

  ghost predicate CallersInv(s: State) { forall c :: c in s.callers ==> CallerInv(s, c) }

  lemma SlotsKeep(s: State, a: Action, s': State)
    requires Inv(s) && Step(s, a, s')
    ensures SlotsInv(s')
  {
    if a.Leave? { assert CallerInv(s, a.caller); }
    if a.Finish? { assert CellInv(s, s.callers[a.caller].cell); }
  }

  lemma CellKeeps(s: State, a: Action, s': State, id: int)
    requires Inv(s) && Step(s, a, s') && id in s'.cells
    ensures CellInv(s', id)
  {
    if id in s.cells { assert CellInv(s, id); }
    if a.Finish? { assert CellInv(s, s.callers[a.caller].cell); }
  }

  lemma CallerKeeps(s: State, a: Action, s': State, c: int)
    requires Inv(s) && Step(s, a, s') && c in s'.callers
    ensures CallerInv(s', c)
  {
    if c in s.callers {
      assert CallerInv(s, c);
      assert CellInv(s, s.callers[c].cell);
    }
  }

  lemma StepKeeps(s: State, a: Action, s': State)
    requires Inv(s) && Step(s, a, s')
    ensures Inv(s')
  {
    SlotsKeep(s, a, s');
    forall id | id in s'.cells ensures CellInv(s', id) { CellKeeps(s, a, s', id); }
    forall c | c in s'.callers ensures CallerInv(s', c) { CallerKeeps(s, a, s', c); }
  }

  ghost predicate StepAt(ss: seq<State>, acts: seq<Action>, i: nat)
    requires i < |acts| && i + 1 < |ss|
  {
    Step(ss[i], acts[i], ss[i + 1])
  }

  ghost predicate IsRun(ss: seq<State>, acts: seq<Action>) {
    && |ss| == |acts| + 1 && ss[0] == State(map[], map[], map[], map[])
    && (forall i :: 0 <= i < |acts| ==> StepAt(ss, acts, i))
  }

  lemma {:induction false} RunKeeps(ss: seq<State>, acts: seq<Action>, k: nat)
    requires IsRun(ss, acts) && k < |ss|
    ensures Inv(ss[k])
  {
    if k > 0 {
      RunKeeps(ss, acts, k - 1);
      assert StepAt(ss, acts, k - 1);
      StepKeeps(ss[k - 1], acts[k - 1], ss[k]);
    }
  }

  /** Callers that hold one cell return one outcome, and a cell completes at most one
      execution, however many callers are cancelled on the way. */
  lemma OneOutcomePerCell(ss: seq<State>, acts: seq<Action>, k: nat, c: int, d: int)
    requires IsRun(ss, acts) && k < |ss| && c in ss[k].callers && d in ss[k].callers
    requires ss[k].callers[c].cell == ss[k].callers[d].cell
    requires ss[k].callers[c].pc.Returned? && ss[k].callers[d].pc.Returned?
    ensures ss[k].callers[c].pc.result == ss[k].callers[d].pc.result
    ensures ss[k].callers[c].cell in ss[k].cells && ss[k].cells[ss[k].callers[c].cell].runs == 1
  {
    RunKeeps(ss, acts, k);
    assert CallerInv(ss[k], c) && CallerInv(ss[k], d) && CellInv(ss[k], ss[k].callers[c].cell);
  }

  /** A cell leaves the map only by a timer started for that very cell, and only once
      it is filled: no timer removes a later generation. */
  lemma OnlyItsOwnTimer(ss: seq<State>, acts: seq<Action>, k: nat, key: string)
    requires IsRun(ss, acts) && k < |acts| && key in ss[k].slots
    requires key !in ss[k + 1].slots || ss[k + 1].slots[key] != ss[k].slots[key]
    ensures acts[k].Fire? && acts[k].timer in ss[k].timers && ss[k].timers[acts[k].timer] == ss[k].slots[key]
    ensures ss[k].slots[key] in ss[k].cells && ss[k].cells[ss[k].slots[key]].value.Some?
  {
    RunKeeps(ss, acts, k);
    assert StepAt(ss, acts, k);
  }

  /** What a filled cell holds never changes. */
  lemma {:induction false} FilledForGood(ss: seq<State>, acts: seq<Action>, j: nat, k: nat, id: int)
    requires IsRun(ss, acts) && j <= k < |ss| && id in ss[j].cells && ss[j].cells[id].value.Some?
    ensures id in ss[k].cells && ss[k].cells[id].value == ss[j].cells[id].value
  {
    if j < k {
      FilledForGood(ss, acts, j, k - 1, id);
      RunKeeps(ss, acts, k - 1);
      assert StepAt(ss, acts, k - 1);
      StepKeepsFilled(ss[k - 1], acts[k - 1], ss[k], id);
    }
  }

  lemma StepKeepsFilled(s: State, a: Action, s': State, id: int)
    requires Inv(s) && Step(s, a, s') && id in s.cells && s.cells[id].value.Some?
    ensures id in s'.cells && s'.cells[id].value == s.cells[id].value
  {
    assert CellInv(s, id);
  }
}
