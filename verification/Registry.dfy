/** The single-flight registry: who joins which download, and when a registration
    goes away. Steps of callers and drivers interleave freely. */
module Registry {

  datatype Progress = Live | Done | Failed

  /** A driver runs, returns (after its last word, or by a panic without one), passes
      the guard that sends Failed when nothing terminal is to be seen, then removes its
      entry. */
  datatype Stage = Running | Returned | Guarded | Gone

  /** `solo` flights are private: they are driven the same way but never registered.
      `listeners` hold a receiver; what is sent while there are none is lost. */
  datatype Flight = Flight(key: string, solo: bool, progress: Progress, stage: Stage, listeners: nat)

  datatype State = State(entries: map<string, int>, flights: map<int, Flight>)

  datatype Action =
    | Start(key: string, id: int)
    | StartSolo(key: string, id: int)
    | Subscribe(id: int)
    | Unsubscribe(id: int)
    | Report(id: int, ok: bool)
    | Panic(id: int)
    | Guard(id: int)
    | Remove(id: int)

  /** `join_or_start`: the registered flight, or a new one registered under the lock. */
  function JoinOrStart(s: State, key: string, id: int): (State, int)
    requires id !in s.flights
  {
    if key in s.entries then (s, s.entries[key])
    else (State(s.entries[key := id], s.flights[id := Flight(key, false, Live, Running, 0)]), id)
  }

  function Send(f: Flight, p: Progress): Flight { if f.listeners > 0 then f.(progress := p) else f }

  /** The flight's own part of a step. */
  function Moved(f: Flight, a: Action): Flight {
    match a
    case Subscribe(_) => f.(listeners := f.listeners + 1)
    case Unsubscribe(_) => f.(listeners := if f.listeners > 0 then f.listeners - 1 else 0)
    case Report(_, ok) => Send(f.(stage := Returned), if ok then Done else Failed)
    case Panic(_) => f.(stage := Returned)
    case Guard(_) => if f.progress == Live then Send(f.(stage := Guarded), Failed) else f.(stage := Guarded)
    case Remove(_) => f.(stage := Gone)
    case _ => f
  }

  predicate Enabled(f: Flight, a: Action) {
    match a
    case Subscribe(_) => true
    case Unsubscribe(_) => f.listeners > 0
    case Report(_, _) => f.stage == Running
    case Panic(_) => f.stage == Running
    case Guard(_) => f.stage == Returned
    case Remove(_) => f.stage == Guarded && !f.solo
    case _ => false
  }

  ghost predicate Step(s: State, a: Action, s': State) {
    match a
    case Start(key, id) => id !in s.flights && s' == JoinOrStart(s, key, id).0
    case StartSolo(key, id) =>
      id !in s.flights && s' == s.(flights := s.flights[id := Flight(key, true, Live, Running, 0)])
    case _ =>
      && a.id in s.flights && Enabled(s.flights[a.id], a)
      && s' == State(if a.Remove? then s.entries - {s.flights[a.id].key} else s.entries,
                     s.flights[a.id := Moved(s.flights[a.id], a)])
  }

  /** A flight whose driver still owes the registry its removal. */
  predicate Registered(f: Flight) { !f.solo && f.stage != Gone }

  /** The map is exactly the registered flights, by key. */
  ghost predicate Inv(s: State) {
    && (forall k :: k in s.entries ==>
          s.entries[k] in s.flights && Registered(s.flights[s.entries[k]]) && s.flights[s.entries[k]].key == k)
    && (forall id :: id in s.flights && Registered(s.flights[id]) ==>
          s.flights[id].key in s.entries && s.entries[s.flights[id].key] == id)
  }

  lemma StartKeeps(s: State, a: Action, s': State)
    requires Inv(s) && Step(s, a, s') && (a.Start? || a.StartSolo?)
    ensures Inv(s')
  {
  }

  /** A flight moves on without leaving the map. */
  lemma DriverKeeps(s: State, a: Action, s': State)
    requires Inv(s) && Step(s, a, s') && !a.Start? && !a.StartSolo? && !a.Remove?
    ensures Inv(s')
  {
  }

  lemma RemoveKeeps(s: State, a: Action, s': State)
    requires Inv(s) && Step(s, a, s') && a.Remove?
    ensures Inv(s')
  {
  }

  lemma StepKeeps(s: State, a: Action, s': State)
    requires Inv(s) && Step(s, a, s')
    ensures Inv(s')
  {
    if a.Start? || a.StartSolo? { StartKeeps(s, a, s'); }
    else if a.Remove? { RemoveKeeps(s, a, s'); }
    else { DriverKeeps(s, a, s'); }
  }

  ghost predicate StepAt(ss: seq<State>, acts: seq<Action>, i: nat)
    requires i < |acts| && i + 1 < |ss|
  {
    Step(ss[i], acts[i], ss[i + 1])
  }

  ghost predicate IsRun(ss: seq<State>, acts: seq<Action>) {
    && |ss| == |acts| + 1 && ss[0] == State(map[], map[])
    && (forall i :: 0 <= i < |acts| ==> StepAt(ss, acts, i))
  }

  lemma {:induction false} RunKeeps(ss: seq<State>, acts: seq<Action>, k: nat)
    requires IsRun(ss, acts) && k < |ss|
    ensures Inv(ss[k])
  {
    if k > 0 {
      RunKeeps(ss, acts, k - 1);
      assert StepAt(ss, acts, k - 1);
      StepKeeps(ss[k - 1], acts[k - 1], ss[k]);
    }
  }

  /** Two flights of one key are never registered at the same time. */
  lemma OneFlightPerKey(ss: seq<State>, acts: seq<Action>, k: nat, i: int, j: int)
    requires IsRun(ss, acts) && k < |ss| && i in ss[k].flights && j in ss[k].flights
    requires Registered(ss[k].flights[i]) && Registered(ss[k].flights[j])
    requires ss[k].flights[i].key == ss[k].flights[j].key
    ensures i == j
  {
    RunKeeps(ss, acts, k);
  }

  /** An entry leaves the map only by its own driver's last step, once the driver has
      returned and the guard has run: removal by key never takes another flight's
      entry. */
  lemma RemovedByItsOwnDriver(ss: seq<State>, acts: seq<Action>, k: nat, key: string)
    requires IsRun(ss, acts) && k < |acts| && key in ss[k].entries
    requires key !in ss[k + 1].entries || ss[k + 1].entries[key] != ss[k].entries[key]
    ensures acts[k] == Remove(ss[k].entries[key])
    ensures ss[k].entries[key] in ss[k].flights && ss[k].flights[ss[k].entries[key]].stage == Guarded
    ensures ss[k + 1].entries == ss[k].entries - {key}
  {
    RunKeeps(ss, acts, k);
    assert StepAt(ss, acts, k);
  }

  /** A caller joins a flight that is registered under its key. */
  lemma JoinersMeet(ss: seq<State>, acts: seq<Action>, k: nat, key: string, i: int, j: int)
    requires IsRun(ss, acts) && k < |ss| && i !in ss[k].flights && j !in ss[k].flights && i != j
    ensures var first := JoinOrStart(ss[k], key, i);
            && first.1 in first.0.flights && first.0.flights[first.1].key == key
            && JoinOrStart(first.0, key, j).1 == first.1
  {
    RunKeeps(ss, acts, k);
  }

  /** The driver's last word, or the guard's, was sent for the flight at this step while
      somebody held a receiver. */
  ghost predicate Heard(ss: seq<State>, acts: seq<Action>, i: nat, id: int)
    requires i < |acts| && i < |ss|
  {
    && (acts[i].Report? || acts[i].Guard?) && acts[i].id == id
    && id in ss[i].flights && ss[i].flights[id].listeners > 0
  }

  ghost predicate Ended(s: State, id: int) { id in s.flights && s.flights[id].progress != Live }

  lemma EndedNext(ss: seq<State>, acts: seq<Action>, i: nat, id: int)
    requires IsRun(ss, acts) && i < |acts|
    ensures Ended(ss[i + 1], id) <==> Ended(ss[i], id) || Heard(ss, acts, i, id)
  {
    assert StepAt(ss, acts, i);
  }

  /** In every run, panics included, a flight is seen as Done or Failed if and only if
      somebody held a receiver when its driver or the guard sent a last word. */
  lemma {:induction false} EndSeenIff(ss: seq<State>, acts: seq<Action>, k: nat, id: int)
    requires IsRun(ss, acts) && k < |ss|
    ensures Ended(ss[k], id) <==> exists i :: 0 <= i < k && Heard(ss, acts, i, id)
  {
    if k > 0 {
      EndSeenIff(ss, acts, k - 1, id);
      EndedNext(ss, acts, k - 1, id);
    }
  }

  /** A driver reports before it returns, so one that returned live was not heard. */
  ghost predicate Quiet(s: State) {
    forall id :: id in s.flights && s.flights[id].stage == Running ==> s.flights[id].progress == Live
  }

  lemma {:induction false} RunningIsLive(ss: seq<State>, acts: seq<Action>, k: nat)
    requires IsRun(ss, acts) && k < |ss|
    ensures Quiet(ss[k])
  {
    if k > 0 {
      RunningIsLive(ss, acts, k - 1);
      assert StepAt(ss, acts, k - 1);
    }
  }

  /** What was seen of a flight's end is never replaced. */
  lemma {:induction false} EndStays(ss: seq<State>, acts: seq<Action>, j: nat, k: nat, id: int)
    requires IsRun(ss, acts) && j <= k < |ss| && Ended(ss[j], id)
    ensures id in ss[k].flights && ss[k].flights[id].progress == ss[j].flights[id].progress
  {
    if j < k {
      EndStays(ss, acts, j, k - 1, id);
      RunningIsLive(ss, acts, k - 1);
      assert StepAt(ss, acts, k - 1);
    }
  }
}
