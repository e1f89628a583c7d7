/** What every interleaving of a flight gives its readers, and how its driver ends. */
module FlightRuns {
  import opened Options
  import opened Flight

  /* ---------- what readers get ---------- */

  /** At every point of every interleaving a reader's output is exactly the payload
      from its start, never more than its length, and it ends cleanly short of its
      length only once Done is published. */
  lemma ReadersGetThePayload<T>(u: Upstream<T>, ss: seq<State<T>>, acts: seq<Action>, k: nat, id: int)
    requires IsRun(u, ss, acts) && k < |ss| && id in ss[k].readers
    ensures var s, r := ss[k], ss[k].readers[id];
            && (|r.out| > 0 ==> Pos(r) <= |u.payload| && r.out == u.payload[r.start..Pos(r)])
            && (r.len.Some? ==> |r.out| <= r.len.value)
            && (r.pc.Finished? && r.len != Some(|r.out|) ==> s.progress == Done && s.installed)
  {
    RunKeeps(u, ss, acts, k);
  }

  /** The reader has everything the sealed file can give it. */
  ghost predicate Complete<T>(s: State<T>, r: Reader<T>) { s.written <= Pos(r) }

  /** A clean end of file is complete exactly when the reader's last zero-byte read
      saw the whole file (or its range starts past the end); a zero-byte read after
      the seal always does. */
  lemma CleanEndCompleteIff<T>(u: Upstream<T>, ss: seq<State<T>>, acts: seq<Action>, k: nat, id: int)
    requires IsRun(u, ss, acts) && k < |ss| && id in ss[k].readers
    requires ss[k].readers[id].pc == Finished(true)
    ensures var s, r := ss[k], ss[k].readers[id];
            && (Complete(s, r) <==> r.emptyAt == s.written || s.written <= r.start)
            && (r.emptySealed ==> Complete(s, r))
  {
    RunKeeps(u, ss, acts, k);
  }

  /** Done is published only after the seal and the metadata row, and never for a
      body shorter or longer than promised. */
  lemma DoneMeansSealed<T>(u: Upstream<T>, ss: seq<State<T>>, acts: seq<Action>, k: nat)
    requires IsRun(u, ss, acts) && k < |ss| && ss[k].progress == Done
    ensures ss[k].sealed && ss[k].installed && ss[k].final && ss[k].visible == ss[k].written
    ensures u.promised.Some? ==> ss[k].written == u.promised.value
  {
    RunKeeps(u, ss, acts, k);
  }

  /** Once terminal, a flight stays as it ended, whoever moves. */
  lemma {:induction false} TerminalForever<T>(u: Upstream<T>, ss: seq<State<T>>, acts: seq<Action>, j: nat, k: nat)
    requires IsRun(u, ss, acts) && j <= k < |ss|
    requires Terminal(ss[j])
    ensures ss[k].progress == ss[j].progress
  {
    if j < k {
      TerminalForever(u, ss, acts, j, k - 1);
      LastStepKeepsTerminal(u, ss, acts, k - 1);
    }
  }

  lemma LastStepKeepsTerminal<T>(u: Upstream<T>, ss: seq<State<T>>, acts: seq<Action>, i: nat)
    requires IsRun(u, ss, acts) && i < |acts| && Terminal(ss[i])
    ensures ss[i + 1].progress == ss[i].progress
  {
    RunKeeps(u, ss, acts, i);
    assert StepAt(u, ss, acts, i);
    StepKeepsTerminal(u, ss[i], acts[i], ss[i + 1]);
  }

  lemma StepKeepsTerminal<T>(u: Upstream<T>, s: State<T>, a: Action, s': State<T>)
    requires WriterInv(u, s) && Step(u, s, a, s') && Terminal(s)
    ensures s'.progress == s.progress
  {
    if IsWriterAction(a) {
      TerminalStays(u, s, a);
    }
  }

  /* ---------- every driver ends ---------- */

  function Rank(phase: Phase): nat {
    match phase
    case Starting => 9
    case Announced => 8
    case Pumping => 7
    case Drained => 6
    case Flushed => 5
    case Sealed => 4
    case Installed => 3
    case Broken => 2
    case Returned => 1
    case Ended => 0
  }

  /** What the driver can still do: bytes to write, to show and to announce, and
      stages to go through. */
  function Ahead<T>(u: Upstream<T>, s: State<T>): int {
    (|u.payload| - s.written) + (|u.payload| - s.visible) + (|u.payload| - s.published) + Rank(s.phase)
  }

  /** Each step of the driver uses some of that up; nobody else touches it. */
  lemma DriverAdvances<T>(u: Upstream<T>, s: State<T>, a: Action, s': State<T>)
    requires WriterInv(u, s) && Step(u, s, a, s')
    ensures IsWriterAction(a) ==> Ahead(u, s') < Ahead(u, s)
    ensures !IsWriterAction(a) ==> Ahead(u, s') == Ahead(u, s)
  {
    if IsWriterAction(a) {
      if IsSend(a) { SenderAdvances(u, s, a); } else { WorkerAdvances(u, s, a); }
    }
  }

  lemma SenderAdvances<T>(u: Upstream<T>, s: State<T>, a: Action)
    requires WriterInv(u, s) && WriterEnabled(u, s, a) && IsSend(a)
    ensures Ahead(u, WriterApply(s, a)) < Ahead(u, s)
  {
  }

  lemma WorkerAdvances<T>(u: Upstream<T>, s: State<T>, a: Action)
    requires WriterInv(u, s) && WriterEnabled(u, s, a) && !IsSend(a)
    ensures Ahead(u, WriterApply(s, a)) < Ahead(u, s)
  {
  }

  function WriterSteps(acts: seq<Action>): nat {
    if |acts| == 0 then 0
    else WriterSteps(acts[..|acts| - 1]) + if IsWriterAction(acts[|acts| - 1]) then 1 else 0
  }

  lemma {:induction false} DriverBounded<T>(u: Upstream<T>, ss: seq<State<T>>, acts: seq<Action>, k: nat)
    requires IsRun(u, ss, acts) && k < |ss|
    ensures 0 <= Ahead(u, ss[k]) && WriterSteps(acts[..k]) + Ahead(u, ss[k]) <= 3 * |u.payload| + 9
  {
    RunKeeps(u, ss, acts, k);
    if k > 0 {
      DriverBounded(u, ss, acts, k - 1);
      DriverNext(u, ss, acts, k - 1);
    }
  }

  lemma DriverNext<T>(u: Upstream<T>, ss: seq<State<T>>, acts: seq<Action>, i: nat)
    requires IsRun(u, ss, acts) && i < |acts|
    ensures WriterSteps(acts[..i + 1]) + Ahead(u, ss[i + 1]) <= WriterSteps(acts[..i]) + Ahead(u, ss[i])
  {
    RunKeeps(u, ss, acts, i);
    assert StepAt(u, ss, acts, i);
    DriverAdvances(u, ss[i], acts[i], ss[i + 1]);
    assert acts[..i + 1][..i] == acts[..i];
  }

  /** No driver stops half-way: in every run it takes at most three steps a byte and
      nine more, and when it can take none it has passed the guard. */
  lemma EveryDriverEnds<T>(u: Upstream<T>, ss: seq<State<T>>, acts: seq<Action>, k: nat)
    requires IsRun(u, ss, acts) && k < |ss|
    ensures WriterSteps(acts[..k]) <= 3 * |u.payload| + 9
    ensures (forall a :: !WriterEnabled(u, ss[k], a)) ==> ss[k].phase == Ended
  {
    DriverBounded(u, ss, acts, k);
    if forall a :: !WriterEnabled(u, ss[k], a) {
      assert !WriterEnabled(u, ss[k], Panic) && !WriterEnabled(u, ss[k], Guard);
    }
  }

  /* ---------- what is seen of the end ---------- */

  /** The driver's own last word, or the guard's. */
  predicate IsLastWord(a: Action) { a.PublishDone? || a.PublishFailed? || a.Guard? }

  /** A last word was sent at this step while somebody held a receiver. */
  ghost predicate Heard<T>(ss: seq<State<T>>, acts: seq<Action>, i: nat)
    requires i < |acts| && i < |ss|
  {
    IsLastWord(acts[i]) && Listening(ss[i])
  }

  /** Done was sent at this step while somebody held a receiver. */
  ghost predicate DoneHeard<T>(ss: seq<State<T>>, acts: seq<Action>, i: nat)
    requires i < |acts| && i < |ss|
  {
    acts[i] == PublishDone && Listening(ss[i])
  }

  lemma LastWordStep<T>(u: Upstream<T>, s: State<T>, a: Action, s': State<T>)
    requires WriterInv(u, s) && Step(u, s, a, s')
    ensures Terminal(s') <==> Terminal(s) || (IsLastWord(a) && Listening(s))
    ensures s'.progress == Done <==> s.progress == Done || (a == PublishDone && Listening(s))
  {
    if !IsWriterAction(a) {
      assert s'.progress == s.progress;
    } else if !IsSend(a) {
      QuietStep(s, a);
    } else {
      SendStep(u, s, a);
    }
  }

  lemma QuietStep<T>(s: State<T>, a: Action)
    requires !IsSend(a)
    ensures WriterApply(s, a).progress == s.progress
  {
  }

  lemma SendStep<T>(u: Upstream<T>, s: State<T>, a: Action)
    requires WriterInv(u, s) && WriterEnabled(u, s, a) && IsSend(a)
    ensures var s' := WriterApply(s, a);
            && (Terminal(s') <==> Terminal(s) || (IsLastWord(a) && Listening(s)))
            && (s'.progress == Done <==> s.progress == Done || (a == PublishDone && Listening(s)))
  {
  }

  lemma LastWordNext<T>(u: Upstream<T>, ss: seq<State<T>>, acts: seq<Action>, i: nat)
    requires IsRun(u, ss, acts) && i < |acts|
    ensures Terminal(ss[i + 1]) <==> Terminal(ss[i]) || Heard(ss, acts, i)
    ensures ss[i + 1].progress == Done <==> ss[i].progress == Done || DoneHeard(ss, acts, i)
  {
    RunKeeps(u, ss, acts, i);
    assert StepAt(u, ss, acts, i);
    LastWordStep(u, ss[i], acts[i], ss[i + 1]);
  }

  /** In every run the end is seen, as Done or as Failed, if and only if somebody held a
      receiver when the driver or its guard sent a last word; and it is seen as Done if
      and only if somebody did when Done was sent. */
  lemma {:induction false} EndSeenIff<T>(u: Upstream<T>, ss: seq<State<T>>, acts: seq<Action>, k: nat)
    requires IsRun(u, ss, acts) && k < |ss|
    ensures Terminal(ss[k]) <==> exists i :: 0 <= i < k && Heard(ss, acts, i)
    ensures ss[k].progress == Done <==> exists i :: 0 <= i < k && DoneHeard(ss, acts, i)
  {
    if k > 0 {
      EndSeenIff(u, ss, acts, k - 1);
      LastWordNext(u, ss, acts, k - 1);
    }
  }

  /* ---------- failures ---------- */

  /** Broken, or returned without having been seen as Done. */
  predicate Failing<T>(s: State<T>) { s.phase in {Broken, Returned, Ended} && s.progress != Done }

  lemma FailingMoves<T>(u: Upstream<T>, s: State<T>, a: Action)
    requires Failing(s) && WriterEnabled(u, s, a)
    ensures Failing(WriterApply(s, a))
  {
  }

  lemma FailingStep<T>(u: Upstream<T>, s: State<T>, a: Action, s': State<T>)
    requires Failing(s) && Step(u, s, a, s')
    ensures Failing(s')
  {
    if IsWriterAction(a) { FailingMoves(u, s, a); }
  }

  lemma {:induction false} FailingStays<T>(u: Upstream<T>, ss: seq<State<T>>, acts: seq<Action>, j: nat, k: nat)
    requires IsPath(u, ss, acts) && j <= k < |ss| && Failing(ss[j])
    ensures Failing(ss[k])
  {
    if j < k {
      FailingStays(u, ss, acts, j, k - 1);
      assert StepAt(u, ss, acts, k - 1);
      FailingStep(u, ss[k - 1], acts[k - 1], ss[k]);
    }
  }

  /** A driver that broke, by an error or a panic, is never afterwards seen as Done. */
  lemma BrokenFails<T>(u: Upstream<T>, ss: seq<State<T>>, acts: seq<Action>, i: nat, k: nat)
    requires IsRun(u, ss, acts) && i < |acts| && i < k < |ss| && (acts[i].Break? || acts[i].Panic?)
    ensures ss[k].progress != Done
  {
    RunKeeps(u, ss, acts, i);
    assert StepAt(u, ss, acts, i);
    FailingStays(u, ss, acts, i + 1, k);
  }
}
