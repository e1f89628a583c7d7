/** One cold-miss download and everybody who reads it while it grows: a writer
    fills a temp file, publishes progress, seals by rename and reports the end; any
    number of readers follow the file. Every action is one atomic step, so a run is
    an arbitrary interleaving. A reader's zero-byte read and the status check that
    follows it are two steps. */
module Flight {
  import opened Options

  /** What the upstream sends before it ends, and the length it promised. */
  datatype Upstream<!T> = Upstream(payload: seq<T>, promised: Option<nat>)

  datatype Progress = Pending | Meta | Growing(written: nat) | Done | Failed

  /** Where the driver is. `Broken` is a failure not yet reported; a driver that has
      `Returned`, normally or by a panic, still passes the guard. */
  datatype Phase = Starting | Announced | Pumping | Drained | Flushed | Sealed | Installed | Broken | Returned | Ended

  /** Where a reader is in its loop. `Finished(true)` ended at end of file,
      `Finished(false)` because its range was satisfied. */
  datatype Pc = Top | Missed | Ready | Parked | Reading | Empty | Waiting | Finished(eof: bool) | Errored

  /** `emptyAt` and `emptySealed` record the file length and whether the file was
      sealed when the reader last read zero bytes. */
  datatype Reader<!T> = Reader(start: nat, len: Option<nat>, out: seq<T>, open: bool, pc: Pc,
                               emptyAt: nat, emptySealed: bool)

  /** `written` bytes were handed to the temp file, of which `visible` can be read
      so far; `published` is the last total the pump announced, heard or not; `sealed`
      and `installed` remember the rename and the metadata row. Besides the readers,
      `watchers` callers hold a receiver while they wait for the metadata. */
  datatype State<!T> = State(progress: Progress, phase: Phase, written: nat, visible: nat, published: nat,
                             tmp: bool, final: bool, sealed: bool, installed: bool,
                             watchers: nat, readers: map<int, Reader<T>>)

  const CHUNK: nat := 256 * 1024

  datatype Action =
    | PublishMeta | Create | Write(n: nat) | PublishGrowing | Show(n: nat)
    | Drain | Flush | Rename | Install | PublishDone
    | Break(keepTmp: bool) | PublishFailed | Panic | Guard
    | Watch | Unwatch
    | Join(id: int, start: nat, len: Option<nat>)
    | Look(id: int) | CheckMissed(id: int) | CheckWatermark(id: int) | Unpark(id: int)
    | ReadSome(id: int, n: nat) | ReadNone(id: int) | CheckEmpty(id: int) | Wake(id: int) | Fault(id: int)

  function Pos<T>(r: Reader<T>): nat { r.start + |r.out| }

  predicate Room(r: Option<nat>, n: nat) { r.None? || n <= r.value }

  predicate Satisfied<T>(r: Reader<T>) { r.len.Some? && |r.out| >= r.len.value }

  /* ---------- the channel ---------- */

  /** The reader still holds its receiver. */
  predicate Following<T>(r: Reader<T>) { !r.pc.Finished? && r.pc != Errored }

  predicate Listening<T>(s: State<T>) {
    s.watchers > 0 || exists id :: id in s.readers && Following(s.readers[id])
  }

  /** A value sent while nobody holds a receiver is lost: the old one stays. */
  function Send<T>(s: State<T>, p: Progress): (s': State<T>)
    ensures s' == s.(progress := s'.progress)
  {
    if Listening(s) then s.(progress := p) else s
  }

  predicate Terminal<T>(s: State<T>) { s.progress == Done || s.progress == Failed }

  /* ---------- the writer ---------- */

  predicate WriterEnabled<T>(u: Upstream<T>, s: State<T>, a: Action) {
    match a
    case PublishMeta => s.phase == Starting
    case Create => s.phase == Announced
    case Write(n) =>
      s.phase == Pumping && 0 < n && s.written + n <= |u.payload| && Room(u.promised, s.written + n)
    case PublishGrowing => s.phase == Pumping && s.published < s.written
    case Show(n) => s.visible < n <= s.written
    case Drain =>
      && s.phase == Pumping && s.published == s.written
      && (u.promised.None? || s.written == u.promised.value)
    case Flush => s.phase == Drained && s.visible == s.written
    case Rename => s.phase == Flushed
    case Install => s.phase == Sealed
    case PublishDone => s.phase == Installed
    case Break(_) => s.phase != Broken && s.phase != Returned && s.phase != Ended
    case PublishFailed => s.phase == Broken
    case Panic => s.phase != Returned && s.phase != Ended
    case Guard => s.phase == Returned
    case _ => false
  }

  function WriterApply<T>(s: State<T>, a: Action): State<T> {
    match a
    case PublishMeta => Send(s.(phase := Announced), Meta)
    case Create => s.(phase := Pumping, tmp := true)
    case Write(n) => s.(written := s.written + n)
    case PublishGrowing => Send(s.(published := s.written), Growing(s.written))
    case Show(n) => s.(visible := n)
    case Drain => s.(phase := Drained)
    case Flush => s.(phase := Flushed)
    case Rename => s.(phase := Sealed, tmp := false, final := true, sealed := true)
    case Install => s.(phase := Installed, installed := true)
    case PublishDone => Send(s.(phase := Returned), Done)
    case Break(keepTmp) => s.(phase := Broken, tmp := s.tmp && keepTmp)
    case PublishFailed => Send(s.(phase := Returned), Failed)
    case Panic => s.(phase := Returned)
    case Guard => if Terminal(s) then s.(phase := Ended) else Send(s.(phase := Ended), Failed)
    case _ => s
  }

  /* ---------- the readers ---------- */

  predicate ReaderEnabled<T>(s: State<T>, r: Reader<T>, a: Action) {
    match a
    case Look(_) => r.pc == Top
    case CheckMissed(_) => r.pc == Missed
    case CheckWatermark(_) => r.pc == Ready
    case Unpark(_) => r.pc == Parked
    case ReadSome(_, n) =>
      r.pc == Reading && 0 < n <= CHUNK && Pos(r) + n <= s.visible && Room(r.len, |r.out| + n)
    case ReadNone(_) => r.pc == Reading && s.visible <= Pos(r)
    case CheckEmpty(_) => r.pc == Empty
    case Wake(_) => r.pc == Waiting
    case Fault(_) => !r.pc.Finished? && r.pc != Errored
    case _ => false
  }

  /** The watermark has not passed the reader's position. */
  predicate Behind<T>(s: State<T>, r: Reader<T>) { s.progress.Growing? && s.progress.written <= Pos(r) }

  function ReaderApply<T>(u: Upstream<T>, s: State<T>, r: Reader<T>, a: Action): Reader<T>
    requires s.visible <= |u.payload| && ReaderEnabled(s, r, a)
  {
    match a
    case Look(_) =>
      if Satisfied(r) then r.(pc := Finished(false))
      else if r.open then r.(pc := Ready)
      else if s.tmp then r.(open := true, pc := Ready)
      else r.(pc := Missed)
    case CheckMissed(_) =>
      if s.progress == Done then (if s.final then r.(open := true, pc := Top) else r.(pc := Errored))
      else if s.progress == Failed then r.(pc := Errored)
      else r.(pc := Waiting)
    case CheckWatermark(_) => r.(pc := if Behind(s, r) then Parked else Reading)
    case Unpark(_) => r.(pc := if Behind(s, r) then Parked else Reading)
    case ReadSome(_, n) => r.(out := r.out + u.payload[Pos(r)..Pos(r) + n], pc := Top)
    case ReadNone(_) => r.(pc := Empty, emptyAt := s.visible, emptySealed := s.sealed)
    case CheckEmpty(_) =>
      if s.progress == Done then r.(pc := Finished(true))
      else if s.progress == Failed then r.(pc := Errored)
      else r.(pc := Waiting)
    case Wake(_) => r.(pc := Top)
    case Fault(_) => r.(pc := Errored)
    case _ => r
  }

  /* ---------- the system ---------- */

  predicate IsReaderAction(a: Action) {
    a.Look? || a.CheckMissed? || a.CheckWatermark? || a.Unpark? || a.ReadSome? || a.ReadNone?
    || a.CheckEmpty? || a.Wake? || a.Fault?
  }

  predicate IsWriterAction(a: Action) { !a.Join? && !a.Watch? && !a.Unwatch? && !IsReaderAction(a) }

  ghost predicate Step<T>(u: Upstream<T>, s: State<T>, a: Action, s': State<T>) {
    if a.Join? then
      a.id !in s.readers && s' == s.(readers := s.readers[a.id := Reader(a.start, a.len, [], false, Top, 0, false)])
    else if a.Watch? then s' == s.(watchers := s.watchers + 1)
    else if a.Unwatch? then s.watchers > 0 && s' == s.(watchers := s.watchers - 1)
    else if IsReaderAction(a) then
      && a.id in s.readers && s.visible <= |u.payload| && ReaderEnabled(s, s.readers[a.id], a)
      && s' == s.(readers := s.readers[a.id := ReaderApply(u, s, s.readers[a.id], a)])
    else
      WriterEnabled(u, s, a) && s' == WriterApply(s, a)
  }

  ghost predicate StepAt<T>(u: Upstream<T>, ss: seq<State<T>>, acts: seq<Action>, i: nat)
    requires i < |acts| && i + 1 < |ss|
  {
    Step(u, ss[i], acts[i], ss[i + 1])
  }

  /** Consecutive states linked by the actions between them. */
  ghost predicate IsPath<T>(u: Upstream<T>, ss: seq<State<T>>, acts: seq<Action>) {
    && |ss| == |acts| + 1
    && (forall i :: 0 <= i < |acts| ==> StepAt(u, ss, acts, i))
  }

  /** A run starts before the driver has done anything. */
  ghost predicate IsRun<T>(u: Upstream<T>, ss: seq<State<T>>, acts: seq<Action>) {
    IsPath(u, ss, acts) && ss[0] == Initial()
  }

  function Initial<T>(): State<T> {
    State(Pending, Starting, 0, 0, 0, false, false, false, false, 0, map[])
  }

  /* ---------- what every interleaving keeps ---------- */

  /** The writer's side. */
  ghost predicate WriterInv<T>(u: Upstream<T>, s: State<T>) {
    && s.visible <= s.written <= |u.payload| && s.published <= s.written && Room(u.promised, s.written)
    && (s.progress.Growing? ==> s.progress.written <= s.published)
    && (s.phase in {Drained, Flushed, Sealed, Installed} ==>
          s.published == s.written && (u.promised.None? || s.written == u.promised.value))
    && (s.phase in {Flushed, Sealed, Installed} ==> s.visible == s.written)
    && (s.phase in {Sealed, Installed} ==> s.sealed)
    && (s.phase == Installed ==> s.installed)
    && (s.phase in {Starting, Announced, Pumping, Drained, Flushed} ==> !s.sealed && !s.installed)
    && (s.installed ==> s.sealed)
    && (s.sealed ==> s.final && s.visible == s.written && (u.promised.None? || s.written == u.promised.value))
    && (s.progress == Done ==> s.phase in {Returned, Ended} && s.installed)
    && (s.progress == Failed ==> s.phase in {Returned, Ended})
  }

  /** One reader's side. */
  ghost predicate ReaderInv<T>(u: Upstream<T>, s: State<T>, r: Reader<T>) {
    && Room(r.len, |r.out|)
    && (|r.out| > 0 ==> Pos(r) <= s.visible <= |u.payload| && r.out == u.payload[r.start..Pos(r)])
    && (r.pc == Empty || r.pc == Finished(true) ==>
          && r.emptyAt <= Pos(r) && r.emptyAt <= s.visible
          && (|r.out| > 0 ==> Pos(r) == r.emptyAt)
          && (r.emptySealed ==> s.sealed && r.emptyAt == s.written))
    && (r.pc == Finished(false) ==> r.len == Some(|r.out|))
    && (r.pc == Finished(true) ==> s.progress == Done)
  }

  ghost predicate Inv<T>(u: Upstream<T>, s: State<T>) {
    WriterInv(u, s) && ReadersInv(u, s)
  }

  /** Heard or lost, a value that fits the driver's phase may be sent. */
  lemma SendKeeps<T>(u: Upstream<T>, s: State<T>, p: Progress)
    requires WriterInv(u, s)
    requires p.Growing? ==> p.written <= s.published
    requires p == Done || p == Failed ==> s.phase in {Returned, Ended}
    requires p == Done ==> s.installed
    ensures WriterInv(u, Send(s, p))
  {
  }

  predicate IsSend(a: Action) {
    a.PublishMeta? || a.PublishGrowing? || a.PublishDone? || a.PublishFailed? || a.Guard?
  }

  lemma PublisherKeeps<T>(u: Upstream<T>, s: State<T>, a: Action)
    requires WriterInv(u, s) && WriterEnabled(u, s, a) && IsSend(a)
    ensures WriterInv(u, WriterApply(s, a))
  {
    match a
    case PublishMeta => SendKeeps(u, s.(phase := Announced), Meta);
    case PublishGrowing => SendKeeps(u, s.(published := s.written), Growing(s.written));
    case PublishDone => SendKeeps(u, s.(phase := Returned), Done);
    case PublishFailed => SendKeeps(u, s.(phase := Returned), Failed);
    case Guard => SendKeeps(u, s.(phase := Ended), Failed);
    case _ =>
  }

  lemma WriterKeeps<T>(u: Upstream<T>, s: State<T>, a: Action)
    requires WriterInv(u, s) && WriterEnabled(u, s, a)
    ensures WriterInv(u, WriterApply(s, a))
  {
    if IsSend(a) { PublisherKeeps(u, s, a); } else { WorkerKeeps(u, s, a); }
  }

  lemma WorkerKeeps<T>(u: Upstream<T>, s: State<T>, a: Action)
    requires WriterInv(u, s) && WriterEnabled(u, s, a) && !IsSend(a)
    ensures WriterInv(u, WriterApply(s, a))
  {
  }

  /** No writer step disturbs what a reader has read or concluded. */
  lemma ReaderUndisturbed<T>(u: Upstream<T>, s: State<T>, a: Action, r: Reader<T>)
    requires WriterInv(u, s) && WriterEnabled(u, s, a) && ReaderInv(u, s, r)
    ensures ReaderInv(u, WriterApply(s, a), r)
  {
    WriterKeeps(u, s, a);
    TerminalStays(u, s, a);
    SealedStays(u, s, a);
  }

  /** A terminal report is never replaced. */
  lemma TerminalStays<T>(u: Upstream<T>, s: State<T>, a: Action)
    requires WriterInv(u, s) && WriterEnabled(u, s, a)
    ensures Terminal(s) ==> WriterApply(s, a).progress == s.progress
  {
  }

  /** Nothing is written once the file is sealed. */
  lemma SealedStays<T>(u: Upstream<T>, s: State<T>, a: Action)
    requires WriterInv(u, s) && WriterEnabled(u, s, a)
    ensures s.sealed ==> WriterApply(s, a).sealed && WriterApply(s, a).written == s.written
    ensures s.visible <= WriterApply(s, a).visible
  {
  }

  /** The reader goes to a place where nothing is claimed about an empty read; it
      finishes only when its range is satisfied. */
  lemma ElsewhereKeeps<T>(u: Upstream<T>, s: State<T>, r: Reader<T>, open: bool, pc: Pc)
    requires ReaderInv(u, s, r) && pc != Empty && pc != Finished(true)
    requires pc == Finished(false) ==> r.len == Some(|r.out|)
    ensures ReaderInv(u, s, r.(open := open, pc := pc))
  {
  }

  lemma LookKeeps<T>(u: Upstream<T>, s: State<T>, r: Reader<T>, a: Action)
    requires WriterInv(u, s) && ReaderInv(u, s, r) && ReaderEnabled(s, r, a)
    requires a.Look? || a.CheckMissed? || a.CheckWatermark? || a.Unpark? || a.Wake? || a.Fault?
    ensures ReaderInv(u, s, ReaderApply(u, s, r, a))
  {
    var r' := ReaderApply(u, s, r, a);
    ElsewhereKeeps(u, s, r, r'.open, r'.pc);
  }

  lemma ReadNoneKeeps<T>(u: Upstream<T>, s: State<T>, r: Reader<T>, a: Action)
    requires WriterInv(u, s) && ReaderInv(u, s, r) && ReaderEnabled(s, r, a) && a.ReadNone?
    ensures ReaderInv(u, s, ReaderApply(u, s, r, a))
  {
  }

  /** The status check after an empty read concludes only what that read saw. */
  lemma CheckEmptyKeeps<T>(u: Upstream<T>, s: State<T>, r: Reader<T>, a: Action)
    requires WriterInv(u, s) && ReaderInv(u, s, r) && ReaderEnabled(s, r, a) && a.CheckEmpty?
    ensures ReaderInv(u, s, ReaderApply(u, s, r, a))
  {
  }

  lemma ReadSomeKeeps<T>(u: Upstream<T>, s: State<T>, r: Reader<T>, a: Action)
    requires WriterInv(u, s) && ReaderInv(u, s, r) && ReaderEnabled(s, r, a) && a.ReadSome?
    ensures ReaderInv(u, s, ReaderApply(u, s, r, a))
  {
    ReadExtends(u, s, r, a.n);
  }

  lemma ReaderKeeps<T>(u: Upstream<T>, s: State<T>, r: Reader<T>, a: Action)
    requires WriterInv(u, s) && ReaderInv(u, s, r) && ReaderEnabled(s, r, a)
    ensures ReaderInv(u, s, ReaderApply(u, s, r, a))
  {
    if a.ReadSome? { ReadSomeKeeps(u, s, r, a); }
    else if a.ReadNone? { ReadNoneKeeps(u, s, r, a); }
    else if a.CheckEmpty? { CheckEmptyKeeps(u, s, r, a); }
    else { LookKeeps(u, s, r, a); }
  }

  lemma ReadExtends<T>(u: Upstream<T>, s: State<T>, r: Reader<T>, n: nat)
    requires Pos(r) + n <= |u.payload| && (|r.out| > 0 ==> r.out == u.payload[r.start..Pos(r)])
    ensures r.out + u.payload[Pos(r)..Pos(r) + n] == u.payload[r.start..Pos(r) + n]
  {
  }

  ghost predicate ReadersInv<T>(u: Upstream<T>, s: State<T>) {
    forall id :: id in s.readers ==> ReaderInv(u, s, s.readers[id])
  }

  lemma OneReaderMoves<T>(u: Upstream<T>, s: State<T>, id: int, r: Reader<T>)
    requires ReadersInv(u, s) && ReaderInv(u, s, r)
    ensures ReadersInv(u, s.(readers := s.readers[id := r]))
  {
  }

  lemma ReaderStepKeeps<T>(u: Upstream<T>, s: State<T>, a: Action, s': State<T>)
    requires Inv(u, s) && Step(u, s, a, s') && IsReaderAction(a)
    ensures Inv(u, s')
  {
    ReaderKeeps(u, s, s.readers[a.id], a);
    OneReaderMoves(u, s, a.id, ReaderApply(u, s, s.readers[a.id], a));
    WriterAlone(u, s, s'.readers);
  }

  /** The writer's side does not depend on who reads. */
  lemma WriterAlone<T>(u: Upstream<T>, s: State<T>, readers: map<int, Reader<T>>)
    requires WriterInv(u, s)
    ensures WriterInv(u, s.(readers := readers))
  {
  }

  lemma JoinKeeps<T>(u: Upstream<T>, s: State<T>, a: Action, s': State<T>)
    requires Inv(u, s) && Step(u, s, a, s') && a.Join?
    ensures Inv(u, s')
  {
    OneReaderMoves(u, s, a.id, Reader(a.start, a.len, [], false, Top, 0, false));
    WriterAlone(u, s, s'.readers);
  }

  lemma WatchKeeps<T>(u: Upstream<T>, s: State<T>, n: nat)
    requires Inv(u, s)
    ensures Inv(u, s.(watchers := n))
  {
    var s' := s.(watchers := n);
    forall id | id in s'.readers ensures ReaderInv(u, s', s'.readers[id]) {
      assert ReaderInv(u, s, s.readers[id]);
    }
  }

  lemma WriterStepKeeps<T>(u: Upstream<T>, s: State<T>, a: Action, s': State<T>)
    requires Inv(u, s) && WriterEnabled(u, s, a) && s' == WriterApply(s, a)
    ensures Inv(u, s')
  {
    WriterKeeps(u, s, a);
    ReadersStay(s, a);
    forall id | id in s'.readers ensures ReaderInv(u, s', s'.readers[id]) {
      ReaderUndisturbed(u, s, a, s.readers[id]);
    }
  }

  lemma ReadersStay<T>(s: State<T>, a: Action)
    ensures WriterApply(s, a).readers == s.readers
  {
    if IsSend(a) { SendersStay(s, a); } else { WorkersStay(s, a); }
  }

  lemma SendersStay<T>(s: State<T>, a: Action)
    requires IsSend(a)
    ensures WriterApply(s, a).readers == s.readers
  {
    if a.Guard? { assert Send(s.(phase := Ended), Failed).readers == s.readers; }
  }

  lemma WorkersStay<T>(s: State<T>, a: Action)
    requires !IsSend(a)
    ensures WriterApply(s, a).readers == s.readers
  {
  }

  lemma StepKeeps<T>(u: Upstream<T>, s: State<T>, a: Action, s': State<T>)
    requires Inv(u, s) && Step(u, s, a, s')
    ensures Inv(u, s')
  {
    if a.Join? { JoinKeeps(u, s, a, s'); }
    else if a.Watch? || a.Unwatch? { WatchKeeps(u, s, s'.watchers); }
    else if IsReaderAction(a) { ReaderStepKeeps(u, s, a, s'); }
    else { WriterStepKeeps(u, s, a, s'); }
  }

  lemma NextKeeps<T>(u: Upstream<T>, ss: seq<State<T>>, acts: seq<Action>, i: nat)
    requires IsPath(u, ss, acts) && i < |acts| && Inv(u, ss[i])
    ensures Inv(u, ss[i + 1])
  {
    assert StepAt(u, ss, acts, i);
    StepKeeps(u, ss[i], acts[i], ss[i + 1]);
  }

  lemma {:induction false} RunKeeps<T>(u: Upstream<T>, ss: seq<State<T>>, acts: seq<Action>, k: nat)
    requires IsRun(u, ss, acts) && k < |ss|
    ensures Inv(u, ss[k])
  {
    if k > 0 {
      RunKeeps(u, ss, acts, k - 1);
      NextKeeps(u, ss, acts, k - 1);
    }
  }

  /* ---------- paths ---------- */

  lemma JoinPaths<T>(u: Upstream<T>, ss: seq<State<T>>, acts: seq<Action>, ss': seq<State<T>>, acts': seq<Action>)
    requires IsPath(u, ss, acts) && IsPath(u, ss', acts') && ss[|acts|] == ss'[0]
    ensures IsPath(u, ss + ss'[1..], acts + acts')
    ensures (ss + ss'[1..])[0] == ss[0] && (ss + ss'[1..])[|acts| + |acts'|] == ss'[|acts'|]
  {
    var tt, bb := ss + ss'[1..], acts + acts';
    forall i | 0 <= i < |bb| ensures StepAt(u, tt, bb, i) {
      if i < |acts| {
        assert StepAt(u, ss, acts, i);
      } else {
        var j := i - |acts|;
        assert StepAt(u, ss', acts', j);
        assert tt[i] == ss'[j] && tt[i + 1] == ss'[j + 1] && bb[i] == acts'[j];
      }
    }
  }
}
