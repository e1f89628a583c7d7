/** Runs that end otherwise than a reader would wish, step by step. */
module FlightRace {
  import opened Options
  import opened Flight
  import FlightRuns

  /** A one-byte object, promised as such. */
  predicate OneByte(u: Upstream<int>) { |u.payload| == 1 && u.promised == Some(1) }

  /** A path from the start to `s`. */
  datatype Path = Path(ss: seq<State<int>>, acts: seq<Action>)

  ghost predicate Reaches(u: Upstream<int>, p: Path, s: State<int>) {
    IsRun(u, p.ss, p.acts) && p.ss[|p.acts|] == s
  }

  /** One more step. */
  lemma Then(u: Upstream<int>, p: Path, s: State<int>, a: Action, s': State<int>) returns (p': Path)
    requires Reaches(u, p, s) && Step(u, s, a, s')
    ensures Reaches(u, p', s')
  {
    JoinPaths(u, p.ss, p.acts, [s, s'], [a]);
    p' := Path(p.ss + [s, s'][1..], p.acts + [a]);
  }

  /** A step of the driver. */
  lemma Drives(u: Upstream<int>, p: Path, s: State<int>, a: Action) returns (p': Path, s': State<int>)
    requires Reaches(u, p, s) && IsWriterAction(a) && WriterEnabled(u, s, a)
    ensures s' == WriterApply(s, a) && Reaches(u, p', s')
  {
    s' := WriterApply(s, a);
    p' := Then(u, p, s, a, s');
  }

  /** A step of the only reader. */
  lemma Follows(u: Upstream<int>, p: Path, s: State<int>, a: Action) returns (p': Path, s': State<int>)
    requires Reaches(u, p, s) && IsReaderAction(a) && a.id in s.readers && s.visible <= |u.payload|
    requires ReaderEnabled(s, s.readers[a.id], a)
    ensures s' == s.(readers := s.readers[a.id := ReaderApply(u, s, s.readers[a.id], a)]) && Reaches(u, p', s')
  {
    s' := s.(readers := s.readers[a.id := ReaderApply(u, s, s.readers[a.id], a)]);
    p' := Then(u, p, s, a, s');
  }

  function Lone(open: bool, pc: Pc): map<int, Reader<int>> { map[0 := Reader(0, None, [], open, pc, 0, false)] }

  /** The file is written, shown, announced, sealed and its row installed. */
  lemma PumpsThrough(u: Upstream<int>, p: Path, s: State<int>) returns (p': Path, s': State<int>)
    requires OneByte(u) && Reaches(u, p, s) && s.phase == Pumping
    requires s.written == 0 && s.visible == 0 && s.published == 0
    ensures Reaches(u, p', s')
    ensures s' == s.(phase := Installed, written := 1, visible := 1, published := 1, tmp := false, final := true,
                     sealed := true, installed := true, progress := s'.progress)
    ensures s'.progress == if Listening(s) then Growing(1) else s.progress
  {
    p', s' := Drives(u, p, s, Write(1));
    p', s' := Drives(u, p', s', Show(1));
    p', s' := Drives(u, p', s', PublishGrowing);
    p', s' := Seals(u, p', s');
  }

  lemma Seals(u: Upstream<int>, p: Path, s: State<int>) returns (p': Path, s': State<int>)
    requires OneByte(u) && Reaches(u, p, s) && s.phase == Pumping && s.written == s.visible == s.published == 1
    ensures Reaches(u, p', s')
    ensures s' == s.(phase := Installed, tmp := false, final := true, sealed := true, installed := true)
  {
    p', s' := Drives(u, p, s, Drain);
    p', s' := Drives(u, p', s', Flush);
    p', s' := Drives(u, p', s', Rename);
    p', s' := Drives(u, p', s', Install);
  }

  /** A reader has come, the driver has announced the object and made the temp file. */
  lemma Opens(u: Upstream<int>) returns (p: Path, s: State<int>)
    ensures Reaches(u, p, s)
    ensures s == State(Meta, Pumping, 0, 0, 0, true, false, false, false, 0, Lone(false, Top))
  {
    s := Initial();
    p := Path([s], []);
    var joined := s.(readers := Lone(false, Top));
    p := Then(u, p, s, Join(0, 0, None), joined);
    assert 0 in joined.readers && Following(joined.readers[0]);
    p, s := Drives(u, p, joined, PublishMeta);
    p, s := Drives(u, p, s, Create);
  }

  lemma FindsNothing(u: Upstream<int>) returns (p: Path, s: State<int>)
    ensures Reaches(u, p, s)
    ensures s == State(Meta, Pumping, 0, 0, 0, true, false, false, false, 0, Lone(true, Empty))
  {
    p, s := Opens(u);
    p, s := Follows(u, p, s, Look(0));
    assert s.readers == Lone(true, Ready);
    p, s := Follows(u, p, s, CheckWatermark(0));
    assert s.readers == Lone(true, Reading);
    p, s := Follows(u, p, s, ReadNone(0));
    assert s.readers == Lone(true, Empty);
  }

  /** A whole-file reader looks at the still empty file, the pump then finishes
      between its zero-byte read and its status check, and it ends cleanly having
      delivered nothing of a one-byte object. */
  lemma ShortCleanEnd(u: Upstream<int>) returns (p: Path, s: State<int>)
    requires OneByte(u)
    ensures Reaches(u, p, s)
    ensures 0 in s.readers && s.readers[0].pc == Finished(true) && s.readers[0].out == []
    ensures s.progress == Done && !FlightRuns.Complete(s, s.readers[0])
  {
    p, s := FindsNothing(u);
    assert Following(s.readers[0]);
    p, s := PumpsThrough(u, p, s);
    assert Following(s.readers[0]);
    p, s := Drives(u, p, s, PublishDone);
    p, s := Follows(u, p, s, CheckEmpty(0));
  }

  /** The caller that waited for the metadata has left and nobody else has come. */
  lemma LeavesEarly(u: Upstream<int>) returns (p: Path, s: State<int>)
    ensures Reaches(u, p, s)
    ensures s == State(Meta, Announced, 0, 0, 0, false, false, false, false, 0, map[])
  {
    s := Initial();
    p := Path([s], []);
    var watched := s.(watchers := 1);
    p := Then(u, p, s, Watch, watched);
    p, s := Drives(u, p, watched, PublishMeta);
    var left := s.(watchers := 0);
    p := Then(u, p, s, Unwatch, left);
    s := left;
  }

  /** The object once sealed and installed, nobody having heard more than Meta. */
  function Unheard(phase: Phase, readers: map<int, Reader<int>>): State<int> {
    State(Meta, phase, 1, 1, 1, false, true, true, true, 0, readers)
  }

  lemma FinishesUnheard(u: Upstream<int>) returns (p: Path)
    requires OneByte(u)
    ensures Reaches(u, p, Unheard(Returned, map[]))
  {
    var s;
    p, s := LeavesEarly(u);
    p, s := Drives(u, p, s, Create);
    p, s := PumpsThrough(u, p, s);
    p, s := Drives(u, p, s, PublishDone);
  }

  lemma NothingLeft(u: Upstream<int>, s: State<int>, a: Action)
    requires s.phase == Ended && s.visible == s.written
    ensures !WriterEnabled(u, s, a)
  {
  }

  lemma ComesLate(u: Upstream<int>) returns (p: Path)
    requires OneByte(u)
    ensures Reaches(u, p, Unheard(Ended, Lone(false, Top)))
  {
    p := FinishesUnheard(u);
    var s;
    p, s := Drives(u, p, Unheard(Returned, map[]), Guard);
    assert s == Unheard(Ended, map[]);
    p := Then(u, p, s, Join(0, 0, None), Unheard(Ended, Lone(false, Top)));
  }

  /** The caller that waited for the metadata leaves before the body is first polled,
      and the whole download falls into the gap: the object is sealed and installed, the
      driver is gone, and what the late reader sees, and waits on, is still Meta. */
  lemma SilentEnd(u: Upstream<int>) returns (p: Path, s: State<int>)
    requires OneByte(u)
    ensures Reaches(u, p, s)
    ensures s.phase == Ended && s.sealed && s.installed && s.progress == Meta
    ensures 0 in s.readers && s.readers[0].pc == Waiting && (forall a :: !WriterEnabled(u, s, a))
  {
    p := ComesLate(u);
    p, s := Follows(u, p, Unheard(Ended, Lone(false, Top)), Look(0));
    assert s == Unheard(Ended, Lone(false, Missed));
    p, s := Follows(u, p, s, CheckMissed(0));
    assert s == Unheard(Ended, Lone(false, Waiting));
    forall a ensures !WriterEnabled(u, s, a) { NothingLeft(u, s, a); }
  }

  /** Done is sent to nobody, somebody comes, and the guard tells them Failed: the
      object is sealed and installed all the same. */
  lemma SealedSeenAsFailed(u: Upstream<int>) returns (p: Path, s: State<int>)
    requires OneByte(u)
    ensures Reaches(u, p, s) && s.sealed && s.installed && s.progress == Failed
  {
    p := FinishesUnheard(u);
    var watched := Unheard(Returned, map[]).(watchers := 1);
    p := Then(u, p, Unheard(Returned, map[]), Watch, watched);
    p, s := Drives(u, p, watched, Guard);
  }
}
