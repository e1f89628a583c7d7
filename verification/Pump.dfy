/** The pump: copies an upstream stream into the temp file, announces progress at
    intervals, and seals the file or throws it away. */
module Pump {
  import opened Options
  import opened Flight
  import Seqs

  const BUFFER: nat := 256 * 1024
  const PUBLISH_INTERVAL: nat := 1024 * 1024

  /** What the next reads of the stream meet; an empty `Data` is an end of stream. */
  datatype Frame<+T> = Data(bytes: seq<T>) | Broken

  /** What the file system answers: how many writes succeed (all, if none is given),
      and whether flushing and renaming do. */
  datatype Faults = Faults(writes: Option<nat>, flush: bool, rename: bool)

  datatype Event = Wrote(total: nat) | Published(total: nat) | Removed | Renamed

  datatype Outcome<+T> = SealedAs(content: seq<T>) | Refused

  /* ---------- the stream as its reader sees it ---------- */

  /** Everything before the first end or break. */
  function Body<T>(frames: seq<Frame<T>>): seq<T> {
    if |frames| == 0 || frames[0].Broken? || frames[0].bytes == [] then []
    else frames[0].bytes + Body(frames[1..])
  }

  /** The stream ends rather than breaks. */
  predicate EndsClean<T>(frames: seq<Frame<T>>) {
    if |frames| == 0 then true
    else if frames[0].Broken? then false
    else frames[0].bytes == [] || EndsClean(frames[1..])
  }

  /** The stream once `n` bytes of its first frame are taken. */
  function Take<T>(frames: seq<Frame<T>>, n: nat): seq<Frame<T>>
    requires |frames| > 0 && frames[0].Data? && n <= |frames[0].bytes|
  {
    if n == |frames[0].bytes| then frames[1..] else [Data(frames[0].bytes[n..])] + frames[1..]
  }

  lemma TakeBody<T>(frames: seq<Frame<T>>, n: nat)
    requires |frames| > 0 && frames[0].Data? && 0 < n <= |frames[0].bytes|
    ensures Body(frames) == frames[0].bytes[..n] + Body(Take(frames, n))
    ensures EndsClean(Take(frames, n)) == EndsClean(frames)
  {
    var bs, rest := frames[0].bytes, frames[1..];
    if n < |bs| {
      var left := [Data(bs[n..])] + rest;
      assert left[1..] == rest;
      assert bs == bs[..n] + bs[n..];
      Seqs.Assoc(bs[..n], bs[n..], Body(rest));
    } else {
      assert bs[..n] == bs;
    }
  }

  /* ---------- the pace of announcements ---------- */

  function LastPublished(trace: seq<Event>): nat {
    if |trace| == 0 then 0
    else if trace[|trace| - 1].Published? then trace[|trace| - 1].total
    else LastPublished(trace[..|trace| - 1])
  }

  function LastWritten(trace: seq<Event>): nat {
    if |trace| == 0 then 0
    else if trace[|trace| - 1].Wrote? then trace[|trace| - 1].total
    else LastWritten(trace[..|trace| - 1])
  }

  /** A write is announced at once, or it is within the interval of a watermark
      already announced. */
  ghost predicate Announced(trace: seq<Event>, i: nat)
    requires i < |trace| && trace[i].Wrote?
  {
    || (i + 1 < |trace| && trace[i + 1] == Published(trace[i].total))
    || 0 < LastPublished(trace[..i]) <= trace[i].total < LastPublished(trace[..i]) + PUBLISH_INTERVAL
  }

  /** Totals only grow, and a watermark is the total written when it goes out. */
  ghost predicate InStep(before: seq<Event>, e: Event) {
    && (e.Wrote? ==> LastWritten(before) < e.total)
    && (e.Published? ==> LastPublished(before) < e.total == LastWritten(before))
  }

  ghost predicate Ordered(trace: seq<Event>) {
    forall i :: 0 <= i < |trace| ==> InStep(trace[..i], trace[i])
  }

  ghost predicate Paced(trace: seq<Event>) {
    && (forall i :: 0 <= i < |trace| && trace[i].Wrote? ==> Announced(trace, i))
    && Ordered(trace)
  }

  lemma OrderedSnoc(trace: seq<Event>, e: Event)
    requires Ordered(trace) && InStep(trace, e)
    ensures Ordered(trace + [e])
    ensures LastWritten(trace + [e]) == if e.Wrote? then e.total else LastWritten(trace)
    ensures LastPublished(trace + [e]) == if e.Published? then e.total else LastPublished(trace)
  {
    var t := trace + [e];
    assert t[..|trace|] == trace;
    forall i | 0 <= i < |t| ensures InStep(t[..i], t[i]) {
      if i < |trace| { assert t[..i] == trace[..i]; }
    }
  }

  lemma AnnouncedStays(trace: seq<Event>, i: nat, e: Event)
    requires i < |trace| && trace[i].Wrote? && Announced(trace, i)
    ensures Announced(trace + [e], i)
  {
    assert (trace + [e])[..i] == trace[..i];
  }

  /** Adding an event that keeps the pace, after a trace that kept it. */
  lemma PacedSnoc(trace: seq<Event>, e: Event)
    requires Paced(trace) && !e.Wrote? && InStep(trace, e)
    ensures Paced(trace + [e])
    ensures LastWritten(trace + [e]) == LastWritten(trace)
    ensures LastPublished(trace + [e]) == if e.Published? then e.total else LastPublished(trace)
  {
    OrderedSnoc(trace, e);
    var t := trace + [e];
    forall i | 0 <= i < |t| && t[i].Wrote? ensures Announced(t, i) {
      AnnouncedStays(trace, i, e);
    }
  }

  /** The watermark is due: the first one, or the interval has passed. */
  predicate Due(published: nat, total: nat) { published == 0 || total - published >= PUBLISH_INTERVAL }

  /** Every write has been announced in time, up to `total` bytes. */
  ghost predicate Timely(trace: seq<Event>, total: nat) {
    && Paced(trace) && LastWritten(trace) == total && LastPublished(trace) <= total
    && (total > 0 ==> LastPublished(trace) > 0)
  }

  lemma LateWrite(trace: seq<Event>, total: nat)
    requires Timely(trace, LastWritten(trace)) && LastWritten(trace) < total && !Due(LastPublished(trace), total)
    ensures Timely(trace + [Wrote(total)], total)
    ensures LastPublished(trace + [Wrote(total)]) == LastPublished(trace)
  {
    var w := trace + [Wrote(total)];
    OrderedSnoc(trace, Wrote(total));
    assert w[..|trace|] == trace;
    forall i | 0 <= i < |w| && w[i].Wrote? ensures Announced(w, i) {
      if i < |trace| { AnnouncedStays(trace, i, Wrote(total)); }
    }
  }

  lemma PublishedWrite(trace: seq<Event>, total: nat)
    requires Paced(trace) && LastPublished(trace) <= LastWritten(trace) < total
    ensures Timely(trace + [Wrote(total)] + [Published(total)], total)
    ensures LastPublished(trace + [Wrote(total)] + [Published(total)]) == total
  {
    var w := trace + [Wrote(total)];
    var t := w + [Published(total)];
    OrderedSnoc(trace, Wrote(total));
    OrderedSnoc(w, Published(total));
    forall i | 0 <= i < |t| && t[i].Wrote? ensures Announced(t, i) {
      if i < |trace| {
        AnnouncedStays(trace, i, Wrote(total));
        AnnouncedStays(w, i, Published(total));
      }
    }
  }

  /** The watermarks of a paced trace only grow. */
  lemma {:induction false} WatermarksGrow(trace: seq<Event>, i: nat, j: nat)
    requires Paced(trace) && i < j < |trace| && trace[i].Published? && trace[j].Published?
    ensures trace[i].total < trace[j].total
  {
    PublishedReaches(trace, i, j);
    assert InStep(trace[..j], trace[j]);
  }

  lemma {:induction false} PublishedReaches(trace: seq<Event>, i: nat, k: nat)
    requires Paced(trace) && i < k <= |trace| && trace[i].Published?
    ensures trace[i].total <= LastPublished(trace[..k])
    decreases k
  {
    assert trace[..k][..k - 1] == trace[..k - 1];
    assert InStep(trace[..k - 1], trace[k - 1]);
    if k - 1 > i {
      PublishedReaches(trace, i, k - 1);
    }
  }

  /* ---------- the pump ---------- */

  /** What the pump must make of a stream: chunking does not matter, only the bytes,
      how they end, and the promise. */
  function Expected<T>(frames: seq<Frame<T>>, promised: Option<nat>): Outcome<T> {
    var body := Body(frames);
    if promised.Some? then
      if promised.value <= |body| then SealedAs(body[..promised.value]) else Refused
    else if EndsClean(frames) then SealedAs(body)
    else Refused
  }

  /** Writes and announcements only. */
  ghost predicate Plain(trace: seq<Event>) {
    forall i :: 0 <= i < |trace| ==> trace[i].Wrote? || trace[i].Published?
  }

  /** What came before the last event. */
  function Lead(trace: seq<Event>): seq<Event>
    requires |trace| > 0
  {
    trace[..|trace| - 1]
  }

  /** How a pump ends: the rename is the very last thing it does, and by then the full
      size is out; a refusal removes the temp file, unless it was the rename that
      failed. */
  ghost predicate EndsAs<T>(trace: seq<Event>, outcome: Outcome<T>, total: nat) {
    if outcome.SealedAs? then
      |trace| > 0 && trace[|trace| - 1] == Renamed && Plain(Lead(trace)) && LastPublished(Lead(trace)) == total
    else
      Plain(trace) || (|trace| > 0 && trace[|trace| - 1] == Removed && Plain(Lead(trace)))
  }

  /** What the copy loop keeps of the stream: the bytes taken and the bytes left make
      it up, within the promise. */
  ghost predicate Copied<T>(frames: seq<Frame<T>>, promised: Option<nat>, written: seq<T>, left: seq<Frame<T>>) {
    && Body(frames) == written + Body(left) && EndsClean(left) == EndsClean(frames)
    && Room(promised, |written|)
  }

  lemma CopyTurn<T>(frames: seq<Frame<T>>, promised: Option<nat>, written: seq<T>, left: seq<Frame<T>>, n: nat)
    requires Copied(frames, promised, written, left)
    requires |left| > 0 && left[0].Data? && 0 < n <= |left[0].bytes| && Room(promised, |written| + n)
    ensures Copied(frames, promised, written + left[0].bytes[..n], Take(left, n))
    ensures |Body(Take(left, n))| < |Body(left)|
  {
    var chunk, rest := left[0].bytes[..n], Body(Take(left, n));
    TakeBody(left, n);
    assert Body(left) == chunk + rest && |chunk| == n;
    Seqs.Assoc(written, chunk, rest);
  }

  /** Copy until the promise is met, the stream ends, or something breaks. */
  method Copy<T>(frames: seq<Frame<T>>, promised: Option<nat>, writes: Option<nat>)
    returns (ok: bool, written: seq<T>, published: nat, trace: seq<Event>, ghost left: seq<Frame<T>>)
    ensures Copied(frames, promised, written, left)
    ensures Timely(trace, |written|) && published == LastPublished(trace) && Plain(trace)
    ensures ok ==> promised == Some(|written|) || (Body(left) == [] && EndsClean(left))
    ensures !ok && writes.None? ==> Body(left) == [] && !EndsClean(left) && promised != Some(|written|)
  {
    written, published, trace, left := [], 0, [], frames;
    Seqs.EmptyConcat(Body(frames));
    var src, k := frames, 0;
    while true
      invariant src == left && Copied(frames, promised, written, src)
      invariant Timely(trace, |written|) && published == LastPublished(trace) && Plain(trace)
      decreases |Body(src)|
    {
      var allow := Allowance(promised, |written|);
      if allow == 0 || |src| == 0 || src[0] == Data([]) {
        return true, written, published, trace, left;
      }
      if src[0].Broken? || writes == Some(k) {
        return false, written, published, trace, left;
      }
      var n := if |src[0].bytes| < allow then |src[0].bytes| else allow;
      CopyTurn(frames, promised, written, src, n);
      written, src, k := written + src[0].bytes[..n], Take(src, n), k + 1;
      left := src;
      published, trace := Announce(trace, published, |written|);
    }
  }

  /** How much the next read may take. */
  function Allowance(promised: Option<nat>, written: nat): (allow: nat)
    requires Room(promised, written)
    ensures allow <= BUFFER && Room(promised, written + allow)
    ensures allow == 0 <==> promised == Some(written)
  {
    if promised.None? || promised.value - written >= BUFFER then BUFFER else promised.value - written
  }

  /** Record a write and publish it when a watermark is due. */
  method Announce(trace: seq<Event>, published: nat, total: nat) returns (published': nat, trace': seq<Event>)
    requires Timely(trace, LastWritten(trace)) && published == LastPublished(trace) && LastWritten(trace) < total
    requires Plain(trace)
    ensures Timely(trace', total) && published' == LastPublished(trace') && Plain(trace')
    ensures published' == total || (0 < published' < total < published' + PUBLISH_INTERVAL)
  {
    published', trace' := published, trace + [Wrote(total)];
    if published == 0 || total - published >= PUBLISH_INTERVAL {
      PublishedWrite(trace, total);
      published', trace' := total, trace' + [Published(total)];
    } else {
      LateWrite(trace, total);
    }
  }

  /** The full size goes out if the last watermark fell short of it. */
  method AnnounceAll(trace: seq<Event>, published: nat, total: nat) returns (trace': seq<Event>)
    requires Timely(trace, total) && published == LastPublished(trace) && Plain(trace)
    ensures Paced(trace') && Plain(trace') && LastWritten(trace') == total == LastPublished(trace')
  {
    trace' := trace;
    if total > published {
      PacedSnoc(trace, Published(total));
      trace' := trace + [Published(total)];
    }
  }

  /** For every chunking of the stream: never a byte past the promise, a seal only
      when the promise was met exactly or nothing was promised and the stream ended,
      announcements that start with the first chunk, only grow and never lag by the
      interval, and the full size announced before the rename. */
  method PumpAndSeal<T>(frames: seq<Frame<T>>, promised: Option<nat>, faults: Faults)
    returns (outcome: Outcome<T>, written: seq<T>, trace: seq<Event>)
    ensures written <= Body(frames) && Room(promised, |written|)
    ensures outcome.SealedAs? ==> outcome == Expected(frames, promised) && outcome.content == written
    ensures faults == Faults(None, true, true) ==> outcome == Expected(frames, promised)
    ensures outcome.SealedAs? ==> if promised.Some? then |written| == promised.value
                                  else written == Body(frames) && EndsClean(frames)
    ensures faults == Faults(None, true, true) ==>
              (outcome.SealedAs? <==> if promised.Some? then promised.value <= |Body(frames)| else EndsClean(frames))
    ensures Paced(trace) && LastWritten(trace) == |written|
    ensures outcome.SealedAs? <==> Renamed in trace
    ensures EndsAs(trace, outcome, |written|)
    ensures Pumped(Upstream(Body(frames), promised), outcome, written, trace)
  {
    var ok, published;
    ghost var left;
    ok, written, published, trace, left := Copy(frames, promised, faults.writes);
    CopyMeans(frames, promised, written, left);
    if !ok {
      LastEvent<T>(trace, Removed, Refused, |written|);
      return Refused, written, trace + [Removed];
    }
    trace := AnnounceAll(trace, published, |written|);
    if (promised.Some? && |written| < promised.value) || !faults.flush {
      LastEvent<T>(trace, Removed, Refused, |written|);
      return Refused, written, trace + [Removed];
    }
    if !faults.rename {
      return Refused, written, trace;
    }
    LastEvent(trace, Renamed, SealedAs(written), |written|);
    return SealedAs(written), written, trace + [Renamed];
  }

  /** The event a pump ends on. */
  lemma LastEvent<T>(trace: seq<Event>, e: Event, outcome: Outcome<T>, total: nat)
    requires Paced(trace) && Plain(trace) && LastWritten(trace) == total
    requires if outcome.SealedAs? then e == Renamed && LastPublished(trace) == total else e == Removed
    ensures Paced(trace + [e]) && LastWritten(trace + [e]) == total && EndsAs(trace + [e], outcome, total)
    ensures Renamed in trace + [e] <==> outcome.SealedAs?
  {
    PacedSnoc(trace, e);
    assert Lead(trace + [e]) == trace;
  }

  /** Where the copy stopped decides the outcome. */
  lemma CopyMeans<T>(frames: seq<Frame<T>>, promised: Option<nat>, written: seq<T>, left: seq<Frame<T>>)
    requires Body(frames) == written + Body(left) && EndsClean(left) == EndsClean(frames)
    requires Room(promised, |written|)
    ensures written <= Body(frames)
    ensures promised == Some(|written|) ==> Expected(frames, promised) == SealedAs(written)
    ensures Body(left) == [] && promised != Some(|written|) ==>
              Expected(frames, promised)
              == if promised.None? && EndsClean(frames) then SealedAs(written) else Refused
  {
    if Body(left) == [] { Seqs.EmptyConcat(written); }
  }

  /* ---------- the pump as the flight's writer ---------- */

  /** The writer's state once the events are out, from the moment the temp file exists;
      the announcements are seen if somebody holds a receiver. */
  function Reached<T>(s: State<T>, trace: seq<Event>): State<T> {
    var w, p := LastWritten(trace), LastPublished(trace);
    s.(written := w, published := p, progress := if p > 0 && Listening(s) then Growing(p) else s.progress)
  }

  /** Nothing written, shown or announced yet. */
  predicate Fresh<T>(s: State<T>) {
    s.phase == Pumping && s.tmp && s.written == 0 && s.visible == 0 && s.published == 0
  }

  /** The flight's action an event stands for. */
  function Move(before: seq<Event>, e: Event): Action
    requires e.Wrote? ==> LastWritten(before) <= e.total
  {
    match e
    case Wrote(total) => Write(total - LastWritten(before))
    case Published(_) => PublishGrowing
    case Removed => Break(false)
    case Renamed => Rename
  }

  /** The event an action shows to the outside, given where it led. */
  function Shows<T>(a: Action, after: State<T>): seq<Event> {
    match a
    case Write(_) => [Wrote(after.written)]
    case PublishGrowing => [Published(after.published)]
    case Break(keepTmp) => if keepTmp then [] else [Removed]
    case Rename => [Renamed]
    case _ => []
  }

  /** A path read back as events. */
  function Told<T>(ss: seq<State<T>>, acts: seq<Action>): seq<Event>
    requires |ss| == |acts| + 1
  {
    if |acts| == 0 then []
    else Told(ss[..|acts|], acts[..|acts| - 1]) + Shows(acts[|acts| - 1], ss[|acts|])
  }

  lemma {:induction false} ToldJoin<T>(ss: seq<State<T>>, acts: seq<Action>, ss': seq<State<T>>, acts': seq<Action>)
    requires |ss| == |acts| + 1 && |ss'| == |acts'| + 1
    ensures Told(ss + ss'[1..], acts + acts') == Told(ss, acts) + Told(ss', acts')
    decreases |acts'|
  {
    if |acts'| == 0 {
      assert ss + ss'[1..] == ss && acts + acts' == acts;
      Seqs.EmptyConcat(Told(ss, acts));
    } else {
      var n := |acts'| - 1;
      ToldJoin(ss, acts, ss'[..n + 1], acts'[..n]);
      JoinFront(ss, acts, ss', acts');
      Seqs.Assoc(Told(ss, acts), Told(ss'[..n + 1], acts'[..n]), Shows(acts'[n], ss'[n + 1]));
    }
  }

  lemma JoinFront<T>(ss: seq<State<T>>, acts: seq<Action>, ss': seq<State<T>>, acts': seq<Action>)
    requires |ss| == |acts| + 1 && |ss'| == |acts'| + 1 && |acts'| > 0
    ensures var tt, bb, n := ss + ss'[1..], acts + acts', |acts'| - 1;
            && tt[..|bb|] == ss + ss'[..n + 1][1..] && bb[..|bb| - 1] == acts + acts'[..n]
            && tt[|bb|] == ss'[n + 1] && bb[|bb| - 1] == acts'[n]
  {
  }

  lemma ToldOne<T>(s: State<T>, a: Action, s': State<T>)
    ensures Told([s, s'], [a]) == Shows(a, s')
  {
    assert [a][..0] == [] && Told([s, s'][..1], []) == [];
    Seqs.EmptyConcat(Shows(a, s'));
  }

  /** A write or an announcement of an ordered trace is a step the flight allows. */
  lemma PlainMove<T>(u: Upstream<T>, s: State<T>, before: seq<Event>, e: Event)
    requires Fresh(s) && Ordered(before) && InStep(before, e) && (e.Wrote? || e.Published?)
    requires e.Wrote? ==> e.total <= |u.payload| && Room(u.promised, e.total)
    ensures WriterEnabled(u, Reached(s, before), Move(before, e))
    ensures WriterApply(Reached(s, before), Move(before, e)) == Reached(s, before + [e])
  {
    OrderedSnoc(before, e);
  }

  lemma OrderedLead(trace: seq<Event>)
    requires Ordered(trace) && |trace| > 0
    ensures Ordered(Lead(trace)) && InStep(Lead(trace), trace[|trace| - 1])
    ensures LastWritten(Lead(trace)) <= LastWritten(trace) && Lead(trace) + [trace[|trace| - 1]] == trace
  {
    var n := |trace| - 1;
    forall i | 0 <= i < n ensures InStep(trace[..n][..i], trace[..n][i]) {
      Seqs.TakeTake(trace, i, n);
      assert InStep(trace[..i], trace[i]);
    }
    assert InStep(trace[..n], trace[n]);
  }

  datatype Path<!T> = Path(ss: seq<State<T>>, acts: seq<Action>)

  /** A path of the flight from `s` to `t` that, read back, is the trace. */
  ghost predicate Tells<T>(u: Upstream<T>, p: Path<T>, s: State<T>, t: State<T>, trace: seq<Event>) {
    && IsPath(u, p.ss, p.acts) && p.ss[0] == s && p.ss[|p.acts|] == t
    && Told(p.ss, p.acts) == trace
  }

  /** A path and one more step of the writer. */
  lemma Extend<T>(u: Upstream<T>, p: Path<T>, s: State<T>, t: State<T>, trace: seq<Event>, a: Action)
    returns (p': Path<T>, t': State<T>)
    requires Tells(u, p, s, t, trace) && IsWriterAction(a) && WriterEnabled(u, t, a)
    ensures t' == WriterApply(t, a) && Tells(u, p', s, t', trace + Shows(a, t'))
  {
    t' := WriterApply(t, a);
    var part := [t, t'];
    assert StepAt(u, part, [a], 0);
    JoinPaths(u, p.ss, p.acts, part, [a]);
    ToldJoin(p.ss, p.acts, part, [a]);
    ToldOne(t, a, t');
    p' := Path(p.ss + part[1..], p.acts + [a]);
  }

  /** A step that shows nothing. */
  lemma ExtendQuietly<T>(u: Upstream<T>, p: Path<T>, s: State<T>, t: State<T>, trace: seq<Event>, a: Action)
    returns (p': Path<T>, t': State<T>)
    requires Tells(u, p, s, t, trace) && IsWriterAction(a) && WriterEnabled(u, t, a)
    requires a.Show? || a.Drain? || a.Flush? || a == Break(true)
    ensures t' == WriterApply(t, a) && Tells(u, p', s, t', trace)
  {
    p', t' := Extend(u, p, s, t, trace, a);
    Seqs.EmptyConcat(trace);
  }

  /** Everything a pump writes and announces is a path of the flight. */
  lemma {:induction false} PlainPath<T>(u: Upstream<T>, s: State<T>, trace: seq<Event>) returns (p: Path<T>)
    requires Fresh(s) && Ordered(trace) && Plain(trace)
    requires LastWritten(trace) <= |u.payload| && Room(u.promised, LastWritten(trace))
    ensures Tells(u, p, s, Reached(s, trace), trace)
    decreases |trace|
  {
    if |trace| == 0 {
      p := Path([s], []);
    } else {
      OrderedLead(trace);
      p := PlainPath(u, s, Lead(trace));
      p := PlainExtend(u, p, s, Lead(trace), trace[|trace| - 1]);
    }
  }

  lemma PlainExtend<T>(u: Upstream<T>, p: Path<T>, s: State<T>, before: seq<Event>, e: Event) returns (p': Path<T>)
    requires Tells(u, p, s, Reached(s, before), before)
    requires Fresh(s) && Ordered(before) && InStep(before, e) && (e.Wrote? || e.Published?)
    requires e.Wrote? ==> e.total <= |u.payload| && Room(u.promised, e.total)
    ensures Tells(u, p', s, Reached(s, before + [e]), before + [e])
  {
    PlainMove(u, s, before, e);
    PlainShown(s, before, e);
    var t;
    p', t := Extend(u, p, s, Reached(s, before), before, Move(before, e));
  }

  lemma PlainShown<T>(s: State<T>, before: seq<Event>, e: Event)
    requires Ordered(before) && InStep(before, e) && (e.Wrote? || e.Published?)
    ensures Shows(Move(before, e), Reached(s, before + [e])) == [e]
  {
    OrderedSnoc(before, e);
  }

  /** Once everything is out and the promise met, the writer may drain, flush and rename. */
  lemma SealPath<T>(u: Upstream<T>, p: Path<T>, s: State<T>, t: State<T>, trace: seq<Event>)
    returns (p': Path<T>, t': State<T>)
    requires Tells(u, p, s, t, trace) && t.phase == Pumping && t.visible <= t.written == t.published
    requires u.promised.None? || t.written == u.promised.value
    ensures t' == t.(visible := t.written, phase := Sealed, tmp := false, final := true, sealed := true)
    ensures Tells(u, p', s, t', trace + [Renamed])
  {
    p', t' := FlushPath(u, p, s, t, trace);
    p', t' := Extend(u, p', s, t', trace, Rename);
  }

  lemma FlushPath<T>(u: Upstream<T>, p: Path<T>, s: State<T>, t: State<T>, trace: seq<Event>)
    returns (p': Path<T>, t': State<T>)
    requires Tells(u, p, s, t, trace) && t.phase == Pumping && t.visible <= t.written == t.published
    requires u.promised.None? || t.written == u.promised.value
    ensures t' == t.(visible := t.written, phase := Flushed) && Tells(u, p', s, t', trace)
  {
    p', t' := ShowPath(u, p, s, t, trace);
    p', t' := ExtendQuietly(u, p', s, t', trace, Drain);
    p', t' := ExtendQuietly(u, p', s, t', trace, Flush);
  }

  lemma ShowPath<T>(u: Upstream<T>, p: Path<T>, s: State<T>, t: State<T>, trace: seq<Event>)
    returns (p': Path<T>, t': State<T>)
    requires Tells(u, p, s, t, trace) && t.visible <= t.written
    ensures t' == t.(visible := t.written) && Tells(u, p', s, t', trace)
  {
    p', t' := p, t;
    if t.visible < t.written { p', t' := ExtendQuietly(u, p, s, t, trace, Show(t.written)); }
  }

  /** What a pump reports of its work, as `PumpAndSeal` promises it. */
  ghost predicate Pumped<T>(u: Upstream<T>, outcome: Outcome<T>, written: seq<T>, trace: seq<Event>) {
    && written <= u.payload && Room(u.promised, |written|)
    && (outcome.SealedAs? ==> outcome.content == written && (u.promised.None? || |written| == u.promised.value))
    && Paced(trace) && LastWritten(trace) == |written| && EndsAs(trace, outcome, |written|)
  }

  /** Every pump is a writer the flight allows, event for event: its steps, read back,
      are its trace; it arrives sealed when it says sealed, and otherwise with the same
      bytes written and still to fail. */
  lemma PumpDrivesFlight<T>(u: Upstream<T>, s: State<T>, outcome: Outcome<T>, written: seq<T>, trace: seq<Event>)
    returns (p: Path<T>, t: State<T>)
    requires Fresh(s) && Pumped(u, outcome, written, trace)
    ensures Tells(u, p, s, t, trace) && t.written == |written|
    ensures outcome.SealedAs? ==> t.phase == Sealed && t.sealed && t.published == |written|
    ensures outcome.Refused? ==> t.phase == Phase.Broken && t.sealed == s.sealed
  {
    if outcome.SealedAs? {
      p, t := SealedPath(u, s, written, trace);
    } else if Plain(trace) {
      p := PlainPath(u, s, trace);
      p, t := ExtendQuietly(u, p, s, Reached(s, trace), trace, Break(true));
    } else {
      p, t := RemovedPath(u, s, written, trace);
    }
  }

  lemma SealedPath<T>(u: Upstream<T>, s: State<T>, written: seq<T>, trace: seq<Event>)
    returns (p: Path<T>, t: State<T>)
    requires Fresh(s) && Pumped(u, SealedAs(written), written, trace)
    ensures Tells(u, p, s, t, trace)
    ensures t.written == |written| == t.published && t.phase == Sealed && t.sealed
  {
    PlainLead(trace);
    p := PlainPath(u, s, Lead(trace));
    p, t := SealPath(u, p, s, Reached(s, Lead(trace)), Lead(trace));
  }

  lemma RemovedPath<T>(u: Upstream<T>, s: State<T>, written: seq<T>, trace: seq<Event>)
    returns (p: Path<T>, t: State<T>)
    requires Fresh(s) && Pumped(u, Refused, written, trace) && !Plain(trace)
    ensures Tells(u, p, s, t, trace) && t.written == |written| && t.phase == Phase.Broken && t.sealed == s.sealed
  {
    PlainLead(trace);
    p := PlainPath(u, s, Lead(trace));
    p, t := Extend(u, p, s, Reached(s, Lead(trace)), Lead(trace), Break(false));
  }

  /** A rename or a removal at the end leaves the totals as they were. */
  lemma PlainLead(trace: seq<Event>)
    requires Ordered(trace)
    ensures |trace| > 0 && (trace[|trace| - 1] == Removed || trace[|trace| - 1] == Renamed)
        ==> && Ordered(Lead(trace)) && LastWritten(Lead(trace)) == LastWritten(trace)
            && Lead(trace) + [trace[|trace| - 1]] == trace
  {
    if |trace| > 0 { OrderedLead(trace); }
  }
}
