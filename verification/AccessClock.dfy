/** Access times kept in sixteen locked shards and folded into the rows in batches.
    Touches, the shard-by-shard drain and the fold interleave freely. */
module AccessClock {
  import Seqs

  const ACCESS_SHARDS: nat := 16

  type Stamps = map<string, nat>

  /** Which shard a key lives in. */
  ghost predicate Hashes(shardOf: string -> nat) { forall k :: shardOf(k) < ACCESS_SHARDS }

  /** A drained batch: what the shards drained so far held, in arbitrary order. */
  type Batch = seq<(string, nat)>

  function Put(m: Stamps, k: string, now: nat): Stamps { m[k := now] }

  function Fold(rows: Stamps, batch: Batch): Stamps
    decreases |batch|
  {
    if |batch| == 0 then rows
    else Fold(if batch[0].0 in rows then rows[batch[0].0 := batch[0].1] else rows, batch[1..])
  }

  /** The flusher's loop over one batch. */
  method FoldBatch(rows: Stamps, batch: Batch) returns (rows': Stamps)
    ensures rows' == Fold(rows, batch)
  {
    rows' := rows;
    assert batch[0..] == batch;
    for i := 0 to |batch|
      invariant Fold(rows', batch[i..]) == Fold(rows, batch)
    {
      assert batch[i..][0] == batch[i];
      Seqs.DropDrop(batch, i, i + 1);
      if batch[i].0 in rows' {
        rows' := rows'[batch[i].0 := batch[i].1];
      }
    }
  }

  ghost predicate DistinctKeys(batch: Batch) {
    forall i, j :: 0 <= i < j < |batch| ==> batch[i].0 != batch[j].0
  }

  /** A batch without repeated keys puts each of its keys that has a row at its
      stamp, in whatever order it lists them, and leaves the other rows alone. */
  lemma {:induction false} FoldExact(rows: Stamps, batch: Batch)
    requires DistinctKeys(batch)
    ensures Fold(rows, batch).Keys == rows.Keys
    ensures forall i :: 0 <= i < |batch| && batch[i].0 in rows ==> Fold(rows, batch)[batch[i].0] == batch[i].1
    ensures forall k :: k in rows && !Listed(batch, k) ==> Fold(rows, batch)[k] == rows[k]
    decreases |batch|
  {
    if |batch| > 0 {
      var k, stamp, rest := batch[0].0, batch[0].1, batch[1..];
      var rows' := if k in rows then rows[k := stamp] else rows;
      forall i | 0 <= i < |rest| ensures rest[i] == batch[i + 1] && rest[i].0 != k {}
      FoldExact(rows', rest);
      forall i | 0 <= i < |batch| && batch[i].0 in rows ensures Fold(rows, batch)[batch[i].0] == batch[i].1 {
        if i > 0 { assert rest[i - 1] == batch[i]; }
      }
      forall j | j in rows && !Listed(batch, j) ensures Fold(rows, batch)[j] == rows[j] {
        assert batch[0].0 != j;
        assert !Listed(rest, j);
      }
    }
  }

  /* ---------- the interleaving ---------- */

  /** `next` is the shard the drain takes next; `latest` and `folded` remember each
      key's last touch and last folded stamp, and `restamped` the rows written by an
      install since a fold last reached them. */
  datatype State = State(shards: seq<Stamps>, batch: Batch, next: nat, rows: Stamps,
                         latest: Stamps, folded: Stamps, restamped: Stamps)

  datatype Action =
    | Touch(key: string, now: nat) | DrainShard(part: Batch) | FoldIn
    | Install(key: string, now: nat) | Remove(key: string)

  /** `part` lists a shard's content, each key once. */
  ghost predicate Lists(part: Batch, shard: Stamps) {
    && (forall i :: 0 <= i < |part| ==> part[i].0 in shard && part[i].1 == shard[part[i].0])
    && (forall k :: k in shard ==> exists i :: 0 <= i < |part| && part[i].0 == k)
    && DistinctKeys(part)
  }

  ghost function Absorbed(folded: Stamps, batch: Batch): Stamps
    decreases |batch|
  {
    if |batch| == 0 then folded else Absorbed(folded[batch[0].0 := batch[0].1], batch[1..])
  }

  ghost predicate Step(shardOf: string -> nat, s: State, a: Action, s': State) {
    match a
    case Touch(k, now) =>
      && shardOf(k) < |s.shards|
      && s' == s.(shards := s.shards[shardOf(k) := Put(s.shards[shardOf(k)], k, now)], latest := s.latest[k := now])
    case DrainShard(part) =>
      && s.next < |s.shards| && Lists(part, s.shards[s.next])
      && s' == s.(shards := s.shards[s.next := map[]], batch := s.batch + part, next := s.next + 1)
    case FoldIn =>
      && s.next == |s.shards|
      && s' == s.(rows := Fold(s.rows, s.batch), folded := Absorbed(s.folded, s.batch), batch := [], next := 0,
                  restamped := Unlisted(s.restamped, s.batch))
    case Install(k, now) =>
      s' == s.(rows := s.rows[k := now], restamped := s.restamped[k := now])
    case Remove(k) =>
      s' == s.(rows := s.rows - {k})
  }

  /** The entries a batch does not list. */
  ghost function Unlisted(m: Stamps, batch: Batch): Stamps { map k | k in m && !Listed(batch, k) :: m[k] }

  /** Every row that was folded or installed carries the stamp of whichever came last. */
  ghost predicate RowsInv(s: State) {
    forall k :: k in s.rows ==>
      && (k in s.restamped ==> s.rows[k] == s.restamped[k])
      && (k !in s.restamped && k in s.folded ==> s.rows[k] == s.folded[k])
  }

  ghost predicate Listed(batch: Batch, k: string) { exists i :: 0 <= i < |batch| && batch[i].0 == k }

  /** Where a touched key's latest stamp is: in its shard, else in the batch, else
      folded. */
  ghost predicate Kept(shardOf: string -> nat, s: State, k: string)
    requires Hashes(shardOf) && |s.shards| == ACCESS_SHARDS && k in s.latest
  {
    if k in s.shards[shardOf(k)] then s.shards[shardOf(k)][k] == s.latest[k]
    else if Listed(s.batch, k) then (k, s.latest[k]) in s.batch
    else k in s.folded && s.folded[k] == s.latest[k]
  }

  ghost predicate Inv(shardOf: string -> nat, s: State)
    requires Hashes(shardOf)
  {
    && |s.shards| == ACCESS_SHARDS && s.next <= ACCESS_SHARDS
    && (forall i :: 0 <= i < ACCESS_SHARDS ==> forall k :: k in s.shards[i] ==> shardOf(k) == i && k in s.latest)
    && (forall i :: 0 <= i < |s.batch| ==> shardOf(s.batch[i].0) < s.next && s.batch[i].0 in s.latest)
    && DistinctKeys(s.batch)
    && (forall k :: k in s.latest ==> Kept(shardOf, s, k))
    && RowsInv(s)
  }

  lemma {:induction false} AbsorbedExact(folded: Stamps, batch: Batch)
    requires DistinctKeys(batch)
    ensures forall i :: 0 <= i < |batch| ==> batch[i].0 in Absorbed(folded, batch)
                                             && Absorbed(folded, batch)[batch[i].0] == batch[i].1
    ensures forall k :: !Listed(batch, k) ==>
              (k in Absorbed(folded, batch) <==> k in folded)
              && (k in folded ==> Absorbed(folded, batch)[k] == folded[k])
    decreases |batch|
  {
    if |batch| > 0 {
      var k, stamp, rest := batch[0].0, batch[0].1, batch[1..];
      forall i | 0 <= i < |rest| ensures rest[i] == batch[i + 1] && rest[i].0 != k {}
      AbsorbedExact(folded[k := stamp], rest);
      assert !Listed(rest, k);
      forall i | 0 <= i < |batch| ensures batch[i].0 in Absorbed(folded, batch)
                                          && Absorbed(folded, batch)[batch[i].0] == batch[i].1 {
        if i > 0 { assert rest[i - 1] == batch[i]; }
      }
      forall j | !Listed(batch, j)
        ensures j in Absorbed(folded, batch) <==> j in folded
        ensures j in folded ==> Absorbed(folded, batch)[j] == folded[j]
      {
        assert batch[0].0 != j;
        assert !Listed(rest, j);
      }
    }
  }

  lemma TouchKeeps(shardOf: string -> nat, s: State, k: string, now: nat, s': State)
    requires Hashes(shardOf) && Inv(shardOf, s) && Step(shardOf, s, Touch(k, now), s')
    ensures Inv(shardOf, s')
  {
    forall j | j in s'.latest ensures Kept(shardOf, s', j) {
      if j != k { assert Kept(shardOf, s, j); }
    }
  }

  lemma ListedConcat(a: Batch, c: Batch, k: string)
    ensures Listed(a + c, k) <==> Listed(a, k) || Listed(c, k)
  {
    if Listed(a, k) {
      var i :| 0 <= i < |a| && a[i].0 == k;
      assert (a + c)[i] == a[i];
    }
    if Listed(c, k) {
      var i :| 0 <= i < |c| && c[i].0 == k;
      assert (a + c)[|a| + i] == c[i];
    }
  }

  lemma DistinctConcat(a: Batch, c: Batch)
    requires DistinctKeys(a) && DistinctKeys(c)
    requires forall i, j :: 0 <= i < |a| && 0 <= j < |c| ==> a[i].0 != c[j].0
    ensures DistinctKeys(a + c)
  {
  }

  lemma DrainKept(shardOf: string -> nat, s: State, part: Batch, s': State, j: string)
    requires Hashes(shardOf) && Inv(shardOf, s) && Step(shardOf, s, DrainShard(part), s') && j in s.latest
    ensures |s'.shards| == ACCESS_SHARDS && Kept(shardOf, s', j)
  {
    assert Kept(shardOf, s, j);
    ListedConcat(s.batch, part, j);
    if shardOf(j) == s.next && j in s.shards[s.next] {
      var i :| 0 <= i < |part| && part[i].0 == j;
      assert part[i] == (j, s.latest[j]) && part[i] in s.batch + part;
      assert Listed(part, j);
    } else {
      assert !Listed(part, j);
    }
  }

  lemma DrainKeeps(shardOf: string -> nat, s: State, part: Batch, s': State)
    requires Hashes(shardOf) && Inv(shardOf, s) && Step(shardOf, s, DrainShard(part), s')
    ensures Inv(shardOf, s')
  {
    forall i | 0 <= i < |s'.batch| ensures shardOf(s'.batch[i].0) < s'.next && s'.batch[i].0 in s'.latest {
      if i >= |s.batch| { assert s'.batch[i] == part[i - |s.batch|]; } else { assert s'.batch[i] == s.batch[i]; }
    }
    DistinctConcat(s.batch, part);
    forall j | j in s'.latest ensures Kept(shardOf, s', j) {
      DrainKept(shardOf, s, part, s', j);
    }
  }

  lemma FoldKeeps(shardOf: string -> nat, s: State, s': State)
    requires Hashes(shardOf) && Inv(shardOf, s) && Step(shardOf, s, FoldIn, s')
    ensures Inv(shardOf, s')
  {
    FoldExact(s.rows, s.batch);
    AbsorbedExact(s.folded, s.batch);
    forall j | j in s'.latest ensures Kept(shardOf, s', j) {
      assert Kept(shardOf, s, j);
      if j !in s.shards[shardOf(j)] && Listed(s.batch, j) {
        var i :| 0 <= i < |s.batch| && s.batch[i] == (j, s.latest[j]);
      }
    }
    FoldRows(s, s');
  }

  lemma FoldRows(s: State, s': State)
    requires RowsInv(s) && DistinctKeys(s.batch) && s'.rows == Fold(s.rows, s.batch)
    requires s'.folded == Absorbed(s.folded, s.batch) && s'.restamped == Unlisted(s.restamped, s.batch)
    ensures RowsInv(s')
  {
    FoldExact(s.rows, s.batch);
    AbsorbedExact(s.folded, s.batch);
    forall k | k in s'.rows
      ensures k in s'.restamped ==> s'.rows[k] == s'.restamped[k]
      ensures k !in s'.restamped && k in s'.folded ==> s'.rows[k] == s'.folded[k]
    {
      if Listed(s.batch, k) {
        var i :| 0 <= i < |s.batch| && s.batch[i].0 == k;
      }
    }
  }

  /** Rows may come and go meanwhile. */
  lemma RowWriteKeeps(shardOf: string -> nat, s: State, a: Action, s': State)
    requires Hashes(shardOf) && Inv(shardOf, s) && Step(shardOf, s, a, s') && (a.Install? || a.Remove?)
    ensures Inv(shardOf, s')
  {
    forall j | j in s'.latest ensures Kept(shardOf, s', j) { assert Kept(shardOf, s, j); }
  }

  ghost predicate StepAt(shardOf: string -> nat, ss: seq<State>, acts: seq<Action>, i: nat)
    requires i < |acts| && i + 1 < |ss|
  {
    Step(shardOf, ss[i], acts[i], ss[i + 1])
  }

  ghost predicate IsRun(shardOf: string -> nat, ss: seq<State>, acts: seq<Action>) {
    && |ss| == |acts| + 1
    && ss[0].shards == seq(ACCESS_SHARDS, i => map[]) && ss[0].batch == [] && ss[0].next == 0
    && ss[0].latest == map[] && ss[0].folded == map[] && ss[0].restamped == map[]
    && (forall i :: 0 <= i < |acts| ==> StepAt(shardOf, ss, acts, i))
  }

  lemma {:induction false} RunKeeps(shardOf: string -> nat, ss: seq<State>, acts: seq<Action>, k: nat)
    requires Hashes(shardOf) && IsRun(shardOf, ss, acts) && k < |ss|
    ensures Inv(shardOf, ss[k])
  {
    if k > 0 {
      RunKeeps(shardOf, ss, acts, k - 1);
      var s, s' := ss[k - 1], ss[k];
      assert StepAt(shardOf, ss, acts, k - 1);
      match acts[k - 1]
      case Touch(key, now) => TouchKeeps(shardOf, s, key, now, s');
      case DrainShard(part) => DrainKeeps(shardOf, s, part, s');
      case FoldIn => FoldKeeps(shardOf, s, s');
      case Install(_, _) => RowWriteKeeps(shardOf, s, acts[k - 1], s');
      case Remove(_) => RowWriteKeeps(shardOf, s, acts[k - 1], s');
    }
  }

  /** No touch is lost: at every point of every interleaving, rows being installed
      and removed meanwhile, a touched key's latest stamp is waiting in its shard, or
      is in the batch, or is folded, in which case a row the key has carries it, or
      the stamp of an install that wrote the row since. */
  lemma NoTouchLost(shardOf: string -> nat, ss: seq<State>, acts: seq<Action>, k: nat, key: string)
    requires Hashes(shardOf) && IsRun(shardOf, ss, acts) && k < |ss| && key in ss[k].latest
    ensures var s := ss[k];
            |s.shards| == ACCESS_SHARDS
            && (|| (key in s.shards[shardOf(key)] && s.shards[shardOf(key)][key] == s.latest[key])
                || (key, s.latest[key]) in s.batch
                || (key in s.folded && s.folded[key] == s.latest[key]
                    && (key in s.rows ==>
                          s.rows[key] == if key in s.restamped then s.restamped[key] else s.latest[key])))
  {
    RunKeeps(shardOf, ss, acts, k);
    assert Kept(shardOf, ss[k], key);
  }

  /** The fold writes whatever was drained: it takes a row back behind the stamp it
      has, say from an install, exactly when the batch holds an older one. */
  lemma FoldStepsBackIff(rows: Stamps, batch: Batch, key: string)
    requires DistinctKeys(batch) && key in rows
    ensures key in Fold(rows, batch)
    ensures Fold(rows, batch)[key] < rows[key]
        <==> exists i :: 0 <= i < |batch| && batch[i].0 == key && batch[i].1 < rows[key]
  {
    FoldExact(rows, batch);
    if i :| 0 <= i < |batch| && batch[i].0 == key {
      assert Fold(rows, batch)[key] == batch[i].1;
    }
  }
}
