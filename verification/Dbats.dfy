/** The DBATS backend of lib/backends/timeseries_backend_dbats.c over an abstract transactional store. */
module Dbats {
  import opened Basics
  import opened KeyPackage

  /** An answer of libdbats: 0, DB_LOCK_DEADLOCK, or any other error. */
  datatype Rc = Ok | Deadlock | Error

  /** An open snapshot: its time and the writes made in it, invisible until committed. */
  datatype Snapshot = Snapshot(time: u32, writes: seq<(nat, u64)>)

  type Data = map<(u32, nat), u64>

  // ---------- the store after a commit ----------

  function Store(data: Data, time: u32, writes: seq<(nat, u64)>): Data {
    if writes == [] then data
    else
      var w := writes[|writes| - 1];
      Store(data, time, writes[..|writes| - 1])[(time, w.0) := w.1]
  }

  /** The (id, value) pairs of the enabled records, in id order. */
  function IdWrites(infos: seq<KeyInfo>): seq<(nat, u64)> {
    if infos == [] then []
    else
      var ki := infos[|infos| - 1];
      IdWrites(infos[..|infos| - 1]) + (if ki.disabled || ki.dbatsId.None? then [] else [(ki.dbatsId.value, ki.value)])
  }

  /** What a reader finds under a key name. */
  function Find(data: Data, ids: map<Bytes, nat>, t: u32, k: Bytes): Option<u64> {
    if k in ids && (t, ids[k]) in data then Some(data[(t, ids[k])]) else None
  }

  /** Readers find the same values. */
  ghost predicate SameView(data0: Data, ids0: map<Bytes, nat>, data1: Data, ids1: map<Bytes, nat>) {
    forall t: u32, k :: Find(data1, ids1, t, k) == Find(data0, ids0, t, k)
  }

  /** Readers find the last value of `points` where there is one, and what they found before elsewhere. */
  ghost predicate Overlaid(data0: Data, ids0: map<Bytes, nat>, data1: Data, ids1: map<Bytes, nat>, points: seq<Point>) {
    forall t: u32, k :: Find(data1, ids1, t, k) == Over(LastValue(points, t, k), Find(data0, ids0, t, k))
  }

  lemma SameViewTrans(data0: Data, ids0: map<Bytes, nat>, data1: Data, ids1: map<Bytes, nat>, data2: Data, ids2: map<Bytes, nat>)
    ensures SameView(data0, ids0, data0, ids0)
    ensures SameView(data0, ids0, data1, ids1) && SameView(data1, ids1, data2, ids2) ==> SameView(data0, ids0, data2, ids2)
  {
    hide Find;
  }

  predicate Injective(ids: map<Bytes, nat>) {
    forall a, b :: a in ids && b in ids && ids[a] == ids[b] ==> a == b
  }

  /** Every cached id is the database's id for that name. */
  predicate CacheSound(infos: seq<KeyInfo>, ids: map<Bytes, nat>) {
    forall i :: 0 <= i < |infos| && infos[i].dbatsId.Some? ==>
      infos[i].key in ids && ids[infos[i].key] == infos[i].dbatsId.value
  }

  /** kp_flush dereferences the cached id of every enabled record. */
  predicate Resolved(infos: seq<KeyInfo>) {
    forall i :: 0 <= i < |infos| && !infos[i].disabled ==> infos[i].dbatsId.Some?
  }

  /** Only enabled records without an id may have been given one. */
  predicate OnlyFills(before: seq<KeyInfo>, after: seq<KeyInfo>) {
    |before| == |after| && forall i :: 0 <= i < |after| && (before[i].disabled || before[i].dbatsId.Some?) ==> after[i] == before[i]
  }

  /** Half-way through the update: the records before n are done, the others are as they were. */
  predicate FilledUpTo(before: seq<KeyInfo>, after: seq<KeyInfo>, n: nat) {
    && |before| == |after|
    && forall i :: 0 <= i < |after| ==>
      && after[i] == before[i].(dbatsId := after[i].dbatsId)
      && (i >= n || before[i].disabled || before[i].dbatsId.Some? ==> after[i] == before[i])
      && (i < n && !after[i].disabled ==> after[i].dbatsId.Some?)
  }

  lemma FillNext(before: seq<KeyInfo>, after: seq<KeyInfo>, n: nat, id: nat)
    requires FilledUpTo(before, after, n) && n < |after|
    ensures after[n] == before[n]
    ensures after[n].disabled || after[n].dbatsId.Some? ==> FilledUpTo(before, after, n + 1)
    ensures !after[n].disabled && after[n].dbatsId.None? ==> FilledUpTo(before, after[n := after[n].(dbatsId := Some(id))], n + 1)
  {
  }

  lemma Filled(before: seq<KeyInfo>, after: seq<KeyInfo>, n: nat)
    requires FilledUpTo(before, after, n)
    ensures SameTable(after, before) && OnlyFills(before, after)
    ensures n >= |before| ==> Resolved(after)
    ensures n < |after| && !before[n].disabled && before[n].dbatsId.None? ==> !Resolved(after)
  {
    assert n < |after| ==> after[n] == before[n];
  }

  lemma NothingFilled(infos: seq<KeyInfo>)
    ensures FilledUpTo(infos, infos, 0)
  {
  }

  lemma CacheStep(infos: seq<KeyInfo>, n: nat, ids: map<Bytes, nat>, ids': map<Bytes, nat>, id: nat)
    requires n < |infos| && CacheSound(infos, ids)
    requires forall k :: k in ids ==> k in ids' && ids'[k] == ids[k]
    ensures CacheSound(infos, ids')
    ensures infos[n].key in ids' && ids'[infos[n].key] == id ==> CacheSound(infos[n := infos[n].(dbatsId := Some(id))], ids')
  {
  }

  /** How many enabled records have no id yet. */
  function Missing(infos: seq<KeyInfo>): nat {
    if infos == [] then 0
    else
      var ki := infos[|infos| - 1];
      Missing(infos[..|infos| - 1]) + (if !ki.disabled && ki.dbatsId.None? then 1 else 0)
  }

  lemma {:induction false} MissingPrefix(infos: seq<KeyInfo>, n: nat)
    requires n <= |infos|
    ensures Missing(infos[..n]) <= Missing(infos)
    ensures n < |infos| ==> Missing(infos[..n + 1]) == Missing(infos[..n]) + (if !infos[n].disabled && infos[n].dbatsId.None? then 1 else 0)
    decreases |infos|
  {
    if n < |infos| {
      assert infos[..n + 1][..n] == infos[..n];
      assert infos[..|infos| - 1][..n] == infos[..n];
      MissingPrefix(infos[..|infos| - 1], n);
    } else {
      assert infos[..n] == infos;
    }
  }

  lemma IdWritesSnoc(infos: seq<KeyInfo>, n: nat)
    requires n < |infos|
    ensures IdWrites(infos[..n + 1]) == IdWrites(infos[..n])
      + (if infos[n].disabled || infos[n].dbatsId.None? then [] else [(infos[n].dbatsId.value, infos[n].value)])
  {
    assert infos[..n + 1][..n] == infos[..n];
  }

  lemma StoreSnoc(data: Data, time: u32, ws: seq<(nat, u64)>, w: (nat, u64))
    ensures Store(data, time, ws + [w]) == Store(data, time, ws)[(time, w.0) := w.1]
  {
    assert (ws + [w])[..|ws|] == ws;
  }

  lemma WriteOne(data: Data, ids: map<Bytes, nat>, time: u32, key: Bytes, v: u64, t: u32, k: Bytes)
    requires Injective(ids) && key in ids
    ensures Find(data[(time, ids[key]) := v], ids, t, k) == if t == time && k == key then Some(v) else Find(data, ids, t, k)
  {
  }

  lemma LastValueSnoc(points: seq<Point>, p: Point, t: u32, k: Bytes)
    ensures LastValue(points + [p], t, k) == if p.time == t && p.key == k then Some(p.value) else LastValue(points, t, k)
  {
    assert (points + [p])[..|points|] == points;
  }

  /** Committing a flush writes exactly the enabled records over the old store, the later record winning. */
  lemma {:induction false} CommitIsOverlay(data: Data, ids: map<Bytes, nat>, time: u32, infos: seq<KeyInfo>,
        t: u32, k: Bytes)
    requires Injective(ids) && CacheSound(infos, ids) && Resolved(infos)
    ensures Find(Store(data, time, IdWrites(infos)), ids, t, k) == Over(LastValue(Enabled(infos, time), t, k), Find(data, ids, t, k))
  {
    if infos != [] {
      var n := |infos| - 1;
      var init, ki := infos[..n], infos[n];
      CommitIsOverlay(data, ids, time, init, t, k);
      if !ki.disabled {
        StoreSnoc(data, time, IdWrites(init), (ki.dbatsId.value, ki.value));
        WriteOne(Store(data, time, IdWrites(init)), ids, time, ki.key, ki.value, t, k);
        LastValueSnoc(Enabled(init, time), Point(time, ki.key, ki.value), t, k);
      } else {
        assert IdWrites(infos) == IdWrites(init) && Enabled(infos, time) == Enabled(init, time);
      }
    }
  }

  lemma CommitOverlays(data: Data, ids: map<Bytes, nat>, time: u32, infos: seq<KeyInfo>)
    requires Injective(ids) && CacheSound(infos, ids) && Resolved(infos)
    ensures Overlaid(data, ids, Store(data, time, IdWrites(infos)), ids, Enabled(infos, time))
  {
    forall t: u32, k ensures Find(Store(data, time, IdWrites(infos)), ids, t, k) == Over(LastValue(Enabled(infos, time), t, k), Find(data, ids, t, k)) {
      CommitIsOverlay(data, ids, time, infos, t, k);
    }
  }

  /** A commit writes no time but its own. */
  lemma {:induction false} StoreKeys(data: Data, time: u32, ws: seq<(nat, u64)>)
    ensures forall ti :: ti in Store(data, time, ws) <==> ti in data || (ti.0 == time && exists i :: 0 <= i < |ws| && ws[i].0 == ti.1)
  {
    if ws != [] {
      var n := |ws| - 1;
      StoreKeys(data, time, ws[..n]);
      var before := Store(data, time, ws[..n]);
      forall ti ensures ti in before[(time, ws[n].0) := ws[n].1] <==> ti in data || (ti.0 == time && exists i :: 0 <= i < |ws| && ws[i].0 == ti.1) {
        if i :| 0 <= i < |ws| && ws[i].0 == ti.1 {
          if i < n { assert ws[..n][i].0 == ti.1; }
        }
        if j :| 0 <= j < n && ws[..n][j].0 == ti.1 {
          assert ws[j].0 == ti.1;
        }
      }
    }
  }

  lemma {:induction false} IdWritesKnown(infos: seq<KeyInfo>, ids: map<Bytes, nat>)
    requires CacheSound(infos, ids)
    ensures forall i :: 0 <= i < |IdWrites(infos)| ==> IdWrites(infos)[i].0 in ids.Values
  {
    if infos != [] {
      var n := |infos| - 1;
      IdWritesKnown(infos[..n], ids);
      assert infos[n].dbatsId.Some? ==> infos[n].key in ids && ids[infos[n].key] == infos[n].dbatsId.value;
    }
  }

  /** A commit stores nothing under an id the database has not given out. */
  lemma StoreStaysKnown(data: Data, ids: map<Bytes, nat>, time: u32, infos: seq<KeyInfo>)
    requires CacheSound(infos, ids)
    requires forall ti :: ti in data ==> ti.1 in ids.Values
    ensures forall ti :: ti in Store(data, time, IdWrites(infos)) ==> ti.1 in ids.Values
  {
    IdWritesKnown(infos, ids);
    StoreKeys(data, time, IdWrites(infos));
  }

  // ---------- the answers of the library over one flush ----------

  function Pop(script: seq<Rc>): (Rc, seq<Rc>) {
    if script == [] then (Ok, []) else (script[0], script[1..])
  }

  /** n calls of dbats_set and a commit, up to the first answer that is not Ok. */
  function SetsAndCommit(script: seq<Rc>, n: nat): (r: (Rc, seq<Rc>))
    ensures |r.1| <= |script| && (r.0 != Ok ==> |r.1| < |script|)
    decreases n
  {
    if n == 0 then Pop(script)
    else if Pop(script).0 == Ok then SetsAndCommit(Pop(script).1, n - 1)
    else Pop(script)
  }

  lemma SetsStep(script: seq<Rc>, n: nat)
    ensures n == 0 ==> SetsAndCommit(script, n) == Pop(script)
    ensures n > 0 && Pop(script).0 == Ok ==> SetsAndCommit(script, n) == SetsAndCommit(Pop(script).1, n - 1)
    ensures n > 0 && Pop(script).0 != Ok ==> SetsAndCommit(script, n) == Pop(script)
  {
  }

  /** One pass from `retry:`; a failed select is not retried whatever its code. */
  function Attempt(script: seq<Rc>, n: nat): (r: (Rc, seq<Rc>))
    ensures |r.1| <= |script| && (r.0 != Ok ==> |r.1| < |script|)
  {
    if Pop(script).0 == Ok then SetsAndCommit(Pop(script).1, n) else (Error, Pop(script).1)
  }

  /** Whether a flush of n enabled records succeeds: attempts are repeated while they deadlock. */
  function Outcome(script: seq<Rc>, n: nat): (bool, seq<Rc>)
    decreases |script|
  {
    var r := Attempt(script, n);
    match r.0
    case Ok => (true, r.1)
    case Error => (false, r.1)
    case Deadlock => Outcome(r.1, n)
  }

  /** n calls of dbats_get_key_id, up to the first answer that is not Ok. */
  function Grant(script: seq<Rc>, n: nat): (bool, seq<Rc>)
    decreases n
  {
    if n == 0 then (true, script)
    else if Pop(script).0 == Ok then Grant(Pop(script).1, n - 1)
    else (false, Pop(script).1)
  }

  lemma GrantStep(script: seq<Rc>, n: nat)
    ensures n == 0 ==> Grant(script, n) == (true, script)
    ensures n > 0 && Pop(script).0 == Ok ==> Grant(script, n) == Grant(Pop(script).1, n - 1)
    ensures n > 0 && Pop(script).0 != Ok ==> Grant(script, n) == (false, Pop(script).1)
  {
  }

  /** Half-way through the update: what is left is to ask for the missing ids of the records from n on. */
  ghost predicate Asked(script0: seq<Rc>, script: seq<Rc>, infos: seq<KeyInfo>, n: nat) {
    && n <= |infos| && Missing(infos[..n]) <= Missing(infos)
    && Grant(script0, Missing(infos)) == Grant(script, Missing(infos) - Missing(infos[..n]))
  }

  lemma NothingAsked(script: seq<Rc>, infos: seq<KeyInfo>)
    ensures Asked(script, script, infos, 0)
  {
  }

  lemma AskNext(script0: seq<Rc>, script: seq<Rc>, infos: seq<KeyInfo>, n: nat)
    requires Asked(script0, script, infos, n) && n < |infos|
    ensures infos[n].disabled || infos[n].dbatsId.Some? ==> Asked(script0, script, infos, n + 1)
    ensures !infos[n].disabled && infos[n].dbatsId.None? ==>
      if Pop(script).0 == Ok then Asked(script0, Pop(script).1, infos, n + 1)
      else Grant(script0, Missing(infos)) == (false, Pop(script).1)
  {
    MissingPrefix(infos, n);
    MissingPrefix(infos, n + 1);
    GrantStep(script, Missing(infos) - Missing(infos[..n]));
  }

  lemma AllAsked(script0: seq<Rc>, script: seq<Rc>, infos: seq<KeyInfo>)
    requires Asked(script0, script, infos, |infos|)
    ensures Grant(script0, Missing(infos)) == (true, script)
  {
    assert infos[..|infos|] == infos;
  }

  /** One turn of the backend in a flush: `missing` ids to ask for, `enabled` records to write. */
  function Turn(script: seq<Rc>, missing: nat, enabled: nat): (bool, seq<Rc>) {
    var g := Grant(script, missing);
    if g.0 then Outcome(g.1, enabled) else (false, g.1)
  }

  // ---------- which answers make which result ----------

  /** The first n answers are Ok, counting those after the end of the script. */
  predicate FirstOk(script: seq<Rc>, n: nat) {
    forall i :: 0 <= i < n && i < |script| ==> script[i] == Ok
  }

  function Drop(script: seq<Rc>, n: nat): seq<Rc> {
    if n < |script| then script[n..] else []
  }

  lemma FirstOkStep(script: seq<Rc>, n: nat)
    ensures FirstOk(script, n + 1) <==> Pop(script).0 == Ok && FirstOk(Pop(script).1, n)
    ensures Drop(script, n + 1) == Drop(Pop(script).1, n)
    ensures FirstOk(script, 0) && Drop(script, 0) == script
  {
    if script != [] {
      assert forall i :: 0 <= i < |script| - 1 ==> script[1..][i] == script[i + 1];
    }
  }

  /** Ids are granted exactly when that many first answers are Ok. */
  lemma {:induction false} GrantIff(script: seq<Rc>, n: nat)
    ensures Grant(script, n).0 <==> FirstOk(script, n)
    ensures FirstOk(script, n) ==> Grant(script, n).1 == Drop(script, n)
    decreases n
  {
    if n == 0 {
      FirstOkStep(script, 0);
    } else {
      FirstOkStep(script, n - 1);
      GrantIff(Pop(script).1, n - 1);
    }
  }

  /** Sets and commit succeed exactly when that many first answers are Ok; otherwise the first answer
      that is not Ok decides, whichever call it answers. */
  lemma {:induction false} SetsIff(script: seq<Rc>, n: nat)
    ensures SetsAndCommit(script, n).0 == Ok <==> FirstOk(script, n + 1)
    decreases n
  {
    FirstOkStep(script, n);
    FirstOkStep(Pop(script).1, 0);
    if n > 0 {
      SetsIff(Pop(script).1, n - 1);
    }
  }

  lemma {:induction false} SetsStopAt(script: seq<Rc>, n: nat, j: nat)
    requires j <= n && j < |script| && script[j] != Ok && forall i :: 0 <= i < j ==> script[i] == Ok
    ensures SetsAndCommit(script, n) == (script[j], script[j + 1..])
    decreases n
  {
    if j > 0 {
      SetsStopAt(script[1..], n - 1, j - 1);
      assert script[1..][j..] == script[j + 1..];
    }
  }

  /** A deadlock in a set or in the commit is survived: the flush goes on as if it began after it. */
  lemma DeadlockSurvived(script: seq<Rc>, n: nat, j: nat)
    requires j <= n && j + 1 < |script| && script[j + 1] == Deadlock && forall i :: 0 <= i <= j ==> script[i] == Ok
    ensures Outcome(script, n) == Outcome(script[j + 2..], n)
  {
    SetsStopAt(script[1..], n, j);
    assert script[1..][j + 1..] == script[j + 2..];
  }

  /** Any other error there, and any answer but Ok to the select, a deadlock included, ends it. */
  lemma OtherErrorsEndIt(script: seq<Rc>, n: nat, j: nat)
    requires j <= n + 1 && j < |script| && forall i :: 0 <= i < j ==> script[i] == Ok
    requires if j == 0 then script[j] != Ok else script[j] == Error
    ensures Outcome(script, n) == (false, script[j + 1..])
  {
    if j > 0 {
      SetsStopAt(script[1..], n, j - 1);
      assert script[1..][j..] == script[j + 1..];
    }
  }

  /** The answers are some attempts that deadlock after their select, at set or commit number js[0],
      js[1], ..., and then one attempt in which everything is Ok. */
  ghost predicate Survives(script: seq<Rc>, n: nat, js: seq<nat>)
    decreases |js|
  {
    if js == [] then FirstOk(script, n + 2)
    else
      var j := js[0];
      && j <= n && j + 1 < |script|
      && (forall i :: 0 <= i <= j ==> script[i] == Ok)
      && script[j + 1] == Deadlock
      && Survives(script[j + 2..], n, js[1..])
  }

  lemma AllOkAttempt(script: seq<Rc>, n: nat)
    ensures FirstOk(script, n + 2) <==> Attempt(script, n).0 == Ok
    ensures FirstOk(script, n + 2) ==> Outcome(script, n).0
  {
    FirstOkStep(script, n + 1);
    SetsIff(Pop(script).1, n);
  }

  lemma {:induction false} SurvivesMeansSuccess(script: seq<Rc>, n: nat, js: seq<nat>)
    requires Survives(script, n, js)
    ensures Outcome(script, n).0
    decreases |js|
  {
    if js == [] {
      AllOkAttempt(script, n);
    } else {
      DeadlockSurvived(script, n, js[0]);
      SurvivesMeansSuccess(script[js[0] + 2..], n, js[1..]);
    }
  }

  lemma {:induction false} FirstNotOk(script: seq<Rc>, n: nat) returns (j: nat)
    requires !FirstOk(script, n)
    ensures j < n && j < |script| && script[j] != Ok && forall i :: 0 <= i < j ==> script[i] == Ok
  {
    if script[0] != Ok {
      j := 0;
    } else {
      FirstOkStep(script, n - 1);
      j := FirstNotOk(script[1..], n - 1);
      j := j + 1;
    }
  }

  lemma {:induction false} SuccessMeansSurvives(script: seq<Rc>, n: nat) returns (js: seq<nat>)
    requires Outcome(script, n).0
    ensures Survives(script, n, js)
    decreases |script|
  {
    AllOkAttempt(script, n);
    js := [];
    if !FirstOk(script, n + 2) {
      var j := FirstNotOk(script, n + 2);
      if j == 0 || script[j] == Error {
        OtherErrorsEndIt(script, n, j);
        assert false;
      } else {
        DeadlockSurvived(script, n, j - 1);
        var rest := SuccessMeansSurvives(script[j + 1..], n);
        js := [j - 1] + rest;
        assert js[1..] == rest;
      }
    }
  }

  /** A flush of n enabled records succeeds exactly when every attempt before the last one deadlocks in a
      set or in the commit and the last one is Ok throughout. */
  lemma FlushSucceedsIff(script: seq<Rc>, n: nat)
    ensures Outcome(script, n).0 <==> exists js :: Survives(script, n, js)
  {
    if Outcome(script, n).0 {
      var js := SuccessMeansSurvives(script, n);
      assert Survives(script, n, js);
    } else {
      forall js ensures !Survives(script, n, js) {
        if Survives(script, n, js) {
          SurvivesMeansSuccess(script, n, js);
          assert false;
        }
      }
    }
  }

  /** A deadlock at the select is enough to fail. */
  lemma DeadlockAtSelect(n: nat)
    ensures Outcome([Deadlock], n) == (false, [])
  {
    OtherErrorsEndIt([Deadlock], n, 0);
  }

  /** A database whose every answer is Ok. */
  predicate AllOk(script: seq<Rc>) {
    forall i :: 0 <= i < |script| ==> script[i] == Ok
  }

  lemma {:induction false} AllOkSets(script: seq<Rc>, n: nat)
    requires AllOk(script)
    ensures SetsAndCommit(script, n).0 == Ok && AllOk(SetsAndCommit(script, n).1)
    decreases n
  {
    if n > 0 {
      AllOkSets(Pop(script).1, n - 1);
    }
  }

  lemma AllOkOutcome(script: seq<Rc>, n: nat)
    requires AllOk(script)
    ensures Outcome(script, n).0 && AllOk(Outcome(script, n).1)
  {
    AllOkSets(Pop(script).1, n);
  }

  lemma AllOkTurn(script: seq<Rc>, missing: nat, enabled: nat)
    requires AllOk(script)
    ensures Turn(script, missing, enabled).0 && AllOk(Turn(script, missing, enabled).1)
  {
    GrantIff(script, missing);
    AllOkOutcome(Drop(script, missing), enabled);
  }

  /** A run of turns, each with the ids to ask for and the records to write: how many fail, and the answers left. */
  function Replay(script: seq<Rc>, turns: seq<(nat, nat)>): (nat, seq<Rc>) {
    if turns == [] then (0, script)
    else
      var last := turns[|turns| - 1];
      var before := Replay(script, turns[..|turns| - 1]);
      var r := Turn(before.1, last.0, last.1);
      (before.0 + (if r.0 then 0 else 1), r.1)
  }

  lemma ReplaySnoc(script: seq<Rc>, turns: seq<(nat, nat)>, missing: nat, enabled: nat)
    ensures var before := Replay(script, turns); var r := Turn(before.1, missing, enabled);
      Replay(script, turns + [(missing, enabled)]) == (before.0 + (if r.0 then 0 else 1), r.1)
  {
    assert (turns + [(missing, enabled)])[..|turns|] == turns;
  }

  lemma {:induction false} ReplaySplit(script: seq<Rc>, a: seq<(nat, nat)>, b: seq<(nat, nat)>)
    ensures var before := Replay(script, a); var after := Replay(before.1, b);
      Replay(script, a + b) == (before.0 + after.0, after.1)
  {
    hide Turn;
    if b == [] {
      assert a + b == a;
    } else {
      var n := |b| - 1;
      ReplaySplit(script, a, b[..n]);
      assert (a + b)[..|a + b| - 1] == a + b[..n];
    }
  }

  /** When every answer is Ok no turn fails. */
  lemma {:induction false} AllOkReplay(script: seq<Rc>, turns: seq<(nat, nat)>)
    requires AllOk(script)
    ensures Replay(script, turns).0 == 0 && AllOk(Replay(script, turns).1)
  {
    hide AllOk;
    hide Turn;
    if turns != [] {
      var n := |turns| - 1;
      AllOkReplay(script, turns[..n]);
      AllOkTurn(Replay(script, turns[..n]).1, turns[n].0, turns[n].1);
    }
  }

  // ---------- the object ----------

  class Dbats {
    var ids: map<Bytes, nat>
    var data: Data
    /** Every id in use is below this bound, so a fresh one exists. */
    var bound: nat
    /** The answers the library will give; an exhausted script answers Ok. */
    var script: seq<Rc>
    /** The points of every committed flush, in order. */
    ghost var log: seq<seq<Point>>

    ghost predicate Valid()
      reads this
    {
      && Injective(ids)
      && (forall k :: k in ids ==> ids[k] < bound)
      && (forall ti :: ti in data ==> ti.1 in ids.Values)
    }

    constructor (script: seq<Rc>)
      ensures Valid() && this.script == script && data == map[] && ids == map[] && log == []
    {
      ids, data, bound := map[], map[], 0;
      this.script := script;
      log := [];
    }

    method Answer() returns (rc: Rc)
      modifies this`script
      ensures (rc, script) == Pop(old(script))
    {
      rc := Ok;
      if script != [] {
        rc := script[0];
        script := script[1..];
      }
    }

    /** dbats_get_key_id with DBATS_CREATE: the id of a known key, or some fresh id. */
    method GetKeyId(key: Bytes) returns (rc: Rc, id: nat)
      requires Valid()
      modifies this`ids, this`bound, this`script
      ensures Valid()
      ensures forall k :: k in old(ids) ==> k in ids && ids[k] == old(ids)[k]
      ensures SameView(old(data), old(ids), data, ids)
      ensures rc == Ok ==> key in ids && ids[key] == id
      ensures (rc, script) == Pop(old(script))
    {
      id := 0;
      rc := Answer();
      if rc == Ok {
        if key in ids {
          id := ids[key];
        } else {
          assert bound !in ids.Values;
          id :| id !in ids.Values;
          ids := ids[key := id];
          bound := if id < bound then bound else id + 1;
          assert forall v :: v in old(ids).Values ==> v in ids.Values by {
            forall v | v in old(ids).Values ensures v in ids.Values {
              var k :| k in old(ids) && old(ids)[k] == v;
              assert k in ids && ids[k] == v;
            }
          }
        }
      }
    }

    /** Asks for the id of one record and caches it. */
    method Assign(kp: KP, n: nat) returns (rc: Rc)
      requires Valid() && kp.Valid() && CacheSound(kp.infos, ids) && n < |kp.infos|
      modifies this`ids, this`bound, this`script, kp`infos
      ensures Valid() && kp.Valid() && CacheSound(kp.infos, ids)
      ensures SameView(old(data), old(ids), data, ids)
      ensures (rc, script) == Pop(old(script))
      ensures rc != Ok ==> kp.infos == old(kp.infos)
      ensures rc == Ok ==> |kp.infos| == |old(kp.infos)| && kp.infos[n].dbatsId.Some?
      ensures rc == Ok ==> kp.infos == old(kp.infos)[n := old(kp.infos)[n].(dbatsId := kp.infos[n].dbatsId)]
    {
      hide SameView;
      hide CacheSound;
      hide IndexOf;
      hide CountEnabled;
      ghost var ids1 := ids;
      var dbatsId;
      rc, dbatsId := GetKeyId(kp.infos[n].key);
      CacheStep(kp.infos, n, ids1, ids, dbatsId);
      if rc == Ok {
        kp.SetBackendState(n, dbatsId);
      }
    }

    /** timeseries_backend_dbats_kp_ki_update: ask for the id of every enabled record that has none. */
    method KiUpdate(kp: KP) returns (rc: int)
      requires Valid() && kp.Valid() && CacheSound(kp.infos, ids)
      modifies this`ids, this`bound, this`script, kp`infos
      ensures Valid() && kp.Valid() && CacheSound(kp.infos, ids)
      ensures SameTable(kp.infos, old(kp.infos))
      ensures OnlyFills(old(kp.infos), kp.infos)
      ensures rc == 0 <==> Resolved(kp.infos)
      ensures rc == 0 || rc == -1
      ensures SameView(old(data), old(ids), data, ids)
      ensures rc == 0 <==> FirstOk(old(script), Missing(old(kp.infos)))
      ensures (rc == 0, script) == Grant(old(script), Missing(old(kp.infos)))
    {
      hide Valid;
      hide KP.Valid;
      hide Missing;
      hide Grant;
      hide Pop;
      hide Asked;
      hide FirstOk;
      hide FilledUpTo;
      hide SameTable;
      hide OnlyFills;
      hide Resolved;
      hide CacheSound;
      hide SameView;
      ghost var before := kp.infos;
      NothingFilled(kp.infos);
      GrantIff(script, Missing(before));
      NothingAsked(script, before);
      SameViewTrans(data, ids, data, ids, data, ids);
      var id := 0;
      while id < |kp.infos|
        invariant 0 <= id <= |kp.infos| == |before|
        invariant Valid() && kp.Valid() && CacheSound(kp.infos, ids)
        invariant FilledUpTo(before, kp.infos, id)
        invariant SameView(old(data), old(ids), data, ids)
        invariant Asked(old(script), script, before, id)
      {
        AskNext(old(script), script, before, id);
        var ki := kp.infos[id];
        FillNext(before, kp.infos, id, 0);
        if !ki.disabled && ki.dbatsId.None? {
          ghost var infos, data1, ids1 := kp.infos, data, ids;
          var answer := Assign(kp, id);
          SameViewTrans(old(data), old(ids), data1, ids1, data, ids);
          if answer != Ok {
            Filled(before, infos, id);
            return -1;
          }
          FillNext(before, infos, id, kp.infos[id].dbatsId.value);
        }
        id := id + 1;
      }
      Filled(before, kp.infos, id);
      AllAsked(old(script), script, before);
      return 0;
    }

    method SelectSnap(time: u32) returns (rc: Rc, snapshot: Snapshot)
      modifies this`script
      ensures (rc, script) == Pop(old(script)) && snapshot == Snapshot(time, [])
    {
      rc := Answer();
      snapshot := Snapshot(time, []);
    }

    method SetValue(snapshot: Snapshot, id: nat, value: u64) returns (rc: Rc, after: Snapshot)
      modifies this`script
      ensures (rc, script) == Pop(old(script))
      ensures rc == Ok ==> after == snapshot.(writes := snapshot.writes + [(id, value)])
    {
      rc := Answer();
      after := snapshot;
      if rc == Ok {
        after := snapshot.(writes := snapshot.writes + [(id, value)]);
      }
    }

    /** A commit that fails leaves the store as it was. */
    method CommitSnap(snapshot: Snapshot) returns (rc: Rc)
      modifies this`script, this`data
      ensures (rc, script) == Pop(old(script))
      ensures data == if rc == Ok then Store(old(data), snapshot.time, snapshot.writes) else old(data)
    {
      rc := Answer();
      if rc == Ok {
        data := Store(data, snapshot.time, snapshot.writes);
      }
    }

    /** The loop of dbats_set calls over the enabled records. */
    method SetRecords(kp: KP, snapshot0: Snapshot) returns (rc: Rc, snapshot: Snapshot)
      requires Resolved(kp.infos) && snapshot0.writes == []
      modifies this`script
      ensures rc == Ok ==> snapshot == Snapshot(snapshot0.time, IdWrites(kp.infos))
      ensures rc == Ok ==> SetsAndCommit(old(script), CountEnabled(kp.infos)) == Pop(script)
      ensures rc != Ok ==> SetsAndCommit(old(script), CountEnabled(kp.infos)) == (rc, script)
    {
      var infos := kp.infos;
      ghost var n := CountEnabled(infos);
      snapshot := snapshot0;
      var id := 0;
      assert infos[..0] == [];
      CountEnabledPrefix(infos, 0);
      assert CountEnabled(infos[..0]) == 0;
      assert IdWrites(infos[..0]) == [];
      hide CountEnabled;
      hide IdWrites;
      hide SetsAndCommit;
      hide Pop;
      while id < |infos|
        invariant 0 <= id <= |infos| && CountEnabled(infos[..id]) <= n
        invariant snapshot == Snapshot(snapshot0.time, IdWrites(infos[..id]))
        invariant SetsAndCommit(old(script), n) == SetsAndCommit(script, n - CountEnabled(infos[..id]))
      {
        CountEnabledPrefix(infos, id);
        CountEnabledPrefix(infos, id + 1);
        IdWritesSnoc(infos, id);
        var ki := infos[id];
        if !ki.disabled {
          SetsStep(script, n - CountEnabled(infos[..id]));
          rc, snapshot := SetValue(snapshot, ki.dbatsId.value, ki.value);
          if rc != Ok {
            return;
          }
        }
        id := id + 1;
      }
      assert infos[..id] == infos;
      SetsStep(script, 0);
      rc := Ok;
    }

    /** timeseries_backend_dbats_kp_flush. */
    method KpFlush(kp: KP, time: u32) returns (rc: int)
      requires Valid() && CacheSound(kp.infos, ids) && Resolved(kp.infos)
      modifies this`script, this`data, this`log
      ensures Valid() && (rc == 0 || rc == -1)
      ensures (rc == 0, script) == Outcome(old(script), CountEnabled(kp.infos))
      ensures rc == 0 ==> data == Store(old(data), time, IdWrites(kp.infos))
      ensures rc == -1 ==> data == old(data)
      ensures log == old(log) + (if rc == 0 then [Enabled(kp.infos, time)] else [])
    {
      ghost var n := CountEnabled(kp.infos);
      while true
        invariant data == old(data) && log == old(log) && Outcome(script, n) == Outcome(old(script), n)
        decreases |script|
      {
        var answer, snapshot := SelectSnap(time);
        if answer != Ok {
          return -1;
        }
        answer, snapshot := SetRecords(kp, snapshot);
        if answer == Deadlock {
          continue; // dbats_abort_snap, goto retry
        }
        if answer == Error {
          return -1;
        }
        answer := CommitSnap(snapshot);
        if answer == Ok {
          StoreStaysKnown(old(data), ids, time, kp.infos);
          log := log + [Enabled(kp.infos, time)];
          return 0;
        }
        if answer == Error {
          return -1;
        }
      }
    }
  }
}
