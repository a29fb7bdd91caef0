/** timeseries_kp_flush and timeseries_kp_resolve of lib/timeseries_kp.c over the enabled backends. */
module Timeseries {
  import opened Basics
  import opened KeyPackage
  import opened Dbats
  import opened KafkaFormat
  import opened KafkaBackend
  import opened AsciiText

  /** A flush never reads a missing id: the keys will be resolved first, or need no resolving. */
  predicate ReadyToFlush(infos: seq<KeyInfo>, dirty: bool) {
    dirty || Resolved(infos)
  }

  /** The proxy's discipline: a key without an id is enabled, and the package knows it must be resolved. */
  predicate Disciplined(infos: seq<KeyInfo>, dirty: bool) {
    forall i :: 0 <= i < |infos| && infos[i].dbatsId.None? ==> !infos[i].disabled && dirty
  }

  lemma DisciplinedIsReady(infos: seq<KeyInfo>, dirty: bool)
    requires Disciplined(infos, dirty)
    ensures ReadyToFlush(infos, dirty)
  {
  }

  /** Re-enabling a record keeps a package ready exactly when it has an id or the package is dirty. */
  lemma EnableKeepsReadyIff(infos: seq<KeyInfo>, dirty: bool, i: nat)
    requires i < |infos| && ReadyToFlush(infos, dirty)
    ensures ReadyToFlush(infos[i := infos[i].(disabled := false)], dirty) <==> dirty || infos[i].dbatsId.Some?
  {
    var after := infos[i := infos[i].(disabled := false)];
    assert !after[i].disabled && after[i].dbatsId == infos[i].dbatsId;
  }

  /** timeseries_kp_resolve clears `dirty` before it knows the outcome: a flush after it is safe exactly
      when the database grants an id for every enabled record that has none. */
  method Resolve(kp: KP, db: Dbats) returns (rc: int)
    requires kp.Valid() && db.Valid() && CacheSound(kp.infos, db.ids)
    modifies kp`infos, kp`dirty, db`ids, db`bound, db`script
    ensures kp.Valid() && db.Valid() && CacheSound(kp.infos, db.ids)
    ensures SameTable(kp.infos, old(kp.infos)) && OnlyFills(old(kp.infos), kp.infos) && !kp.dirty
    ensures SameView(old(db.data), old(db.ids), db.data, db.ids)
    ensures (rc == 0, db.script) == Grant(old(db.script), Missing(old(kp.infos))) && (rc == 0 || rc == -1)
    ensures ReadyToFlush(kp.infos, kp.dirty) <==> FirstOk(old(db.script), Missing(old(kp.infos)))
    ensures rc == 0 && old(Disciplined(kp.infos, kp.dirty)) ==> Disciplined(kp.infos, kp.dirty)
  {
    hide Find;
    hide Missing;
    hide Grant;
    kp.dirty := false;
    GrantIff(db.script, Missing(kp.infos));
    rc := db.KiUpdate(kp);
  }

  /** One new key and one error answer: the package is left with an enabled record without an id, and
      the next flush will not ask for one. */
  method ResolveThatFails(key: Bytes) returns (kp: KP, db: Dbats, rc: int)
    ensures fresh(kp) && fresh(db) && rc == -1
    ensures |kp.infos| == 1 && kp.infos[0].key == key && !kp.infos[0].disabled && kp.infos[0].dbatsId.None?
    ensures !kp.dirty && !ReadyToFlush(kp.infos, kp.dirty)
  {
    kp := new KP(false, true);
    db := new Dbats([Error]);
    var id := kp.AddKey(key);
    assert kp.infos[..0] == [];
    GrantStep([Error], 1);
    rc := Resolve(kp, db);
  }

  lemma OverlayAfterSameView(data0: Data, ids0: map<Bytes, nat>, data: Data, ids: map<Bytes, nat>, data1: Data,
        points: seq<Point>)
    requires SameView(data0, ids0, data, ids) && Overlaid(data, ids, data1, ids, points)
    ensures Overlaid(data0, ids0, data1, ids, points)
  {
    hide Find;
    hide LastValue;
  }

  /** After kp_reset_disable, up to the cached ids. */
  predicate FlushedTable(before: seq<KeyInfo>, after: seq<KeyInfo>, reset: bool, disable: bool) {
    |before| == |after| && forall i :: 0 <= i < |after| ==>
      after[i] == AfterFlush(before[i], reset, disable).(dbatsId := after[i].dbatsId)
  }

  lemma DisciplineKept(before: seq<KeyInfo>, dirty: bool, after: seq<KeyInfo>, dirty': bool)
    requires SameTable(after, before) && OnlyFills(before, after)
    requires ReadyToFlush(after, dirty')
    ensures Disciplined(before, dirty) ==> Disciplined(after, dirty')
  {
  }

  lemma ResetKeepsIds(before: seq<KeyInfo>, after: seq<KeyInfo>, reset: bool, disable: bool, ids: map<Bytes, nat>)
    requires |before| == |after| && forall i :: 0 <= i < |after| ==> after[i] == AfterFlush(before[i], reset, disable)
    ensures CacheSound(before, ids) ==> CacheSound(after, ids)
    ensures Resolved(before) ==> Resolved(after)
    ensures Resolved(before) && Disciplined(before, false) ==> Disciplined(after, false)
  {
  }

  lemma ResetIsFlushed(first: seq<KeyInfo>, before: seq<KeyInfo>, after: seq<KeyInfo>, reset: bool, disable: bool)
    requires SameTable(before, first)
    requires |before| == |after| && forall i :: 0 <= i < |after| ==> after[i] == AfterFlush(before[i], reset, disable)
    ensures FlushedTable(first, after, reset, disable) && SameNames(after, first)
  {
  }

  /** What a flush did to the database: everything enabled was committed, or nothing changed. */
  ghost predicate Stored(yes: bool, data0: Data, ids0: map<Bytes, nat>, log0: seq<seq<Point>>,
                         data1: Data, ids1: map<Bytes, nat>, log1: seq<seq<Point>>, points: seq<Point>) {
    if yes then Overlaid(data0, ids0, data1, ids1, points) && log1 == log0 + [points]
    else SameView(data0, ids0, data1, ids1) && log1 == log0
  }

  /** The turn of the DBATS backend in the loop of timeseries_kp_flush. */
  method DbatsTurn(kp: KP, db: Dbats, dirty: bool, time: u32) returns (rc: int)
    requires kp.Valid() && db.Valid() && CacheSound(kp.infos, db.ids)
    requires dirty || Resolved(kp.infos)
    modifies kp`infos, kp`dirty, db
    ensures kp.Valid() && db.Valid() && CacheSound(kp.infos, db.ids)
    ensures rc == 0 || rc == -1
    ensures SameTable(kp.infos, old(kp.infos)) && OnlyFills(old(kp.infos), kp.infos)
    ensures Stored(rc == 0, old(db.data), old(db.ids), old(db.log), db.data, db.ids, db.log, Enabled(old(kp.infos), time))
    ensures rc == 0 ==> Resolved(kp.infos) && kp.dirty == old(kp.dirty)
    ensures rc == -1 ==> ReadyToFlush(kp.infos, kp.dirty)
    ensures (rc == 0, db.script) == Turn(old(db.script), if dirty then Missing(old(kp.infos)) else 0, CountEnabled(old(kp.infos)))
  {
    hide SameView;
    hide Overlaid;
    hide LastValue;
    hide CountEnabled;
    hide IndexOf;
    hide Store;
    hide Outcome;
    hide IdWrites;
    hide Injective;
    hide CacheSound;
    hide Enabled;
    hide Missing;
    GrantStep(db.script, 0);
    hide Grant;
    SameViewTrans(db.data, db.ids, db.data, db.ids, db.data, db.ids);
    if dirty {
      rc := db.KiUpdate(kp);
      if rc != 0 {
        kp.dirty := true; // otherwise the next call would not resolve keys
        return -1;
      }
    }
    TableDecidesFlush(kp.infos, old(kp.infos), time);
    ghost var data := db.data;
    CommitOverlays(data, db.ids, time, kp.infos);
    rc := db.KpFlush(kp, time);
    if rc == 0 {
      OverlayAfterSameView(old(db.data), old(db.ids), data, db.ids, db.data, Enabled(kp.infos, time));
    }
  }

  lemma TableDecidesMessages(a: seq<KeyInfo>, b: seq<KeyInfo>, cfg: Config, time: u32)
    requires SameTable(a, b)
    ensures Messages(cfg, time, a) == Messages(cfg, time, b)
    ensures Enabled(a, time) == Enabled(b, time)
  {
    hide Batches;
    hide EncodeAll;
    TableDecidesFlush(a, b, time);
  }

  /** The objects a flush may change. */
  function Changes(ascii: AsciiBackend?, db: Dbats?, kafka: Kafka?): set<object> {
    (if ascii == null then {} else {ascii}) + (if db == null then {} else {db}) + (if kafka == null then {} else {kafka, kafka.buffer})
  }

  /** timeseries_kp_flush: the enabled backends in the order of their ids, then reset and disable.
      ASCII, DBATS and Kafka are each enabled or (null) not; `stored` says that the loop got past DBATS.
      A flush that stops part-way may have stored the table in DBATS already, but never leaves a package
      that reads a missing id: the one backend with ids comes after a backend that cannot fail and before
      one that needs none. */
  method Flush(kp: KP, ascii: AsciiBackend?, db: Dbats?, kafka: Kafka?, time: u32)
    returns (rc: int, ghost stored: bool)
    requires kp.Valid()
    requires db != null ==> db.Valid() && CacheSound(kp.infos, db.ids) && ReadyToFlush(kp.infos, kp.dirty)
    requires kafka != null ==> kafka.Idle() && Sendable(kafka.cfg.format, Enabled(kp.infos, time))
    modifies kp, Changes(ascii, db, kafka)
    ensures kp.Valid() && (rc == 0 || rc == -1) && SameNames(kp.infos, old(kp.infos))
    ensures rc == 0 ==> FlushedTable(old(kp.infos), kp.infos, kp.reset, kp.disable)
    ensures rc == 0 ==> forall i :: 0 <= i < |kp.infos| ==>
      && kp.infos[i].value == (if kp.reset then 0 else old(kp.infos)[i].value)
      && kp.infos[i].disabled == (kp.disable || old(kp.infos)[i].disabled)
    ensures rc == 0 && kp.disable ==> kp.enabledCnt == 0
    ensures rc == -1 ==> SameTable(kp.infos, old(kp.infos)) && kp.enabledCnt == old(kp.enabledCnt)
    ensures ascii != null ==> ascii.out == old(ascii.out) + Text(Enabled(old(kp.infos), time))
    ensures db != null ==> db.Valid() && CacheSound(kp.infos, db.ids) && ReadyToFlush(kp.infos, kp.dirty)
    ensures db != null && old(Disciplined(kp.infos, kp.dirty)) ==> Disciplined(kp.infos, kp.dirty)
    ensures db != null ==>
      Stored(stored, old(db.data), old(db.ids), old(db.log), db.data, db.ids, db.log, Enabled(old(kp.infos), time))
    ensures db != null ==>
      (stored, db.script) == Turn(old(db.script), if old(kp.dirty) then Missing(old(kp.infos)) else 0, old(kp.enabledCnt))
    ensures db == null ==> stored
    ensures kafka == null ==> (rc == 0 <==> stored)
    ensures kafka != null ==> kafka.Idle()
    ensures kafka != null && !stored ==> rc == -1 && kafka.sent == old(kafka.sent) && kafka.script == old(kafka.script)
    ensures kafka != null && stored ==>
      HandedOff(rc, Messages(kafka.cfg, time, old(kp.infos)), old(kafka.script), kafka.script, old(kafka.sent), kafka.sent)
  {
    hide Stored;
    hide Messages;
    hide HandedOff;
    hide Enabled;
    hide Text;
    hide CacheSound;
    hide Injective;
    hide IndexOf;
    hide CountEnabled;
    hide Sendable;
    hide Turn;
    hide Missing;
    hide Disciplined;
    var dirty := kp.dirty;
    kp.dirty := false;
    stored := false;
    ghost var first := kp.infos;
    if ascii != null {
      rc := ascii.KpFlush(kp, time);
    }
    if db != null {
      rc := DbatsTurn(kp, db, dirty, time);
      if rc != 0 {
        DisciplineKept(first, dirty, kp.infos, kp.dirty);
        return -1, false;
      }
      DisciplineKept(first, dirty, kp.infos, kp.dirty);
    }
    stored := true;
    ghost var before := kp.infos;
    TableIsItself(kp.infos);
    if kafka != null {
      TableDecidesMessages(kp.infos, first, kafka.cfg, time);
      rc := kafka.KpFlush(kp, time);
      if rc != 0 {
        return -1, stored;
      }
    }
    kp.ResetDisable();
    ResetIsFlushed(first, before, kp.infos, kp.reset, kp.disable);
    if db != null {
      ResetKeepsIds(before, kp.infos, kp.reset, kp.disable, db.ids);
    }
    return 0, stored;
  }

  lemma TableIsItself(infos: seq<KeyInfo>)
    ensures SameTable(infos, infos)
  {
  }
}
