/** The proxy process of tools/tsk-proxy.c: handle_message, maybe_flush and run over a key package and DBATS. */
module TskProxy {
  import opened Basics
  import opened KeyPackage
  import opened Dbats
  import opened Timeseries
  import opened ProxyDecoder
  import opened ProxyFeed
  import opened ProxyHistory
  import opened ProxyStats
  import opened WholeSink
  import opened WireRoundTrip

  const MESSAGES_CNT: Bytes := [109, 101, 115, 115, 97, 103, 101, 115, 95, 99, 110, 116] // "messages_cnt"
  const MESSAGES_BYTES: Bytes := [109, 101, 115, 115, 97, 103, 101, 115, 95, 98, 121, 116, 101, 115] // "messages_bytes"
  const FLUSH_CNT: Bytes := [102, 108, 117, 115, 104, 95, 99, 110, 116] // "flush_cnt"
  const FLUSHED_KEY_CNT: Bytes := [102, 108, 117, 115, 104, 101, 100, 95, 107, 101, 121, 95, 99, 110, 116] // "flushed_key_cnt"

  const FORCE_FLUSH: i32 := 0

  // ---------- steps on the history ----------

  /** Points arrive in the current window. */
  function Receive(h: History, kept: seq<Point>): History {
    h.(points := h.points + kept, window := h.window + kept)
  }

  /** maybe_flush(next) that succeeds: a window at another time is committed, an empty one is not. */
  function Flushed(h: History, cur: u32, next: u32): History {
    if cur != 0 && next != cur && h.window != []
    then h.(commits := h.commits + [Commit(cur, h.window)], window := [])
    else h
  }

  lemma NothingReceived(h: History)
    ensures Receive(h, []) == h
  {
    assert h.points + [] == h.points && h.window + [] == h.window;
  }

  function RecordSeq(r: Option<KeyVal>): seq<KeyVal> {
    if r.Some? then [r.value] else []
  }

  lemma KeptFront(filters: seq<Bytes>, t: u32, r: Option<KeyVal>, p: Parsed)
    ensures Kept(filters, t, Prepend(r, p).records) == Kept(filters, t, RecordSeq(r)) + Kept(filters, t, p.records)
  {
    hide Passes;
    if r.Some? {
      assert ([r.value] + p.records)[1..] == p.records;
      assert [r.value][1..] == [];
    }
  }

  // ---------- the statistics a run must show ----------

  function TotalBytes(payloads: seq<Bytes>): nat {
    if payloads == [] then 0 else TotalBytes(payloads[..|payloads| - 1]) + |payloads[|payloads| - 1]|
  }

  function TotalPoints(log: seq<seq<Point>>): nat {
    if log == [] then 0 else TotalPoints(log[..|log| - 1]) + |log[|log| - 1]|
  }

  /** The counts agree with the messages handled, the flushes committed and those that failed. */
  predicate CountsAgree(incs: seq<(Bytes, nat)>, prefix: Bytes, handled: seq<Bytes>, log: seq<seq<Point>>,
        failures: nat) {
    && Counted(incs, prefix + [DOT] + MESSAGES_CNT) == |handled|
    && Counted(incs, prefix + [DOT] + MESSAGES_BYTES) == TotalBytes(handled)
    && Counted(incs, prefix + [DOT] + FLUSH_CNT) == |log| + failures
    && Counted(incs, prefix + [DOT] + FLUSHED_KEY_CNT) >= TotalPoints(log)
    && (failures == 0 ==> Counted(incs, prefix + [DOT] + FLUSHED_KEY_CNT) == TotalPoints(log))
  }

  lemma SuffixesDiffer(prefix: Bytes)
    ensures |prefix + [DOT] + MESSAGES_CNT| == |prefix| + 13
    ensures |prefix + [DOT] + MESSAGES_BYTES| == |prefix| + 15
    ensures |prefix + [DOT] + FLUSH_CNT| == |prefix| + 10
    ensures |prefix + [DOT] + FLUSHED_KEY_CNT| == |prefix| + 16
  {
  }

  lemma CountTwo(incs: seq<(Bytes, nat)>, a: Bytes, n: nat, b: Bytes, m: nat, o: Bytes)
    ensures Counted(incs + [(a, n)] + [(b, m)], o) == Counted(incs, o) + (if o == a then n else 0) + (if o == b then m else 0)
  {
    CountedSnoc(incs, a, n, o);
    CountedSnoc(incs + [(a, n)], b, m, o);
  }

  lemma CountMessage(incs: seq<(Bytes, nat)>, prefix: Bytes, handled: seq<Bytes>, log: seq<seq<Point>>,
        failures: nat, payload: Bytes)
    requires CountsAgree(incs, prefix, handled, log, failures)
    ensures CountsAgree(incs + [(prefix + [DOT] + MESSAGES_CNT, 1)] + [(prefix + [DOT] + MESSAGES_BYTES, |payload|)],
                        prefix, handled + [payload], log, failures)
  {
    hide Counted;
    SuffixesDiffer(prefix);
    assert (handled + [payload])[..|handled|] == handled;
    var a, b := prefix + [DOT] + MESSAGES_CNT, prefix + [DOT] + MESSAGES_BYTES;
    CountTwo(incs, a, 1, b, |payload|, a);
    CountTwo(incs, a, 1, b, |payload|, b);
    CountTwo(incs, a, 1, b, |payload|, prefix + [DOT] + FLUSH_CNT);
    CountTwo(incs, a, 1, b, |payload|, prefix + [DOT] + FLUSHED_KEY_CNT);
  }

  /** A flush of n keys is counted before its outcome is known. */
  lemma CountFlush(incs: seq<(Bytes, nat)>, prefix: Bytes, handled: seq<Bytes>, log: seq<seq<Point>>,
        failures: nat, n: nat, emitted: seq<Point>)
    requires CountsAgree(incs, prefix, handled, log, failures) && |emitted| == n
    ensures var incs' := incs + [(prefix + [DOT] + FLUSH_CNT, 1)] + [(prefix + [DOT] + FLUSHED_KEY_CNT, n)];
      && CountsAgree(incs', prefix, handled, log + [emitted], failures)
      && CountsAgree(incs', prefix, handled, log, failures + 1)
  {
    hide Counted;
    SuffixesDiffer(prefix);
    assert (log + [emitted])[..|log|] == log;
    var a, b := prefix + [DOT] + FLUSH_CNT, prefix + [DOT] + FLUSHED_KEY_CNT;
    CountTwo(incs, a, 1, b, n, a);
    CountTwo(incs, a, 1, b, n, b);
    CountTwo(incs, a, 1, b, n, prefix + [DOT] + MESSAGES_CNT);
    CountTwo(incs, a, 1, b, n, prefix + [DOT] + MESSAGES_BYTES);
  }

  // ---------- the object ----------

  class Proxy {
    const cfg: ProxyConfig
    const kp: KP
    const db: Dbats
    const stats: Stats
    var currentTime: i32
    ghost var history: History
    /** The messages that passed the header checks and the flush before them. */
    ghost var handled: seq<Bytes>
    /** The flushes that returned an error. */
    ghost var failures: nat
    /** The points of every flush that did not, in order. */
    ghost var log: seq<seq<Point>>
    /** The ids asked for and the records written by every flush. */
    ghost var turns: seq<(nat, nat)>
    /** The database's answers and its log when the proxy was started. */
    ghost const answers0: seq<Rc>
    ghost const log0: seq<seq<Point>>
    ghost const base: Base

    /** The key package and its id cache. */
    ghost predicate TableOk()
      reads this, kp, db
    {
      && kp.Valid() && db.Valid() && !kp.reset && kp.disable && UniqueNames(kp.infos)
      && CacheSound(kp.infos, db.ids) && Disciplined(kp.infos, kp.dirty)
    }

    ghost predicate Explained()
      reads this, kp, db
    {
      Explains(history, ToU32(currentTime), kp.infos, db.data, db.ids, log)
    }

    /** The answers given so far decided which flushes succeeded. */
    ghost predicate Answered()
      reads this, db
    {
      && Replay(answers0, turns) == (failures, db.script)
      && |turns| == |log| + failures
      && db.log == log0 + log
    }

    ghost predicate StatsOk()
      reads this, stats, stats.kp, stats.sink
    {
      kp != stats.kp && stats.Valid() && CountsAgree(stats.incs, stats.prefix, handled, log, failures)
    }

    /** Between two messages. */
    ghost predicate Valid()
      reads this, kp, db, stats, stats.kp, stats.sink
    {
      && TableOk() && Explained() && StatsOk() && Answered()
      && history.points == AllPoints(cfg, handled) && history.base == base
    }

    /** Whether a maybe_flush succeeds, and the answers it leaves. */
    ghost function FlushAnswers(flushTime: i32): (bool, seq<Rc>)
      reads this, kp, db
    {
      if currentTime != 0 && flushTime != currentTime && kp.enabledCnt > 0
      then Turn(db.script, if kp.dirty then Missing(kp.infos) else 0, kp.enabledCnt)
      else (true, db.script)
    }

    /** A proxy started over an existing database, with an empty key package. */
    constructor (cfg: ProxyConfig, statsPrefix: Bytes, statsInterval: nat, clock: Clock, db: Dbats,
          statsScript: seq<bool>)
      requires 0 < statsInterval < INT_LIMIT && db.Valid()
      ensures Valid() && this.db == db && fresh(kp) && fresh(stats) && fresh(stats.kp) && fresh(stats.sink)
      ensures this.cfg == cfg && handled == [] && failures == 0 && currentTime == 0
      ensures base == Base(db.data, db.ids)
    {
      this.cfg := cfg;
      kp := new KP(false, true);
      this.db := db;
      stats := new Stats(statsPrefix, statsInterval, clock, statsScript);
      currentTime := 0;
      history, handled, failures := History(Base(db.data, db.ids), [], [], []), [], 0;
      log, turns, answers0, log0, base := [], [], db.script, db.log, Base(db.data, db.ids);
      new;
      ExplainsStart(db.data, db.ids);
    }

    /** The filter loop of parse_key_value. */
    method MatchesFilter(key: Bytes) returns (match_: bool)
      ensures match_ == Passes(cfg.filters, key)
      ensures match_ <==> UnderSomeFilter(cfg.filters, key)
    {
      PassesIff(cfg.filters, key);
      if |cfg.filters| == 0 {
        return true;
      }
      var i := 0;
      while i < |cfg.filters|
        invariant 0 <= i <= |cfg.filters|
        invariant forall j :: 0 <= j < i ==> !(cfg.filters[j] <= key)
      {
        if |key| >= |cfg.filters[i]| && cfg.filters[i] == key[..|cfg.filters[i]|] {
          return true;
        }
        i := i + 1;
      }
      return false;
    }

    /** Writing a key:value pair to the key package: look up before adding, re-enable what is known. */
    method PutKey(key: Bytes, value: u64)
      requires TableOk()
      modifies kp
      ensures TableOk()
      ensures forall k :: EnabledAt(kp.infos, k) == if k == key then Some(value) else old(EnabledAt(kp.infos, k))
    {
      hide EnabledAt;
      hide IndexOf;
      hide CountEnabled;
      hide Injective;
      ghost var before := kp.infos;
      var id := kp.GetKey(key);
      if id == -1 {
        id := kp.AddKey(key);
      } else {
        kp.EnableKey(id);
      }
      ghost var enabled := kp.infos;
      kp.Set(id, value);
      forall k ensures EnabledAt(kp.infos, k) == if k == key then Some(value) else EnabledAt(before, k) {
        EnabledAtUpdate(enabled, id, enabled[id].(value := value), k);
        if |enabled| > |before| {
          EnabledAtSnoc(before, KeyInfo(key, 0, false, None), k);
        } else {
          EnabledAtUpdate(before, id, before[id].(disabled := false), k);
        }
      }
    }

    /** parse_key_value at offset `buf` with `remain` bytes to go. */
    method ParseKeyValue(payload: Bytes, buf0: nat, remain0: nat, ghost t: u32) returns (rc: int, buf: nat, remain: nat)
      requires buf0 + remain0 == |payload| && remain0 > 0
      requires remain0 >= 2 && ParseOne(payload[buf0..]).rc == 0 ==> Read16(payload[buf0..][..2]) < KEY_BUF_LEN
      requires TableOk() && Explained() && ToU32(currentTime) == t
      modifies kp, this`history
      ensures TableOk() && Explained()
      ensures buf + remain == |payload|
      ensures rc == ParseOne(payload[buf0..]).rc && payload[buf..] == ParseOne(payload[buf0..]).rest
      ensures history == Receive(old(history), Kept(cfg.filters, t, RecordSeq(ParseOne(payload[buf0..]).record)))
    {
      hide Explains;
      hide FromBigEndian;
      hide CString;
      hide Passes;
      buf, remain := buf0, remain0;
      ghost var bytes := payload[buf0..];
      NothingReceived(history);
      if remain < 2 {
        return 0, buf, remain;
      }
      var keylen := Read16(payload[buf..][..2]);
      buf, remain := buf + 2, remain - 2;
      assert bytes[2..] == payload[buf..];
      if remain < keylen {
        return 1, buf, remain;
      }
      var raw := payload[buf..][..keylen];
      buf, remain := buf + keylen, remain - keylen;
      assert bytes[2..][keylen..] == payload[buf..];
      if remain < 8 {
        return 0, buf, remain;
      }
      var value := Read64(payload[buf..][..8]);
      buf, remain := buf + 8, remain - 8;
      assert bytes[2..][keylen..][8..] == payload[buf..];
      ghost var p := Point(t, CString(raw), value);
      assert ParseOne(bytes) == Step(0, payload[buf..], Some(KeyVal(raw, value)));
      KeptOne(cfg.filters, t, KeyVal(raw, value));
      var passes := MatchesFilter(raw);
      if !passes {
        return 0, buf, remain;
      }
      ghost var infos := kp.infos;
      PutKey(CString(raw), value);
      ReceivePoint(history, t, infos, kp.infos, db.data, db.ids, log, p);
      history := Receive(history, [p]);
      return 0, buf, remain;
    }

    lemma KeptOne(filters: seq<Bytes>, t: u32, kv: KeyVal)
      ensures Kept(filters, t, []) == []
      ensures Kept(filters, t, [kv]) == if Passes(filters, kv.key) then [Point(t, CString(kv.key), kv.value)] else []
    {
      assert [kv][1..] == [];
    }

    /** maybe_flush. A table with enabled keys is flushed at the time it was collected under; whether that
        succeeds, the database's next answers decide. */
    method MaybeFlush(flushTime: i32) returns (rc: int)
      requires TableOk() && Explained() && StatsOk() && Answered()
      modifies this`currentTime, this`history, this`failures, this`log, this`turns
      modifies kp, db, stats`incs, stats.kp
      ensures TableOk() && Explained() && StatsOk() && Answered()
      ensures rc == 0 || rc == -1
      ensures (rc == 0, db.script) == old(FlushAnswers(flushTime))
      ensures rc == 0 ==> currentTime == flushTime && failures == old(failures)
      ensures rc == 0 ==> history == Flushed(old(history), ToU32(old(currentTime)), ToU32(flushTime))
      ensures rc == -1 ==> currentTime == old(currentTime) && history == old(history) && failures == old(failures) + 1
      ensures rc == -1 ==> currentTime != 0 && currentTime != flushTime
      ensures old(log) <= log && old(turns) <= turns
    {
      hide Explains;
      hide CountsAgree;
      hide Turn;
      hide Missing;
      hide Replay;
      ghost var cur, next := ToU32(currentTime), ToU32(flushTime);
      if currentTime == 0 {
        ChangeTime(history, cur, next, kp.infos, db.data, db.ids, log);
        currentTime := flushTime;
        return 0;
      }
      if flushTime == FORCE_FLUSH || flushTime != currentTime {
        assert !(flushTime == FORCE_FLUSH && currentTime == 0);
        WindowIffEnabled(history, cur, kp.infos, db.data, db.ids, log);
        if kp.enabledCnt > 0 {
          rc := FlushTable();
          if rc == -1 {
            return -1;
          }
          assert kp.enabledCnt == 0;
        }
        ChangeTime(history, cur, next, kp.infos, db.data, db.ids, log);
        currentTime := flushTime;
      }
      return 0;
    }

    /** The statistics of a flush, counted before its outcome is known. */
    method CountTable(ghost emitted: seq<Point>)
      requires kp.Valid() && StatsOk() && |emitted| == kp.enabledCnt > 0
      modifies stats`incs, stats.kp
      ensures kp != stats.kp && stats.Valid()
      ensures CountsAgree(stats.incs, stats.prefix, handled, log + [emitted], failures)
      ensures CountsAgree(stats.incs, stats.prefix, handled, log, failures + 1)
    {
      hide CountsAgree;
      hide Conserved;
      hide TimesInOrder;
      hide IndexOf;
      CountFlush(stats.incs, stats.prefix, handled, log, failures, kp.enabledCnt, emitted);
      stats.IncStat(FLUSH_CNT, 1);
      stats.IncStat(FLUSHED_KEY_CNT, kp.enabledCnt);
    }

    /** The flushing half of maybe_flush: count, then write the table at current_time. */
    method FlushTable() returns (rc: int)
      requires TableOk() && Explained() && StatsOk() && Answered()
      requires currentTime != 0 && kp.enabledCnt > 0
      modifies this`history, this`failures, this`log, this`turns, kp, db, stats`incs, stats.kp
      ensures TableOk() && Explained() && StatsOk() && Answered()
      ensures rc == 0 || rc == -1
      ensures (rc == 0, db.script) == Turn(old(db.script), if old(kp.dirty) then old(Missing(kp.infos)) else 0, old(kp.enabledCnt))
      ensures rc == 0 ==> kp.enabledCnt == 0 && failures == old(failures)
      ensures rc == 0 ==> history == old(history).(commits := old(history).commits + [Commit(ToU32(currentTime), old(history).window)], window := [])
      ensures rc == -1 ==> history == old(history) && failures == old(failures) + 1
      ensures old(log) <= log && old(turns) <= turns
    {
      hide Explains;
      hide CountsAgree;
      hide Enabled;
      hide EnabledAt;
      hide Overlaid;
      hide SameView;
      hide Injective;
      hide UniqueNames;
      hide SameNames;
      hide Disciplined;
      hide ReadyToFlush;
      hide CacheSound;
      hide FlushedTable;
      hide SameTable;
      hide Conserved;
      hide TimesInOrder;
      hide IndexOf;
      hide CountEnabled;
      hide Turn;
      hide Missing;
      hide Replay;
      ghost var cur, infos, data, ids, before := ToU32(currentTime), kp.infos, db.data, db.ids, log;
      EnabledLength(infos, cur);
      CountTable(Enabled(infos, cur));
      DisciplinedIsReady(kp.infos, kp.dirty);
      ghost var missing := if kp.dirty then Missing(kp.infos) else 0;
      ReplaySnoc(answers0, turns, missing, kp.enabledCnt);
      turns := turns + [(missing, kp.enabledCnt)];
      ghost var stored;
      rc, stored := Flush(kp, null, db, null, ToU32(currentTime));
      UniqueNamesKept(infos, kp.infos);
      ConcatAssoc(log0, log, [Enabled(infos, cur)]);
      if rc == 0 {
        NothingEnabled();
        CompleteFlush(history, cur, infos, kp.infos, data, ids, db.data, db.ids, log);
        history := history.(commits := history.commits + [Commit(cur, history.window)], window := []);
        log := log + [Enabled(infos, cur)];
      } else {
        SameState(history, cur, infos, kp.infos, data, ids, db.data, db.ids, log);
        failures := failures + 1;
      }
    }

    lemma NothingEnabled()
      requires kp.Valid() && kp.enabledCnt == 0
      ensures forall k :: EnabledAt(kp.infos, k) == None
    {
      hide EnabledAt;
      forall k ensures EnabledAt(kp.infos, k) == None { NoneEnabledAt(kp.infos, k); }
    }

    /** handle_message. `hangs` stands for a loop that never leaves its last byte. */
    method HandleMessage(payload: Bytes) returns (rc: int, hangs: bool)
      requires Valid() && MessageKeysFit(cfg, payload)
      modifies this, kp, db, stats`incs, stats.kp
      ensures Valid() && (rc == 0 || rc == -1)
      ensures hangs ==> rc == 0
      ensures rc == 0 ==> hangs == MessageHangs(cfg, payload) && failures == old(failures)
      ensures rc == 0 ==> match ParseHeader(cfg.channel, payload)
        case Skip => handled == old(handled) && history == old(history) && currentTime == old(currentTime) && db.script == old(db.script)
        case Body(t, _) =>
          && handled == old(handled) + [payload]
          && currentTime == ToI32(t)
          && (true, db.script) == old(FlushAnswers(ToI32(t)))
          && history == Receive(Flushed(old(history), ToU32(old(currentTime)), t), MessagePoints(cfg, payload))
      ensures rc == -1 ==> handled == old(handled) && history == old(history) && failures == old(failures) + 1
      ensures rc == -1 ==> match ParseHeader(cfg.channel, payload)
        case Skip => false
        case Body(t, _) =>
          && currentTime == old(currentTime) != 0 && currentTime != ToI32(t)
          && (false, db.script) == old(FlushAnswers(ToI32(t)))
      ensures old(log) <= log && old(turns) <= turns
    {
      hide Explains;
      hide CountsAgree;
      hide Disciplined;
      hide CacheSound;
      hide UniqueNames;
      hide Flushed;
      hide Kept;
      hide ParseOne;
      hide Replay;
      hide Turn;
      hide Missing;
      hide Conserved;
      hide TimesInOrder;
      hide AllPoints;
      hide ParseHeader;
      hide MessagePoints;
      var ok, t, buf := ReadHeader(payload);
      if !ok {
        return 0, false;
      }
      TimeCrossesIntUnchanged(t);
      rc := MaybeFlush(ToI32(t));
      if rc != 0 {
        return -1, false;
      }
      FlushedKeepsPoints(old(history), ToU32(old(currentTime)), t);
      hangs := TakeMessage(payload, t, buf);
      return 0, hangs;
    }

    /** The rest of handle_message, once the table of another time is flushed. */
    method TakeMessage(payload: Bytes, t: u32, buf: nat) returns (hangs: bool)
      requires Valid() && MessageKeysFit(cfg, payload) && ToU32(currentTime) == t
      requires HEADER_LEN <= buf <= |payload| && ParseHeader(cfg.channel, payload) == Body(t, payload[buf..])
      modifies this`history, this`handled, kp, stats`incs, stats.kp
      ensures Valid() && handled == old(handled) + [payload]
      ensures hangs == MessageHangs(cfg, payload)
      ensures history == Receive(old(history), MessagePoints(cfg, payload))
    {
      hide Explains;
      hide CountsAgree;
      hide Disciplined;
      hide CacheSound;
      hide UniqueNames;
      hide Kept;
      hide ParseOne;
      hide ParseHeader;
      hide ParseBody;
      hide Replay;
      hide Conserved;
      hide TimesInOrder;
      CountMessage(stats.incs, stats.prefix, handled, log, failures, payload);
      stats.IncStat(MESSAGES_CNT, 1);
      stats.IncStat(MESSAGES_BYTES, |payload|);
      handled := handled + [payload];
      assert handled[..|handled| - 1] == old(handled);
      hangs := ReadBody(payload, buf, |payload| - buf, t);
    }

    lemma FlushedKeepsPoints(h: History, cur: u32, next: u32)
      ensures Flushed(h, cur, next).points == h.points && Flushed(h, cur, next).base == h.base
      ensures h.commits <= Flushed(h, cur, next).commits
    {
    }

    /** The header checks of handle_message; `buf` is where the body starts. */
    method ReadHeader(payload: Bytes) returns (ok: bool, t: u32, buf: nat)
      ensures !ok ==> ParseHeader(cfg.channel, payload) == Skip
      ensures ok ==> HEADER_LEN <= buf <= |payload| && ParseHeader(cfg.channel, payload) == Body(t, payload[buf..])
    {
      hide FromBigEndian;
      ok, t, buf := false, 0, 0;
      if |payload| < HEADER_LEN {
        return;
      }
      if payload[HEADER_MAGIC_LEN] != TSKBATCH_VERSION {
        return;
      }
      t := Read32(payload[9..13]);
      var chanlen := Read16(payload[13..15]);
      var remain := |payload| - HEADER_LEN;
      if remain < chanlen {
        return;
      }
      var n := if chanlen < |cfg.channel| then chanlen else |cfg.channel|;
      if payload[HEADER_LEN..][..n] != cfg.channel[..n] {
        return;
      }
      buf := HEADER_LEN + chanlen;
      assert payload[HEADER_LEN..][chanlen..] == payload[buf..];
      ok := true;
    }

    /** The `while (remain > 0)` loop of handle_message. */
    method ReadBody(payload: Bytes, buf0: nat, remain0: nat, ghost t: u32) returns (hangs: bool)
      requires buf0 + remain0 == |payload| && ShortKeys(payload[buf0..])
      requires TableOk() && Explained() && ToU32(currentTime) == t
      modifies kp, this`history
      ensures TableOk() && Explained()
      ensures hangs <==> ParseBody(payload[buf0..]).end == Stuck
      ensures history == Receive(old(history), Kept(cfg.filters, t, ParseBody(payload[buf0..]).records))
    {
      hide Explains;
      hide Kept;
      hide ParseOne;
      hide Disciplined;
      hide CacheSound;
      hide UniqueNames;
      var buf, remain := buf0, remain0;
      ghost var all := ParseBody(payload[buf0..]);
      KeptNone(t);
      NothingReceived(history);
      while remain > 0
        invariant buf + remain == |payload| && ShortKeys(payload[buf..])
        invariant TableOk() && Explained() && ToU32(currentTime) == t
        invariant ParseBody(payload[buf..]).end == all.end
        invariant Receive(history, Kept(cfg.filters, t, ParseBody(payload[buf..]).records))
               == Receive(old(history), Kept(cfg.filters, t, all.records))
        decreases remain
      {
        ghost var bytes := payload[buf..];
        if remain == 1 {
          NothingReceived(history);
          return true; // every further call returns 0 and consumes nothing
        }
        ParseOneProgress(bytes);
        KeptFront(cfg.filters, t, ParseOne(bytes).record, ParseBody(ParseOne(bytes).rest));
        ghost var before := history;
        var rc;
        rc, buf, remain := ParseKeyValue(payload, buf, remain, t);
        if rc != 0 {
          NoRecordOnError(bytes);
          NothingReceived(before);
          return false;
        }
        ReceiveTwice(before, Kept(cfg.filters, t, RecordSeq(ParseOne(bytes).record)),
                     Kept(cfg.filters, t, ParseBody(payload[buf..]).records));
      }
      NothingReceived(history);
      return false;
    }

    lemma KeptNone(t: u32)
      ensures Kept(cfg.filters, t, []) == []
    {
    }

    lemma NoRecordOnError(bytes: Bytes)
      ensures ParseOne(bytes).rc != 0 ==> RecordSeq(ParseOne(bytes).record) == []
    {
    }

    lemma ReceiveTwice(h: History, a: seq<Point>, b: seq<Point>)
      ensures Receive(Receive(h, a), b) == Receive(h, a + b)
    {
      assert (h.points + a) + b == h.points + (a + b);
      assert (h.window + a) + b == h.window + (a + b);
    }

    /** The state run leaves behind, whatever it was fed: no reader can tell where flushes fell. */
    ghost predicate Faithful()
      reads this, kp, db, stats, stats.kp, stats.sink
    {
      && Valid()
      && (NonZeroTimes(history.points) ==> forall t: u32, k ::
            Observed(ToU32(currentTime), kp.infos, db.data, db.ids, t, k)
            == Over(LastValue(history.points, t, k), Initially(base, t, k)))
    }

    lemma ValidIsFaithful()
      requires Valid()
      ensures Faithful()
    {
      hide Observed;
      hide LastValue;
      hide Initially;
      hide TableOk;
      hide StatsOk;
      hide Answered;
      hide Explains;
      forall t: u32, k | NonZeroTimes(history.points)
        ensures Observed(ToU32(currentTime), kp.infos, db.data, db.ids, t, k) ==
          Over(LastValue(history.points, t, k), Initially(base, t, k))
      {
        ObservedIsLastWriterWins(history, ToU32(currentTime), kp.infos, db.data, db.ids, log, t, k);
      }
    }

    /** Nothing is pending, so the database alone shows all points received over what it held before,
        exactly when none is stamped 0 (the other way provided it held nothing at time 0). */
    ghost predicate DatabaseIsComplete()
      reads this, db
    {
      var points := AllPoints(cfg, handled);
      && (NonZeroTimes(points) ==> ShowsAll(base, db.data, db.ids, points))
      && (NothingAtZero(base) ==> (ShowsAll(base, db.data, db.ids, points) <==> NonZeroTimes(points)))
    }

    lemma NoTimeMeansComplete()
      requires Valid() && currentTime == 0
      ensures DatabaseIsComplete()
    {
      hide Explains;
      hide TableOk;
      hide StatsOk;
      hide Answered;
      hide ShowsAll;
      FinalDatabaseIff(history, kp.infos, db.data, db.ids, log);
    }

    /** maybe_flush(FORCE_FLUSH). */
    method ForceFlush() returns (rc: int)
      requires Valid()
      modifies this`currentTime, this`history, this`failures, this`log, this`turns, kp, db, stats`incs, stats.kp
      ensures Valid() && (rc == 0 || rc == -1)
      ensures (rc == 0, db.script) == old(FlushAnswers(FORCE_FLUSH))
      ensures currentTime == if rc == 0 then 0 else old(currentTime)
      ensures rc == -1 ==> currentTime != 0
      ensures old(currentTime) == 0 ==> rc == 0
      ensures failures == old(failures) + (if rc == 0 then 0 else 1)
      ensures history.points == old(history).points && old(history).commits <= history.commits
      ensures old(turns) <= turns
    {
      hide Explains;
      hide CountsAgree;
      hide Disciplined;
      hide CacheSound;
      hide UniqueNames;
      hide Turn;
      hide Missing;
      hide Replay;
      hide Flushed;
      FlushedKeepsPoints(history, ToU32(currentTime), 0);
      rc := MaybeFlush(FORCE_FLUSH);
    }

    /** maybe_flush_stats. */
    method StatsTick(clock: Clock)
      requires Valid()
      modifies stats`time, stats.kp, stats.sink
      ensures Valid()
      ensures old(stats.time) <= stats.time
      ensures AllTake(old(stats.sink.script)) ==> AllTake(stats.sink.script) && Noticed(clock, stats.interval, stats.time)
    {
      hide Explains;
      hide CountsAgree;
      hide Disciplined;
      hide CacheSound;
      hide UniqueNames;
      hide Replay;
      hide IntervalNow;
      stats.MaybeFlush(clock);
    }

    /** One poll of a burst, which began with poll i0: a message is handled, an end of partition counted,
        another error ignored. */
    method TakePoll(env: seq<Tick>, i0: nat, n: nat, eof0: nat, ghost handled0: seq<Bytes>)
      returns (rc: int, hangs: bool, eof: nat, over: bool)
      requires Valid() && i0 <= n < |env| && !env[n].poll.Nothing?
      requires env[n].poll.Data? ==> MessageKeysFit(cfg, env[n].poll.payload)
      requires Fed(cfg, env, n, handled0, handled, false) && GoesOn(env, i0, n)
      requires eof0 == Eofs(env[i0..n]) < EOF_LIMIT
      modifies this, kp, db, stats`incs, stats.kp
      ensures Valid() && (rc == 0 || rc == -1)
      ensures rc == 0 ==> Fed(cfg, env, n + 1, handled0, handled, hangs) && failures == old(failures)
      ensures rc == 0 && !hangs ==> eof == Eofs(env[i0..n + 1])
      ensures rc == 0 && !hangs ==> if over || env[n].shutdown then OneBurst(env, i0, n + 1) else eof < EOF_LIMIT && GoesOn(env, i0, n + 1)
      ensures rc == -1 ==> handled == old(handled) && !hangs && failures == old(failures) + 1 && currentTime != 0
      ensures rc == -1 ==> env[n].poll.Data?
      ensures old(turns) <= turns && old(history).commits <= history.commits
    {
      hide Valid;
      hide FlushAnswers;
      hide MessageHangs;
      hide MessagePoints;
      hide ParseHeader;
      hide Flushed;
      hide Fed;
      hide Eofs;
      hide GoesOn;
      hide OneBurst;
      rc, hangs, eof, over := 0, false, eof0, false;
      EofsStep(env, i0, n);
      BurstStep(env, i0, n);
      FedNoMessage(cfg, env, n, handled0, handled);
      match env[n].poll {
        case Data(payload) =>
          FlushedKeepsCommits(payload);
          rc, hangs := HandleMessage(payload);
          HangsOnlyInBody(cfg, payload);
          FedStep(cfg, env, n, handled0, old(handled), handled, hangs);
          eof := 0;
        case PartitionEof =>
          eof := eof + 1;
          over := env[n].shutdown || eof >= EOF_LIMIT;
        case OtherError =>
      }
    }

    lemma FlushedKeepsCommits(payload: Bytes)
      ensures match ParseHeader(cfg.channel, payload)
        case Skip => true
        case Body(t, _) => history.commits <= Flushed(history, ToU32(currentTime), t).commits
    {
      hide ParseHeader;
    }

    /** A burst of messages: polls until one answers nothing, the proxy is shut down, or the
        partitions have been at their end ten times. */
    method Burst(env: seq<Tick>, i0: nat, ghost handled0: seq<Bytes>)
      returns (i: nat, shutdown: bool, clock: Clock, hangs: bool, failed: bool)
      requires Valid() && i0 < |env|
      requires forall tick :: tick in env && tick.poll.Data? ==> MessageKeysFit(cfg, tick.poll.payload)
      requires Fed(cfg, env, i0, handled0, handled, false)
      modifies this, kp, db, stats, stats.kp, stats.sink
      ensures Valid() && i0 < i <= |env|
      ensures !failed ==> Fed(cfg, env, i, handled0, handled, hangs)
      ensures failed ==> !hangs && env[i - 1].poll.Data? && currentTime != 0 && Fed(cfg, env, i - 1, handled0, handled, false)
      ensures shutdown == env[i - 1].shutdown && clock == env[i - 1].clock
      ensures GoesOn(env, i0, i - 1)
      ensures !failed && !hangs ==> OneBurst(env, i0, i)
      ensures failures == old(failures) + (if failed then 1 else 0)
      ensures old(turns) <= turns && old(history).commits <= history.commits
      ensures old(stats.time) <= stats.time && stats.interval > 0
      ensures AllTake(old(stats.sink.script)) ==> AllTake(stats.sink.script) && NoticedWithin(env, i0, i, stats.interval, stats.time)
    {
      hide Valid;
      hide Fed;
      hide Eofs;
      hide EndsBurst;
      hide GoesOn;
      hide OneBurst;
      hide AllTake;
      hide Noticed;
      hide NoticedWithin;
      hide MessageKeysFit;
      hide MessageHangs;
      ValidHasInterval();
      var m := env[i0].poll;
      i, shutdown, clock, hangs, failed := i0 + 1, env[i0].shutdown, env[i0].clock, false, false;
      var eof := 0;
      FedNoMessage(cfg, env, i0, handled0, handled);
      BurstStart(env, i0);
      NothingReadYet(env, i0);
      while !m.Nothing?
        invariant Valid() && i0 < i <= |env| && !failed && !hangs
        invariant m.Nothing? ==> Fed(cfg, env, i, handled0, handled, false) && OneBurst(env, i0, i)
        invariant !m.Nothing? ==> m == env[i - 1].poll && Fed(cfg, env, i - 1, handled0, handled, false)
        invariant !m.Nothing? ==> eof == Eofs(env[i0..i - 1]) < EOF_LIMIT
        invariant GoesOn(env, i0, i - 1) && shutdown == env[i - 1].shutdown && clock == env[i - 1].clock
        invariant failures == old(failures) && old(turns) <= turns && old(history).commits <= history.commits
        invariant old(stats.time) <= stats.time
        invariant AllTake(old(stats.sink.script)) ==>
          AllTake(stats.sink.script) && NoticedWithin(env, i0, i, stats.interval, stats.time)
        decreases |env| - i, !m.Nothing?
      {
        assert env[i - 1] in env;
        var rc, over;
        rc, hangs, eof, over := TakePoll(env, i0, i - 1, eof, handled0);
        if rc != 0 {
          failed := true;
          return;
        }
        if hangs || over || shutdown {
          return;
        }
        ghost var time0, i1 := stats.time, i;
        if i == |env| {
          BurstStep(env, i0, i - 1);
          m := Nothing;
        } else {
          FedNoMessage(cfg, env, i, handled0, handled);
          BurstStep(env, i0, i);
          m := env[i].poll;
          shutdown, clock := env[i].shutdown, env[i].clock;
          i := i + 1;
        }
        StatsTick(clock);
        if AllTake(old(stats.sink.script)) {
          NoticedWithinNext(env, i0, i1, i, stats.interval, time0, stats.time);
        }
      }
    }

    lemma NothingReadYet(env: seq<Tick>, i0: nat)
      requires i0 < |env|
      ensures stats.interval > 0 ==> NoticedWithin(env, i0, i0 + 1, stats.interval, stats.time)
    {
    }

    lemma ValidHasInterval()
      requires Valid()
      ensures stats.interval > 0
    {
    }

    /** Between bursts, once a force flush has succeeded. */
    lemma AllSettled(handled0: seq<Bytes>, env: seq<Tick>, i: nat)
      requires Valid() && currentTime == 0 && Fed(cfg, env, i, handled0, handled, false)
      ensures i <= |env| && Settled(history.commits, PointsBy(cfg, handled0, env, i))
    {
      hide TableOk;
      hide StatsOk;
      hide Answered;
      hide AllPoints;
      hide Accepted;
      hide SomeMessageHangs;
      var n := |history.commits|;
      assert history.commits[..n] == history.commits;
      if NonZeroTimes(history.points) {
        assert history.window == [];
        assert Windows(history.commits) + [] == Windows(history.commits);
      }
    }

    lemma AnswersSoFar()
      requires Valid()
      ensures Replay(answers0, turns) == (failures, db.script)
    {
    }

    /** The answers since some earlier state decide which flushes since then succeeded. */
    lemma AnswersDecide(turns0: seq<(nat, nat)>, failures0: nat, script0: seq<Rc>)
      requires Valid() && turns0 <= turns && Replay(answers0, turns0) == (failures0, script0)
      ensures Replay(script0, turns[|turns0|..]) == (failures - failures0, db.script)
      ensures AllOk(script0) ==> failures == failures0
    {
      hide TableOk;
      hide Explained;
      hide StatsOk;
      hide Replay;
      hide AllOk;
      assert turns == turns0 + turns[|turns0|..];
      ReplaySplit(answers0, turns0, turns[|turns0|..]);
      if AllOk(script0) {
        AllOkReplay(script0, turns[|turns0|..]);
      }
    }

    /** run, fed with the polls, clock readings and signals of `env`; it is shut down when they run out.
        On every exit exactly the messages of the polls used so far were handled; a poll whose flush
        failed is not used, a poll that hangs the proxy is the last one used. SIGINT is noticed before the
        next poll. The polls fall into bursts, begun at `cuts`: what came in before a burst is committed when
        it begins, and the statistics follow every clock read. A flush that fails is tried once more before
        run ends: the database is complete when that succeeds. */
    method Run(env: seq<Tick>, clock0: Clock) returns (rc: int, hangs: bool, ghost used: nat, ghost cuts: seq<nat>)
      requires Valid()
      requires forall tick :: tick in env && tick.poll.Data? ==> MessageKeysFit(cfg, tick.poll.payload)
      modifies this, kp, db, stats, stats.kp, stats.sink
      ensures Faithful() && used <= |env|
      ensures rc == 0 || rc == -1
      ensures handled == old(handled) + Accepted(cfg, env[..used])
      ensures hangs <==> SomeMessageHangs(cfg, env[..used])
      ensures currentTime == 0 ==> DatabaseIsComplete()
      ensures rc == 0 ==> currentTime == 0
      ensures rc == -1 && !hangs ==> failures == old(failures) + (if currentTime == 0 then 1 else 2)
      ensures NoShutdownBefore(env, used)
      ensures rc == 0 && used < |env| ==> used > 0 && env[used - 1].shutdown
      ensures EndsOnSchedule(cfg, old(handled), env, cuts, used, history.commits)
      ensures rc == 0 ==> OnSchedule(cfg, old(handled), env, cuts, used, history.commits)
      ensures Follows(AllTake(old(stats.sink.script)), env, clock0, cuts, stats.interval, stats.time)
      ensures AllTake(old(stats.sink.script)) && rc == 0 ==> Noticed(ClockAt(env, clock0, used), stats.interval, stats.time)
      ensures old(turns) <= turns
      ensures Replay(old(db.script), turns[|old(turns)|..]) == (failures - old(failures), db.script)
      ensures rc == 0 <==> !hangs && failures == old(failures)
      ensures AllOk(old(db.script)) && !hangs ==> rc == 0
    {
      hide Valid;
      hide AllOk;
      hide Accepted;
      hide MessageKeysFit;
      hide SomeMessageHangs;
      hide FlushAnswers;
      hide PointsBy;
      hide Replay;
      hide Faithful;
      hide DatabaseIsComplete;
      hide AllTake;
      hide Noticed;
      hide NoticedWithin;
      hide Settled;
      hide GoesOn;
      hide OneBurst;
      hide Fed;
      hide OnSchedule;
      hide EndsOnSchedule;
      hide Follows;
      AnswersSoFar();
      ValidHasInterval();
      rc, hangs, used, cuts := -1, false, 0, [0];
      var i, shutdown, clock := 0, false, clock0;
      ghost var takes := AllTake(stats.sink.script);
      FedStart(cfg, env, handled);
      ScheduleStart(cfg, handled, env, history.commits);
      FollowsStart(takes, env, clock0, stats.interval, stats.time);
      while true
        invariant Valid() && i <= |env| && rc == -1 && !hangs && cuts != [] && cuts[|cuts| - 1] == i
        invariant Fed(cfg, env, i, old(handled), handled, false)
        invariant shutdown == (i > 0 && env[i - 1].shutdown) && clock == ClockAt(env, clock0, i)
        invariant OnSchedule(cfg, old(handled), env, cuts, i, history.commits)
        invariant Follows(takes, env, clock0, cuts, stats.interval, stats.time)
        invariant takes ==> AllTake(stats.sink.script)
        invariant failures == old(failures) && old(turns) <= turns
        decreases |env| - i
      {
        used := i;
        ghost var i0, commits0, time0 := i, history.commits, stats.time;
        var flushed := ForceFlush();
        EndsBetween(cfg, old(handled), env, cuts, i, commits0, history.commits);
        if flushed != 0 {
          break;
        }
        AllSettled(old(handled), env, i);
        commits0 := history.commits;
        StatsTick(clock);
        FollowsLater(takes, env, clock0, cuts, stats.interval, time0, stats.time);
        if shutdown || i == |env| {
          rc := 0;
          break;
        }
        time0 := stats.time;
        var failed;
        i, shutdown, clock, hangs, failed := Burst(env, i, old(handled));
        used := if failed then i - 1 else i;
        EndsWithin(cfg, old(handled), env, cuts, i0, i, used, commits0, history.commits);
        if hangs {
          // the loop in handle_message is never left
          FollowsLater(takes, env, clock0, cuts, stats.interval, time0, stats.time);
          ScheduleMeans(cfg, old(handled), env, cuts, used, history.commits);
          FedMeans(cfg, env, used, old(handled), handled, true);
          Conclude(old(turns), old(failures), old(db.script));
          return;
        }
        if failed {
          FollowsLater(takes, env, clock0, cuts, stats.interval, time0, stats.time);
          break;
        }
        ScheduleNext(cfg, old(handled), env, cuts, i0, i, commits0, history.commits);
        FollowsNext(takes, env, clock0, cuts, i, stats.interval, time0, stats.time);
        cuts := cuts + [i];
      }
      ghost var commits1 := history.commits;
      CleanUp(old(turns), old(failures), old(db.script));
      EndsLater(cfg, old(handled), env, cuts, used, commits1, history.commits);
      if rc == 0 {
        EndsBetween(cfg, old(handled), env, cuts, used, commits1, history.commits);
      }
      ScheduleMeans(cfg, old(handled), env, cuts, used, history.commits);
      FedMeans(cfg, env, used, old(handled), handled, false);
    }

    /** The end of run: a last force flush, its failure ignored. */
    method CleanUp(ghost turns0: seq<(nat, nat)>, ghost failures0: nat, ghost script0: seq<Rc>)
      requires Valid() && turns0 <= turns && Replay(answers0, turns0) == (failures0, script0)
      modifies this`currentTime, this`history, this`failures, this`log, this`turns, kp, db, stats`incs, stats.kp
      ensures Faithful() && (currentTime == 0 ==> DatabaseIsComplete())
      ensures failures == old(failures) + (if currentTime == 0 then 0 else 1)
      ensures old(currentTime) == 0 ==> currentTime == 0
      ensures old(history).commits <= history.commits && turns0 <= turns
      ensures Replay(script0, turns[|turns0|..]) == (failures - failures0, db.script)
      ensures AllOk(script0) ==> failures == failures0
    {
      hide Valid;
      hide Faithful;
      hide DatabaseIsComplete;
      hide FlushAnswers;
      hide Replay;
      hide AllOk;
      var ignored := ForceFlush();
      Conclude(turns0, failures0, script0);
    }

    /** What holds wherever run ends. */
    lemma Conclude(turns0: seq<(nat, nat)>, failures0: nat, script0: seq<Rc>)
      requires Valid() && turns0 <= turns && Replay(answers0, turns0) == (failures0, script0)
      ensures Faithful() && (currentTime == 0 ==> DatabaseIsComplete())
      ensures Replay(script0, turns[|turns0|..]) == (failures - failures0, db.script)
      ensures AllOk(script0) ==> failures == failures0
    {
      hide Valid;
      hide Faithful;
      hide DatabaseIsComplete;
      hide Replay;
      hide AllOk;
      ValidIsFaithful();
      AnswersDecide(turns0, failures0, script0);
      if currentTime == 0 {
        NoTimeMeansComplete();
      }
    }

    /** In every reachable state: what the stats backend was given plus what is still in the stats
        package is exactly what happened, as long as the counts fit an int. */
    lemma StatsAreConserved()
      requires Valid()
      ensures |handled| < INT_LIMIT ==> Shown(MESSAGES_CNT) == |handled|
      ensures TotalBytes(handled) < INT_LIMIT ==> Shown(MESSAGES_BYTES) == TotalBytes(handled)
      ensures |log| + failures < INT_LIMIT ==> Shown(FLUSH_CNT) == |log| + failures
      ensures var n := Counted(stats.incs, stats.StatsKey(FLUSHED_KEY_CNT));
        && n >= TotalPoints(log)
        && (failures == 0 ==> n == TotalPoints(log))
        && (n < INT_LIMIT ==> Shown(FLUSHED_KEY_CNT) == n)
      ensures TimesInOrder(stats.sink.emitted, stats.interval, stats.time)
    {
      hide Explains;
      hide EmittedSum;
      hide Pending;
      hide Counted;
      hide TotalPoints;
      hide TotalBytes;
    }

    /** Emitted plus pending under a suffix. */
    ghost function Shown(suffix: Bytes): nat
      reads stats, stats.kp, stats.sink
    {
      EmittedSum(stats.sink.emitted, stats.StatsKey(suffix)) + Pending(stats.kp.infos, stats.StatsKey(suffix))
    }

    lemma NothingPending()
      requires Valid() && kp.enabledCnt == 0
      ensures history.window == []
    {
      hide Explains;
      hide StatsOk;
      WindowIffEnabled(history, ToU32(currentTime), kp.infos, db.data, db.ids, log);
    }
  }
}
