/** What the proxy has received, flushed and still holds, and how the three relate in every reachable state. */
module ProxyHistory {
  import opened Basics
  import opened KeyPackage
  import opened Dbats

  /** A completed flush: the time it was written at, and the points received since the flush before. */
  datatype Commit = Commit(time: u32, window: seq<Point>)

  /** The database the proxy was started over. */
  datatype Base = Base(data: Data, ids: map<Bytes, nat>)

  function Initially(base: Base, t: u32, k: Bytes): Option<u64> {
    Find(base.data, base.ids, t, k)
  }

  /** What was there before; all points received, in order; the completed flushes; the points not flushed yet. */
  datatype History = History(base: Base, points: seq<Point>, commits: seq<Commit>, window: seq<Point>)

  function Restamp(t: u32, points: seq<Point>): seq<Point> {
    seq(|points|, i requires 0 <= i < |points| => points[i].(time := t))
  }

  /** The points of the completed flushes, as received. */
  function Windows(cs: seq<Commit>): seq<Point> {
    if cs == [] then [] else Windows(cs[..|cs| - 1]) + cs[|cs| - 1].window
  }

  /** The points of the completed flushes, under the time they were written at. */
  function Written(cs: seq<Commit>): seq<Point> {
    if cs == [] then [] else Written(cs[..|cs| - 1]) + Restamp(cs[|cs| - 1].time, cs[|cs| - 1].window)
  }

  predicate NonZeroTimes(points: seq<Point>) {
    forall i :: 0 <= i < |points| ==> points[i].time != 0
  }

  /** A flush writes each key of its window once, with its latest value, and nothing else. */
  ghost predicate Emits(emitted: seq<Point>, c: Commit) {
    && AllAt(c.time, emitted)
    && DistinctKeys(emitted)
    && forall k :: LastValue(emitted, c.time, k) == LastOf(c.window, k)
  }

  /** Every window lies in one time, the one it is written at. */
  predicate OneTimeEach(h: History, cur: u32) {
    && (forall i :: 0 <= i < |h.commits| ==> AllAt(h.commits[i].time, h.commits[i].window))
    && AllAt(cur, h.window)
    && (cur == 0 ==> h.window == [])
  }

  /** Readers find the last value of `points` where there is one, and elsewhere what was there before. */
  ghost predicate ShowsAll(base: Base, data: Data, ids: map<Bytes, nat>, points: seq<Point>) {
    forall t: u32, k :: Find(data, ids, t, k) == Over(LastValue(points, t, k), Initially(base, t, k))
  }

  /** The relation every step of the proxy keeps: `cur` is current_time, `infos` the key package,
      `data` and `ids` the database, `log` the flushes it has committed. */
  ghost predicate Explains(h: History, cur: u32, infos: seq<KeyInfo>, data: Data, ids: map<Bytes, nat>,
        log: seq<seq<Point>>) {
    && Windows(h.commits) + h.window == h.points
    && (forall k :: EnabledAt(infos, k) == LastOf(h.window, k))
    && ShowsAll(h.base, data, ids, Written(h.commits))
    && |log| == |h.commits|
    && (forall i :: 0 <= i < |log| ==> Emits(log[i], h.commits[i]) && h.commits[i].time != 0)
    && (NonZeroTimes(h.points) ==> OneTimeEach(h, cur))
  }

  // ---------- steps ----------

  lemma ExplainsStart(data: Data, ids: map<Bytes, nat>)
    ensures Explains(History(Base(data, ids), [], [], []), 0, [], data, ids, [])
  {
  }

  /** A point is received at the current time: its key becomes, or stays, enabled with the new value. */
  lemma ReceivePoint(h: History, cur: u32, infos: seq<KeyInfo>, infos': seq<KeyInfo>, data: Data, ids: map<Bytes, nat>,
                     log: seq<seq<Point>>, p: Point)
    requires Explains(h, cur, infos, data, ids, log) && p.time == cur
    requires forall k :: EnabledAt(infos', k) == if k == p.key then Some(p.value) else EnabledAt(infos, k)
    ensures Explains(h.(points := h.points + [p], window := h.window + [p]), cur, infos', data, ids, log)
  {
    hide EnabledAt;
    hide Emits;
    hide Find;
    hide LastValue;
    assert (h.window + [p])[..|h.window|] == h.window;
    var h' := h.(points := h.points + [p], window := h.window + [p]);
    if NonZeroTimes(h'.points) {
      assert h'.points[|h.points|] == p;
      assert NonZeroTimes(h.points) by {
        forall i | 0 <= i < |h.points| ensures h.points[i].time != 0 { assert h'.points[i] == h.points[i]; }
      }
    }
  }

  lemma LastPointIsLast(points: seq<Point>)
    ensures points != [] ==> LastOf(points, points[|points| - 1].key) == Some(points[|points| - 1].value)
  {
  }

  /** Some key is enabled exactly when there is a window to flush. */
  lemma WindowIffEnabled(h: History, cur: u32, infos: seq<KeyInfo>, data: Data, ids: map<Bytes, nat>,
        log: seq<seq<Point>>)
    requires Explains(h, cur, infos, data, ids, log) && UniqueNames(infos)
    ensures CountEnabled(infos) == 0 <==> h.window == []
  {
    hide Emits;
    hide Find;
    hide EnabledAt;
    LastPointIsLast(h.window);
    if CountEnabled(infos) > 0 {
      var k := SomeEnabledAt(infos);
      assert EnabledAt(infos, k) == LastOf(h.window, k);
    } else {
      forall k ensures LastOf(h.window, k) == None { NoneEnabledAt(infos, k); }
    }
  }

  /** Nothing is pending, or no time is set: the current time may change. */
  lemma ChangeTime(h: History, cur: u32, cur': u32, infos: seq<KeyInfo>, data: Data, ids: map<Bytes, nat>,
        log: seq<seq<Point>>)
    requires Explains(h, cur, infos, data, ids, log)
    requires cur == 0 || CountEnabled(infos) == 0
    requires UniqueNames(infos)
    ensures Explains(h, cur', infos, data, ids, log)
  {
    hide EnabledAt;
    hide Emits;
    hide Find;
    hide LastValue;
    hide CountEnabled;
    WindowIffEnabled(h, cur, infos, data, ids, log);
  }

  lemma {:induction false} LastOfRestamped(t: u32, points: seq<Point>, t': u32, k: Bytes)
    ensures LastValue(Restamp(t, points), t', k) == if t' == t then LastOf(points, k) else None
  {
    if points != [] {
      var n := |points| - 1;
      assert Restamp(t, points)[..n] == Restamp(t, points[..n]);
      LastOfRestamped(t, points[..n], t', k);
    }
  }

  lemma {:induction false} LastValueOffTime(points: seq<Point>, t: u32, t': u32, k: Bytes)
    requires AllAt(t, points) && t' != t
    ensures LastValue(points, t', k) == None
  {
    if points != [] {
      LastValueOffTime(points[..|points| - 1], t, t', k);
    }
  }

  /** A flush at t emits exactly the window. */
  lemma FlushEmitsWindow(infos: seq<KeyInfo>, t: u32, window: seq<Point>)
    requires UniqueNames(infos)
    requires forall k :: EnabledAt(infos, k) == LastOf(window, k)
    ensures Emits(Enabled(infos, t), Commit(t, window))
  {
    hide EnabledAt;
    hide LastOf;
    EnabledLength(infos, t);
    EnabledKeysDistinct(infos, t);
    forall k ensures LastValue(Enabled(infos, t), t, k) == LastOf(window, k) {
      EnabledValue(infos, t, k);
    }
  }

  /** The database after a flush of the window. */
  lemma FlushExtendsWritten(base: Base, cs: seq<Commit>, infos: seq<KeyInfo>, t: u32, window: seq<Point>,
                            data: Data, ids: map<Bytes, nat>, data': Data, ids': map<Bytes, nat>)
    requires UniqueNames(infos)
    requires forall k :: EnabledAt(infos, k) == LastOf(window, k)
    requires ShowsAll(base, data, ids, Written(cs))
    requires Overlaid(data, ids, data', ids', Enabled(infos, t))
    ensures ShowsAll(base, data', ids', Written(cs + [Commit(t, window)]))
  {
    hide Find;
    hide EnabledAt;
    hide LastOf;
    hide LastValue;
    var c := Commit(t, window);
    assert (cs + [c])[..|cs|] == cs;
    assert Written(cs + [c]) == Written(cs) + Restamp(t, window);
    EnabledLength(infos, t);
    forall t': u32, k ensures Find(data', ids', t', k) == Over(LastValue(Written(cs + [c]), t', k), Initially(base, t', k)) {
      LastValueConcat(Written(cs), Restamp(t, window), t', k);
      LastOfRestamped(t, window, t', k);
      if t' == t {
        EnabledValue(infos, t, k);
      } else {
        LastValueOffTime(Enabled(infos, t), t, t', k);
      }
    }
  }

  /** The flush completes: the window becomes a commit, and nothing is pending. */
  lemma CompleteFlush(h: History, cur: u32, infos: seq<KeyInfo>, infos': seq<KeyInfo>, data: Data, ids: map<Bytes, nat>,
                      data': Data, ids': map<Bytes, nat>, log: seq<seq<Point>>)
    requires Explains(h, cur, infos, data, ids, log) && cur != 0
    requires UniqueNames(infos) && Overlaid(data, ids, data', ids', Enabled(infos, cur))
    requires forall k :: EnabledAt(infos', k) == None
    ensures Explains(h.(commits := h.commits + [Commit(cur, h.window)], window := []), cur, infos', data', ids', log + [Enabled(infos, cur)])
  {
    hide Find;
    hide EnabledAt;
    hide LastValue;
    hide Emits;
    hide Written;
    hide Enabled;
    var c := Commit(cur, h.window);
    FlushEmitsWindow(infos, cur, h.window);
    FlushExtendsWritten(h.base, h.commits, infos, cur, h.window, data, ids, data', ids');
    assert (h.commits + [c])[..|h.commits|] == h.commits;
    assert Windows(h.commits + [c]) == Windows(h.commits) + h.window;
  }

  /** A failed flush, or one that only resolves ids, changes nothing a reader sees. */
  lemma SameState(h: History, cur: u32, infos: seq<KeyInfo>, infos': seq<KeyInfo>, data: Data, ids: map<Bytes, nat>,
                  data': Data, ids': map<Bytes, nat>, log: seq<seq<Point>>)
    requires Explains(h, cur, infos, data, ids, log)
    requires SameTable(infos', infos) && SameView(data, ids, data', ids')
    ensures Explains(h, cur, infos', data', ids', log)
  {
    hide Find;
    hide EnabledAt;
    hide LastValue;
    hide Emits;
    forall k ensures EnabledAt(infos', k) == EnabledAt(infos, k) { TableDecidesEnabledAt(infos', infos, k); }
  }

  lemma {:induction false} TableDecidesEnabledAt(a: seq<KeyInfo>, b: seq<KeyInfo>, k: Bytes)
    requires SameTable(a, b)
    ensures EnabledAt(a, k) == EnabledAt(b, k)
  {
    if a != [] {
      TableDecidesEnabledAt(a[..|a| - 1], b[..|b| - 1], k);
    }
  }

  // ---------- consequences ----------

  /** What a reader of database and pending keys together finds. */
  function Observed(cur: u32, infos: seq<KeyInfo>, data: Data, ids: map<Bytes, nat>, t: u32, k: Bytes): Option<u64> {
    Over(if t == cur then EnabledAt(infos, k) else None, Find(data, ids, t, k))
  }

  lemma {:induction false} OneTimeEachIsWritten(cs: seq<Commit>)
    requires forall i :: 0 <= i < |cs| ==> AllAt(cs[i].time, cs[i].window)
    ensures Written(cs) == Windows(cs)
  {
    if cs != [] {
      var n := |cs| - 1;
      OneTimeEachIsWritten(cs[..n]);
      assert Restamp(cs[n].time, cs[n].window) == cs[n].window;
    }
  }

  /** In every reachable state, database and pending keys together show every point received,
      the last writer winning, over what the database held before; where and when flushes fell does not matter. */
  lemma ObservedIsLastWriterWins(h: History, cur: u32, infos: seq<KeyInfo>, data: Data, ids: map<Bytes, nat>,
        log: seq<seq<Point>>, t: u32, k: Bytes)
    requires Explains(h, cur, infos, data, ids, log)
    ensures Observed(cur, infos, data, ids, t, k) ==
      Over(LastValue(Written(h.commits) + Restamp(cur, h.window), t, k), Initially(h.base, t, k))
    ensures NonZeroTimes(h.points) ==>
      Observed(cur, infos, data, ids, t, k) == Over(LastValue(h.points, t, k), Initially(h.base, t, k))
  {
    hide Initially;
    hide EnabledAt;
    hide Emits;
    LastValueConcat(Written(h.commits), Restamp(cur, h.window), t, k);
    LastOfRestamped(cur, h.window, t, k);
    if NonZeroTimes(h.points) {
      OneTimeEachIsWritten(h.commits);
      assert Restamp(cur, h.window) == h.window;
    }
  }

  lemma {:induction false} WrittenNeverAtZero(cs: seq<Commit>, k: Bytes)
    requires forall i :: 0 <= i < |cs| ==> cs[i].time != 0
    ensures LastValue(Written(cs), 0, k) == None
  {
    if cs != [] {
      var n := |cs| - 1;
      WrittenNeverAtZero(cs[..n], k);
      LastValueConcat(Written(cs[..n]), Restamp(cs[n].time, cs[n].window), 0, k);
      LastOfRestamped(cs[n].time, cs[n].window, 0, k);
    }
  }

  predicate NothingAtZero(base: Base) {
    forall ti :: ti in base.data ==> ti.0 != 0
  }

  /** After a completed force flush the database alone shows every point received, the last writer
      winning over what was there before, when no point was stamped 0, the value that doubles as
      "no time set"; otherwise at most when each value stamped 0 was there already, so never when there
      was nothing at time 0 before. */
  lemma FinalDatabaseIff(h: History, infos: seq<KeyInfo>, data: Data, ids: map<Bytes, nat>, log: seq<seq<Point>>)
    requires Explains(h, 0, infos, data, ids, log)
    ensures NonZeroTimes(h.points) ==> ShowsAll(h.base, data, ids, h.points)
    ensures ShowsAll(h.base, data, ids, h.points) ==> forall k ::
      LastValue(h.points, 0, k).Some? ==> Initially(h.base, 0, k) == LastValue(h.points, 0, k)
    ensures NothingAtZero(h.base) ==> (ShowsAll(h.base, data, ids, h.points) <==> NonZeroTimes(h.points))
  {
    hide EnabledAt;
    hide Emits;
    hide LastValue;
    forall k ensures Find(data, ids, 0, k) == Initially(h.base, 0, k) {
      WrittenNeverAtZero(h.commits, k);
    }
    if NonZeroTimes(h.points) {
      OneTimeEachIsWritten(h.commits);
      assert h.window == [] && Written(h.commits) == h.points;
    } else {
      var i :| 0 <= i < |h.points| && h.points[i].time == 0;
      var k := h.points[i].key;
      LastValueDefined(h.points, 0, k);
      assert NothingAtZero(h.base) ==> Initially(h.base, 0, k) == None;
    }
  }
}
