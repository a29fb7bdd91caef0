/** tools/timeseries-insert.c: grouping points into tables, and the read and final-flush loop. */
module Insert {
  import opened Basics
  import opened KeyPackage
  import opened WholeSink
  import opened AsciiText
  import opened AsciiRoundTrip
  import opened LineGrammar

  // ---------- runs of equal times ----------

  datatype Group = Group(time: u32, points: seq<Point>)

  /** The maximal runs of points with equal time. */
  function Runs(points: seq<Point>): seq<Group> {
    if points == [] then []
    else
      var p, rs := points[|points| - 1], Runs(points[..|points| - 1]);
      if rs == [] || rs[|rs| - 1].time != p.time then rs + [Group(p.time, [p])]
      else rs[..|rs| - 1] + [Group(p.time, rs[|rs| - 1].points + [p])]
  }

  function PointsOfGroups(gs: seq<Group>): seq<Point> {
    if gs == [] then [] else PointsOfGroups(gs[..|gs| - 1]) + gs[|gs| - 1].points
  }

  lemma PointsOfGroupsSnoc(gs: seq<Group>, g: Group)
    ensures PointsOfGroups(gs + [g]) == PointsOfGroups(gs) + g.points
  {
    assert (gs + [g])[..|gs|] == gs;
  }

  predicate OneTime(g: Group) {
    forall i :: 0 <= i < |g.points| ==> g.points[i].time == g.time
  }

  /** Non-empty runs of one time each, neighbours differing, that make up the points in order. */
  predicate MaximalRuns(rs: seq<Group>, points: seq<Point>) {
    && PointsOfGroups(rs) == points
    && (forall i :: 0 <= i < |rs| ==> rs[i].points != [] && OneTime(rs[i]))
    && (forall i :: 0 < i < |rs| ==> rs[i - 1].time != rs[i].time)
  }

  lemma NewRun(rs: seq<Group>, points: seq<Point>, p: Point)
    requires MaximalRuns(rs, points) && (rs == [] || rs[|rs| - 1].time != p.time)
    ensures MaximalRuns(rs + [Group(p.time, [p])], points + [p])
  {
    hide PointsOfGroups;
    PointsOfGroupsSnoc(rs, Group(p.time, [p]));
  }

  lemma LongerRun(rs: seq<Group>, points: seq<Point>, p: Point)
    requires MaximalRuns(rs, points) && rs != [] && rs[|rs| - 1].time == p.time
    ensures MaximalRuns(rs[..|rs| - 1] + [Group(p.time, rs[|rs| - 1].points + [p])], points + [p])
  {
    hide PointsOfGroups;
    var init, last := rs[..|rs| - 1], rs[|rs| - 1];
    assert init + [last] == rs;
    PointsOfGroupsSnoc(init, last);
    PointsOfGroupsSnoc(init, Group(p.time, last.points + [p]));
    assert PointsOfGroups(init) + last.points + [p] == PointsOfGroups(init) + (last.points + [p]);
  }

  lemma {:induction false} RunsAreMaximal(points: seq<Point>)
    ensures MaximalRuns(Runs(points), points)
  {
    if points != [] {
      hide MaximalRuns;
      var n := |points| - 1;
      var p, rs := points[n], Runs(points[..n]);
      RunsAreMaximal(points[..n]);
      assert points[..n] + [p] == points;
      if rs == [] || rs[|rs| - 1].time != p.time {
        NewRun(rs, points[..n], p);
      } else {
        LongerRun(rs, points[..n], p);
      }
    }
  }

  // ---------- the grouping rule of insert ----------

  /** The tables flushed, and the group being collected; time 0 means that no time is set. */
  datatype Grouping = Grouping(closed: seq<Group>, open: Group)

  function Place(b: Grouping, p: Point): Grouping {
    if b.open.time == 0 || b.open.time == p.time then Grouping(b.closed, Group(p.time, b.open.points + [p]))
    else Grouping(b.closed + [b.open], Group(p.time, [p]))
  }

  function GroupUp(points: seq<Point>): Grouping {
    if points == [] then Grouping([], Group(0, []))
    else Place(GroupUp(points[..|points| - 1]), points[|points| - 1])
  }

  lemma GroupSnoc(points: seq<Point>, p: Point)
    ensures GroupUp(points + [p]) == Place(GroupUp(points), p)
  {
    assert (points + [p])[..|points|] == points;
  }

  /** The groups of a whole input, the last one flushed at its end. */
  function Groups(points: seq<Point>): seq<Group> {
    var b := GroupUp(points);
    if b.open.points == [] then b.closed else b.closed + [b.open]
  }

  /** No point stamped 0 is directly followed by one that is not. */
  predicate NoTimeAfterZero(points: seq<Point>) {
    forall i :: 0 <= i < |points| - 1 && points[i].time == 0 ==> points[i + 1].time == 0
  }

  /** All points of the closed groups and the open one. */
  function Collected(b: Grouping): seq<Point> {
    PointsOfGroups(b.closed) + b.open.points
  }

  lemma {:induction false} BatchKeepsPoints(points: seq<Point>)
    ensures Collected(GroupUp(points)) == points
  {
    hide Place;
    hide Collected;
    NothingCollected();
    if points != [] {
      var n := |points| - 1;
      BatchKeepsPoints(points[..n]);
      PlaceKeepsPoints(GroupUp(points[..n]), points[n]);
      assert points[..n] + [points[n]] == points;
    }
  }

  lemma NothingCollected()
    ensures Collected(Grouping([], Group(0, []))) == []
  {
  }

  lemma PlaceKeepsPoints(b: Grouping, p: Point)
    ensures Collected(Place(b, p)) == Collected(b) + [p]
  {
    hide PointsOfGroups;
    PointsOfGroupsSnoc(b.closed, b.open);
    ConcatAssoc(PointsOfGroups(b.closed), b.open.points, [p]);
  }

  lemma BatchShape(points: seq<Point>)
    ensures points != [] ==> GroupUp(points).open.points != [] && GroupUp(points).open.time == points[|points| - 1].time
    ensures points == [] ==> GroupUp(points) == Grouping([], Group(0, []))
  {
  }

  lemma {:induction false} RunsShape(points: seq<Point>)
    ensures points != [] ==> Runs(points) != [] && Runs(points)[|Runs(points)| - 1].time == points[|points| - 1].time
    ensures points == [] ==> Runs(points) == []
  {
    if points != [] {
      RunsShape(points[..|points| - 1]);
    }
  }

  lemma NoTimeAfterZeroStep(points: seq<Point>, p: Point)
    ensures NoTimeAfterZero(points + [p]) <==>
      NoTimeAfterZero(points) && (points != [] && points[|points| - 1].time == 0 ==> p.time == 0)
  {
    var all := points + [p];
    assert forall i :: 0 <= i < |points| ==> all[i] == points[i];
    if NoTimeAfterZero(all) {
      forall i | 0 <= i < |points| - 1 && points[i].time == 0 ensures points[i + 1].time == 0 {
        assert all[i + 1] == points[i + 1];
      }
      if points != [] { assert all[|points| - 1 + 1] == p; }
    }
  }

  lemma {:induction false} GroupsAgainstRuns(points: seq<Point>)
    ensures |Groups(points)| <= |Runs(points)|
    ensures NoTimeAfterZero(points) ==> Groups(points) == Runs(points)
    ensures !NoTimeAfterZero(points) ==> |Groups(points)| < |Runs(points)|
  {
    if points != [] {
      var n := |points| - 1;
      var init, p := points[..n], points[n];
      GroupsAgainstRuns(init);
      BatchShape(init);
      RunsShape(init);
      assert points == init + [p];
      NoTimeAfterZeroStep(init, p);
      GroupsStep(init, p);
    }
  }

  lemma GroupsStep(init: seq<Point>, p: Point)
    requires init != [] ==> GroupUp(init).open.points != [] && GroupUp(init).open.time == init[|init| - 1].time
    requires init == [] ==> GroupUp(init) == Grouping([], Group(0, []))
    ensures var gs, all := Groups(init), Groups(init + [p]);
      if init == [] then all == [Group(p.time, [p])]
      else if init[|init| - 1].time == 0 || init[|init| - 1].time == p.time
      then gs != [] && all == gs[..|gs| - 1] + [Group(p.time, gs[|gs| - 1].points + [p])]
      else gs != [] && all == gs + [Group(p.time, [p])]
  {
    assert (init + [p])[..|init|] == init;
  }

  /** Two points are enough: the first, at time 0, ends up in the table of the second. */
  lemma ZeroTimeIsMerged(p: Point, q: Point)
    requires p.time == 0 && q.time != 0
    ensures Groups([p] + [q]) == [Group(q.time, [p] + [q])]
    ensures Runs([p] + [q]) == [Group(0, [p]), Group(q.time, [q])]
  {
    assert GroupUp([]).open == Group(0, []) && Runs([]) == [];
    BatchShape([p]);
    GroupsStep([], p);
    RunsStep([], p);
    hide Groups;
    hide Runs;
    hide GroupUp;
    assert [] + [p] == [p];
    GroupsStep([p], q);
    RunsStep([p], q);
  }

  lemma RunsStep(points: seq<Point>, p: Point)
    ensures var rs := Runs(points);
      Runs(points + [p]) ==
        if rs == [] || rs[|rs| - 1].time != p.time then rs + [Group(p.time, [p])]
        else rs[..|rs| - 1] + [Group(p.time, rs[|rs| - 1].points + [p])]
  {
    assert (points + [p])[..|points|] == points;
  }

  // ---------- tables ----------

  /** The keys in the order they were first seen. */
  function FirstSeen(points: seq<Point>): seq<Bytes> {
    if points == [] then []
    else
      var seen, k := FirstSeen(points[..|points| - 1]), points[|points| - 1].key;
      if k in seen then seen else seen + [k]
  }

  /** The last value of k in the group, or 0. */
  function ValueIn(points: seq<Point>, k: Bytes): u64 {
    if LastOf(points, k).Some? then LastOf(points, k).value else 0
  }

  /** One line per key seen so far, with its value in this group. */
  function Table(seen: seq<Bytes>, g: Group): seq<Point> {
    seq(|seen|, i requires 0 <= i < |seen| => Point(g.time, seen[i], ValueIn(g.points, seen[i])))
  }

  function Tables(gs: seq<Group>): seq<Emission> {
    if gs == [] then []
    else
      var g := gs[|gs| - 1];
      Tables(gs[..|gs| - 1]) + [Emission(g.time, Table(FirstSeen(PointsOfGroups(gs)), g))]
  }

  lemma TablesSnoc(gs: seq<Group>, g: Group, points: seq<Point>)
    requires points == PointsOfGroups(gs) + g.points
    ensures Tables(gs + [g]) == Tables(gs) + [Emission(g.time, Table(FirstSeen(points), g))]
  {
    hide Table;
    hide FirstSeen;
    PointsOfGroupsSnoc(gs, g);
    assert (gs + [g])[..|gs|] == gs;
  }

  /** The key package holds the keys seen, enabled, with their values in the open group. */
  predicate Holds(infos: seq<KeyInfo>, seen: seq<Bytes>, points: seq<Point>) {
    |infos| == |seen| && forall i :: 0 <= i < |infos| ==>
      infos[i].key == seen[i] && !infos[i].disabled && infos[i].value == ValueIn(points, seen[i])
  }

  lemma {:induction false} AllEnabledTable(infos: seq<KeyInfo>, t: u32)
    requires forall i :: 0 <= i < |infos| ==> !infos[i].disabled
    ensures |Enabled(infos, t)| == |infos|
    ensures forall i :: 0 <= i < |infos| ==> Enabled(infos, t)[i] == Point(t, infos[i].key, infos[i].value)
  {
    if infos != [] {
      AllEnabledTable(infos[..|infos| - 1], t);
    }
  }

  lemma FlushIsTable(infos: seq<KeyInfo>, seen: seq<Bytes>, g: Group)
    requires Holds(infos, seen, g.points)
    ensures Enabled(infos, g.time) == Table(seen, g)
  {
    hide ValueIn;
    AllEnabledTable(infos, g.time);
  }

  lemma ResetHoldsNothing(infos: seq<KeyInfo>, after: seq<KeyInfo>, seen: seq<Bytes>, points: seq<Point>)
    requires Holds(infos, seen, points) && |after| == |infos|
    requires forall i :: 0 <= i < |after| ==> after[i] == AfterFlush(infos[i], true, false)
    ensures Holds(after, seen, [])
  {
    assert forall k :: ValueIn([], k) == 0;
  }

  lemma ValueInSnoc(points: seq<Point>, p: Point, k: Bytes)
    ensures ValueIn(points + [p], k) == if k == p.key then p.value else ValueIn(points, k)
  {
    assert (points + [p])[..|points|] == points;
  }

  lemma FirstSeenSnoc(points: seq<Point>, p: Point)
    ensures FirstSeen(points + [p]) == if p.key in FirstSeen(points) then FirstSeen(points) else FirstSeen(points) + [p.key]
  {
    assert (points + [p])[..|points|] == points;
  }

  lemma {:induction false} FirstSeenIsComplete(points: seq<Point>, k: Bytes)
    ensures k in FirstSeen(points) <==> exists i :: 0 <= i < |points| && points[i].key == k
  {
    if points != [] {
      var n := |points| - 1;
      FirstSeenIsComplete(points[..n], k);
      if i :| 0 <= i < |points| && points[i].key == k {
        if i < n { assert points[..n][i].key == k; }
      }
    }
  }

  lemma {:induction false} FirstSeenIsDistinct(points: seq<Point>)
    ensures forall i, j :: 0 <= i < j < |FirstSeen(points)| ==> FirstSeen(points)[i] != FirstSeen(points)[j]
  {
    if points != [] {
      FirstSeenIsDistinct(points[..|points| - 1]);
    }
  }

  lemma {:induction false} TablesLength(gs: seq<Group>)
    ensures |Tables(gs)| == |gs|
  {
    hide Table;
    if gs != [] {
      TablesLength(gs[..|gs| - 1]);
    }
  }

  /** The tables written are one per maximal run exactly when no point stamped 0 is directly followed
      by a point with a time. */
  lemma OneTablePerRunIff(points: seq<Point>)
    ensures Tables(Groups(points)) == Tables(Runs(points)) <==> NoTimeAfterZero(points)
  {
    hide Tables;
    hide Groups;
    hide Runs;
    GroupsAgainstRuns(points);
    TablesLength(Groups(points));
    TablesLength(Runs(points));
  }

  lemma PutHolds(infos: seq<KeyInfo>, after: seq<KeyInfo>, id: nat, seen: seq<Bytes>, points: seq<Point>, p: Point)
    requires Holds(infos, seen, points) && UniqueNames(infos)
    requires id < |after| && after[id].key == p.key && after[id].value == p.value && !after[id].disabled
    requires p.key in seen ==> |after| == |infos|
    requires p.key !in seen ==> |after| == |infos| + 1 && id == |infos|
    requires forall i :: 0 <= i < |infos| && i != id ==> after[i] == infos[i]
    requires id < |infos| ==> infos[id].key == p.key
    ensures Holds(after, if p.key in seen then seen else seen + [p.key], points + [p])
  {
    hide ValueIn;
    forall k ensures ValueIn(points + [p], k) == if k == p.key then p.value else ValueIn(points, k) { ValueInSnoc(points, p, k); }
  }

  // ---------- the object ----------

  class Inserter {
    const kp: KP
    const sink: Sink
    const batchMode: bool
    var gtime: i32
    var pointsPending: nat
    /** errno == ERANGE. */
    var erange: bool
    /** The points accepted so far. */
    ghost var points: seq<Point>
    /** What the backend had taken before the run. */
    ghost const emitted0: seq<Emission>

    ghost predicate Valid()
      reads this, kp, sink
    {
      && kp.Valid() && kp.reset && !kp.disable && UniqueNames(kp.infos)
      && (batchMode ==> InStep(GroupUp(points)))
      && (!batchMode ==> sink.emitted == emitted0 + Singles(points))
    }

    /** Batch mode: the closed groups are written, the open one is in the key package. */
    ghost predicate InStep(b: Grouping)
      reads this, kp, sink
    {
      && ToU32(gtime) == b.open.time
      && pointsPending == |b.open.points|
      && sink.emitted == emitted0 + Tables(b.closed)
      && Holds(kp.infos, FirstSeen(points), b.open.points)
    }

    constructor (batchMode: bool, sink: Sink)
      ensures Valid() && fresh(kp) && this.sink == sink && this.batchMode == batchMode
      ensures points == [] && !erange && emitted0 == sink.emitted
    {
      this.batchMode, this.sink := batchMode, sink;
      kp := new KP(true, false);
      gtime, pointsPending, erange := 0, 0, false;
      points, emitted0 := [], sink.emitted;
    }

    /** timeseries_kp_flush with this backend; nothing needs resolving. */
    method Flush() returns (rc: int)
      requires Valid() && batchMode
      modifies kp, sink
      ensures kp.Valid() && UniqueNames(kp.infos) && (rc == 0 || rc == -1)
      ensures rc == 0 ==> Holds(kp.infos, FirstSeen(points), [])
      ensures rc == 0 ==> sink.emitted == emitted0 + Tables(GroupUp(points).closed + [GroupUp(points).open])
      ensures rc == -1 ==> sink.emitted == old(sink.emitted)
      ensures AllTake(old(sink.script)) ==> rc == 0 && AllTake(sink.script)
    {
      hide Table;
      hide Enabled;
      hide FirstSeen;
      hide ValueIn;
      hide UniqueNames;
      hide SameNames;
      hide IndexOf;
      hide CountEnabled;
      ghost var b, infos := GroupUp(points), kp.infos;
      BatchKeepsPoints(points);
      FlushIsTable(infos, FirstSeen(points), b.open);
      TablesSnoc(b.closed, b.open, points);
      ConcatAssoc(emitted0, Tables(b.closed), [Emission(b.open.time, Table(FirstSeen(points), b.open))]);
      hide Tables;
      hide GroupUp;
      kp.dirty := false;
      rc := sink.KpFlush(kp, ToU32(gtime));
      if rc != 0 {
        return -1;
      }
      kp.ResetDisable();
      UniqueNamesKept(infos, kp.infos);
      ResetHoldsNothing(infos, kp.infos, FirstSeen(points), b.open.points);
    }

    /** The batch half of insert: flush on a new time, then put the value into the key package. */
    method InsertBatch(key: Bytes, value: u64, time: u32) returns (rc: int)
      requires Valid() && batchMode
      modifies this`gtime, this`pointsPending, this`points, kp, sink
      ensures rc == 0 ==> Valid() && points == old(points) + [Point(time, key, value)]
      ensures rc == -1 ==> points == old(points) && sink.emitted == emitted0 + Tables(GroupUp(points).closed)
      ensures rc == 0 || rc == -1
      ensures AllTake(old(sink.script)) ==> rc == 0 && AllTake(sink.script)
    {
      hide Tables;
      hide FirstSeen;
      hide ValueIn;
      hide Holds;
      hide UniqueNames;
      hide IndexOf;
      hide CountEnabled;
      hide AllTake;
      hide Singles;
      ghost var p, b := Point(time, key, value), GroupUp(points);
      GroupSnoc(points, p);
      hide GroupUp;
      ghost var collected := b.open.points;
      TimeCrossesIntUnchanged(time);
      if gtime == 0 {
        gtime := ToI32(time);
      }
      if ToU32(gtime) != time {
        rc := Flush();
        if rc != 0 {
          return -1;
        }
        gtime := ToI32(time);
        pointsPending := 0;
        collected := [];
      }
      assert [] + [p] == [p];
      Put(key, value, collected, p);
      pointsPending := pointsPending + 1;
      points := points + [p];
      return 0;
    }

    method Put(key: Bytes, value: u64, ghost collected: seq<Point>, ghost p: Point)
      requires kp.Valid() && UniqueNames(kp.infos) && p.key == key && p.value == value
      requires Holds(kp.infos, FirstSeen(points), collected)
      modifies kp
      ensures kp.Valid() && UniqueNames(kp.infos)
      ensures Holds(kp.infos, FirstSeen(points + [p]), collected + [p])
    {
      hide FirstSeen;
      hide ValueIn;
      hide IndexOf;
      hide CountEnabled;
      ghost var infos, seen := kp.infos, FirstSeen(points);
      var id := kp.GetKey(key);
      assert id == -1 <==> key !in seen;
      if id == -1 {
        id := kp.AddKey(key);
      }
      kp.Set(id, value);
      PutHolds(infos, kp.infos, id, seen, collected, p);
      FirstSeenSnoc(points, p);
    }

    /** insert: one line. */
    method InsertLine(line: Bytes) returns (rc: int)
      requires Valid()
      modifies this`gtime, this`pointsPending, this`points, this`erange, kp, sink
      ensures rc == 0 || rc == -1
      ensures erange == ParseLine(line, old(erange)).erange
      ensures rc == 0 ==> Valid()
      ensures rc == 0 ==> match ParseLine(line, old(erange)).point
        case Some(p) => points == old(points) + [p]
        case None => points == old(points)
      ensures rc == 0 ==> forall p :: points == old(points) + [p] <==> !old(erange) && WellFormed(line, p)
      ensures rc == -1 ==> ParseLine(line, old(erange)).point.Some? && points == old(points) && SinkAgrees()
      ensures AllTake(old(sink.script)) ==> rc == 0 && AllTake(sink.script)
    {
      hide StrSep;
      hide StrToU64;
      hide GroupUp;
      hide Tables;
      hide Singles;
      hide AllTake;
      hide WellFormed;
      OnlyWellFormed(line, erange, points);
      var (key, rest1) := StrSep(Some(line));
      assert key.Some? by { FirstToken(line); }
      var (valueStr, rest2) := StrSep(rest1);
      if valueStr.None? {
        return 0;
      }
      var (value, valueEnd, valueRange) := StrToU64(valueStr.value);
      erange := erange || valueRange;
      if valueEnd == 0 || valueEnd != |valueStr.value| || erange {
        return 0;
      }
      var (timeStr, rest3) := StrSep(rest2);
      if timeStr.None? {
        return 0;
      }
      var (seconds, timeEnd, timeRange) := StrToU64(timeStr.value);
      erange := erange || timeRange;
      if timeEnd == 0 || timeEnd != |timeStr.value| || erange {
        return 0;
      }
      var time: u32 := seconds % 0x1_0000_0000;
      if !batchMode {
        rc := InsertSingle(key.value, value, time);
      } else {
        rc := InsertBatch(key.value, value, time);
      }
    }

    lemma OnlyWellFormed(line: Bytes, erange: bool, points: seq<Point>)
      ensures var q := ParseLine(line, erange).point;
        forall p :: (q.Some? && points + [q.value] == points + [p]) <==> !erange && WellFormed(line, p)
    {
      hide ParseLine;
      hide WellFormed;
      var q := ParseLine(line, erange).point;
      forall p ensures (q.Some? && points + [q.value] == points + [p]) <==> !erange && WellFormed(line, p) {
        AcceptedIff(line, p);
        NothingWhenOutOfRange(line);
        assert q.Some? ==> (points + [q.value])[|points|] == q.value && (points + [p])[|points|] == p;
      }
    }

    lemma FirstToken(line: Bytes)
      ensures StrSep(Some(line)).0.Some?
    {
    }

    /** What the backend has taken: everything accepted, or in batch mode all closed groups. */
    ghost predicate SinkAgrees()
      reads this, sink
    {
      sink.emitted == emitted0 + if batchMode then Tables(GroupUp(points).closed) else Singles(points)
    }

    /** The other half of insert: write the point by itself. */
    method InsertSingle(key: Bytes, value: u64, time: u32) returns (rc: int)
      requires Valid() && !batchMode
      modifies this`points, sink
      ensures rc == 0 || rc == -1
      ensures rc == 0 ==> Valid() && points == old(points) + [Point(time, key, value)]
      ensures rc == -1 ==> points == old(points) && sink.emitted == emitted0 + Singles(points)
      ensures AllTake(old(sink.script)) ==> rc == 0 && AllTake(sink.script)
    {
      hide IndexOf;
      hide CountEnabled;
      hide UniqueNames;
      hide GroupUp;
      hide Tables;
      hide Singles;
      ghost var p := Point(time, key, value);
      SinglesSnoc(points, p);
      ConcatAssoc(emitted0, Singles(points), [Emission(time, [p])]);
      rc := sink.SetSingle(key, value, time);
      if rc == 0 {
        points := points + [p];
      }
    }

    /** The read loop of main and the final flush. */
    method ReadAll(text: Bytes) returns (rc: int)
      requires Valid() && points == [] && !erange
      modifies this, kp, sink
      ensures rc == 0 || rc == -1
      ensures rc == 0 ==> points == ReadText(text, false)
      ensures rc == 0 ==> sink.emitted == emitted0 + if batchMode then Tables(Groups(points)) else Singles(points)
      ensures rc == 0 && batchMode ==> (sink.emitted == emitted0 + Tables(Runs(points)) <==> NoTimeAfterZero(points))
      ensures rc == -1 ==> points <= ReadText(text, false) && SinkAgrees()
      ensures AllTake(old(sink.script)) ==> rc == 0
    {
      hide ParseLine;
      hide NextLine;
      hide CString;
      hide AllTake;
      hide Tables;
      hide Holds;
      hide FirstSeen;
      hide UniqueNames;
      hide IndexOf;
      hide CountEnabled;
      hide GroupUp;
      hide Singles;
      hide ReadText;
      ReadTextStep(text, false);
      var rest := text;
      while rest != []
        invariant Valid()
        invariant points + ReadText(rest, erange) == ReadText(text, false)
        invariant AllTake(old(sink.script)) ==> AllTake(sink.script)
        decreases |rest|
      {
        ReadTextStep(rest, erange);
        var (line, left) := NextLine(rest);
        ghost var accepted, found := points, ReadLine(line, erange);
        ConcatAssoc(accepted, Found(found), ReadText(left, found.erange));
        assert accepted + [] == accepted;
        rest := left;
        var s := CString(line);
        if s != [] && s[0] != HASH {
          rc := InsertLine(s);
          if rc != 0 {
            return -1;
          }
        }
      }
      ReadTextStep(rest, erange);
      assert points + [] == points;
      OneTablePerRunIff(points);
      SameTail(emitted0, Tables(Groups(points)), Tables(Runs(points)));
      hide Runs;
      if batchMode && pointsPending > 0 {
        rc := Flush();
        if rc != 0 {
          return -1;
        }
      }
      return 0;
    }
  }

  lemma SameTail(a: seq<Emission>, b: seq<Emission>, c: seq<Emission>)
    ensures a + b == a + c <==> b == c
  {
    assert b == (a + b)[|a|..] && c == (a + c)[|a|..];
  }

  function Found(p: LineResult): seq<Point> {
    if p.point.Some? then [p.point.value] else []
  }

  lemma ReadTextStep(text: Bytes, erange: bool)
    ensures text == [] ==> ReadText(text, erange) == []
    ensures text != [] ==> var (line, rest) := NextLine(text);
      ReadText(text, erange) == Found(ReadLine(line, erange)) + ReadText(rest, ReadLine(line, erange).erange)
  {
    hide NextLine;
    hide ReadLine;
  }

  /** Each point as a flush of its own. */
  function Singles(points: seq<Point>): seq<Emission> {
    if points == [] then []
    else Singles(points[..|points| - 1]) + [Emission(points[|points| - 1].time, [points[|points| - 1]])]
  }

  lemma SinglesSnoc(points: seq<Point>, p: Point)
    ensures Singles(points + [p]) == Singles(points) + [Emission(p.time, [p])]
  {
    assert (points + [p])[..|points|] == points;
  }
}
