/** The proxy's statistics: inc_stat, maybe_flush_stats and the stats key package of tools/tsk-proxy.c. */
module ProxyStats {
  import opened Arithmetic
  import opened Basics
  import opened KeyPackage
  import opened WholeSink

  const INT_LIMIT: nat := 0x8000_0000

  /** time(NULL), before 2038. */
  type Clock = x: int | 0 <= x < 0x8000_0000

  /** STATS_INTERVAL_NOW, for a clock that reads `clock`. */
  function IntervalNow(clock: nat, interval: nat): (now: nat)
    requires interval > 0
    ensures now <= clock < now + interval && now % interval == 0
  {
    RoundDown(clock, interval);
    (clock / interval) * interval
  }

  function EmittedSum(es: seq<Emission>, k: Bytes): nat {
    if es == [] then 0 else EmittedSum(es[..|es| - 1], k) + SumFor(es[|es| - 1].points, k)
  }

  function Pending(infos: seq<KeyInfo>, k: Bytes): nat {
    if EnabledAt(infos, k).Some? then EnabledAt(infos, k).value else 0
  }

  /** `value + old_value` in int, stored as uint64_t; an int overflow wraps. */
  function AddStat(old_value: u64, value: nat): u64 {
    var sum := value + ToI32(old_value % 0x1_0000_0000);
    var wrapped := ToI32(sum % 0x1_0000_0000);
    if wrapped >= 0 then wrapped else wrapped + 0x1_0000_0000_0000_0000
  }

  lemma AddStatExact(old_value: u64, value: nat)
    requires old_value + value < INT_LIMIT
    ensures AddStat(old_value, value) == old_value + value
  {
  }

  /** The sum of the amounts counted under k. */
  function Counted(incs: seq<(Bytes, nat)>, k: Bytes): nat {
    if incs == [] then 0
    else
      var p := incs[|incs| - 1];
      Counted(incs[..|incs| - 1], k) + (if p.0 == k then p.1 else 0)
  }

  lemma CountedSnoc(incs: seq<(Bytes, nat)>, k: Bytes, n: nat, o: Bytes)
    ensures Counted(incs + [(k, n)], o) == Counted(incs, o) + (if o == k then n else 0)
  {
    assert (incs + [(k, n)])[..|incs|] == incs;
  }

  /** Emitted plus pending is everything counted, as long as the count of k fits an int. */
  ghost predicate Conserved(es: seq<Emission>, infos: seq<KeyInfo>, incs: seq<(Bytes, nat)>) {
    forall k :: Counted(incs, k) < INT_LIMIT ==> EmittedSum(es, k) + Pending(infos, k) == Counted(incs, k)
  }

  /** Flush times are strictly increasing multiples of the interval, all before the next one. */
  predicate TimesInOrder(es: seq<Emission>, interval: nat, next: nat)
    requires interval > 0
  {
    && next % interval == 0
    && (forall i :: 0 <= i < |es| ==> es[i].time % interval == 0 && es[i].time < next)
    && (forall i, j :: 0 <= i < j < |es| ==> es[i].time < es[j].time)
  }

  lemma IncKeepsConserved(es: seq<Emission>, before: seq<KeyInfo>, after: seq<KeyInfo>, incs: seq<(Bytes, nat)>,
        k: Bytes, value: nat)
    requires Conserved(es, before, incs)
    requires 0 < value
    requires Pending(before, k) + value < INT_LIMIT ==> Pending(after, k) == Pending(before, k) + value
    requires forall o :: o != k ==> Pending(after, o) == Pending(before, o)
    ensures Conserved(es, after, incs + [(k, value)])
  {
    hide Pending;
    hide EmittedSum;
    hide Counted;
    forall o ensures Counted(incs + [(k, value)], o) == Counted(incs, o) + (if o == k then value else 0) {
      CountedSnoc(incs, k, value, o);
    }
  }

  lemma FlushKeepsConserved(es: seq<Emission>, e: Emission, before: seq<KeyInfo>, after: seq<KeyInfo>,
        incs: seq<(Bytes, nat)>, t: u32)
    requires Conserved(es, before, incs) && UniqueNames(before)
    requires e.points == Enabled(before, t)
    requires forall i :: 0 <= i < |after| ==> after[i].value == 0
    ensures Conserved(es + [e], after, incs)
  {
    hide Enabled;
    hide EnabledAt;
    hide SumFor;
    forall k ensures EmittedSum(es + [e], k) + Pending(after, k) == EmittedSum(es, k) + Pending(before, k) {
      EnabledAtUniform(after, k);
      EnabledValue(before, t, k);
      assert (es + [e])[..|es|] == es;
    }
  }

  class Stats {
    const prefix: Bytes
    const interval: nat
    const kp: KP
    const sink: Sink
    var time: nat
    /** Every call of IncStat: the key and the amount. */
    ghost var incs: seq<(Bytes, nat)>

    ghost predicate Valid()
      reads this, kp, sink
    {
      && 0 < interval < INT_LIMIT && time < INT_LIMIT
      && kp.Valid() && kp.reset && !kp.disable && UniqueNames(kp.infos)
      && (forall i :: 0 <= i < |kp.infos| ==> !kp.infos[i].disabled)
      && TimesInOrder(sink.emitted, interval, time)
      && Conserved(sink.emitted, kp.infos, incs)
    }

    /** init_stats_timeseries; `clock` is time(NULL). */
    constructor (prefix: Bytes, interval: nat, clock: Clock, script: seq<bool>)
      requires 0 < interval < INT_LIMIT
      ensures Valid() && fresh(kp) && fresh(sink) && incs == [] && this.prefix == prefix && this.interval == interval
      ensures time == IntervalNow(clock, interval) && sink.script == script && sink.emitted == []
    {
      this.prefix, this.interval := prefix, interval;
      kp := new KP(true, false);
      sink := new Sink(script);
      hide IntervalNow;
      time := IntervalNow(clock, interval);
      incs := [];
    }

    function StatsKey(suffix: Bytes): Bytes { prefix + [DOT] + suffix }

    method IncStat(suffix: Bytes, value: nat)
      requires Valid() && value > 0
      modifies kp, this`incs
      ensures Valid() && incs == old(incs) + [(StatsKey(suffix), value)]
    {
      hide EmittedSum;
      hide Counted;
      hide IndexOf;
      hide CountEnabled;
      hide AddStat;
      hide EnabledAt;
      var key := StatsKey(suffix);
      ghost var before := kp.infos;
      var id := kp.GetKey(key);
      if id == -1 {
        UnknownNotEnabled(kp.infos, key);
        id := kp.AddKey(key);
      }
      ghost var added := kp.infos;
      var old_value := kp.Get(id);
      kp.Set(id, AddStat(old_value, value));
      forall o
        ensures Pending(kp.infos, o) == if o == key then AddStat(old_value, value) else Pending(before, o)
        ensures o == key ==> Pending(before, o) == old_value
      {
        EnabledAtUpdate(added, id, added[id].(value := AddStat(old_value, value)), o);
        EnabledAtUpdate(added, id, added[id], o);
        assert added[id := added[id]] == added;
        if added != before {
          EnabledAtSnoc(before, KeyInfo(key, 0, false, None), o);
        }
      }
      if old_value + value < INT_LIMIT {
        AddStatExact(old_value, value);
      }
      IncKeepsConserved(sink.emitted, before, kp.infos, incs, key, value);
      incs := incs + [(key, value)];
    }

    /** maybe_flush_stats; `clock` is time(NULL). */
    method MaybeFlush(clock: Clock)
      requires Valid()
      modifies this`time, kp, sink
      ensures Valid() && incs == old(incs)
      ensures var now := IntervalNow(clock, interval);
        var flushes := now >= old(time) + interval && (old(sink.script) == [] || old(sink.script)[0]);
        && time == (if flushes then now else old(time))
        && sink.script == (if now >= old(time) + interval && old(sink.script) != [] then old(sink.script)[1..] else old(sink.script))
        && sink.emitted == (if flushes then old(sink.emitted) + [Emission(old(time), Enabled(old(kp.infos), old(time)))]
                            else old(sink.emitted))
    {
      hide Conserved;
      hide CountEnabled;
      hide IndexOf;
      hide Enabled;
      hide IntervalNow;
      var now := IntervalNow(clock, interval);
      if now >= time + interval {
        ghost var before, emitted := kp.infos, sink.emitted;
        kp.dirty := false;
        var rc := sink.KpFlush(kp, time);
        if rc == -1 {
          return;
        }
        kp.ResetDisable();
        FlushKeepsConserved(emitted, Emission(time, Enabled(before, time)), before, kp.infos, incs, time);
        time := now;
      }
    }
  }
}
