/** What run of tools/tsk-proxy.c is fed, how it falls into bursts, and what must be done by when. */
module ProxyFeed {
  import opened Basics
  import opened ProxyDecoder
  import opened ProxyHistory
  import opened ProxyStats
  import opened WireRoundTrip

  /** An answer of rd_kafka_consumer_poll. */
  datatype Poll = Nothing | Data(payload: Bytes) | PartitionEof | OtherError

  /** A poll, the clock at the next stats check, and whether SIGINT had been caught by then. */
  datatype Tick = Tick(poll: Poll, clock: Clock, shutdown: bool)

  /** The payloads among the polls that pass the header checks. */
  function Accepted(cfg: ProxyConfig, env: seq<Tick>): seq<Bytes> {
    if env == [] then []
    else
      var last := env[|env| - 1].poll;
      Accepted(cfg, env[..|env| - 1])
      + (if last.Data? && ParseHeader(cfg.channel, last.payload).Body? then [last.payload] else [])
  }

  predicate SomeMessageHangs(cfg: ProxyConfig, env: seq<Tick>) {
    exists i :: 0 <= i < |env| && env[i].poll.Data? && MessageHangs(cfg, env[i].poll.payload)
  }

  /** Exactly the accepted messages of the first n polls have been handled, and whether the last of them hangs. */
  predicate Fed(cfg: ProxyConfig, env: seq<Tick>, n: nat, handled0: seq<Bytes>, handled: seq<Bytes>, hangs: bool) {
    n <= |env| && handled == handled0 + Accepted(cfg, env[..n]) && hangs == SomeMessageHangs(cfg, env[..n])
  }

  lemma FedStart(cfg: ProxyConfig, env: seq<Tick>, handled: seq<Bytes>)
    ensures Fed(cfg, env, 0, handled, handled, false)
  {
  }

  lemma FedMeans(cfg: ProxyConfig, env: seq<Tick>, n: nat, handled0: seq<Bytes>, handled: seq<Bytes>, hangs: bool)
    requires Fed(cfg, env, n, handled0, handled, hangs)
    ensures n <= |env| && handled == handled0 + Accepted(cfg, env[..n]) && hangs == SomeMessageHangs(cfg, env[..n])
  {
  }

  lemma FedStep(cfg: ProxyConfig, env: seq<Tick>, n: nat, handled0: seq<Bytes>, handled: seq<Bytes>,
        handled': seq<Bytes>, hangs: bool)
    requires Fed(cfg, env, n, handled0, handled, false) && n < |env|
    ensures (var poll := env[n].poll;
      && handled' == handled + (if poll.Data? && ParseHeader(cfg.channel, poll.payload).Body? then [poll.payload] else [])
      && hangs == (poll.Data? && MessageHangs(cfg, poll.payload))) ==>
        Fed(cfg, env, n + 1, handled0, handled', hangs)
  {
    hide MessageHangs;
    hide ParseHeader;
    var all := env[..n + 1];
    assert all[..n] == env[..n];
    var poll := env[n].poll;
    ConcatAssoc(handled0, Accepted(cfg, env[..n]), if poll.Data? && ParseHeader(cfg.channel, poll.payload).Body? then [poll.payload] else []);
    assert SomeMessageHangs(cfg, all) <==> poll.Data? && MessageHangs(cfg, poll.payload) by {
      assert forall i :: 0 <= i < n ==> all[i] == env[..n][i];
      assert all[n].poll == poll;
    }
  }

  lemma FedNoMessage(cfg: ProxyConfig, env: seq<Tick>, n: nat, handled0: seq<Bytes>, handled: seq<Bytes>)
    ensures n < |env| && !env[n].poll.Data? && Fed(cfg, env, n, handled0, handled, false) ==> Fed(cfg, env, n + 1, handled0, handled, false)
  {
    hide Fed;
    if n < |env| && !env[n].poll.Data? && Fed(cfg, env, n, handled0, handled, false) {
      assert handled + [] == handled;
      FedStep(cfg, env, n, handled0, handled, handled, false);
    }
  }

  lemma HangsOnlyInBody(cfg: ProxyConfig, payload: Bytes)
    ensures MessageHangs(cfg, payload) ==> ParseHeader(cfg.channel, payload).Body?
  {
  }

  // ---------- bursts ----------

  const EOF_LIMIT: nat := 10

  /** How often the end of a partition was reported since the last message. */
  function Eofs(env: seq<Tick>): nat {
    if env == [] then 0
    else
      var before := Eofs(env[..|env| - 1]);
      match env[|env| - 1].poll
      case PartitionEof => before + 1
      case Data(_) => 0
      case Nothing => before
      case OtherError => before
  }

  lemma EofsStep(env: seq<Tick>, i0: nat, n: nat)
    requires i0 <= n < |env|
    ensures Eofs(env[i0..i0]) == 0
    ensures Eofs(env[i0..n + 1]) == match env[n].poll
      case PartitionEof => Eofs(env[i0..n]) + 1
      case Data(_) => 0
      case Nothing => Eofs(env[i0..n])
      case OtherError => Eofs(env[i0..n])
  {
    assert env[i0..n + 1][..n - i0] == env[i0..n];
  }

  /** Poll n ends the burst that began with poll i0. */
  predicate EndsBurst(env: seq<Tick>, i0: nat, n: nat)
    requires i0 <= n < |env|
  {
    env[n].poll.Nothing? || env[n].shutdown || Eofs(env[i0..n + 1]) >= EOF_LIMIT
  }

  /** No poll before n ends it. */
  predicate GoesOn(env: seq<Tick>, i0: nat, n: nat)
    requires n <= |env|
  {
    forall j :: i0 <= j < n ==> !EndsBurst(env, i0, j)
  }

  /** The polls from a to b are a burst: the last of them ends it, or the feed ends. */
  predicate OneBurst(env: seq<Tick>, a: nat, b: nat) {
    a < b <= |env| && GoesOn(env, a, b - 1) && (b == |env| || EndsBurst(env, a, b - 1))
  }

  lemma BurstStart(env: seq<Tick>, i0: nat)
    requires i0 < |env|
    ensures GoesOn(env, i0, i0) && Eofs(env[i0..i0]) == 0
    ensures env[i0].poll.Nothing? ==> OneBurst(env, i0, i0 + 1)
  {
  }

  /** Poll n is the next of a burst that goes on so far: it ends it or not. */
  lemma BurstStep(env: seq<Tick>, i0: nat, n: nat)
    requires i0 <= n < |env| && GoesOn(env, i0, n)
    ensures env[n].poll.Nothing? || env[n].shutdown || Eofs(env[i0..n + 1]) >= EOF_LIMIT ==> OneBurst(env, i0, n + 1)
    ensures !env[n].poll.Nothing? && !env[n].shutdown && Eofs(env[i0..n + 1]) < EOF_LIMIT ==> GoesOn(env, i0, n + 1)
    ensures n + 1 == |env| ==> OneBurst(env, i0, n + 1)
  {
    hide Eofs;
  }

  /** The bursts that make up the first i polls: cuts are where they begin, and i. */
  ghost predicate Bursts(env: seq<Tick>, cuts: seq<nat>, i: nat) {
    && cuts != [] && cuts[0] == 0 && cuts[|cuts| - 1] == i <= |env|
    && forall m :: 0 <= m < |cuts| - 1 ==> OneBurst(env, cuts[m], cuts[m + 1])
  }

  /** SIGINT is noticed before the next poll: none of the polls before the last had it. */
  predicate NoShutdownBefore(env: seq<Tick>, n: nat)
    requires n <= |env|
  {
    forall j :: 0 <= j < n - 1 ==> !env[j].shutdown
  }

  lemma NoShutdownFurther(env: seq<Tick>, i: nat, i': nat)
    requires i < i' <= |env| && NoShutdownBefore(env, i) && GoesOn(env, i, i' - 1)
    requires i > 0 ==> !env[i - 1].shutdown
    ensures NoShutdownBefore(env, i')
  {
    forall j | 0 <= j < i' - 1 ensures !env[j].shutdown {
      if i <= j {
        assert !EndsBurst(env, i, j);
      }
    }
  }

  // ---------- everything received before a burst is committed ----------

  /** The points of the messages handled before, and of the first n polls. */
  function PointsBy(cfg: ProxyConfig, handled0: seq<Bytes>, env: seq<Tick>, n: nat): seq<Point>
    requires n <= |env|
  {
    AllPoints(cfg, handled0 + Accepted(cfg, env[..n]))
  }

  /** Some of the first commits hold exactly these points. */
  ghost predicate Settled(commits: seq<Commit>, points: seq<Point>) {
    NonZeroTimes(points) ==> exists n :: 0 <= n <= |commits| && Windows(commits[..n]) == points
  }

  /** What had come in when a burst began was committed by then. */
  ghost predicate SettledAtCuts(cfg: ProxyConfig, handled0: seq<Bytes>, env: seq<Tick>, cuts: seq<nat>, commits: seq<Commit>) {
    forall m :: 0 <= m < |cuts| - 1 ==> cuts[m] <= |env| && Settled(commits, PointsBy(cfg, handled0, env, cuts[m]))
  }

  lemma StaysSettled(commits: seq<Commit>, more: seq<Commit>, points: seq<Point>)
    requires commits <= more && Settled(commits, points)
    ensures Settled(more, points)
  {
    if NonZeroTimes(points) {
      var n :| 0 <= n <= |commits| && Windows(commits[..n]) == points;
      assert more[..n] == commits[..n];
    }
  }

  lemma SettleNext(cfg: ProxyConfig, handled0: seq<Bytes>, env: seq<Tick>, cuts: seq<nat>, i: nat, commits: seq<Commit>, more: seq<Commit>)
    requires cuts != [] && cuts[|cuts| - 1] <= |env| && commits <= more
    requires SettledAtCuts(cfg, handled0, env, cuts, commits)
    requires Settled(commits, PointsBy(cfg, handled0, env, cuts[|cuts| - 1]))
    ensures SettledAtCuts(cfg, handled0, env, cuts + [i], more)
  {
    hide Settled;
    hide PointsBy;
    forall m | 0 <= m < |cuts| ensures cuts[m] <= |env| && Settled(more, PointsBy(cfg, handled0, env, cuts[m])) {
      StaysSettled(commits, more, PointsBy(cfg, handled0, env, cuts[m]));
    }
  }

  lemma SettledSoFar(cfg: ProxyConfig, handled0: seq<Bytes>, env: seq<Tick>, cuts: seq<nat>, commits: seq<Commit>, more: seq<Commit>)
    requires commits <= more && SettledAtCuts(cfg, handled0, env, cuts, commits)
    ensures SettledAtCuts(cfg, handled0, env, cuts, more)
  {
    hide Settled;
    hide PointsBy;
    forall m | 0 <= m < |cuts| - 1 ensures cuts[m] <= |env| && Settled(more, PointsBy(cfg, handled0, env, cuts[m])) {
      StaysSettled(commits, more, PointsBy(cfg, handled0, env, cuts[m]));
    }
  }

  /** Where run stands with i polls used, between two bursts. */
  ghost predicate OnSchedule(cfg: ProxyConfig, handled0: seq<Bytes>, env: seq<Tick>, cuts: seq<nat>, i: nat, commits: seq<Commit>) {
    Bursts(env, cuts, i) && NoShutdownBefore(env, i) && SettledAtCuts(cfg, handled0, env, cuts, commits)
  }

  /** Where run ends with n polls used, perhaps within a burst. */
  ghost predicate EndsOnSchedule(cfg: ProxyConfig, handled0: seq<Bytes>, env: seq<Tick>, cuts: seq<nat>, n: nat, commits: seq<Commit>) {
    && cuts != [] && cuts[|cuts| - 1] <= n <= |env| && Bursts(env, cuts, cuts[|cuts| - 1])
    && NoShutdownBefore(env, n) && (n > 0 ==> GoesOn(env, cuts[|cuts| - 1], n - 1))
    && SettledAtCuts(cfg, handled0, env, cuts, commits)
  }

  lemma ScheduleStart(cfg: ProxyConfig, handled0: seq<Bytes>, env: seq<Tick>, commits: seq<Commit>)
    ensures OnSchedule(cfg, handled0, env, [0], 0, commits)
  {
  }

  lemma EndsBetween(cfg: ProxyConfig, handled0: seq<Bytes>, env: seq<Tick>, cuts: seq<nat>, i: nat, commits: seq<Commit>, more: seq<Commit>)
    requires OnSchedule(cfg, handled0, env, cuts, i, commits) && commits <= more
    ensures OnSchedule(cfg, handled0, env, cuts, i, more)
    ensures EndsOnSchedule(cfg, handled0, env, cuts, i, more)
  {
    hide SettledAtCuts;
    hide OneBurst;
    SettledSoFar(cfg, handled0, env, cuts, commits, more);
  }

  lemma EndsWithin(cfg: ProxyConfig, handled0: seq<Bytes>, env: seq<Tick>, cuts: seq<nat>, i: nat, i': nat, n: nat,
                   commits: seq<Commit>, more: seq<Commit>)
    requires OnSchedule(cfg, handled0, env, cuts, i, commits) && commits <= more
    requires i < i' <= |env| && GoesOn(env, i, i' - 1) && (i > 0 ==> !env[i - 1].shutdown)
    requires i' - 1 <= n <= i'
    ensures EndsOnSchedule(cfg, handled0, env, cuts, n, more)
  {
    hide SettledAtCuts;
    hide OneBurst;
    hide EndsBurst;
    SettledSoFar(cfg, handled0, env, cuts, commits, more);
    NoShutdownFurther(env, i, i');
  }

  lemma ScheduleMeans(cfg: ProxyConfig, handled0: seq<Bytes>, env: seq<Tick>, cuts: seq<nat>, n: nat, commits: seq<Commit>)
    requires EndsOnSchedule(cfg, handled0, env, cuts, n, commits)
    ensures n <= |env| && NoShutdownBefore(env, n)
  {
  }

  lemma EndsLater(cfg: ProxyConfig, handled0: seq<Bytes>, env: seq<Tick>, cuts: seq<nat>, n: nat, commits: seq<Commit>, more: seq<Commit>)
    requires EndsOnSchedule(cfg, handled0, env, cuts, n, commits) && commits <= more
    ensures EndsOnSchedule(cfg, handled0, env, cuts, n, more)
  {
    hide SettledAtCuts;
    hide Bursts;
    hide GoesOn;
    SettledSoFar(cfg, handled0, env, cuts, commits, more);
  }

  lemma ScheduleNext(cfg: ProxyConfig, handled0: seq<Bytes>, env: seq<Tick>, cuts: seq<nat>, i: nat, i': nat,
                     commits: seq<Commit>, more: seq<Commit>)
    requires OnSchedule(cfg, handled0, env, cuts, i, commits) && commits <= more
    requires OneBurst(env, i, i') && (i > 0 ==> !env[i - 1].shutdown)
    requires Settled(commits, PointsBy(cfg, handled0, env, i))
    ensures OnSchedule(cfg, handled0, env, cuts + [i'], i', more)
  {
    hide SettledAtCuts;
    hide Settled;
    hide PointsBy;
    hide EndsBurst;
    NoShutdownFurther(env, i, i');
    SettleNext(cfg, handled0, env, cuts, i', commits, more);
    hide OneBurst;
  }

  // ---------- the statistics follow the clock ----------

  /** The stats time is that of the interval this clock lies in, or a later one. */
  predicate Noticed(clock: Clock, interval: nat, time: nat)
    requires interval > 0
  {
    IntervalNow(clock, interval) < time + interval
  }

  /** The clock read when the main loop comes round with i polls used. */
  function ClockAt(env: seq<Tick>, clock0: Clock, i: nat): Clock
    requires i <= |env|
  {
    if i == 0 then clock0 else env[i - 1].clock
  }

  /** Every clock read in a burst, that of its first poll aside. */
  predicate NoticedWithin(env: seq<Tick>, a: nat, b: nat, interval: nat, time: nat)
    requires interval > 0 && b <= |env|
  {
    forall j :: a < j < b ==> Noticed(env[j].clock, interval, time)
  }

  predicate NoticedBurst(env: seq<Tick>, clock0: Clock, a: nat, b: nat, interval: nat, time: nat)
    requires interval > 0
  {
    a < b <= |env| && Noticed(ClockAt(env, clock0, a), interval, time) && NoticedWithin(env, a, b, interval, time)
  }

  ghost predicate NoticedAll(env: seq<Tick>, clock0: Clock, cuts: seq<nat>, interval: nat, time: nat)
    requires interval > 0
  {
    forall m :: 0 <= m < |cuts| - 1 ==> NoticedBurst(env, clock0, cuts[m], cuts[m + 1], interval, time)
  }

  /** As long as the stats backend takes everything. */
  ghost predicate Follows(takes: bool, env: seq<Tick>, clock0: Clock, cuts: seq<nat>, interval: nat, time: nat) {
    interval > 0 && (takes ==> NoticedAll(env, clock0, cuts, interval, time))
  }

  lemma FollowsStart(takes: bool, env: seq<Tick>, clock0: Clock, interval: nat, time: nat)
    requires interval > 0
    ensures Follows(takes, env, clock0, [0], interval, time)
  {
  }

  lemma FollowsLater(takes: bool, env: seq<Tick>, clock0: Clock, cuts: seq<nat>, interval: nat, time: nat, time': nat)
    requires time <= time' && Follows(takes, env, clock0, cuts, interval, time)
    ensures Follows(takes, env, clock0, cuts, interval, time')
  {
    hide IntervalNow;
    hide ClockAt;
  }

  lemma FollowsNext(takes: bool, env: seq<Tick>, clock0: Clock, cuts: seq<nat>, i: nat, interval: nat, time: nat, time': nat)
    requires time <= time' && cuts != [] && cuts[|cuts| - 1] < i <= |env|
    requires Follows(takes, env, clock0, cuts, interval, time)
    requires takes ==> Noticed(ClockAt(env, clock0, cuts[|cuts| - 1]), interval, time)
    requires takes ==> NoticedWithin(env, cuts[|cuts| - 1], i, interval, time')
    ensures Follows(takes, env, clock0, cuts + [i], interval, time')
  {
    if takes {
      FollowsLater(takes, env, clock0, cuts, interval, time, time');
      NoticedStays(ClockAt(env, clock0, cuts[|cuts| - 1]), interval, time, time');
      assert NoticedBurst(env, clock0, cuts[|cuts| - 1], i, interval, time');
      hide NoticedBurst;
    }
  }

  lemma NoticedStays(clock: Clock, interval: nat, time: nat, time': nat)
    requires interval > 0 && time <= time'
    ensures Noticed(clock, interval, time) ==> Noticed(clock, interval, time')
  {
    hide IntervalNow;
  }

  /** One more clock is read in the burst, or none. */
  lemma NoticedWithinNext(env: seq<Tick>, a: nat, b: nat, b': nat, interval: nat, time: nat, time': nat)
    requires interval > 0 && time <= time' && a < b <= b' <= |env| && b' <= b + 1
    requires NoticedWithin(env, a, b, interval, time) && (b' > b ==> Noticed(env[b].clock, interval, time'))
    ensures NoticedWithin(env, a, b', interval, time')
  {
    hide IntervalNow;
  }
}
