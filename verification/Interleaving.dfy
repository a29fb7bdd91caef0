/** Several flushes of producers, delivered in the order Kafka keeps: within each partition, not across them. */
module Interleaving {
  import opened Basics
  import opened KeyPackage
  import opened KafkaFormat
  import opened KafkaBackend
  import opened Dbats
  import opened ProxyDecoder
  import opened ProxyFeed
  import opened ProxyHistory
  import opened ProxyStats
  import opened WireRoundTrip
  import opened TskProxy

  /** One flush of a producer. */
  datatype Round = Round(time: u32, infos: seq<KeyInfo>)

  /** The messages of all rounds, in the order they were sent. */
  function Sent(cfg: Config, rounds: seq<Round>): seq<Message> {
    if rounds == [] then []
    else
      var last := rounds[|rounds| - 1];
      Sent(cfg, rounds[..|rounds| - 1]) + Messages(cfg, last.time, last.infos)
  }

  /** The enabled records of all rounds, in the order they were flushed. */
  function Produced(rounds: seq<Round>): seq<Point> {
    if rounds == [] then []
    else
      var last := rounds[|rounds| - 1];
      Produced(rounds[..|rounds| - 1]) + Enabled(last.infos, last.time)
  }

  predicate AllOnTheWire(rounds: seq<Round>) {
    forall i :: 0 <= i < |rounds| ==> WireKeys(Enabled(rounds[i].infos, rounds[i].time))
  }

  function PartitionOf(m: Message, partitions: nat): nat
    requires partitions > 0
  {
    if |m.key| == 4 then Partition(m.key, partitions) else 0
  }

  /** The messages of one partition, in order. */
  function InPartition(ms: seq<Message>, partitions: nat, p: nat): seq<Message>
    requires partitions > 0
  {
    if ms == [] then []
    else
      var m := ms[|ms| - 1];
      InPartition(ms[..|ms| - 1], partitions, p) + (if PartitionOf(m, partitions) == p then [m] else [])
  }

  /** What Kafka promises: each partition is delivered whole and in order. */
  ghost predicate SamePartitions(sent: seq<Message>, delivered: seq<Message>, partitions: nat)
    requires partitions > 0
  {
    forall p :: InPartition(delivered, partitions, p) == InPartition(sent, partitions, p)
  }

  lemma {:induction false} InPartitionIff(ms: seq<Message>, partitions: nat, m: Message)
    requires partitions > 0
    ensures m in InPartition(ms, partitions, PartitionOf(m, partitions)) <==> m in ms
  {
    if ms != [] {
      InPartitionIff(ms[..|ms| - 1], partitions, m);
      assert ms == ms[..|ms| - 1] + [ms[|ms| - 1]];
    }
  }

  lemma {:induction false} InPartitionConcat(a: seq<Message>, b: seq<Message>, partitions: nat, p: nat)
    requires partitions > 0
    ensures InPartition(a + b, partitions, p) == InPartition(a, partitions, p) + InPartition(b, partitions, p)
  {
    hide PartitionOf;
    if b == [] {
      assert a + b == a;
    } else {
      var n := |b| - 1;
      assert (a + b)[..|a + b| - 1] == a + b[..n];
      InPartitionConcat(a, b[..n], partitions, p);
    }
  }

  /** Any two neighbours of different partitions may change places. */
  lemma NeighboursMaySwap(front: seq<Message>, a: Message, b: Message, back: seq<Message>, partitions: nat)
    requires partitions > 0 && PartitionOf(a, partitions) != PartitionOf(b, partitions)
    ensures SamePartitions(front + ([a, b] + back), front + ([b, a] + back), partitions)
  {
    hide PartitionOf;
    forall p ensures InPartition(front + ([b, a] + back), partitions, p) == InPartition(front + ([a, b] + back), partitions, p) {
      InPartitionConcat(front, [b, a] + back, partitions, p);
      InPartitionConcat(front, [a, b] + back, partitions, p);
      InPartitionConcat([b, a], back, partitions, p);
      InPartitionConcat([a, b], back, partitions, p);
      InPartitionConcat([b], [a], partitions, p);
      InPartitionConcat([a], [b], partitions, p);
      assert [b] + [a] == [b, a] && [a] + [b] == [a, b];
      assert InPartition([a], partitions, p) == [] || InPartition([b], partitions, p) == [];
    }
  }

  /** The messages of one partition may not. */
  lemma OrderWithinPartition(a: Message, b: Message, partitions: nat)
    requires partitions > 0 && a != b && PartitionOf(a, partitions) == PartitionOf(b, partitions)
    ensures !SamePartitions([a, b], [b, a], partitions)
  {
    hide PartitionOf;
    var p := PartitionOf(a, partitions);
    assert InPartition([a], partitions, p) == [a] && InPartition([b], partitions, p) == [b];
    assert [a, b][..1] == [a] && [b, a][..1] == [b];
    assert InPartition([a, b], partitions, p) == [a] + [b];
    assert InPartition([b, a], partitions, p) == [b] + [a];
    assert ([a] + [b])[0] != ([b] + [a])[0];
  }

  // ---------- every message carries only points of its own Kafka key ----------

  /** The Kafka key of whatever is written at (t, k). */
  function Address(format: Format, t: u32, k: Bytes): Bytes {
    BigEndian(MsgKey(format, Point(t, k, 0)), 4)
  }

  /** The proxy accepts the message, reads it to its last byte, and finds only points of its Kafka key. */
  ghost predicate WellAddressed(format: Format, pc: ProxyConfig, m: Message) {
    && ParseHeader(pc.channel, m.payload).Body? && MessageKeysFit(pc, m.payload) && !MessageHangs(pc, m.payload)
    && forall t: u32, k :: LastValue(MessagePoints(pc, m.payload), t, k).Some? ==> m.key == Address(format, t, k)
  }

  lemma {:induction false} FilteredWithin(filters: seq<Bytes>, points: seq<Point>)
    ensures forall p :: p in Filtered(filters, points) ==> p in points
  {
    hide Passes;
    if points != [] {
      FilteredWithin(filters, points[..|points| - 1]);
    }
  }

  lemma BatchAddressed(cfg: Config, filters: seq<Bytes>, time: u32, b: Batch)
    requires !cfg.format.Ascii? && |cfg.channel| < 1024
    requires Homogeneous(cfg, b) && WirePoints(time, b.points)
    ensures WellAddressed(cfg.format, ProxyConfig(cfg.channel, filters), Encode(cfg, time, b))
  {
    hide Records;
    hide Payload;
    hide ParseHeader;
    hide ParseBody;
    hide Kept;
    hide Filtered;
    hide BigEndian;
    hide LastValue;
    WireIsEncodable(b.points);
    MessageRoundTrip(cfg, time, b);
    BodyKeysFit(cfg.format, b.points);
    KeptIsFiltered(filters, time, b.points);
    FilteredWithin(filters, b.points);
    var points := Filtered(filters, b.points);
    forall t: u32, k | LastValue(points, t, k).Some? ensures b.msgkey == MsgKey(cfg.format, Point(t, k, 0)) {
      LastValueDefined(points, t, k);
      var i :| 0 <= i < |points| && points[i].time == t && points[i].key == k;
      assert points[i] in b.points;
    }
  }

  lemma FlushAddressed(cfg: Config, filters: seq<Bytes>, time: u32, infos: seq<KeyInfo>)
    requires !cfg.format.Ascii? && |cfg.channel| < 1024
    requires WireKeys(Enabled(infos, time))
    ensures forall m :: m in Messages(cfg, time, infos) ==> WellAddressed(cfg.format, ProxyConfig(cfg.channel, filters), m)
  {
    hide Batches;
    hide Encode;
    hide WellAddressed;
    hide Homogeneous;
    var points := Enabled(infos, time);
    var bs := Batches(cfg, time, points);
    EnabledLength(infos, time);
    WireIsSendable(cfg.format, points);
    SendableIsEncodable(cfg.format, points);
    BatchesKeepPoints(cfg, time, points);
    forall i | 0 <= i < |bs| ensures WellAddressed(cfg.format, ProxyConfig(cfg.channel, filters), Encode(cfg, time, bs[i])) {
      PointsWithin(bs, i);
      WireWithin(time, points, bs[i].points);
      BatchAddressed(cfg, filters, time, bs[i]);
    }
  }

  lemma WireWithin(time: u32, points: seq<Point>, some: seq<Point>)
    requires WirePoints(time, points) && forall p :: p in some ==> p in points
    ensures WirePoints(time, some)
  {
    forall i | 0 <= i < |some| ensures some[i].time == time && WireKey(some[i].key) {
      assert some[i] in points;
    }
  }

  lemma {:induction false} SentAddressed(cfg: Config, filters: seq<Bytes>, rounds: seq<Round>)
    requires !cfg.format.Ascii? && |cfg.channel| < 1024 && AllOnTheWire(rounds)
    ensures forall m :: m in Sent(cfg, rounds) ==> WellAddressed(cfg.format, ProxyConfig(cfg.channel, filters), m)
  {
    hide Messages;
    hide WellAddressed;
    hide Enabled;
    hide WireKeys;
    if rounds != [] {
      var n := |rounds| - 1;
      SentAddressed(cfg, filters, rounds[..n]);
      FlushAddressed(cfg, filters, rounds[n].time, rounds[n].infos);
    }
  }

  // ---------- the proxy's reading of the messages ----------

  lemma {:induction false} AllPointsConcat(pc: ProxyConfig, a: seq<Bytes>, b: seq<Bytes>)
    ensures AllPoints(pc, a + b) == AllPoints(pc, a) + AllPoints(pc, b)
  {
    hide MessagePoints;
    if b == [] {
      assert a + b == a;
    } else {
      var n := |b| - 1;
      assert (a + b)[..|a + b| - 1] == a + b[..n];
      AllPointsConcat(pc, a, b[..n]);
    }
  }

  /** Read in the order they were sent, the messages give the filtered records of all rounds in order. */
  lemma {:induction false} SentDecodes(cfg: Config, filters: seq<Bytes>, rounds: seq<Round>)
    requires !cfg.format.Ascii? && |cfg.channel| < 1024 && AllOnTheWire(rounds)
    ensures AllPoints(ProxyConfig(cfg.channel, filters), Payloads(Sent(cfg, rounds))) == Filtered(filters, Produced(rounds))
  {
    hide Messages;
    hide Enabled;
    hide WireKeys;
    hide AllPoints;
    hide Filtered;
    if rounds == [] {
      NothingSent(ProxyConfig(cfg.channel, filters));
    } else {
      var n := |rounds| - 1;
      var init, last := rounds[..n], rounds[n];
      SentDecodes(cfg, filters, init);
      FlushDecodes(cfg, filters, last.time, last.infos);
      var a, b := Sent(cfg, init), Messages(cfg, last.time, last.infos);
      assert Payloads(a + b) == Payloads(a) + Payloads(b);
      AllPointsConcat(ProxyConfig(cfg.channel, filters), Payloads(a), Payloads(b));
      FilteredConcat(filters, Produced(init), Enabled(last.infos, last.time));
    }
  }

  lemma NothingSent(pc: ProxyConfig)
    ensures AllPoints(pc, Payloads([])) == [] && Filtered(pc.filters, []) == []
  {
  }

  // ---------- the partition of (t, k) decides what is found there ----------

  lemma {:induction false} OwnPartitionDecides(format: Format, pc: ProxyConfig, ms: seq<Message>, partitions: nat, t: u32, k: Bytes)
    requires partitions > 0
    requires forall m :: m in ms ==> WellAddressed(format, pc, m)
    ensures var p := PartitionOf(Message(Address(format, t, k), []), partitions);
      LastValue(AllPoints(pc, Payloads(ms)), t, k) == LastValue(AllPoints(pc, Payloads(InPartition(ms, partitions, p))), t, k)
  {
    hide MessagePoints;
    hide LastValue;
    hide Address;
    hide MessageKeysFit;
    hide MessageHangs;
    hide ParseHeader;
    if ms != [] {
      var n := |ms| - 1;
      var init, m := ms[..n], ms[n];
      var p := PartitionOf(Message(Address(format, t, k), []), partitions);
      OwnPartitionDecides(format, pc, init, partitions, t, k);
      PayloadsSnoc(pc, init, m);
      assert ms == init + [m];
      LastValueConcat(AllPoints(pc, Payloads(init)), MessagePoints(pc, m.payload), t, k);
      var own := InPartition(init, partitions, p);
      if PartitionOf(m, partitions) == p {
        PayloadsSnoc(pc, own, m);
        LastValueConcat(AllPoints(pc, Payloads(own)), MessagePoints(pc, m.payload), t, k);
      } else {
        assert m in ms && own + [] == own;
      }
    }
  }

  lemma PayloadsSnoc(pc: ProxyConfig, ms: seq<Message>, m: Message)
    ensures AllPoints(pc, Payloads(ms + [m])) == AllPoints(pc, Payloads(ms)) + MessagePoints(pc, m.payload)
  {
    hide MessagePoints;
    assert Payloads(ms + [m])[..|ms|] == Payloads(ms);
  }

  lemma DeliveredWereSent(sent: seq<Message>, delivered: seq<Message>, partitions: nat)
    requires partitions > 0 && SamePartitions(sent, delivered, partitions)
    ensures forall m :: m in delivered ==> m in sent
  {
    hide PartitionOf;
    hide InPartition;
    forall m | m in delivered ensures m in sent {
      InPartitionIff(delivered, partitions, m);
      InPartitionIff(sent, partitions, m);
    }
  }

  /** However Kafka interleaves the partitions, and however many there are: the last value found at every
      (time, key) is that of the enabled records of all rounds in the order they were flushed. */
  lemma InterleavingDoesNotMatter(cfg: Config, filters: seq<Bytes>, rounds: seq<Round>, delivered: seq<Message>, partitions: nat)
    requires !cfg.format.Ascii? && |cfg.channel| < 1024 && partitions > 0
    requires AllOnTheWire(rounds) && SamePartitions(Sent(cfg, rounds), delivered, partitions)
    ensures forall m :: m in delivered ==> WellAddressed(cfg.format, ProxyConfig(cfg.channel, filters), m)
    ensures forall t: u32, k ::
      LastValue(AllPoints(ProxyConfig(cfg.channel, filters), Payloads(delivered)), t, k) ==
      LastValue(Filtered(filters, Produced(rounds)), t, k)
  {
    hide LastValue;
    hide AllPoints;
    hide Payloads;
    hide Filtered;
    hide Produced;
    hide Sent;
    hide InPartition;
    hide PartitionOf;
    hide Address;
    hide WellAddressed;
    var pc, sent := ProxyConfig(cfg.channel, filters), Sent(cfg, rounds);
    SentAddressed(cfg, filters, rounds);
    DeliveredWereSent(sent, delivered, partitions);
    SentDecodes(cfg, filters, rounds);
    forall t: u32, k
      ensures LastValue(AllPoints(pc, Payloads(delivered)), t, k) == LastValue(Filtered(filters, Produced(rounds)), t, k)
    {
      OwnPartitionDecides(cfg.format, pc, sent, partitions, t, k);
      OwnPartitionDecides(cfg.format, pc, delivered, partitions, t, k);
    }
  }

  // ---------- ... all the way to the database ----------

  /** The payloads among the polls, in order. */
  function DataOf(env: seq<Tick>): seq<Bytes> {
    if env == [] then []
    else
      var last := env[|env| - 1].poll;
      DataOf(env[..|env| - 1]) + (if last.Data? then [last.payload] else [])
  }

  lemma {:induction false} DataIsPolled(env: seq<Tick>)
    ensures forall tick :: tick in env && tick.poll.Data? ==> tick.poll.payload in DataOf(env)
  {
    if env != [] {
      DataIsPolled(env[..|env| - 1]);
      assert env == env[..|env| - 1] + [env[|env| - 1]];
    }
  }

  lemma {:induction false} AllAccepted(pc: ProxyConfig, env: seq<Tick>)
    requires forall payload :: payload in DataOf(env) ==> ParseHeader(pc.channel, payload).Body?
    ensures Accepted(pc, env) == DataOf(env)
  {
    hide ParseHeader;
    if env != [] {
      var n := |env| - 1;
      AllAccepted(pc, env[..n]);
      assert env[n].poll.Data? ==> env[n].poll.payload in DataOf(env);
    }
  }

  lemma PayloadsAreOf(ms: seq<Message>)
    ensures forall payload :: payload in Payloads(ms) ==> exists m :: m in ms && m.payload == payload
  {
    forall payload | payload in Payloads(ms) ensures exists m :: m in ms && m.payload == payload {
      var i :| 0 <= i < |ms| && Payloads(ms)[i] == payload;
      assert ms[i] in ms;
    }
  }

  /** What the polls carry is accepted, fits and does not hang. */
  lemma DeliveredIsReadable(format: Format, pc: ProxyConfig, delivered: seq<Message>, env: seq<Tick>)
    requires forall m :: m in delivered ==> WellAddressed(format, pc, m)
    requires DataOf(env) == Payloads(delivered)
    ensures Accepted(pc, env) == Payloads(delivered)
    ensures forall tick :: tick in env && tick.poll.Data? ==> MessageKeysFit(pc, tick.poll.payload)
    ensures !SomeMessageHangs(pc, env)
  {
    hide ParseHeader;
    hide MessageKeysFit;
    hide MessageHangs;
    hide MessagePoints;
    hide Payloads;
    hide DataOf;
    PayloadsAreOf(delivered);
    DataIsPolled(env);
    AllAccepted(pc, env);
  }

  /** Whatever is stamped (t, k) has a last value there, so times can be told from last values. */
  lemma SameLastValuesSameTimes(a: seq<Point>, b: seq<Point>)
    requires forall t: u32, k :: LastValue(a, t, k) == LastValue(b, t, k)
    ensures NonZeroTimes(b) ==> NonZeroTimes(a)
  {
    hide LastValue;
    forall i | 0 <= i < |a| && NonZeroTimes(b) ensures a[i].time != 0 {
      LastValueDefined(a, a[i].time, a[i].key);
      LastValueDefined(b, a[i].time, a[i].key);
    }
  }

  lemma NonZeroConcat(a: seq<Point>, b: seq<Point>)
    ensures NonZeroTimes(a + b) <==> NonZeroTimes(a) && NonZeroTimes(b)
  {
    if NonZeroTimes(a + b) {
      forall i | 0 <= i < |a| ensures a[i].time != 0 { assert (a + b)[i] == a[i]; }
      forall i | 0 <= i < |b| ensures b[i].time != 0 { assert (a + b)[|a| + i] == b[i]; }
    }
  }

  /** The last of the rounds, then what the proxy handled before, then what the database held at first. */
  ghost predicate ShowsRounds(base: Base, before: seq<Point>, rounds: seq<Point>, data: Data, ids: map<Bytes, nat>) {
    forall t: u32, k ::
      Find(data, ids, t, k) == Over(LastValue(rounds, t, k), Over(LastValue(before, t, k), Initially(base, t, k)))
  }

  lemma ShowsInTurn(base: Base, before: seq<Point>, arrived: seq<Point>, rounds: seq<Point>, data: Data, ids: map<Bytes, nat>)
    requires ShowsAll(base, data, ids, before + arrived)
    requires forall t: u32, k :: LastValue(arrived, t, k) == LastValue(rounds, t, k)
    ensures ShowsRounds(base, before, rounds, data, ids)
  {
    hide Initially;
    hide LastValue;
    hide Find;
    forall t: u32, k
      ensures Find(data, ids, t, k) == Over(LastValue(rounds, t, k), Over(LastValue(before, t, k), Initially(base, t, k)))
    {
      LastValueConcat(before, arrived, t, k);
    }
  }

  /** Any number of flushes, of any times, by producers of one channel and format; their messages delivered
      partition by partition in order, polled among any other answers, and fed to run. When run returns 0,
      the database shows the last enabled value of every key at every time that passes the filters, over
      what it showed before; only a flush to the database can make it return something else. */
  method RunOnRounds(ghost cfg: Config, ghost rounds: seq<Round>, ghost delivered: seq<Message>, ghost partitions: nat,
                     proxy: Proxy, env: seq<Tick>, clock: Clock)
    returns (rc: int)
    requires !cfg.format.Ascii? && |cfg.channel| < 1024 && partitions > 0
    requires AllOnTheWire(rounds) && SamePartitions(Sent(cfg, rounds), delivered, partitions)
    requires proxy.Valid() && proxy.cfg.channel == cfg.channel
    requires DataOf(env) == Payloads(delivered) && forall tick :: tick in env ==> !tick.shutdown
    modifies proxy, proxy.kp, proxy.db, proxy.stats, proxy.stats.kp, proxy.stats.sink
    ensures proxy.Faithful() && (rc == 0 || rc == -1)
    ensures rc == 0 <==> proxy.failures == old(proxy.failures)
    ensures rc == 0 ==> proxy.handled == old(proxy.handled) + Payloads(delivered)
    ensures rc == 0 && NonZeroTimes(AllPoints(proxy.cfg, old(proxy.handled))) && NonZeroTimes(Produced(rounds)) ==>
      ShowsRounds(proxy.base, AllPoints(proxy.cfg, old(proxy.handled)), Filtered(proxy.cfg.filters, Produced(rounds)),
                  proxy.db.data, proxy.db.ids)
  {
    hide Proxy.Valid;
    hide Proxy.Faithful;
    hide LastValue;
    hide AllPoints;
    hide Filtered;
    hide Produced;
    hide Sent;
    hide DataOf;
    hide Payloads;
    hide Accepted;
    hide SamePartitions;
    hide WellAddressed;
    hide MessageKeysFit;
    hide SomeMessageHangs;
    hide ShowsRounds;
    hide Replay;
    hide AllOk;
    hide ShowsAll;
    hide NonZeroTimes;
    ghost var before, arrived := AllPoints(proxy.cfg, proxy.handled), AllPoints(proxy.cfg, Payloads(delivered));
    ghost var kept := Filtered(proxy.cfg.filters, Produced(rounds));
    assert proxy.cfg == ProxyConfig(cfg.channel, proxy.cfg.filters);
    InterleavingDoesNotMatter(cfg, proxy.cfg.filters, rounds, delivered, partitions);
    DeliveredIsReadable(cfg.format, proxy.cfg, delivered, env);
    ghost var used, cuts;
    var hangs;
    rc, hangs, used, cuts := proxy.Run(env, clock);
    NoneOfThemHangs(proxy.cfg, env, used);
    if rc == 0 {
      assert env[..used] == env;
      AllPointsConcat(proxy.cfg, old(proxy.handled), Payloads(delivered));
      NonZeroConcat(before, arrived);
      KeptTimes(proxy.cfg.filters, Produced(rounds));
      SameLastValuesSameTimes(arrived, kept);
      if NonZeroTimes(before) && NonZeroTimes(Produced(rounds)) {
        ShowsInTurn(proxy.base, before, arrived, kept, proxy.db.data, proxy.db.ids);
      }
    }
  }

  lemma KeptTimes(filters: seq<Bytes>, points: seq<Point>)
    ensures NonZeroTimes(points) ==> NonZeroTimes(Filtered(filters, points))
  {
    hide Filtered;
    FilteredWithin(filters, points);
    forall i | 0 <= i < |Filtered(filters, points)| && NonZeroTimes(points) ensures Filtered(filters, points)[i].time != 0 {
      assert Filtered(filters, points)[i] in points;
    }
  }

  lemma NoneOfThemHangs(pc: ProxyConfig, env: seq<Tick>, used: nat)
    requires used <= |env| && !SomeMessageHangs(pc, env)
    ensures !SomeMessageHangs(pc, env[..used])
  {
    hide MessageHangs;
    forall i | 0 <= i < used && env[..used][i].poll.Data? ensures !MessageHangs(pc, env[..used][i].poll.payload) {
      assert env[i].poll.Data?;
    }
  }
}
