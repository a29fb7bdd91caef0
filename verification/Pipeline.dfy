/** Producer, Kafka, proxy and database joined: one flush of a key package, all the way through. */
module Pipeline {
  import opened Basics
  import opened KeyPackage
  import opened KafkaFormat
  import opened KafkaBackend
  import opened ProxyDecoder
  import opened ProxyHistory
  import opened WireRoundTrip
  import opened Dbats
  import opened TskProxy
  import Timeseries
  import AsciiRoundTrip
  import Decimal

  lemma {:induction false} LastOfIsLastValue(t: u32, points: seq<Point>, k: Bytes)
    requires AllAt(t, points)
    ensures LastOf(points, k) == LastValue(points, t, k)
  {
    if points != [] {
      LastOfIsLastValue(t, points[..|points| - 1], k);
    }
  }

  lemma {:induction false} FilteredAt(filters: seq<Bytes>, t: u32, points: seq<Point>)
    requires AllAt(t, points)
    ensures AllAt(t, Filtered(filters, points))
  {
    if points != [] {
      FilteredAt(filters, t, points[..|points| - 1]);
    }
  }

  lemma AllPointsStep(cfg: ProxyConfig, ms: seq<Message>, n: nat)
    requires n < |ms|
    ensures AllPoints(cfg, Payloads(ms[..0])) == []
    ensures AllPoints(cfg, Payloads(ms[..n + 1])) == AllPoints(cfg, Payloads(ms[..n])) + MessagePoints(cfg, ms[n].payload)
  {
    hide MessagePoints;
    assert Payloads(ms[..n + 1])[..n] == Payloads(ms[..n]);
  }

  lemma AcceptedWholeFits(pc: ProxyConfig, time: u32, payload: Bytes)
    requires AcceptedWhole(pc, time, payload)
    ensures MessageKeysFit(pc, payload) && !MessageHangs(pc, payload)
    ensures ParseHeader(pc.channel, payload).Body? && ParseHeader(pc.channel, payload).time == time
  {
  }

  /** Feeding messages of one time to a proxy that holds nothing: no flush happens in between. */
  method Feed(proxy: Proxy, ms: seq<Message>, time: u32)
    requires proxy.Valid() && proxy.currentTime == 0 && proxy.history.window == []
    requires forall m :: m in ms ==> AcceptedWhole(proxy.cfg, time, m.payload)
    modifies proxy, proxy.kp, proxy.db, proxy.stats`incs, proxy.stats.kp
    ensures proxy.Valid()
    ensures proxy.currentTime == if ms == [] then 0 else ToI32(time)
    ensures proxy.history == Receive(old(proxy.history), AllPoints(proxy.cfg, Payloads(ms)))
    ensures |proxy.handled| == |old(proxy.handled)| + |ms|
  {
    hide AllPoints;
    hide MessagePoints;
    hide AcceptedWhole;
    hide MessageKeysFit;
    hide MessageHangs;
    hide ParseHeader;
    hide Proxy.Valid;
    hide Proxy.FlushAnswers;
    hide Receive;
    hide Flushed;
    TimeCrossesIntUnchanged(time);
    if ms == [] {
      NonePayloads(proxy.cfg);
      NothingReceived(proxy.history);
      return;
    }
    AllPointsStep(proxy.cfg, ms, 0);
    NothingReceived(proxy.history);
    for i := 0 to |ms|
      invariant proxy.Valid()
      invariant proxy.currentTime == if i == 0 then 0 else ToI32(time)
      invariant proxy.history == Receive(old(proxy.history), AllPoints(proxy.cfg, Payloads(ms[..i])))
      invariant |proxy.handled| == |old(proxy.handled)| + i
    {
      var payload := ms[i].payload;
      AcceptedWholeFits(proxy.cfg, time, payload);
      AllPointsStep(proxy.cfg, ms, i);
      ReceiveOneMore(old(proxy.history), AllPoints(proxy.cfg, Payloads(ms[..i])), MessagePoints(proxy.cfg, payload), ToU32(proxy.currentTime), time);
      var rc, hangs := proxy.HandleMessage(payload);
    }
    assert ms[..|ms|] == ms;
  }

  lemma NonePayloads(cfg: ProxyConfig)
    ensures AllPoints(cfg, Payloads([])) == []
  {
  }

  lemma ReceiveOneMore(h: History, a: seq<Point>, b: seq<Point>, cur: u32, time: u32)
    requires cur == 0 || cur == time
    ensures Receive(Flushed(Receive(h, a), cur, time), b) == Receive(h, a + b)
  {
    assert (h.points + a) + b == h.points + (a + b);
    assert (h.window + a) + b == h.window + (a + b);
  }

  /** One flush of a producer's key package, relayed to a proxy with nothing pending: the proxy ends up
      with exactly the producer's enabled records enabled, those its filters drop left out, the last
      record of a name winning. Nothing is asked of the sizes, so the flush may take many messages. */
  method Relay(producer: KP, kafka: Kafka, proxy: Proxy, time: u32) returns (rc: int)
    requires kafka.Idle() && !kafka.cfg.format.Ascii?
    requires proxy.Valid() && proxy.currentTime == 0 && proxy.kp.enabledCnt == 0
    requires proxy.cfg.channel == kafka.cfg.channel
    requires producer.Valid() && producer != proxy.kp && producer != proxy.stats.kp
    requires WireKeys(Enabled(producer.infos, time))
    modifies producer
    modifies kafka, kafka.buffer
    modifies proxy, proxy.kp, proxy.db, proxy.stats`incs, proxy.stats.kp
    ensures proxy.Valid() && (rc == 0 || rc == -1)
    ensures rc == 0 ==> proxy.history == Receive(old(proxy.history), Filtered(proxy.cfg.filters, Enabled(old(producer.infos), time)))
    ensures rc == 0 ==> forall k ::
      EnabledAt(proxy.kp.infos, k) == LastValue(Filtered(proxy.cfg.filters, Enabled(old(producer.infos), time)), time, k)
    ensures rc == 0 ==> |proxy.handled| - |old(proxy.handled)| == |kafka.sent| - |old(kafka.sent)|
    ensures rc == -1 ==> unchanged(proxy, proxy.kp, proxy.db, proxy.stats, proxy.stats.kp)
  {
    hide Messages;
    hide AllPoints;
    hide AcceptedWhole;
    hide Filtered;
    hide LastValue;
    hide EnabledAt;
    hide HandedOff;
    hide Proxy.Valid;
    hide Receive;
    EnabledLength(old(producer.infos), time);
    WireIsSendable(kafka.cfg.format, Enabled(producer.infos, time));
    proxy.NothingPending();
    var sentBefore := |kafka.sent|;
    ghost var stored;
    rc, stored := Timeseries.Flush(producer, null, null, kafka, time);
    if rc != 0 {
      return -1;
    }
    assert old(kafka.sent) <= kafka.sent && kafka.sent[|old(kafka.sent)|..] == Messages(kafka.cfg, time, old(producer.infos)) by {
      WasHandedOff(kafka.cfg, time, old(producer.infos), old(kafka.script), kafka.script, old(kafka.sent), kafka.sent);
    }
    ChannelsAgree(kafka.cfg, proxy.cfg);
    FlushDecodes(kafka.cfg, proxy.cfg.filters, time, old(producer.infos));
    Feed(proxy, kafka.sent[sentBefore..], time);
    PendingIsWindow(proxy, time, Enabled(old(producer.infos), time), old(proxy.history));
  }

  lemma WasHandedOff(cfg: Config, time: u32, infos: seq<KeyInfo>, script0: seq<Produce>, script: seq<Produce>,
                     sent0: seq<Message>, sent: seq<Message>)
    requires HandedOff(0, Messages(cfg, time, infos), script0, script, sent0, sent)
    ensures sent0 <= sent && sent[|sent0|..] == Messages(cfg, time, infos)
  {
    hide Messages;
  }

  lemma ChannelsAgree(c: Config, p: ProxyConfig)
    requires c.channel == p.channel
    ensures p == ProxyConfig(c.channel, p.filters)
  {
  }

  lemma PendingIsWindow(proxy: Proxy, time: u32, points: seq<Point>, h0: History)
    requires proxy.Valid() && h0.window == [] && AllAt(time, points)
    requires proxy.history == Receive(h0, Filtered(proxy.cfg.filters, points))
    ensures forall k :: EnabledAt(proxy.kp.infos, k) == LastValue(Filtered(proxy.cfg.filters, points), time, k)
  {
    hide Filtered;
    hide LastOf;
    hide LastValue;
    hide EnabledAt;
    hide Emits;
    hide Find;
    hide CountsAgree;
    var kept := Filtered(proxy.cfg.filters, points);
    FilteredAt(proxy.cfg.filters, time, points);
    assert [] + kept == kept;
    forall k ensures EnabledAt(proxy.kp.infos, k) == LastValue(kept, time, k) {
      LastOfIsLastValue(time, kept, k);
    }
  }

  /** ... and after a force flush the database shows them, over everything relayed before. */
  method RelayToDatabase(producer: KP, kafka: Kafka, proxy: Proxy, time: u32) returns (rc: int)
    requires kafka.Idle() && !kafka.cfg.format.Ascii?
    requires proxy.Valid() && proxy.currentTime == 0 && proxy.kp.enabledCnt == 0
    requires proxy.cfg.channel == kafka.cfg.channel
    requires producer.Valid() && producer != proxy.kp && producer != proxy.stats.kp
    requires WireKeys(Enabled(producer.infos, time))
    modifies producer
    modifies kafka, kafka.buffer
    modifies proxy, proxy.kp, proxy.db, proxy.stats`incs, proxy.stats.kp
    ensures proxy.Valid() && (rc == 0 || rc == -1)
    ensures rc == 0 ==> proxy.history.points == old(proxy.history.points) + Filtered(proxy.cfg.filters, Enabled(old(producer.infos), time))
    ensures rc == 0 ==> proxy.DatabaseIsComplete()
  {
    hide Filtered;
    hide Proxy.DatabaseIsComplete;
    hide Proxy.TableOk;
    hide Proxy.StatsOk;
    hide Proxy.Explained;
    hide Proxy.Answered;
    hide Proxy.FlushAnswers;
    rc := Relay(producer, kafka, proxy, time);
    if rc != 0 {
      return -1;
    }
    rc := proxy.ForceFlush();
    if rc == 0 {
      proxy.NoTimeMeansComplete();
    }
  }

  /** A message stamped 0 is decoded like any other ... */
  lemma ZeroTimeMessage(key: Bytes, value: u64)
    requires WireKey(key)
    ensures MessagePoints(ProxyConfig([], []), Header(0, []) + KeyValue(key, value)) == [Point(0, key, value)]
  {
    hide Header;
    hide KeyValue;
    hide ParseHeader;
    hide ParseBody;
    var p := Point(0, key, value);
    BodyRoundTrip(Format.Tsk, [p]);
    RecordsFront(Format.Tsk, [p]);
    assert [p][1..] == [] && Records(Format.Tsk, []) == [];
    assert KeyValue(key, value) + [] == KeyValue(key, value);
    HeaderRoundTrip([], 0, KeyValue(key, value));
    KeptIsFiltered([], 0, [p]);
    assert [p][..0] == [];
  }

  /** ... but its points never reach the database under their time, whatever follows: what is found there
      is what was there before. */
  lemma ZeroTimeIsNeverWritten(h: History, cur: u32, infos: seq<KeyInfo>, data: Data, ids: map<Bytes, nat>,
        log: seq<seq<Point>>, p: Point)
    requires Explains(h, cur, infos, data, ids, log) && p in h.points && p.time == 0
    ensures LastValue(h.points, 0, p.key).Some? && Find(data, ids, 0, p.key) == Initially(h.base, 0, p.key)
  {
    hide Initially;
    hide EnabledAt;
    hide Emits;
    LastValueDefined(h.points, 0, p.key);
    WrittenNeverAtZero(h.commits, p.key);
  }

  lemma PrintableIsSendable(points: seq<Point>)
    requires AsciiRoundTrip.Printable(points)
    ensures Sendable(Format.Ascii, points)
  {
    hide AsciiRoundTrip.Printed;
    hide Decimal.Line;
    forall p | p in points ensures Writable(Format.Ascii, p) && 0 !in p.key {
      AsciiRoundTrip.LineIsPrinted(p);
      assert AsciiRoundTrip.Fits(p);
    }
  }

  /** In ascii format the consumer is timeseries-insert: it reads back the enabled records in id order
      exactly when no key has a space, a newline or a leading '#'. */
  lemma AsciiFlushReadsBackIff(cfg: Config, time: u32, infos: seq<KeyInfo>)
    requires cfg.format.Ascii? && |cfg.channel| < 1024
    requires AsciiRoundTrip.Printable(Enabled(infos, time))
    ensures AsciiRoundTrip.ReadText(Stream(Messages(cfg, time, infos)), false) == Enabled(infos, time)
      <==> AsciiRoundTrip.AllClean(Enabled(infos, time))
  {
    hide Messages;
    hide Stream;
    hide Records;
    PrintableIsSendable(Enabled(infos, time));
    AsciiFlushIsText(cfg, time, infos);
    AsciiRoundTrip.TextReadsBackIff(Enabled(infos, time));
  }
}
