/** The encoder against the decoder: what the proxy reads back from the batched messages of a flush. */
module WireRoundTrip {
  import opened Basics
  import opened KeyPackage
  import opened KafkaFormat
  import opened KafkaBackend
  import opened ProxyDecoder

  /** Keys the pipeline is meant for: C strings that fit the proxy's key buffer. */
  predicate WireKey(key: Bytes) { |key| < KEY_BUF_LEN && 0 !in key }

  predicate WireKeys(points: seq<Point>) {
    forall i :: 0 <= i < |points| ==> WireKey(points[i].key)
  }

  /** Keys whose length write_kv accepts. */
  predicate Encodable(points: seq<Point>) {
    forall i :: 0 <= i < |points| ==> |points[i].key| < UINT16_MAX
  }

  predicate EncodableAt(time: u32, points: seq<Point>) {
    AllAt(time, points) && Encodable(points)
  }

  predicate WirePoints(time: u32, points: seq<Point>) {
    AllAt(time, points) && WireKeys(points)
  }

  /** The records a list of points is written as. */
  function KeyVals(points: seq<Point>): seq<KeyVal> {
    seq(|points|, i requires 0 <= i < |points| => KeyVal(points[i].key, points[i].value))
  }

  // ---------- one record, one body, one header ----------

  lemma ParseOneWritten(key: Bytes, value: u64, rest: Bytes)
    requires |key| < 0x1_0000
    ensures ParseOne(KeyValue(key, value) + rest) == Step(0, rest, Some(KeyVal(key, value)))
    ensures Read16((KeyValue(key, value) + rest)[..2]) == |key|
  {
    hide BigEndian;
    hide FromBigEndian;
    var buf := KeyValue(key, value) + rest;
    var len, val := BigEndian(|key|, 2), BigEndian(value, 8);
    ReadBack(|key|, 0, value);
    assert buf[..2] == len;
    assert buf[2..] == key + (val + rest);
    assert (key + (val + rest))[|key|..] == val + rest;
    assert (val + rest)[..8] == val && (val + rest)[8..] == rest;
    assert (key + (val + rest))[..|key|] == key;
  }

  lemma {:induction false} RecordsConcat(format: Format, a: seq<Point>, b: seq<Point>)
    ensures Records(format, a + b) == Records(format, a) + Records(format, b)
  {
    hide Record;
    if b == [] {
      assert a + b == a;
    } else {
      var n := |b| - 1;
      assert (a + b)[..|a + b| - 1] == a + b[..n];
      RecordsConcat(format, a, b[..n]);
    }
  }

  lemma RecordsFront(format: Format, points: seq<Point>)
    requires points != [] && !format.Ascii?
    ensures Records(format, points) == KeyValue(points[0].key, points[0].value) + Records(format, points[1..])
  {
    hide KeyValue;
    assert points == [points[0]] + points[1..];
    RecordsConcat(format, [points[0]], points[1..]);
    assert [points[0]][..0] == [];
    assert Records(format, [points[0]]) == Records(format, []) + Record(format, points[0]);
  }

  lemma KeyValsFront(p: Point, points: seq<Point>)
    ensures KeyVals([p] + points) == [KeyVal(p.key, p.value)] + KeyVals(points)
    ensures KeyVals([]) == []
  {
  }

  /** A whole record in front is decoded first. */
  lemma ParseBodyWritten(p: Point, rest: Bytes)
    requires |p.key| < UINT16_MAX
    ensures ParseBody(KeyValue(p.key, p.value) + rest) == Prepend(Some(KeyVal(p.key, p.value)), ParseBody(rest))
  {
    hide KeyValue;
    hide ParseOne;
    ParseOneWritten(p.key, p.value, rest);
    KeyValueLength(p.key, p.value);
  }

  /** Written records are decoded one by one, whatever follows them. */
  lemma {:induction false} BodyThenTail(format: Format, points: seq<Point>, tail: Bytes)
    requires !format.Ascii? && Encodable(points)
    ensures ParseBody(Records(format, points) + tail)
      == Parsed(KeyVals(points) + ParseBody(tail).records, ParseBody(tail).end)
    decreases |points|
  {
    hide KeyValue;
    hide ParseBody;
    hide KeyVals;
    if points == [] {
      assert Records(format, []) + tail == tail;
      KeyValsFront(Point(0, [], 0), []);
    } else {
      hide Records;
      var p, rest := points[0], Records(format, points[1..]);
      RecordsFront(format, points);
      ConcatAssoc(KeyValue(p.key, p.value), rest, tail);
      ParseBodyWritten(p, rest + tail);
      BodyThenTail(format, points[1..], tail);
      KeyValsFront(p, points[1..]);
      assert points == [p] + points[1..];
      ConcatAssoc([KeyVal(p.key, p.value)], KeyVals(points[1..]), ParseBody(tail).records);
    }
  }

  /** The body of a message is decoded completely, record by record. */
  lemma BodyRoundTrip(format: Format, points: seq<Point>)
    requires !format.Ascii? && Encodable(points)
    ensures ParseBody(Records(format, points)) == Parsed(KeyVals(points), Complete)
  {
    hide Records;
    BodyThenTail(format, points, []);
    assert Records(format, points) + [] == Records(format, points);
    assert KeyVals(points) + [] == KeyVals(points);
  }

  /** Keys that fit the proxy's buffer are read into it. */
  lemma {:induction false} BodyKeysFit(format: Format, points: seq<Point>)
    requires !format.Ascii? && WireKeys(points)
    ensures ShortKeys(Records(format, points))
    decreases |points|
  {
    hide KeyValue;
    hide ParseOne;
    if points != [] {
      var p, rest := points[0], Records(format, points[1..]);
      RecordsFront(format, points);
      assert WireKey(p.key);
      ParseOneWritten(p.key, p.value, rest);
      BodyKeysFit(format, points[1..]);
    }
  }

  // ---------- truncated bodies ----------

  /** How the loop ends on a tail too short for a record: it hops over what it takes for key lengths
      and keys until no byte, one byte, or an overrunning length is left. */
  function HopEnd(tail: Bytes): End
    decreases |tail|
  {
    if tail == [] then Complete
    else if |tail| == 1 then Stuck
    else
      var keylen := Read16(tail[..2]);
      if |tail| - 2 < keylen then Overrun else HopEnd(tail[2 + keylen..])
  }

  /** Ten bytes is the shortest record. */
  lemma {:induction false} ShortTailHasNoRecord(tail: Bytes)
    requires |tail| < 10
    ensures ParseBody(tail) == Parsed([], HopEnd(tail))
    decreases |tail|
  {
    hide FromBigEndian;
    if |tail| >= 2 && ParseOne(tail).rc == 0 {
      ParseOneProgress(tail);
      assert ParseOne(tail).rest == tail[2 + Read16(tail[..2])..];
      ShortTailHasNoRecord(ParseOne(tail).rest);
    }
  }

  /** How the loop ends on the first n bytes of a record. */
  function CutEnd(key: Bytes, value: u64, n: nat): End {
    if n == 0 then Complete
    else if n == 1 then Stuck
    else if n < 2 + |key| then Overrun
    else if n < 2 + |key| + 8 then HopEnd(BigEndian(value, 8)[..n - 2 - |key|])
    else Complete
  }

  /** A record that is cut short yields nothing, although the bytes of a cut value are read again as if
      they began a new record. */
  lemma CutRecordYieldsNothing(key: Bytes, value: u64, n: nat)
    requires |key| < 0x1_0000 && n < |KeyValue(key, value)|
    ensures ParseBody(KeyValue(key, value)[..n]) == Parsed([], CutEnd(key, value, n))
  {
    hide BigEndian;
    hide FromBigEndian;
    var whole, buf := KeyValue(key, value), KeyValue(key, value)[..n];
    if n >= 2 {
      ReadBack(|key|, 0, 0);
      assert buf[..2] == whole[..2] == BigEndian(|key|, 2);
      if n < 2 + |key| {
        assert ParseOne(buf).rc == 1;
      } else {
        var tail := buf[2..][|key|..];
        assert ParseOne(buf) == Step(0, tail, None);
        assert tail == BigEndian(value, 8)[..n - 2 - |key|];
        ShortTailHasNoRecord(tail);
      }
    }
  }

  /** How many records lie wholly within the first n bytes. */
  function WholeRecords(points: seq<Point>, n: nat): (m: nat)
    ensures m <= |points|
  {
    if points == [] || n < |KeyValue(points[0].key, points[0].value)| then 0
    else 1 + WholeRecords(points[1..], n - |KeyValue(points[0].key, points[0].value)|)
  }

  lemma PrefixLength(format: Format, points: seq<Point>, w: nat)
    requires !format.Ascii? && w < |points|
    ensures |Records(format, points[..w + 1])| == |KeyValue(points[0].key, points[0].value)| + |Records(format, points[1..][..w])|
  {
    hide KeyValue;
    hide Records;
    RecordsFront(format, points[..w + 1]);
    assert points[..w + 1][1..] == points[1..][..w];
  }

  lemma NoRecords(format: Format)
    ensures Records(format, []) == []
  {
  }

  lemma {:induction false} WholeRecordsFit(format: Format, points: seq<Point>, n: nat)
    requires !format.Ascii? && n <= |Records(format, points)|
    ensures var w := WholeRecords(points, n);
      && |Records(format, points[..w])| <= n
      && (w < |points| ==> n < |Records(format, points[..w])| + |KeyValue(points[w].key, points[w].value)|)
    decreases |points|
  {
    hide KeyValue;
    hide Records;
    NoRecords(format);
    assert points[..0] == [];
    if points != [] {
      var size := |KeyValue(points[0].key, points[0].value)|;
      if n >= size {
        RecordsFront(format, points);
        var m := n - size;
        WholeRecordsFit(format, points[1..], m);
        PrefixLength(format, points, WholeRecords(points[1..], m));
      }
    }
  }

  /** The whole records and the cut one make up the cut body. */
  lemma CutBodySplits(format: Format, points: seq<Point>, n: nat)
    requires !format.Ascii? && n <= |Records(format, points)|
    ensures var w := WholeRecords(points, n); var whole := Records(format, points[..w]);
      && |whole| <= n
      && (w == |points| ==> Records(format, points)[..n] == whole)
      && (w < |points| ==>
            var r := n - |whole|;
            && r < |KeyValue(points[w].key, points[w].value)|
            && Records(format, points)[..n] == whole + KeyValue(points[w].key, points[w].value)[..r])
  {
    hide KeyValue;
    hide Records;
    WholeRecordsFit(format, points, n);
    var w := WholeRecords(points, n);
    hide WholeRecords;
    assert points == points[..w] + points[w..];
    RecordsConcat(format, points[..w], points[w..]);
    if w == |points| {
      assert points[..w] == points;
    } else {
      RecordsFront(format, points[w..]);
    }
  }

  /** However a body is cut, exactly the records wholly before the cut are decoded, none is invented,
      and the position of the cut and the bytes of the cut value decide how the loop ends. */
  lemma CutBodyDecodes(format: Format, points: seq<Point>, n: nat)
    requires !format.Ascii? && n <= |Records(format, points)| && Encodable(points)
    ensures var w := WholeRecords(points, n);
      && |Records(format, points[..w])| <= n
      && ParseBody(Records(format, points)[..n]) ==
        Parsed(KeyVals(points[..w]),
               if w == |points| then Complete else CutEnd(points[w].key, points[w].value, n - |Records(format, points[..w])|))
  {
    hide KeyValue;
    hide Records;
    hide ParseBody;
    hide CutEnd;
    var w := WholeRecords(points, n);
    var kvs := KeyVals(points[..w]);
    CutBodySplits(format, points, n);
    assert kvs + [] == kvs;
    if w == |points| {
      BodyRoundTrip(format, points[..w]);
    } else {
      var r := n - |Records(format, points[..w])|;
      CutRecordYieldsNothing(points[w].key, points[w].value, r);
      BodyThenTail(format, points[..w], KeyValue(points[w].key, points[w].value)[..r]);
    }
  }

  /** A message with one byte behind its last record hangs the proxy, whatever the records. */
  lemma LeftoverByteHangs(cfg: ProxyConfig, time: u32, format: Format, points: seq<Point>, b: byte)
    requires |cfg.channel| < 1024 && !format.Ascii? && Encodable(points)
    ensures MessageHangs(cfg, Header(time, cfg.channel) + (Records(format, points) + [b]))
  {
    hide Header;
    hide Records;
    hide ParseHeader;
    HeaderRoundTrip(cfg.channel, time, Records(format, points) + [b]);
    BodyThenTail(format, points, [b]);
  }

  /** A message cut inside its body hangs the proxy exactly when the cut record ends on one byte. */
  lemma CutMessageHangsIff(cfg: ProxyConfig, time: u32, format: Format, points: seq<Point>, n: nat)
    requires |cfg.channel| < 1024 && !format.Ascii? && Encodable(points) && n <= |Records(format, points)|
    ensures var w := WholeRecords(points, n);
      && |Records(format, points[..w])| <= n
      && (MessageHangs(cfg, Header(time, cfg.channel) + Records(format, points)[..n]) <==>
          w < |points| && CutEnd(points[w].key, points[w].value, n - |Records(format, points[..w])|) == Stuck)
  {
    hide Header;
    hide Records;
    hide ParseHeader;
    hide ParseBody;
    hide CutEnd;
    hide WholeRecords;
    HeaderRoundTrip(cfg.channel, time, Records(format, points)[..n]);
    CutBodyDecodes(format, points, n);
  }

  lemma HeaderRoundTrip(channel: Bytes, time: u32, body: Bytes)
    requires |channel| < 1024
    ensures ParseHeader(channel, Header(time, channel) + body) == Body(time, body)
  {
    hide BigEndian;
    hide FromBigEndian;
    var t, c := BigEndian(time, 4), BigEndian(|channel|, 2);
    var payload := Header(time, channel) + body;
    ReadBack(|channel|, time, 0);
    assert payload == (HEADER_MAGIC + [MESSAGE_VERSION]) + (t + (c + (channel + body)));
    assert payload[9..13] == t;
    assert payload[13..15] == c;
    assert payload[15..] == channel + body;
    assert (channel + body)[..|channel|] == channel;
    assert (channel + body)[|channel|..] == body;
  }

  // ---------- one message ----------

  /** Every message of a flush passes the header checks, and its body is consumed to the last byte. */
  lemma MessageRoundTrip(cfg: Config, time: u32, b: Batch)
    requires !cfg.format.Ascii? && |cfg.channel| < 1024
    requires b.points != [] && Encodable(b.points)
    ensures ParseHeader(cfg.channel, Encode(cfg, time, b).payload) == Body(time, Records(cfg.format, b.points))
    ensures ParseBody(Records(cfg.format, b.points)) == Parsed(KeyVals(b.points), Complete)
  {
    hide Records;
    hide Header;
    hide ParseHeader;
    HeaderRoundTrip(cfg.channel, time, Records(cfg.format, b.points));
    BodyRoundTrip(cfg.format, b.points);
  }

  // ---------- batching refines set_single ----------

  /** A record as a consumer sees it: the Kafka key of its message, and the point. */
  datatype Delivery = Delivery(msgkey: Bytes, point: Point)

  function Deliveries(msgkey: Bytes, t: u32, records: seq<KeyVal>): seq<Delivery> {
    seq(|records|, i requires 0 <= i < |records| => Delivery(msgkey, Point(t, records[i].key, records[i].value)))
  }

  /** Reading a message record by record. */
  function Read(channel: Bytes, m: Message): seq<Delivery> {
    match ParseHeader(channel, m.payload)
    case Skip => []
    case Body(t, body) => Deliveries(m.key, t, ParseBody(body).records)
  }

  function ReadMessages(channel: Bytes, ms: seq<Message>): seq<Delivery> {
    if ms == [] then [] else ReadMessages(channel, ms[..|ms| - 1]) + Read(channel, ms[|ms| - 1])
  }

  /** Calling set_single on each point in turn. */
  function SingleMessages(cfg: Config, points: seq<Point>): seq<Message> {
    if points == [] then []
    else SingleMessages(cfg, points[..|points| - 1]) + [SingleMessage(cfg, points[|points| - 1])]
  }

  /** Each point under its own message key. */
  function Addressed(format: Format, points: seq<Point>): seq<Delivery> {
    seq(|points|, i requires 0 <= i < |points| => Delivery(BigEndian(MsgKey(format, points[i]), 4), points[i]))
  }

  lemma ReadBatch(cfg: Config, time: u32, b: Batch)
    requires !cfg.format.Ascii? && |cfg.channel| < 1024
    requires Homogeneous(cfg, b) && EncodableAt(time, b.points)
    ensures Read(cfg.channel, Encode(cfg, time, b)) == Addressed(cfg.format, b.points)
  {
    hide Payload;
    hide Records;
    hide ParseHeader;
    hide ParseBody;
    hide MsgKey;
    hide BigEndian;
    MessageRoundTrip(cfg, time, b);
    forall i | 0 <= i < |b.points|
      ensures Point(time, KeyVals(b.points)[i].key, KeyVals(b.points)[i].value) == b.points[i]
    {
    }
  }

  lemma AddressedConcat(format: Format, a: seq<Point>, b: seq<Point>)
    ensures Addressed(format, a + b) == Addressed(format, a) + Addressed(format, b)
  {
    hide MsgKey;
    hide BigEndian;
  }

  lemma {:induction false} ReadBatches(cfg: Config, time: u32, bs: seq<Batch>)
    requires !cfg.format.Ascii? && |cfg.channel| < 1024
    requires AllHomogeneous(cfg, bs) && EncodableAt(time, PointsOf(bs))
    ensures ReadMessages(cfg.channel, EncodeAll(cfg, time, bs)) == Addressed(cfg.format, PointsOf(bs))
    decreases |bs|
  {
    hide Encode;
    hide Addressed;
    hide Read;
    hide MsgKey;
    if bs == [] {
      assert EncodeAll(cfg, time, bs) == [];
      assert Addressed(cfg.format, []) == [] by { AddressedNone(cfg.format); }
    } else {
      var n := |bs| - 1;
      var init, last := bs[..n], bs[n];
      EncodableSplit(time, PointsOf(init), last.points);
      ReadBatches(cfg, time, init);
      assert bs == init + [last];
      EncodeAllSnoc(cfg, time, init, last);
      ReadBatch(cfg, time, last);
      AddressedConcat(cfg.format, PointsOf(init), last.points);
      var ms, m := EncodeAll(cfg, time, init), Encode(cfg, time, last);
      assert (ms + [m])[..|ms + [m]| - 1] == ms;
    }
  }

  lemma AddressedNone(format: Format)
    ensures Addressed(format, []) == []
  {
  }

  lemma EncodableSplit(time: u32, a: seq<Point>, b: seq<Point>)
    requires EncodableAt(time, a + b)
    ensures EncodableAt(time, a) && EncodableAt(time, b)
  {
    assert forall i :: 0 <= i < |a| ==> (a + b)[i] == a[i];
    assert forall i :: 0 <= i < |b| ==> (a + b)[|a| + i] == b[i];
  }

  lemma {:induction false} ReadSingles(cfg: Config, time: u32, points: seq<Point>)
    requires !cfg.format.Ascii? && |cfg.channel| < 1024 && EncodableAt(time, points)
    ensures ReadMessages(cfg.channel, SingleMessages(cfg, points)) == Addressed(cfg.format, points)
  {
    hide Encode;
    hide Addressed;
    hide Read;
    hide MsgKey;
    if points == [] {
      AddressedNone(cfg.format);
    } else {
      var n := |points| - 1;
      var p := points[n];
      assert points == points[..n] + [p];
      EncodableSplit(time, points[..n], [p]);
      ReadSingles(cfg, time, points[..n]);
      assert p.time == time;
      ReadBatch(cfg, time, Batch(MsgKey(cfg.format, p), [p]));
      AddressedConcat(cfg.format, points[..n], [p]);
      var ms, m := SingleMessages(cfg, points[..n]), SingleMessage(cfg, p);
      assert (ms + [m])[..|ms + [m]| - 1] == ms;
    }
  }

  /** Batching refines the simple path: a consumer reads from the messages of one kp_flush exactly the
      (message key, time, key, value) sequence of calling set_single on every enabled key in id order. */
  lemma BatchingRefinesSetSingle(cfg: Config, time: u32, infos: seq<KeyInfo>)
    requires !cfg.format.Ascii? && |cfg.channel| < 1024
    requires Sendable(cfg.format, Enabled(infos, time))
    ensures ReadMessages(cfg.channel, Messages(cfg, time, infos))
         == ReadMessages(cfg.channel, SingleMessages(cfg, Enabled(infos, time)))
  {
    hide Batches;
    hide ReadMessages;
    hide EncodeAll;
    var points := Enabled(infos, time);
    EnabledLength(infos, time);
    SendableIsEncodable(cfg.format, points);
    BatchesKeepPoints(cfg, time, points);
    ReadBatches(cfg, time, Batches(cfg, time, points));
    ReadSingles(cfg, time, points);
  }

  lemma SendableIsEncodable(format: Format, points: seq<Point>)
    requires Sendable(format, points)
    ensures !format.Ascii? ==> Encodable(points)
    ensures forall p :: p in points ==> Writable(format, p)
  {
    assert forall i :: 0 <= i < |points| ==> points[i] in points;
  }

  // ---------- ascii format ----------

  /** The payloads one after the other. */
  function Stream(ms: seq<Message>): Bytes {
    if ms == [] then [] else Stream(ms[..|ms| - 1]) + ms[|ms| - 1].payload
  }

  lemma StreamSnoc(ms: seq<Message>, m: Message)
    ensures Stream(ms + [m]) == Stream(ms) + m.payload
  {
    assert (ms + [m])[..|ms|] == ms;
  }

  lemma AsciiPayload(cfg: Config, time: u32, b: Batch)
    requires cfg.format.Ascii? && b.points != []
    ensures Encode(cfg, time, b).payload == Records(Format.Ascii, b.points)
  {
    hide Records;
  }

  lemma {:induction false} StreamOfBatches(cfg: Config, time: u32, bs: seq<Batch>)
    requires cfg.format.Ascii? && AllHomogeneous(cfg, bs)
    ensures Stream(EncodeAll(cfg, time, bs)) == Records(Format.Ascii, PointsOf(bs))
  {
    hide Encode;
    hide MsgKey;
    hide Record;
    if bs == [] {
      assert EncodeAll(cfg, time, bs) == [];
    } else {
      hide Records;
      hide Stream;
      var n := |bs| - 1;
      var init, last := bs[..n], bs[n];
      StreamOfBatches(cfg, time, init);
      assert bs == init + [last];
      EncodeAllSnoc(cfg, time, init, last);
      StreamSnoc(EncodeAll(cfg, time, init), Encode(cfg, time, last));
      AsciiPayload(cfg, time, last);
      RecordsConcat(Format.Ascii, PointsOf(init), last.points);
    }
  }

  /** In ascii format too batching only moves message boundaries: the stream of payloads is the text of
      the enabled records in id order, and every message travels under the flush time. */
  lemma AsciiFlushIsText(cfg: Config, time: u32, infos: seq<KeyInfo>)
    requires cfg.format.Ascii? && |cfg.channel| < 1024
    requires Sendable(cfg.format, Enabled(infos, time))
    ensures Stream(Messages(cfg, time, infos)) == Records(Format.Ascii, Enabled(infos, time))
    ensures forall i :: 0 <= i < |Messages(cfg, time, infos)| ==> Messages(cfg, time, infos)[i].key == BigEndian(time, 4)
  {
    hide Batches;
    hide Records;
    hide Stream;
    hide Payload;
    hide BigEndian;
    var points := Enabled(infos, time);
    var bs := Batches(cfg, time, points);
    EnabledLength(infos, time);
    SendableIsEncodable(cfg.format, points);
    BatchesKeepPoints(cfg, time, points);
    StreamOfBatches(cfg, time, bs);
    forall i | 0 <= i < |bs| ensures bs[i].msgkey == time {
      PointsWithin(bs, i);
      assert bs[i].points[0] in bs[i].points;
      MsgKeyIsTime(cfg.format, bs[i].points[0]);
    }
  }

  // ---------- the proxy's reading of a flush ----------

  /** The points whose key passes the proxy's filters. */
  function Filtered(filters: seq<Bytes>, points: seq<Point>): seq<Point> {
    if points == [] then []
    else
      var p := points[|points| - 1];
      Filtered(filters, points[..|points| - 1]) + (if Passes(filters, p.key) then [p] else [])
  }

  /** The points of a list of messages, in order. */
  function AllPoints(cfg: ProxyConfig, payloads: seq<Bytes>): seq<Point> {
    if payloads == [] then []
    else AllPoints(cfg, payloads[..|payloads| - 1]) + MessagePoints(cfg, payloads[|payloads| - 1])
  }

  function Payloads(ms: seq<Message>): seq<Bytes> {
    seq(|ms|, i requires 0 <= i < |ms| => ms[i].payload)
  }

  lemma WireSplit(time: u32, a: seq<Point>, b: seq<Point>)
    requires WirePoints(time, a + b)
    ensures WirePoints(time, a) && WirePoints(time, b)
  {
    assert forall i :: 0 <= i < |a| ==> (a + b)[i] == a[i];
    assert forall i :: 0 <= i < |b| ==> (a + b)[|a| + i] == b[i];
  }

  lemma WireIsEncodable(points: seq<Point>)
    requires WireKeys(points)
    ensures Encodable(points)
  {
  }

  lemma {:induction false} FilteredConcat(filters: seq<Bytes>, a: seq<Point>, b: seq<Point>)
    ensures Filtered(filters, a + b) == Filtered(filters, a) + Filtered(filters, b)
  {
    hide Passes;
    if b == [] {
      assert a + b == a;
    } else {
      assert (a + b)[..|a + b| - 1] == a + b[..|b| - 1];
      FilteredConcat(filters, a, b[..|b| - 1]);
    }
  }

  lemma {:induction false} KeptIsFiltered(filters: seq<Bytes>, t: u32, points: seq<Point>)
    requires WirePoints(t, points)
    ensures Kept(filters, t, KeyVals(points)) == Filtered(filters, points)
    decreases |points|
  {
    hide Passes;
    if points != [] {
      var p, kvs := points[0], KeyVals(points);
      assert points == [p] + points[1..];
      WireSplit(t, [p], points[1..]);
      assert kvs[1..] == KeyVals(points[1..]);
      KeptIsFiltered(filters, t, points[1..]);
      FilteredConcat(filters, [p], points[1..]);
      assert [p][..0] == [];
      assert p.time == t && WireKey(p.key) && CString(p.key) == p.key by { CStringOfClean(p.key); }
    }
  }

  lemma {:induction false} BatchesDecode(cfg: Config, filters: seq<Bytes>, time: u32, bs: seq<Batch>)
    requires !cfg.format.Ascii? && |cfg.channel| < 1024
    requires AllHomogeneous(cfg, bs) && WirePoints(time, PointsOf(bs))
    ensures AllPoints(ProxyConfig(cfg.channel, filters), Payloads(EncodeAll(cfg, time, bs))) == Filtered(filters, PointsOf(bs))
    ensures forall i :: 0 <= i < |bs| ==>
      && ParseHeader(cfg.channel, Encode(cfg, time, bs[i]).payload) == Body(time, Records(cfg.format, bs[i].points))
      && ParseBody(Records(cfg.format, bs[i].points)).end == Complete
      && ShortKeys(Records(cfg.format, bs[i].points))
    decreases |bs|
  {
    hide Encode;
    hide Records;
    hide ParseHeader;
    hide ParseBody;
    hide Kept;
    hide MsgKey;
    if bs == [] {
      assert EncodeAll(cfg, time, bs) == [];
    } else {
      var n := |bs| - 1;
      var init, last := bs[..n], bs[n];
      WireSplit(time, PointsOf(init), last.points);
      BatchesDecode(cfg, filters, time, init);
      assert bs == init + [last];
      EncodeAllSnoc(cfg, time, init, last);
      WireIsEncodable(last.points);
      MessageRoundTrip(cfg, time, last);
      BodyKeysFit(cfg.format, last.points);
      KeptIsFiltered(filters, time, last.points);
      FilteredConcat(filters, PointsOf(init), last.points);
      var ms := EncodeAll(cfg, time, bs);
      assert Payloads(ms)[..|ms| - 1] == Payloads(EncodeAll(cfg, time, init));
    }
  }

  lemma WireIsSendable(format: Format, points: seq<Point>)
    requires !format.Ascii? && WireKeys(points)
    ensures Sendable(format, points)
  {
  }

  /** A flush is read back whole: every message is accepted and consumed to its last byte, and together
      they carry the producer's enabled records, in id order, less those the filters drop. */
  lemma FlushDecodes(cfg: Config, filters: seq<Bytes>, time: u32, infos: seq<KeyInfo>)
    requires !cfg.format.Ascii? && |cfg.channel| < 1024
    requires WireKeys(Enabled(infos, time))
    ensures AllPoints(ProxyConfig(cfg.channel, filters), Payloads(Messages(cfg, time, infos)))
         == Filtered(filters, Enabled(infos, time))
    ensures forall m :: m in Messages(cfg, time, infos) ==> AcceptedWhole(ProxyConfig(cfg.channel, filters), time, m.payload)
  {
    hide Batches;
    hide Records;
    hide ParseHeader;
    hide ParseBody;
    hide ShortKeys;
    hide AllPoints;
    hide Payloads;
    var points := Enabled(infos, time);
    EnabledLength(infos, time);
    WireIsSendable(cfg.format, points);
    SendableIsEncodable(cfg.format, points);
    BatchesKeepPoints(cfg, time, points);
    BatchesDecode(cfg, filters, time, Batches(cfg, time, points));
  }

  /** The header checks pass with this time, and the body loop ends with no byte left. */
  predicate AcceptedWhole(pc: ProxyConfig, time: u32, payload: Bytes) {
    match ParseHeader(pc.channel, payload)
    case Skip => false
    case Body(t, body) => t == time && ParseBody(body).end == Complete && ShortKeys(body)
  }
}
