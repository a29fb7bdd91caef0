/** The Kafka wire format and the batching rule of lib/backends/timeseries_backend_kafka.c, as values. */
module KafkaFormat {
  import opened Basics
  import Decimal

  datatype Format = Ascii | Tsk | TskKeyPart

  datatype Config = Config(format: Format, channel: Bytes)

  const BUFFER_LEN: nat := 1024 * 512 * 2
  const HALF: nat := BUFFER_LEN / 2
  const HEADER_MAGIC: Bytes := [84, 83, 75, 66, 65, 84, 67, 72] // "TSKBATCH"
  const HEADER_MAGIC_LEN: nat := 8
  const MESSAGE_VERSION: byte := 0
  const UINT16_MAX: nat := 65535

  // ---------- the key hash ----------

  /** A char of a C string read into an int, where char is signed. */
  function SignedChar(b: byte): (c: int)
    ensures -128 <= c < 128 && (c - b) % 256 == 0
  {
    if b < 128 then b else b - 256
  }

  function Wrap32(x: int): u32 {
    x % 0x1_0000_0000
  }

  /** The first i terms of sum c_j * 33^(n-1-j). */
  function HashTerms(key: Bytes, i: nat): int
    requires i <= |key|
  {
    if i == 0 then 0
    else HashTerms(key, i - 1) + SignedChar(key[i - 1]) * Pow(33, |key| - i)
  }

  function HashPolynomial(key: Bytes): int {
    5381 * Pow(33, |key|) + HashTerms(key, |key|)
  }

  function Hash(key: Bytes): u32 {
    Wrap32(HashPolynomial(key))
  }

  lemma {:induction false} HashTermsShift(key: Bytes, c: byte, i: nat)
    requires i <= |key|
    ensures HashTerms(key + [c], i) == 33 * HashTerms(key, i)
  {
    if i > 0 {
      HashTermsShift(key, c, i - 1);
      var a, x := SignedChar(key[i - 1]), Pow(33, |key| - i);
      assert Pow(33, |key| + 1 - i) == 33 * x;
      assert a * (33 * x) == 33 * (a * x);
    }
  }

  /** One round of the shift-add loop is one Horner step of the polynomial. */
  lemma HashExtend(key: Bytes, c: byte)
    ensures HashPolynomial(key + [c]) == 33 * HashPolynomial(key) + SignedChar(c)
    ensures Hash(key + [c]) == Wrap32(Wrap32(Wrap32(Hash(key) * 32) + Hash(key)) + SignedChar(c))
  {
    HornerStep(key, c);
    WrapHorner(HashPolynomial(key), SignedChar(c));
  }

  /** keyhash("a"). */
  lemma HashOfA()
    ensures Hash([97]) == 177670
  {
    assert Pow(33, 1) == 33 * Pow(33, 0);
    assert HashTerms([97], 1) == HashTerms([97], 0) + SignedChar(97) * Pow(33, 0);
  }

  lemma HornerStep(key: Bytes, c: byte)
    ensures HashPolynomial(key + [c]) == 33 * HashPolynomial(key) + SignedChar(c)
  {
    HashTermsShift(key, c, |key|);
    var n, x, s := |key| + 1, Pow(33, |key|), SignedChar(c);
    assert Pow(33, n) == 33 * x;
    assert HashTerms(key + [c], n) == 33 * HashTerms(key, |key|) + s * Pow(33, n - n);
    assert s * Pow(33, n - n) == s;
    assert 5381 * (33 * x) == 33 * (5381 * x);
  }

  lemma WrapHorner(x: int, c: int)
    ensures Wrap32(33 * x + c) == Wrap32(Wrap32(Wrap32(Wrap32(x) * 32) + Wrap32(x)) + c)
  {
    var m := 0x1_0000_0000;
    var q, r := x / m, x % m;
    assert x == m * q + r;
    assert 33 * x + c == m * (33 * q) + (33 * r + c);
  }

  /** Position of the last '.', or -1 (strrchr). */
  function LastDot(key: Bytes): (i: int)
    ensures -1 <= i < |key|
  {
    if key == [] then -1
    else if key[|key| - 1] == DOT then |key| - 1
    else LastDot(key[..|key| - 1])
  }

  /** The key without its last term. */
  function Stem(key: Bytes): Bytes {
    if LastDot(key) == -1 then key else key[..LastDot(key)]
  }

  lemma {:induction false} LastDotIsLast(key: Bytes)
    ensures LastDot(key) != -1 ==> key[LastDot(key)] == DOT
    ensures forall j :: LastDot(key) < j < |key| ==> key[j] != DOT
  {
    if key != [] && key[|key| - 1] != DOT {
      var init := key[..|key| - 1];
      LastDotIsLast(init);
      forall j | LastDot(key) < j < |key| ensures key[j] != DOT {
        if j < |init| { assert init[j] != DOT; }
      }
    }
  }

  /** A key without a dot is its own stem. */
  lemma DotlessIsItsStem(key: Bytes)
    requires DOT !in key
    ensures Stem(key) == key
  {
    LastDotIsLast(key);
  }

  /** Two keys that differ only in a dot-free last term have the same stem. */
  lemma SiblingsShareStem(stem: Bytes, a: Bytes, b: Bytes)
    requires DOT !in a && DOT !in b
    ensures Stem(stem + [DOT] + a) == Stem(stem + [DOT] + b) == stem
  {
    StemOf(stem, a);
    StemOf(stem, b);
  }

  lemma StemOf(stem: Bytes, a: Bytes)
    requires DOT !in a
    ensures Stem(stem + [DOT] + a) == stem
  {
    var k := stem + [DOT] + a;
    LastDotIsLast(k);
    assert k[|stem|] == DOT;
    assert forall j :: |stem| < j < |k| ==> k[j] == a[j - |stem| - 1];
  }

  /** The two shapes of a key, and the prefix each is hashed over. */
  lemma StemIsPrefix(key: Bytes)
    ensures DOT !in key ==> Stem(key) == key
    ensures forall stem, last :: key == stem + [DOT] + last && DOT !in last ==> Stem(key) == stem
  {
    hide Stem;
    if DOT !in key {
      DotlessIsItsStem(key);
    }
    forall stem, last | key == stem + [DOT] + last && DOT !in last ensures Stem(key) == stem {
      StemOf(stem, last);
    }
  }

  /** The key handed to Kafka for a record. */
  function MsgKey(format: Format, p: Point): u32 {
    if format.TskKeyPart? then Hash(Stem(p.key)) else p.time
  }

  /** The flush time, or in tskkey format the hash of everything before the last dot, of the whole name
      when there is none. */
  lemma MsgKeyMeans(format: Format, p: Point)
    ensures !format.TskKeyPart? ==> MsgKey(format, p) == p.time
    ensures format.TskKeyPart? && DOT !in p.key ==> MsgKey(format, p) == Hash(p.key)
    ensures format.TskKeyPart? ==> forall stem, last ::
      p.key == stem + [DOT] + last && DOT !in last ==> MsgKey(format, p) == Hash(stem)
  {
    hide Stem;
    hide Hash;
    StemIsPrefix(p.key);
  }

  // ---------- bytes of a message ----------

  function Header(time: u32, channel: Bytes): Bytes {
    HEADER_MAGIC + [MESSAGE_VERSION] + BigEndian(time, 4) + BigEndian(|channel|, 2) + channel
  }

  function KeyValue(key: Bytes, value: u64): Bytes {
    BigEndian(|key|, 2) + key + BigEndian(value, 8)
  }

  function Record(format: Format, p: Point): Bytes {
    if format.Ascii? then Decimal.Line(p.key, p.value, p.time) else KeyValue(p.key, p.value)
  }

  function Records(format: Format, points: seq<Point>): Bytes {
    if points == [] then []
    else Records(format, points[..|points| - 1]) + Record(format, points[|points| - 1])
  }

  function Prologue(cfg: Config, time: u32): Bytes {
    if cfg.format.Ascii? then [] else Header(time, cfg.channel)
  }

  function Payload(cfg: Config, time: u32, points: seq<Point>): Bytes {
    if points == [] then [] else Prologue(cfg, time) + Records(cfg.format, points)
  }

  /** A produced message: the four key bytes (after htonl) and the payload. */
  datatype Message = Message(key: Bytes, payload: Bytes)

  /** A message before serialisation: its Kafka key and the points it carries. */
  datatype Batch = Batch(msgkey: u32, points: seq<Point>)

  function Encode(cfg: Config, time: u32, b: Batch): Message {
    Message(BigEndian(b.msgkey, 4), Payload(cfg, time, b.points))
  }

  function EncodeAll(cfg: Config, time: u32, bs: seq<Batch>): seq<Message> {
    seq(|bs|, i requires 0 <= i < |bs| => Encode(cfg, time, bs[i]))
  }

  // ---------- the batching rule ----------

  /** Batches already cut, the points still in the buffer, and the variables of the loop. */
  datatype Batching = Batching(done: seq<Batch>, open: seq<Point>, lasthash: u32, msgkey: u32)

  /** Cut before this record: its hash differs from that of the records in the buffer. */
  predicate CutsBefore(cfg: Config, b: Batching, p: Point) {
    cfg.format.TskKeyPart? && MsgKey(cfg.format, p) != b.lasthash && b.open != []
  }

  function CutOpen(cfg: Config, b: Batching, p: Point): Batching {
    if CutsBefore(cfg, b, p) then b.(done := b.done + [Batch(b.lasthash, b.open)], open := []) else b
  }

  function AddPoint(cfg: Config, time: u32, b: Batching, p: Point): Batching {
    var c := CutOpen(cfg, b, p);
    var key := MsgKey(cfg.format, p);
    var open := c.open + [p];
    var lasthash := if cfg.format.TskKeyPart? then key else b.lasthash;
    if |Payload(cfg, time, open)| > HALF
    then Batching(c.done + [Batch(key, open)], [], lasthash, key)
    else Batching(c.done, open, lasthash, key)
  }

  function RunBatching(cfg: Config, time: u32, points: seq<Point>): Batching {
    if points == [] then Batching([], [], 0, 0)
    else AddPoint(cfg, time, RunBatching(cfg, time, points[..|points| - 1]), points[|points| - 1])
  }

  function Close(b: Batching): seq<Batch> {
    if b.open == [] then b.done else b.done + [Batch(b.msgkey, b.open)]
  }

  /** The messages of one flush when Kafka accepts everything. */
  function Batches(cfg: Config, time: u32, points: seq<Point>): seq<Batch> {
    Close(RunBatching(cfg, time, points))
  }

  function PointsOf(bs: seq<Batch>): seq<Point> {
    if bs == [] then [] else PointsOf(bs[..|bs| - 1]) + bs[|bs| - 1].points
  }

  // ---------- what batching keeps ----------

  predicate Homogeneous(cfg: Config, b: Batch) {
    b.points != [] && forall i :: 0 <= i < |b.points| ==> MsgKey(cfg.format, b.points[i]) == b.msgkey
  }

  /** A record the encoder can write whole: the key length assertion of write_kv; in ascii format, which
      asserts nothing, a line that fits the half of the buffer that is always free. */
  predicate Writable(format: Format, p: Point) {
    if format.Ascii? then |Record(format, p)| < HALF else |p.key| < UINT16_MAX
  }

  function MaxRecord(format: Format): nat {
    if format.Ascii? then HALF - 1 else UINT16_MAX - 1 + 10
  }

  lemma RecordLength(format: Format, p: Point)
    requires Writable(format, p)
    ensures 0 < |Record(format, p)| <= MaxRecord(format)
    ensures !format.Ascii? ==> |Record(format, p)| == |p.key| + 10
  {
    hide Decimal.Digits;
  }

  lemma KeyValueLength(key: Bytes, value: u64)
    ensures |KeyValue(key, value)| == |key| + 10
  {
  }

  lemma PayloadSnoc(cfg: Config, time: u32, points: seq<Point>, p: Point)
    ensures Payload(cfg, time, points + [p]) ==
      (if points == [] then Prologue(cfg, time) else Payload(cfg, time, points)) + Record(cfg.format, p)
  {
    hide Record;
    hide Prologue;
    assert (points + [p])[..|points|] == points;
    assert Records(cfg.format, []) == [];
  }

  predicate AllHomogeneous(cfg: Config, bs: seq<Batch>) {
    forall i :: 0 <= i < |bs| ==> Homogeneous(cfg, bs[i])
  }

  predicate AtMost(cfg: Config, time: u32, bs: seq<Batch>, size: nat) {
    forall i :: 0 <= i < |bs| ==> |Payload(cfg, time, bs[i].points)| <= size
  }

  predicate AllOver(cfg: Config, time: u32, bs: seq<Batch>, size: nat) {
    forall i :: 0 <= i < |bs| ==> |Payload(cfg, time, bs[i].points)| > size
  }

  /** The facts every prefix of the loop keeps. */
  ghost predicate BatchingInv(cfg: Config, time: u32, points: seq<Point>, b: Batching) {
    && PointsOf(b.done) + b.open == points
    && AllHomogeneous(cfg, b.done)
    && (b.open != [] ==> Homogeneous(cfg, Batch(b.msgkey, b.open)))
    && (b.open != [] ==> b.msgkey == (if cfg.format.TskKeyPart? then b.lasthash else time))
    && |Payload(cfg, time, b.open)| <= HALF
    && AtMost(cfg, time, b.done, HALF + MaxRecord(cfg.format))
    && (!cfg.format.TskKeyPart? ==> AllOver(cfg, time, b.done, HALF))
  }

  lemma PointsOfSnoc(bs: seq<Batch>, b: Batch)
    ensures PointsOf(bs + [b]) == PointsOf(bs) + b.points
  {
    assert (bs + [b])[..|bs|] == bs;
  }

  /** What holds of all batches and of one more holds of the longer list. */
  lemma BatchesSnoc(cfg: Config, time: u32, bs: seq<Batch>, b: Batch)
    ensures AllHomogeneous(cfg, bs) && Homogeneous(cfg, b) ==> AllHomogeneous(cfg, bs + [b])
    ensures AtMost(cfg, time, bs, HALF + MaxRecord(cfg.format)) && |Payload(cfg, time, b.points)| <= HALF + MaxRecord(cfg.format)
      ==> AtMost(cfg, time, bs + [b], HALF + MaxRecord(cfg.format))
    ensures AllOver(cfg, time, bs, HALF) && |Payload(cfg, time, b.points)| > HALF ==> AllOver(cfg, time, bs + [b], HALF)
    ensures PointsOf(bs + [b]) == PointsOf(bs) + b.points
  {
    hide Payload;
    hide Homogeneous;
    PointsOfSnoc(bs, b);
    hide PointsOf;
  }

  /** The cut before a record closes a homogeneous batch of at most half a buffer. */
  lemma CutKeepsInv(cfg: Config, time: u32, points: seq<Point>, b: Batching, p: Point)
    requires BatchingInv(cfg, time, points, b)
    ensures var c := CutOpen(cfg, b, p);
      && BatchingInv(cfg, time, points, c)
      && !CutsBefore(cfg, c, p)
  {
    hide Payload;
    hide MsgKey;
    hide PointsOf;
    hide AllHomogeneous;
    hide AtMost;
    hide AllOver;
    BatchesSnoc(cfg, time, b.done, Batch(b.lasthash, b.open));
    assert Payload(cfg, time, []) == [] by { PayloadOfNone(cfg, time); }
  }

  lemma PayloadOfNone(cfg: Config, time: u32)
    ensures Payload(cfg, time, []) == []
  {
  }

  /** Adding one record to a buffer that is at most half full. */
  lemma PayloadGrowth(cfg: Config, time: u32, open: seq<Point>, p: Point)
    requires |cfg.channel| < 1024 && Writable(cfg.format, p)
    requires |Payload(cfg, time, open)| <= HALF
    ensures 0 < |Payload(cfg, time, open + [p])| <= HALF + MaxRecord(cfg.format)
  {
    hide Payload;
    hide Record;
    PayloadSnoc(cfg, time, open, p);
    RecordLength(cfg.format, p);
  }

  lemma AddPointKeepsInv(cfg: Config, time: u32, points: seq<Point>, b: Batching, p: Point)
    requires |cfg.channel| < 1024 && Writable(cfg.format, p) && p.time == time
    requires BatchingInv(cfg, time, points, b)
    ensures BatchingInv(cfg, time, points + [p], AddPoint(cfg, time, b, p))
  {
    hide Payload;
    hide MsgKey;
    hide PointsOf;
    hide AllHomogeneous;
    hide AtMost;
    hide AllOver;
    var c := CutOpen(cfg, b, p);
    CutKeepsInv(cfg, time, points, b, p);
    var key, open := MsgKey(cfg.format, p), c.open + [p];
    PayloadGrowth(cfg, time, c.open, p);
    SameKey(cfg, points, c, p, time);
    MsgKeyIsTime(cfg.format, p);
    hide Homogeneous;
    BatchesSnoc(cfg, time, c.done, Batch(key, open));
    ConcatAssoc(PointsOf(c.done), c.open, [p]);
    PayloadOfNone(cfg, time);
    assert PointsOf(c.done) + open + [] == PointsOf(c.done) + open;
  }

  lemma MsgKeyIsTime(format: Format, p: Point)
    ensures !format.TskKeyPart? ==> MsgKey(format, p) == p.time
  {
  }

  /** A record that is not cut off has the key of everything in the buffer. */
  lemma SameKey(cfg: Config, points: seq<Point>, c: Batching, p: Point, time: u32)
    requires BatchingInv(cfg, time, points, c) && !CutsBefore(cfg, c, p) && p.time == time
    ensures Homogeneous(cfg, Batch(MsgKey(cfg.format, p), c.open + [p]))
  {
    hide Payload;
    hide Hash;
  }

  lemma {:induction false} RunBatchingInv(cfg: Config, time: u32, points: seq<Point>)
    requires |cfg.channel| < 1024
    requires forall p :: p in points ==> p.time == time && Writable(cfg.format, p)
    ensures BatchingInv(cfg, time, points, RunBatching(cfg, time, points))
  {
    hide Payload;
    hide MsgKey;
    if points == [] {
      assert Payload(cfg, time, []) == [] by { PayloadOfNone(cfg, time); }
    } else {
      hide BatchingInv;
      hide AddPoint;
      var n := |points| - 1;
      RunBatchingInv(cfg, time, points[..n]);
      assert points[..n] + [points[n]] == points;
      AddPointKeepsInv(cfg, time, points[..n], RunBatching(cfg, time, points[..n]), points[n]);
    }
  }

  /** Batching loses, duplicates and reorders nothing; every message has one Kafka key; sizes are bounded. */
  lemma BatchesKeepPoints(cfg: Config, time: u32, points: seq<Point>)
    requires |cfg.channel| < 1024
    requires forall p :: p in points ==> p.time == time && Writable(cfg.format, p)
    ensures var bs := Batches(cfg, time, points);
      && PointsOf(bs) == points
      && AllHomogeneous(cfg, bs)
      && AtMost(cfg, time, bs, HALF + MaxRecord(cfg.format))
      && (!cfg.format.TskKeyPart? && bs != [] ==> AllOver(cfg, time, bs[..|bs| - 1], HALF))
  {
    hide Payload;
    hide MsgKey;
    hide RunBatching;
    RunBatchingInv(cfg, time, points);
    CloseKeepsInv(cfg, time, points, RunBatching(cfg, time, points));
  }

  lemma CloseKeepsInv(cfg: Config, time: u32, points: seq<Point>, b: Batching)
    requires BatchingInv(cfg, time, points, b)
    ensures PointsOf(Close(b)) == points
    ensures AllHomogeneous(cfg, Close(b))
    ensures AtMost(cfg, time, Close(b), HALF + MaxRecord(cfg.format))
    ensures !cfg.format.TskKeyPart? && Close(b) != [] ==> AllOver(cfg, time, Close(b)[..|Close(b)| - 1], HALF)
  {
    hide Payload;
    hide MsgKey;
    hide Homogeneous;
    hide PointsOf;
    hide AllHomogeneous;
    hide AtMost;
    BatchesSnoc(cfg, time, b.done, Batch(b.msgkey, b.open));
    if b.open == [] {
      assert PointsOf(b.done) + [] == PointsOf(b.done);
    } else {
      hide AllOver;
      assert Close(b)[..|Close(b)| - 1] == b.done;
    }
  }

  lemma {:induction false} PointsWithin(bs: seq<Batch>, i: nat)
    requires i < |bs|
    ensures forall p :: p in bs[i].points ==> p in PointsOf(bs)
  {
    if i < |bs| - 1 {
      PointsWithin(bs[..|bs| - 1], i);
    }
  }

  // ---------- no message is cut without a reason ----------

  /** A message ends because it is over half full, or because the next record has another key. */
  predicate Boundary(cfg: Config, time: u32, b: Batch, nextKey: u32) {
    |Payload(cfg, time, b.points)| > HALF || b.msgkey != nextKey
  }

  predicate CutsNeeded(cfg: Config, time: u32, bs: seq<Batch>) {
    forall i :: 0 < i < |bs| ==> Boundary(cfg, time, bs[i - 1], bs[i].msgkey)
  }

  /** The next record, under this key, may start a message of its own. */
  ghost predicate MayStart(cfg: Config, time: u32, bs: seq<Batch>, key: u32) {
    CutsNeeded(cfg, time, bs) && (bs != [] ==> Boundary(cfg, time, bs[|bs| - 1], key))
  }

  ghost predicate CutsInv(cfg: Config, time: u32, b: Batching) {
    if b.open == [] then forall key :: MayStart(cfg, time, b.done, key) else MayStart(cfg, time, b.done, b.msgkey)
  }

  lemma MayStartAfter(cfg: Config, time: u32, bs: seq<Batch>, b: Batch, key: u32)
    requires MayStart(cfg, time, bs, b.msgkey) && Boundary(cfg, time, b, key)
    ensures MayStart(cfg, time, bs + [b], key)
  {
    hide Boundary;
  }

  lemma BoundaryWhen(cfg: Config, time: u32, b: Batch, key: u32)
    ensures |Payload(cfg, time, b.points)| > HALF || b.msgkey != key ==> Boundary(cfg, time, b, key)
  {
  }

  lemma AddPointCutsNeeded(cfg: Config, time: u32, points: seq<Point>, b: Batching, p: Point)
    requires BatchingInv(cfg, time, points, b) && CutsInv(cfg, time, b) && p.time == time
    ensures CutsInv(cfg, time, AddPoint(cfg, time, b, p))
  {
    hide Payload;
    hide MsgKey;
    hide Boundary;
    hide MayStart;
    var c, key := CutOpen(cfg, b, p), MsgKey(cfg.format, p);
    var open := c.open + [p];
    MsgKeyIsTime(cfg.format, p);
    assert MayStart(cfg, time, c.done, key) by {
      if CutsBefore(cfg, b, p) {
        BoundaryWhen(cfg, time, Batch(b.lasthash, b.open), key);
        MayStartAfter(cfg, time, b.done, Batch(b.lasthash, b.open), key);
      }
    }
    if |Payload(cfg, time, open)| > HALF {
      forall next ensures MayStart(cfg, time, c.done + [Batch(key, open)], next) {
        BoundaryWhen(cfg, time, Batch(key, open), next);
        MayStartAfter(cfg, time, c.done, Batch(key, open), next);
      }
    }
  }

  lemma {:induction false} RunBatchingCutsNeeded(cfg: Config, time: u32, points: seq<Point>)
    requires |cfg.channel| < 1024
    requires forall p :: p in points ==> p.time == time && Writable(cfg.format, p)
    ensures CutsInv(cfg, time, RunBatching(cfg, time, points))
  {
    hide Payload;
    hide MsgKey;
    hide AddPoint;
    hide BatchingInv;
    if points != [] {
      hide CutsInv;
      var n := |points| - 1;
      RunBatchingCutsNeeded(cfg, time, points[..n]);
      RunBatchingInv(cfg, time, points[..n]);
      AddPointCutsNeeded(cfg, time, points[..n], RunBatching(cfg, time, points[..n]), points[n]);
    }
  }

  /** In every format a message ends only because it is over half full or the next one has another key. */
  lemma BatchesAreFull(cfg: Config, time: u32, points: seq<Point>)
    requires |cfg.channel| < 1024
    requires forall p :: p in points ==> p.time == time && Writable(cfg.format, p)
    ensures CutsNeeded(cfg, time, Batches(cfg, time, points))
  {
    hide Boundary;
    hide RunBatching;
    RunBatchingCutsNeeded(cfg, time, points);
    var b := RunBatching(cfg, time, points);
    if b.open == [] {
      assert MayStart(cfg, time, b.done, 0);
    }
  }

  /** What has been cut after a prefix of the points stays cut: the sent messages only ever grow. */
  lemma {:induction false} CutStaysCut(cfg: Config, time: u32, points: seq<Point>, i: nat)
    requires i <= |points|
    ensures RunBatching(cfg, time, points[..i]).done <= Batches(cfg, time, points)
    decreases |points| - i
  {
    hide Payload;
    hide MsgKey;
    if i < |points| {
      CutStaysCut(cfg, time, points, i + 1);
      assert points[..i + 1][..i] == points[..i];
    } else {
      assert points[..i] == points;
    }
  }

  // ---------- partitions ----------

  /** time_partitioner on the four key bytes. */
  function Partition(key: Bytes, partitions: nat): nat
    requires |key| == 4 && partitions > 0
  {
    (Read32(key) / 60) % partitions
  }

  /** All keys that agree up to their last '.' travel under one Kafka key, hence to one partition. */
  lemma SiblingsShareMessageKey(cfg: Config, time: u32, points: seq<Point>, partitions: nat, i: nat, j: nat,
        p: Point, q: Point)
    requires |cfg.channel| < 1024 && cfg.format.TskKeyPart? && partitions > 0
    requires forall r :: r in points ==> r.time == time && Writable(cfg.format, r)
    requires i < |Batches(cfg, time, points)| && j < |Batches(cfg, time, points)|
    requires p in Batches(cfg, time, points)[i].points && q in Batches(cfg, time, points)[j].points
    requires Stem(p.key) == Stem(q.key)
    ensures Read32(Encode(cfg, time, Batches(cfg, time, points)[i]).key) == Hash(Stem(p.key))
    ensures Partition(Encode(cfg, time, Batches(cfg, time, points)[i]).key, partitions)
         == Partition(Encode(cfg, time, Batches(cfg, time, points)[j]).key, partitions)
         == (Hash(Stem(p.key)) / 60) % partitions
  {
    BatchesKeepPoints(cfg, time, points);
    var bs := Batches(cfg, time, points);
    ReadBack(0, bs[i].msgkey, 0);
    ReadBack(0, bs[j].msgkey, 0);
    var a :| 0 <= a < |bs[i].points| && bs[i].points[a] == p;
    var b :| 0 <= b < |bs[j].points| && bs[j].points[b] == q;
    assert MsgKey(cfg.format, bs[i].points[a]) == bs[i].msgkey;
    assert MsgKey(cfg.format, bs[j].points[b]) == bs[j].msgkey;
  }
}
