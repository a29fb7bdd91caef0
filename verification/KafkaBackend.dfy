/** The Kafka backend object of lib/backends/timeseries_backend_kafka.c, with its one reused buffer. */
module KafkaBackend {
  import opened Basics
  import opened KeyPackage
  import opened KafkaFormat
  import Decimal

  // ---------- the key hash, in place ----------

  lemma {:induction false} CStringUpTo(s: Bytes, i: nat)
    requires i < |s| && s[i] == 0
    requires forall j :: 0 <= j < i ==> s[j] != 0
    ensures CString(s) == s[..i]
  {
    if i > 0 {
      CStringUpTo(s[1..], i - 1);
      assert s[..i] == [s[0]] + s[1..][..i - 1];
    }
  }

  /** keyhash: the shift-add loop over a NUL-terminated string. */
  method KeyHash(key: array<byte>) returns (hash: u32)
    requires 0 in key[..]
    ensures hash == Hash(CString(key[..]))
  {
    hide Hash;
    hide CString;
    hash := 5381;
    var i := 0;
    ghost var n :| 0 <= n < key.Length && key[..][n] == 0;
    assert Hash(key[..0]) == 5381 by { HashOfEmpty(); assert key[..0] == []; }
    while key[i] != 0
      invariant 0 <= i <= n < key.Length
      invariant forall j :: 0 <= j < i ==> key[j] != 0
      invariant hash == Hash(key[..i])
      decreases n - i
    {
      assert key[..i + 1] == key[..i] + [key[i]];
      HashExtend(key[..i], key[i]);
      hash := Wrap32(Wrap32(Wrap32(hash * 32) + hash) + SignedChar(key[i]));
      i := i + 1;
    }
    CStringUpTo(key[..], i);
    assert key[..][..i] == key[..i];
  }

  lemma HashOfEmpty()
    ensures Hash([]) == 5381
  {
  }

  /** Hashes the key up to its last '.', which is overwritten by NUL for the duration of the call. */
  method PrefixHash(key: array<byte>) returns (hash: u32)
    requires key.Length > 0 && key[key.Length - 1] == 0
    requires forall i :: 0 <= i < key.Length - 1 ==> key[i] != 0
    modifies key
    ensures key[..] == old(key[..])
    ensures hash == Hash(Stem(old(key[..key.Length - 1])))
    ensures var name := old(key[..key.Length - 1]);
      && (DOT !in name ==> hash == Hash(name))
      && forall stem, last :: name == stem + [DOT] + last && DOT !in last ==> hash == Hash(stem)
  {
    hide Hash;
    ghost var name := key[..key.Length - 1];
    StemIsPrefix(name);
    var sptr := LastDot(key[..key.Length - 1]);
    if sptr != -1 {
      assert key[sptr] == DOT by { LastDotIsLast(name); assert name[sptr] == key[sptr]; }
      key[sptr] := 0;
      assert key[..][sptr] == 0;
      hash := KeyHash(key);
      CStringUpTo(key[..], sptr);
      assert key[..][..sptr] == name[..sptr];
      key[sptr] := DOT;
    } else {
      assert key[..][key.Length - 1] == 0;
      hash := KeyHash(key);
      CStringUpTo(key[..], key.Length - 1);
      assert key[..][..key.Length - 1] == name;
    }
  }

  // ---------- hand-off to Kafka under back-pressure ----------

  /** One answer of rd_kafka_produce. */
  datatype Produce = Accept | QueueFull | Fatal

  /** What the retry loop makes of the coming answers: accepted or not, and the answers left.
      An exhausted script accepts, so QUEUE_FULL is answered finitely often. */
  function ProduceOne(script: seq<Produce>): (bool, seq<Produce>) {
    if script == [] then (true, [])
    else match script[0]
      case Accept => (true, script[1..])
      case Fatal => (false, script[1..])
      case QueueFull => ProduceOne(script[1..])
  }

  /** How many of n messages get through before the first fatal answer. */
  function Deliver(script: seq<Produce>, n: nat): (r: (nat, seq<Produce>))
    ensures r.0 <= n
    decreases n
  {
    if n == 0 then (0, script)
    else
      var (ok, rest) := ProduceOne(script);
      if !ok then (0, rest)
      else
        var (m, left) := Deliver(rest, n - 1);
        (m + 1, left)
  }

  lemma {:induction false} DeliverOneMore(script: seq<Produce>, n: nat, now: seq<Produce>)
    requires Deliver(script, n) == (n, now)
    ensures ProduceOne(now).0 ==> Deliver(script, n + 1) == (n + 1, ProduceOne(now).1)
    ensures !ProduceOne(now).0 ==> Deliver(script, n + 1) == (n, ProduceOne(now).1)
    decreases n
  {
    if n > 0 {
      DeliverOneMore(ProduceOne(script).1, n - 1, now);
    }
  }

  /** After a fatal answer nothing more is handed over, however many messages were left. */
  lemma {:induction false} DeliverStops(script: seq<Produce>, n: nat, m: nat, left: seq<Produce>)
    requires n < m && Deliver(script, n + 1) == (n, left)
    ensures Deliver(script, m) == (n, left)
    decreases n
  {
    if n > 0 {
      DeliverStops(ProduceOne(script).1, n - 1, m - 1, left);
    }
  }

  // ---------- what the answers mean ----------

  function Accepts(script: seq<Produce>): nat {
    if script == [] then 0 else (if script[0].Accept? then 1 else 0) + Accepts(script[1..])
  }

  /** No fatal answer stands before the n-th acceptance; an exhausted script only accepts. */
  predicate NoFatalBefore(script: seq<Produce>, n: nat) {
    forall i :: 0 <= i < |script| && script[i].Fatal? ==> Accepts(script[..i]) >= n
  }

  /** A full queue is tried again, an acceptance hands over one message, anything else stops. */
  lemma AnswerByAnswer(script: seq<Produce>, n: nat)
    ensures Deliver([QueueFull] + script, n + 1) == Deliver(script, n + 1)
    ensures Deliver([Accept] + script, n + 1) == (Deliver(script, n).0 + 1, Deliver(script, n).1)
    ensures Deliver([Fatal] + script, n + 1) == (0, script)
    ensures Deliver([], n + 1) == (n + 1, [])
  {
    assert ([QueueFull] + script)[1..] == script;
    assert ([Accept] + script)[1..] == script;
    assert ([Fatal] + script)[1..] == script;
    ExhaustedAccepts(n + 1);
  }

  lemma {:induction false} ExhaustedAccepts(n: nat)
    ensures Deliver([], n) == (n, [])
  {
    if n > 0 {
      ExhaustedAccepts(n - 1);
    }
  }

  lemma NoFatalStep(script: seq<Produce>, n: nat)
    requires script != [] && n > 0
    ensures NoFatalBefore(script, n) <==>
      match script[0]
      case Accept => NoFatalBefore(script[1..], n - 1)
      case QueueFull => NoFatalBefore(script[1..], n)
      case Fatal => false
  {
    assert script[..0] == [] && Accepts([]) == 0;
    forall i | 0 < i < |script|
      ensures Accepts(script[..i]) == (if script[0].Accept? then 1 else 0) + Accepts(script[1..][..i - 1])
      ensures script[i] == script[1..][i - 1]
    {
      assert script[..i][1..] == script[1..][..i - 1];
    }
    if !script[0].Fatal? && NoFatalBefore(script, n) {
      forall i | 0 <= i < |script| - 1 && script[1..][i].Fatal?
        ensures Accepts(script[1..][..i]) >= if script[0].Accept? then n - 1 else n
      {
        assert script[i + 1].Fatal?;
      }
    }
  }

  /** All n messages get through exactly when no fatal answer stands before the n-th acceptance. */
  lemma {:induction false} AllGetThroughIff(script: seq<Produce>, n: nat)
    ensures Deliver(script, n).0 == n <==> NoFatalBefore(script, n)
    decreases |script|
  {
    hide NoFatalBefore;
    if n == 0 || script == [] {
      NothingFatal(script, n);
      ExhaustedAccepts(n);
    } else {
      var rest := script[1..];
      assert script == [script[0]] + rest;
      AnswerByAnswer(rest, n - 1);
      NoFatalStep(script, n);
      AllGetThroughIff(rest, n - 1);
      AllGetThroughIff(rest, n);
    }
  }

  lemma NothingFatal(script: seq<Produce>, n: nat)
    ensures n == 0 || script == [] ==> NoFatalBefore(script, n)
  {
  }

  /** Otherwise as many get through as there are acceptances before the first fatal answer, which is the
      last one asked for. */
  lemma {:induction false} StopsAtFatal(script: seq<Produce>, n: nat, i: nat)
    requires i < |script| && script[i].Fatal? && forall j :: 0 <= j < i ==> !script[j].Fatal?
    requires Accepts(script[..i]) < n
    ensures Deliver(script, n) == (Accepts(script[..i]), script[i + 1..])
    decreases i
  {
    var rest := script[1..];
    assert script == [script[0]] + rest;
    AnswerByAnswer(rest, n - 1);
    if i > 0 {
      assert script[..i][1..] == rest[..i - 1];
      assert rest[i..] == script[i + 1..];
      StopsAtFatal(rest, if script[0].Accept? then n - 1 else n, i - 1);
    }
  }

  /** A hand-off says the same in terms of the answers only. */
  lemma HandedOffIff(rc: int, all: seq<Message>, script0: seq<Produce>, script: seq<Produce>, sent0: seq<Message>, sent: seq<Message>)
    requires HandedOff(rc, all, script0, script, sent0, sent)
    ensures rc == 0 <==> NoFatalBefore(script0, |all|)
    ensures rc == 0 ==> sent == sent0 + all
    ensures rc != 0 ==> exists i ::
      && 0 <= i < |script0| && script0[i].Fatal? && Accepts(script0[..i]) < |all|
      && sent == sent0 + all[..Accepts(script0[..i])] && script == script0[i + 1..]
  {
    hide Deliver;
    hide Accepts;
    AllGetThroughIff(script0, |all|);
    if rc != 0 {
      var k :| 0 <= k < |script0| && script0[k].Fatal? && Accepts(script0[..k]) < |all|;
      var i := FirstFatal(script0, k);
      AcceptsPrefix(script0, i, k);
      StopsAtFatal(script0, |all|, i);
    }
  }

  lemma {:induction false} FirstFatal(script: seq<Produce>, k: nat) returns (i: nat)
    requires k < |script| && script[k].Fatal?
    ensures i <= k && script[i].Fatal? && forall j :: 0 <= j < i ==> !script[j].Fatal?
  {
    i := 0;
    while !script[i].Fatal?
      invariant i <= k && forall j :: 0 <= j < i ==> !script[j].Fatal?
      decreases k - i
    {
      i := i + 1;
    }
  }

  lemma {:induction false} AcceptsPrefix(script: seq<Produce>, i: nat, k: nat)
    requires i <= k <= |script|
    ensures Accepts(script[..i]) <= Accepts(script[..k])
  {
    if i > 0 {
      assert script[..i][1..] == script[1..][..i - 1] && script[..k][1..] == script[1..][..k - 1];
      AcceptsPrefix(script[1..], i - 1, k - 1);
    }
  }

  lemma EncodeAllSnoc(cfg: Config, time: u32, bs: seq<Batch>, b: Batch)
    ensures EncodeAll(cfg, time, bs + [b]) == EncodeAll(cfg, time, bs) + [Encode(cfg, time, b)]
  {
    hide Encode;
  }

  lemma EncodeAllPrefix(cfg: Config, time: u32, bs: seq<Batch>, all: seq<Batch>)
    requires bs <= all
    ensures EncodeAll(cfg, time, bs) == EncodeAll(cfg, time, all)[..|bs|]
  {
    hide Encode;
  }

  /** Points the encoder can write; their keys are C strings. */
  predicate Sendable(format: Format, points: seq<Point>) {
    forall p :: p in points ==> Writable(format, p) && 0 !in p.key
  }

  /** The messages of a flush as Kafka receives them when it accepts everything. */
  function Messages(cfg: Config, time: u32, infos: seq<KeyInfo>): seq<Message> {
    EncodeAll(cfg, time, Batches(cfg, time, Enabled(infos, time)))
  }

  /** `sent` grew by the accepted prefix of `all`, and rc is 0 exactly when that is the whole list. */
  predicate HandedOff(rc: int, all: seq<Message>, script0: seq<Produce>, script: seq<Produce>, sent0: seq<Message>,
        sent: seq<Message>) {
    && Deliver(script0, |all|).1 == script
    && sent == sent0 + all[..Deliver(script0, |all|).0]
    && (rc == 0 <==> Deliver(script0, |all|).0 == |all|)
    && (rc == 0 || rc == -1)
  }

  lemma StoppedHandsOffPrefix(cfg: Config, time: u32, bs: seq<Batch>, all: seq<Batch>,
                              script0: seq<Produce>, script: seq<Produce>, sent0: seq<Message>, sent: seq<Message>)
    requires bs < all
    requires sent == sent0 + EncodeAll(cfg, time, bs) && Deliver(script0, |bs| + 1) == (|bs|, script)
    ensures HandedOff(-1, EncodeAll(cfg, time, all), script0, script, sent0, sent)
  {
    hide Encode;
    DeliverStops(script0, |bs|, |all|, script);
    EncodeAllPrefix(cfg, time, bs, all);
  }

  /** The records visited so far are a prefix of those a flush emits, and so are the messages cut. */
  lemma VisitedPrefix(cfg: Config, time: u32, infos: seq<KeyInfo>, n: nat)
    requires n <= |infos|
    ensures RunBatching(cfg, time, Enabled(infos[..n], time)).done <= Batches(cfg, time, Enabled(infos, time))
  {
    hide Batches;
    hide RunBatching;
    EnabledPrefix(infos, n, time);
    var all, k := Enabled(infos, time), |Enabled(infos[..n], time)|;
    assert all[..k] == Enabled(infos[..n], time);
    CutStaysCut(cfg, time, all, k);
  }

  lemma VisitEnabled(cfg: Config, time: u32, infos: seq<KeyInfo>, n: nat)
    requires n < |infos|
    ensures RunBatching(cfg, time, Enabled(infos[..n + 1], time)) ==
      if infos[n].disabled then RunBatching(cfg, time, Enabled(infos[..n], time))
      else AddPoint(cfg, time, RunBatching(cfg, time, Enabled(infos[..n], time)), Point(time, infos[n].key, infos[n].value))
  {
    hide AddPoint;
    EnabledSnoc(infos, n, time);
    var pts := Enabled(infos[..n], time);
    var p := Point(time, infos[n].key, infos[n].value);
    assert (pts + [p])[..|pts|] == pts;
    assert pts + [] == pts;
  }

  /** The message of set_single: header and record of one point, under the point's own key. */
  function SingleMessage(cfg: Config, p: Point): Message {
    Encode(cfg, p.time, Batch(MsgKey(cfg.format, p), [p]))
  }

  lemma SingleIsBatch(cfg: Config, p: Point, msgkey: u32)
    requires msgkey == MsgKey(cfg.format, p)
    ensures EncodeAll(cfg, p.time, [Batch(msgkey, [p])]) == [SingleMessage(cfg, p)]
  {
    hide Encode;
  }

  // ---------- the object ----------

  class Kafka {
    const cfg: Config
    const buffer: array<byte>
    var bufferWritten: nat
    /** The answers rd_kafka_produce will give. */
    var script: seq<Produce>
    /** The messages Kafka has accepted, in order. */
    var sent: seq<Message>

    /** Between two calls: the entry assertion `buffer_written == 0`. */
    ghost predicate Idle()
      reads this
    {
      buffer.Length == BUFFER_LEN && |cfg.channel| < 1024 && bufferWritten == 0
    }

    /** The channel bound is the topic name check of topic_connect. */
    constructor (cfg: Config, script: seq<Produce>)
      requires |cfg.channel| < 1024
      ensures Idle() && this.cfg == cfg && this.script == script && sent == [] && fresh(buffer)
    {
      this.cfg := cfg;
      buffer := new byte[BUFFER_LEN];
      bufferWritten := 0;
      this.script := script;
      sent := [];
    }

    /** memcpy into the buffer. */
    method Copy(ptr: nat, from: Bytes)
      requires ptr + |from| <= buffer.Length
      modifies buffer
      ensures buffer[..ptr + |from|] == old(buffer[..ptr]) + from
    {
      for i := 0 to |from|
        invariant buffer[..ptr + i] == old(buffer[..ptr]) + from[..i]
      {
        buffer[ptr + i] := from[i];
        assert buffer[..ptr + i + 1] == buffer[..ptr + i] + [from[i]];
        assert from[..i + 1] == from[..i] + [from[i]];
      }
      assert from[..|from|] == from;
    }

    method WriteHeader(ptr: nat, len: nat, time: u32) returns (written: nat)
      requires ptr + len <= buffer.Length && |cfg.channel| < 1024
      requires len >= HEADER_MAGIC_LEN + 1 + 4 + 2 + |cfg.channel|
      modifies buffer
      ensures written == HEADER_MAGIC_LEN + 1 + 4 + 2 + |cfg.channel|
      ensures buffer[..ptr + written] == old(buffer[..ptr]) + Header(time, cfg.channel)
    {
      hide BigEndian;
      assert HEADER_MAGIC_LEN < len;
      Copy(ptr, HEADER_MAGIC);
      written := HEADER_MAGIC_LEN;
      assert len - written >= 1;
      Copy(ptr + written, [MESSAGE_VERSION]);
      written := written + 1;
      assert len - written >= 4;
      Copy(ptr + written, BigEndian(time, 4));
      written := written + 4;
      assert len - written >= 2;
      Copy(ptr + written, BigEndian(|cfg.channel|, 2));
      written := written + 2;
      Copy(ptr + written, cfg.channel);
      written := written + |cfg.channel|;
    }

    method WriteKv(ptr: nat, len: nat, key: Bytes, value: u64) returns (written: nat)
      requires ptr + len <= buffer.Length
      requires |key| < UINT16_MAX && |key| + 2 + 8 <= len
      modifies buffer
      ensures written == |key| + 10
      ensures buffer[..ptr + written] == old(buffer[..ptr]) + KeyValue(key, value)
    {
      hide BigEndian;
      written := 0;
      assert len - written >= 2;
      Copy(ptr, BigEndian(|key|, 2));
      written := written + 2;
      Copy(ptr + written, key);
      written := written + |key|;
      assert len - written >= 8;
      Copy(ptr + written, BigEndian(value, 8));
      written := written + 8;
    }

    /** snprintf: writes at most len - 1 characters and a NUL, returns the full length. */
    method WriteAscii(ptr: nat, len: nat, key: Bytes, value: u64, time: u32) returns (written: nat)
      requires 0 < len && ptr + len <= buffer.Length
      modifies buffer
      ensures written == |Decimal.Line(key, value, time)|
      ensures written < len ==> buffer[..ptr + written] == old(buffer[..ptr]) + Decimal.Line(key, value, time)
    {
      hide Decimal.Line;
      var line := Decimal.Line(key, value, time);
      var n := if |line| < len then |line| else len - 1;
      Copy(ptr, line[..n] + [0]);
      written := |line|;
      if n == written {
        assert line[..n] == line;
        assert buffer[..ptr + n] == buffer[..ptr + n + 1][..ptr + n];
      }
    }

    /** rd_kafka_produce: accepts (and copies) the message, or answers an error. */
    method RdKafkaProduce(key: Bytes, payload: Bytes) returns (answer: Produce)
      modifies this`script, this`sent
      ensures old(script) == [] ==> answer == Accept && script == []
      ensures old(script) != [] ==> answer == old(script)[0] && script == old(script)[1..]
      ensures sent == if answer == Accept then old(sent) + [Message(key, payload)] else old(sent)
    {
      answer := Accept;
      if script != [] {
        answer := script[0];
        script := script[1..];
      }
      if answer == Accept {
        sent := sent + [Message(key, payload)];
      }
    }

    /** SEND_MSG: produce what is in the buffer, retrying while the queue is full; then RESET_BUF. */
    method SendMsg(msgkey: u32) returns (ok: bool, ptr: nat)
      requires bufferWritten <= buffer.Length
      modifies this`bufferWritten, this`script, this`sent
      ensures bufferWritten == 0 && ptr == 0
      ensures old(bufferWritten) == 0 ==> ok && script == old(script) && sent == old(sent)
      ensures old(bufferWritten) > 0 ==> (ok, script) == ProduceOne(old(script))
      ensures old(bufferWritten) > 0 ==> (ok <==> NoFatalBefore(old(script), 1))
      ensures old(bufferWritten) > 0 ==>
        sent == if ok then old(sent) + [Message(BigEndian(msgkey, 4), buffer[..old(bufferWritten)])] else old(sent)
    {
      hide BigEndian;
      hide NoFatalBefore;
      AllGetThroughIff(script, 1);
      var success := false;
      var swaptime := BigEndian(msgkey, 4);
      while bufferWritten > 0 && !success
        invariant bufferWritten == old(bufferWritten)
        invariant bufferWritten == 0 ==> script == old(script) && !success
        invariant !success ==> sent == old(sent) && ProduceOne(script) == ProduceOne(old(script))
        invariant success ==> (true, script) == ProduceOne(old(script))
        invariant success ==> sent == old(sent) + [Message(swaptime, buffer[..bufferWritten])]
        decreases !success, |script|
      {
        var answer := RdKafkaProduce(swaptime, buffer[..bufferWritten]);
        match answer {
          case Accept =>
            success := true;
          case QueueFull =>
          case Fatal =>
            bufferWritten := 0;
            return false, 0;
        }
      }
      bufferWritten := 0;
      return true, 0;
    }

    /** Loop state of kp_flush: the buffer holds the open points, everything cut so far was accepted. */
    ghost predicate Tracks(time: u32, b: Batching, script0: seq<Produce>, sent0: seq<Message>)
      reads this, buffer
    {
      && buffer.Length == BUFFER_LEN && |cfg.channel| < 1024
      && bufferWritten <= HALF
      && buffer[..bufferWritten] == Payload(cfg, time, b.open)
      && (bufferWritten == 0 <==> b.open == [])
      && Accepted(time, b.done, script0, sent0)
    }

    ghost predicate Accepted(time: u32, bs: seq<Batch>, script0: seq<Produce>, sent0: seq<Message>)
      reads this
    {
      sent == sent0 + EncodeAll(cfg, time, bs) && Deliver(script0, |bs|) == (|bs|, script)
    }

    /** A fatal answer: the batches before it were accepted, the next one was not. */
    ghost predicate Stopped(time: u32, bs: seq<Batch>, script0: seq<Produce>, sent0: seq<Message>)
      reads this
    {
      && bufferWritten == 0
      && sent == sent0 + EncodeAll(cfg, time, bs)
      && Deliver(script0, |bs| + 1) == (|bs|, script)
    }

    /** SEND_MSG on a buffer that holds exactly one encoded batch. */
    method SendBatch(msgkey: u32, ghost time: u32, ghost points: seq<Point>, ghost done: seq<Batch>,
                     ghost script0: seq<Produce>, ghost sent0: seq<Message>)
      returns (ok: bool, ptr: nat)
      requires 0 < bufferWritten <= buffer.Length && buffer[..bufferWritten] == Payload(cfg, time, points)
      requires Accepted(time, done, script0, sent0)
      modifies this`bufferWritten, this`script, this`sent
      ensures bufferWritten == 0 && ptr == 0
      ensures ok ==> Accepted(time, done + [Batch(msgkey, points)], script0, sent0)
      ensures !ok ==> Stopped(time, done, script0, sent0)
    {
      hide Payload;
      hide BigEndian;
      hide EncodeAll;
      hide ProduceOne;
      DeliverOneMore(script0, |done|, script);
      EncodeAllSnoc(cfg, time, done, Batch(msgkey, points));
      ok, ptr := SendMsg(msgkey);
    }

    /** The write half of the loop body: a header when the buffer is empty, then the record. */
    method WriteRecord(p: Point, ptr0: nat, ghost open: seq<Point>) returns (ptr: nat)
      requires buffer.Length == BUFFER_LEN && |cfg.channel| < 1024
      requires if cfg.format.Ascii? then bufferWritten + |Record(cfg.format, p)| < BUFFER_LEN else |p.key| < UINT16_MAX
      requires ptr0 == bufferWritten <= HALF && buffer[..bufferWritten] == Payload(cfg, p.time, open)
      requires bufferWritten == 0 <==> open == []
      modifies this`bufferWritten, buffer
      ensures buffer.Length >= bufferWritten == ptr > 0
      ensures buffer[..bufferWritten] == Payload(cfg, p.time, open + [p])
    {
      hide Payload;
      hide Header;
      hide KeyValue;
      hide Decimal.Line;
      ptr := ptr0;
      PayloadSnoc(cfg, p.time, open, p);
      LineNotEmpty(p);
      KeyValueLength(p.key, p.value);
      var len, s := BUFFER_LEN, 0;
      if cfg.format.Ascii? {
        s := WriteAscii(ptr, len - bufferWritten, p.key, p.value, p.time);
      } else {
        if bufferWritten == 0 {
          s := WriteHeader(ptr, len - bufferWritten, p.time);
          bufferWritten := bufferWritten + s;
          ptr := ptr + s;
          assert buffer[..0] == [];
        }
        s := WriteKv(ptr, len - bufferWritten, p.key, p.value);
      }
      bufferWritten := bufferWritten + s;
      ptr := ptr + s;
    }

    lemma LineNotEmpty(p: Point)
      ensures |Decimal.Line(p.key, p.value, p.time)| > 0
    {
      hide Decimal.Digits;
    }

    /** The key of the record's message; in tskkey format the hash of the stem, computed in place. */
    method RecordKey(p: Point) returns (msgkey: u32)
      requires 0 !in p.key
      ensures msgkey == MsgKey(cfg.format, p)
      ensures cfg.format.TskKeyPart? && DOT !in p.key ==> msgkey == Hash(p.key)
    {
      msgkey := p.time;
      if cfg.format.TskKeyPart? {
        var cstr := new byte[|p.key| + 1](i => if 0 <= i < |p.key| then p.key[i] else 0);
        assert cstr[..cstr.Length - 1] == p.key;
        msgkey := PrefixHash(cstr);
      }
    }

    /** One enabled record of kp_flush: cut on a new hash, write, send when over half full. */
    method AddRecord(p: Point, lasthash0: u32, ptr0: nat, ghost b: Batching,
                     ghost script0: seq<Produce>, ghost sent0: seq<Message>)
      returns (ok: bool, lasthash: u32, msgkey: u32, ptr: nat, ghost stopped: seq<Batch>)
      requires Writable(cfg.format, p) && 0 !in p.key
      requires Tracks(p.time, b, script0, sent0) && ptr0 == bufferWritten && lasthash0 == b.lasthash
      modifies this`bufferWritten, this`script, this`sent, buffer
      ensures ok ==> var e := AddPoint(cfg, p.time, b, p);
        Tracks(p.time, e, script0, sent0) && ptr == bufferWritten && lasthash == e.lasthash && msgkey == e.msgkey
      ensures !ok ==> Stopped(p.time, stopped, script0, sent0) && stopped < AddPoint(cfg, p.time, b, p).done
    {
      hide Payload;
      hide MsgKey;
      hide Deliver;
      hide EncodeAll;
      ok, ptr, lasthash := true, ptr0, lasthash0;
      msgkey := RecordKey(p);
      ghost var c := CutOpen(cfg, b, p);
      assert Payload(cfg, p.time, []) == [] by { PayloadOfNone(cfg, p.time); }
      stopped := b.done;
      if cfg.format.TskKeyPart? {
        if msgkey != lasthash && bufferWritten > 0 {
          ok, ptr := SendBatch(lasthash, p.time, b.open, b.done, script0, sent0);
          if !ok {
            return;
          }
          assert buffer[..0] == [];
        }
        lasthash := msgkey;
      }
      assert Tracks(p.time, c, script0, sent0);
      ptr := WriteRecord(p, ptr, c.open);
      if bufferWritten > BUFFER_LEN / 2 {
        stopped := c.done;
        ok, ptr := SendBatch(msgkey, p.time, c.open + [p], c.done, script0, sent0);
        assert buffer[..0] == [];
      }
    }

    /** timeseries_backend_kafka_kp_flush. */
    method KpFlush(kp: KP, time: u32) returns (rc: int)
      requires Idle()
      requires Sendable(cfg.format, Enabled(kp.infos, time))
      modifies this`bufferWritten, this`script, this`sent, buffer
      ensures Idle() && (rc == 0 || rc == -1)
      ensures rc == 0 <==> NoFatalBefore(old(script), |Messages(cfg, time, kp.infos)|)
      ensures HandedOff(rc, Messages(cfg, time, kp.infos), old(script), script, old(sent), sent)
    {
      hide Deliver;
      hide NoFatalBefore;
      hide EncodeAll;
      hide RunBatching;
      hide AddPoint;
      hide Writable;
      hide Enabled;
      hide Payload;
      AllGetThroughIff(script, |Messages(cfg, time, kp.infos)|);
      var ok, ptr, lasthash, msgkey := true, 0, 0, 0;
      ghost var stopped: seq<Batch>;
      ghost var b := RunBatching(cfg, time, []);
      StartTracks(time);
      assert kp.infos[..0] == [];
      NoneEnabled(time);
      for id := 0 to |kp.infos|
        invariant b == RunBatching(cfg, time, Enabled(kp.infos[..id], time))
        invariant Tracks(time, b, old(script), old(sent))
        invariant ptr == bufferWritten && lasthash == b.lasthash && msgkey == b.msgkey
      {
        VisitEnabled(cfg, time, kp.infos, id);
        VisitedPrefix(cfg, time, kp.infos, id + 1);
        var ki := kp.infos[id];
        if ki.disabled {
          continue;
        }
        EnabledMember(kp.infos, id, time);
        ok, lasthash, msgkey, ptr, stopped :=
          AddRecord(Point(time, ki.key, ki.value), lasthash, ptr, b, old(script), old(sent));
        b := AddPoint(cfg, time, b, Point(time, ki.key, ki.value));
        if !ok {
          StoppedHandsOffPrefix(cfg, time, stopped, Batches(cfg, time, Enabled(kp.infos, time)), old(script), script, old(sent), sent);
          return -1;
        }
      }
      assert kp.infos[..|kp.infos|] == kp.infos;
      if bufferWritten > 0 { // the guard of SEND_MSG: an empty buffer sends nothing
        ok, ptr := SendBatch(msgkey, time, b.open, b.done, old(script), old(sent));
        if !ok {
          StoppedHandsOffPrefix(cfg, time, b.done, Close(b), old(script), script, old(sent), sent);
          return -1;
        }
      }
      AcceptedHandsOffAll(time, Close(b), old(script), old(sent));
      return 0;
    }

    lemma NoneEnabled(time: u32)
      ensures Enabled([], time) == []
    {
    }

    lemma StartTracks(time: u32)
      requires Idle()
      ensures Tracks(time, RunBatching(cfg, time, []), script, sent)
      ensures RunBatching(cfg, time, []) == Batching([], [], 0, 0)
    {
      PayloadOfNone(cfg, time);
      assert buffer[..0] == [];
    }

    lemma AcceptedHandsOffAll(time: u32, bs: seq<Batch>, script0: seq<Produce>, sent0: seq<Message>)
      requires Accepted(time, bs, script0, sent0)
      ensures HandedOff(0, EncodeAll(cfg, time, bs), script0, script, sent0, sent)
    {
      hide Encode;
    }

    /** timeseries_backend_kafka_set_single: one message with one record. */
    method SetSingle(key: Bytes, value: u64, time: u32) returns (rc: int)
      requires Idle() && 0 !in key
      requires if cfg.format.Ascii? then |Record(cfg.format, Point(time, key, value))| < BUFFER_LEN else |key| < UINT16_MAX
      modifies this`bufferWritten, this`script, this`sent, buffer
      ensures Idle()
      ensures rc == 0 <==> NoFatalBefore(old(script), 1)
      ensures HandedOff(rc, [SingleMessage(cfg, Point(time, key, value))], old(script), script, old(sent), sent)
    {
      hide Deliver;
      hide NoFatalBefore;
      hide EncodeAll;
      hide Payload;
      hide MsgKey;
      hide RunBatching;
      AllGetThroughIff(script, 1);
      var p := Point(time, key, value);
      PayloadOfNone(cfg, time);
      assert buffer[..0] == [];
      StartTracks(time);
      var msgkey := RecordKey(p);
      var ptr := WriteRecord(p, 0, []);
      var ok;
      assert [] + [p] == [p];
      ok, ptr := SendBatch(msgkey, time, [p], [], script, sent);
      SingleIsBatch(cfg, p, msgkey);
      assert [] + [Batch(msgkey, [p])] == [Batch(msgkey, [p])];
      if !ok {
        StoppedHandsOffPrefix(cfg, time, [], [Batch(msgkey, [p])], old(script), script, old(sent), sent);
        return -1;
      }
      AcceptedHandsOffAll(time, [Batch(msgkey, [p])], old(script), old(sent));
      return 0;
    }
  }
}
