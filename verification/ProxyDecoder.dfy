/** Decoding of TSK messages in tools/tsk-proxy.c, as functions of the bytes. */
module ProxyDecoder {
  import opened Basics

  const HEADER_MAGIC_LEN: nat := 8
  const HEADER_LEN: nat := HEADER_MAGIC_LEN + 1 + 4 + 2
  const KEY_BUF_LEN: nat := 1024
  const TSKBATCH_VERSION: byte := 0

  datatype KeyVal = KeyVal(key: Bytes, value: u64)

  /** One call of parse_key_value: its return code, the bytes left, and the record read, if any. */
  datatype Step = Step(rc: int, rest: Bytes, record: Option<KeyVal>)

  function ParseOne(buf: Bytes): Step {
    if |buf| < 2 then Step(0, buf, None)
    else
      var keylen := Read16(buf[..2]);
      var rest := buf[2..];
      if |rest| < keylen then Step(1, rest, None)
      else
        var tail := rest[keylen..];
        if |tail| < 8 then Step(0, tail, None)
        else Step(0, tail[8..], Some(KeyVal(rest[..keylen], Read64(tail[..8]))))
  }

  /** How the loop of handle_message ends: all bytes consumed, a key that overruns the message,
      or one leftover byte, on which every further call returns 0 and consumes nothing. */
  datatype End = Complete | Overrun | Stuck

  datatype Parsed = Parsed(records: seq<KeyVal>, end: End)

  function Prepend(record: Option<KeyVal>, p: Parsed): Parsed {
    if record.Some? then p.(records := [record.value] + p.records) else p
  }

  /** The `while (remain > 0)` loop. */
  function ParseBody(body: Bytes): Parsed
    decreases |body|
  {
    if body == [] then Parsed([], Complete)
    else if |body| == 1 then Parsed([], Stuck)
    else
      var s := ParseOne(body);
      if s.rc != 0 then Parsed([], Overrun) else Prepend(s.record, ParseBody(s.rest))
  }

  /** No key the loop copies reaches the size of the proxy's key buffer. */
  predicate ShortKeys(body: Bytes)
    decreases |body|
  {
    |body| >= 2 ==>
      var s := ParseOne(body);
      s.rc == 0 ==> Read16(body[..2]) < KEY_BUF_LEN && ShortKeys(s.rest)
  }

  // ---------- progress ----------

  /** A call stops the loop, or consumes at least two bytes, or leaves a single byte where it is. */
  lemma ParseOneProgress(buf: Bytes)
    requires buf != []
    ensures ParseOne(buf).rc != 0 || |ParseOne(buf).rest| + 2 <= |buf| || (|buf| == 1 && ParseOne(buf) == Step(0, buf, None))
    ensures ParseOne(buf).rest == buf[|buf| - |ParseOne(buf).rest|..]
  {
  }

  /** The loop after at most n iterations. */
  datatype Loop = Exited | Running(rest: Bytes)

  function Iterate(body: Bytes, n: nat): Loop
    decreases n
  {
    if body == [] then Exited
    else if n == 0 then Running(body)
    else
      var s := ParseOne(body);
      if s.rc != 0 then Exited else Iterate(s.rest, n - 1)
  }

  lemma {:induction false} OneByteRunsForever(b: Bytes, n: nat)
    requires |b| == 1
    ensures Iterate(b, n) == Running(b)
  {
    if n > 0 {
      OneByteRunsForever(b, n - 1);
    }
  }

  /** The loop is at its last byte for good. */
  ghost predicate Spins(body: Bytes) {
    body != [] && forall n: nat :: n >= |body| ==> Iterate(body, n) == Running(body[|body| - 1..])
  }

  lemma {:induction false} IterateToEnd(body: Bytes)
    ensures ParseBody(body).end != Stuck ==> Iterate(body, |body|) == Exited
    ensures ParseBody(body).end == Stuck ==> Spins(body)
    decreases |body|
  {
    if |body| == 1 {
      forall n: nat ensures Iterate(body, n) == Running(body) { OneByteRunsForever(body, n); }
      assert body[0..] == body;
    } else if body != [] {
      var s := ParseOne(body);
      ParseOneProgress(body);
      if s.rc == 0 {
        hide ParseOne;
        IterateToEnd(s.rest);
        if ParseBody(body).end == Stuck {
          assert s.rest[|s.rest| - 1..] == body[|body| - 1..];
          forall n: nat | n >= |body| ensures Iterate(body, n) == Running(body[|body| - 1..]) {
            assert Iterate(body, n) == Iterate(s.rest, n - 1);
          }
        } else {
          IterateMore(s.rest, |s.rest|, |body| - 1);
        }
      }
    }
  }

  lemma {:induction false} IterateMore(body: Bytes, n: nat, m: nat)
    requires n <= m && Iterate(body, n) == Exited
    ensures Iterate(body, m) == Exited
    decreases n
  {
    if body != [] && ParseOne(body).rc == 0 {
      IterateMore(ParseOne(body).rest, n - 1, m - 1);
    }
  }

  predicate AtLastByte(body: Bytes, n: nat) {
    Iterate(body, n).Running? && |Iterate(body, n).rest| == 1
  }

  /** The loop terminates if and only if it never has exactly one byte left. */
  lemma LoopTerminatesIff(body: Bytes)
    ensures (exists n: nat :: Iterate(body, n) == Exited) <==> (forall n: nat :: !AtLastByte(body, n))
    ensures (exists n: nat :: Iterate(body, n) == Exited) <==> ParseBody(body).end != Stuck
  {
    IterateToEnd(body);
    hide ParseOne;
    hide ParseBody;
    if ParseBody(body).end == Stuck {
      assert AtLastByte(body, |body|);
      forall n: nat ensures Iterate(body, n) != Exited {
        if Iterate(body, n) == Exited {
          IterateMore(body, n, n + |body|);
          assert false;
        }
      }
    } else {
      forall m: nat ensures !AtLastByte(body, m) {
        if AtLastByte(body, m) {
          IterateOnce(body, m, Iterate(body, m).rest, |body| + m);
          IterateMore(body, |body|, |body| + m);
          assert false;
        }
      }
    }
  }

  lemma {:induction false} IterateOnce(body: Bytes, m: nat, r: Bytes, n: nat)
    requires Iterate(body, m) == Running(r) && |r| == 1 && n >= m
    ensures Iterate(body, n) == Running(r)
    decreases m
  {
    if m == 0 {
      OneByteRunsForever(r, n);
    } else {
      IterateOnce(ParseOne(body).rest, m - 1, r, n - 1);
    }
  }

  // ---------- the header ----------

  datatype Decoded = Skip | Body(time: u32, body: Bytes)

  /** The checks of handle_message before the body; Skip is its early `return 0`. */
  function ParseHeader(channel: Bytes, payload: Bytes): Decoded {
    if |payload| < HEADER_LEN then Skip
    else if payload[HEADER_MAGIC_LEN] != TSKBATCH_VERSION then Skip
    else
      var time := Read32(payload[9..13]);
      var chanlen := Read16(payload[13..15]);
      var rest := payload[HEADER_LEN..];
      if |rest| < chanlen then Skip
      else
        var n := if chanlen < |channel| then chanlen else |channel|;
        if rest[..n] != channel[..n] then Skip else Body(time, rest[chanlen..])
  }

  /** A message is taken exactly when it is any eight bytes, the version, a time, a channel that agrees with
      the configured one as far as the shorter of the two goes, and a body. */
  lemma HeaderAcceptedIff(channel: Bytes, payload: Bytes, t: u32, body: Bytes)
    ensures ParseHeader(channel, payload) == Body(t, body) <==>
      exists magic, c: Bytes ::
        && |magic| == HEADER_MAGIC_LEN && |c| < 0x1_0000
        && (c <= channel || channel <= c)
        && payload == magic + [TSKBATCH_VERSION] + BigEndian(t, 4) + BigEndian(|c|, 2) + c + body
  {
    hide FromBigEndian;
    hide BigEndian;
    if ParseHeader(channel, payload) == Body(t, body) {
      HeaderShape(channel, payload, t, body);
    }
    forall magic, c: Bytes |
      && |magic| == HEADER_MAGIC_LEN && |c| < 0x1_0000
      && (c <= channel || channel <= c)
      && payload == magic + [TSKBATCH_VERSION] + BigEndian(t, 4) + BigEndian(|c|, 2) + c + body
      ensures ParseHeader(channel, payload) == Body(t, body)
    {
      ShapeIsAccepted(channel, magic, c, t, body);
    }
  }

  lemma ShapeIsAccepted(channel: Bytes, magic: Bytes, c: Bytes, t: u32, body: Bytes)
    requires |magic| == HEADER_MAGIC_LEN && |c| < 0x1_0000 && (c <= channel || channel <= c)
    ensures ParseHeader(channel, magic + [TSKBATCH_VERSION] + BigEndian(t, 4) + BigEndian(|c|, 2) + c + body) == Body(t, body)
  {
    hide FromBigEndian;
    hide BigEndian;
    var payload := magic + [TSKBATCH_VERSION] + BigEndian(t, 4) + BigEndian(|c|, 2) + c + body;
    ReadBack(|c|, t, 0);
    FixedPart(magic, BigEndian(t, 4), BigEndian(|c|, 2), c + body);
    ConcatAssoc(magic + [TSKBATCH_VERSION] + BigEndian(t, 4) + BigEndian(|c|, 2), c, body);
    var n := if |c| < |channel| then |c| else |channel|;
    assert (c + body)[..n] == c[..n] == channel[..n];
    assert (c + body)[|c|..] == body;
  }

  lemma FixedPart(magic: Bytes, time: Bytes, chanlen: Bytes, rest: Bytes)
    requires |magic| == HEADER_MAGIC_LEN && |time| == 4 && |chanlen| == 2
    ensures var payload := magic + [TSKBATCH_VERSION] + time + chanlen + rest;
      && |payload| == HEADER_LEN + |rest| && payload[HEADER_MAGIC_LEN] == TSKBATCH_VERSION
      && payload[9..13] == time && payload[13..15] == chanlen && payload[HEADER_LEN..] == rest
  {
  }

  lemma {:induction false} ReadIsInverse(s: Bytes)
    ensures BigEndian(FromBigEndian(s), |s|) == s
  {
    if s != [] {
      ReadIsInverse(s[..|s| - 1]);
      assert s == s[..|s| - 1] + [s[|s| - 1]];
    }
  }

  lemma HeaderShape(channel: Bytes, payload: Bytes, t: u32, body: Bytes)
    requires ParseHeader(channel, payload) == Body(t, body)
    ensures exists magic, c: Bytes ::
      && |magic| == HEADER_MAGIC_LEN && |c| < 0x1_0000
      && (c <= channel || channel <= c)
      && payload == magic + [TSKBATCH_VERSION] + BigEndian(t, 4) + BigEndian(|c|, 2) + c + body
  {
    hide FromBigEndian;
    hide BigEndian;
    var chanlen := Read16(payload[13..15]);
    var magic, c := payload[..HEADER_MAGIC_LEN], payload[HEADER_LEN..][..chanlen];
    ReadIsInverse(payload[9..13]);
    ReadIsInverse(payload[13..15]);
    assert c <= channel || channel <= c by {
      var n := if chanlen < |channel| then chanlen else |channel|;
      assert c[..n] == payload[HEADER_LEN..][..n] == channel[..n];
    }
    assert payload == magic + [payload[HEADER_MAGIC_LEN]] + payload[9..13] + payload[13..15] + c + body;
  }

  // ---------- filters and points ----------

  /** A key passes when no filter is configured or some filter is a prefix of it. */
  predicate Passes(filters: seq<Bytes>, key: Bytes) {
    filters == [] || exists i :: 0 <= i < |filters| && filters[i] <= key
  }

  /** There is no filter, or the key is some filter with something behind it. */
  ghost predicate UnderSomeFilter(filters: seq<Bytes>, key: Bytes) {
    filters == [] || exists i, s: Bytes :: 0 <= i < |filters| && key == filters[i] + s
  }

  lemma PassesIff(filters: seq<Bytes>, key: Bytes)
    ensures Passes(filters, key) <==> UnderSomeFilter(filters, key)
  {
    if i :| 0 <= i < |filters| && filters[i] <= key {
      assert key == filters[i] + key[|filters[i]|..];
    }
  }

  /** Every filter counts, wherever it stands. */
  lemma EveryFilterCounts(a: seq<Bytes>, b: seq<Bytes>, key: Bytes, i: nat, s: Bytes)
    ensures a != [] && b != [] ==> (Passes(a + b, key) <==> Passes(a, key) || Passes(b, key))
    ensures i < |a| ==> Passes(a, a[i] + s)
  {
    if i :| 0 <= i < |a| && a[i] <= key {
      assert (a + b)[i] <= key;
    }
    if i :| 0 <= i < |b| && b[i] <= key {
      assert (a + b)[|a| + i] <= key;
    }
    assert i < |a| ==> a[i] <= a[i] + s;
  }

  /** A key that is shorter than the one filter, or differs from it, is dropped. */
  lemma OthersAreDropped(filter: Bytes, key: Bytes, i: nat)
    requires i < |filter| && (i >= |key| || key[i] != filter[i])
    ensures !Passes([filter], key)
  {
  }

  /** The points the proxy takes from the records: those that pass, under the C string of their key. */
  function Kept(filters: seq<Bytes>, t: u32, records: seq<KeyVal>): seq<Point> {
    if records == [] then []
    else
      (if Passes(filters, records[0].key) then [Point(t, CString(records[0].key), records[0].value)] else [])
      + Kept(filters, t, records[1..])
  }

  /** The points taken are exactly those of the records whose key is under some filter. */
  lemma {:induction false} KeptIff(filters: seq<Bytes>, t: u32, records: seq<KeyVal>, p: Point)
    ensures p in Kept(filters, t, records) <==> exists i :: 0 <= i < |records| && Gives(filters, t, records[i], p)
    decreases |records|
  {
    hide Passes;
    hide CString;
    hide UnderSomeFilter;
    if records != [] {
      var rest := records[1..];
      PassesIff(filters, records[0].key);
      KeptIff(filters, t, rest, p);
      if i :| 0 <= i < |rest| && Gives(filters, t, rest[i], p) {
        assert Gives(filters, t, records[i + 1], p);
      }
      if i :| 0 <= i < |records| && Gives(filters, t, records[i], p) {
        assert i > 0 ==> Gives(filters, t, rest[i - 1], p);
      }
    }
  }

  /** The point is the record's, under the C string of its key, and the key is under some filter. */
  ghost predicate Gives(filters: seq<Bytes>, t: u32, record: KeyVal, p: Point) {
    p == Point(t, CString(record.key), record.value) && UnderSomeFilter(filters, record.key)
  }

  datatype ProxyConfig = ProxyConfig(channel: Bytes, filters: seq<Bytes>)

  /** Everything a message contributes. */
  function MessagePoints(cfg: ProxyConfig, payload: Bytes): seq<Point> {
    match ParseHeader(cfg.channel, payload)
    case Skip => []
    case Body(t, body) => Kept(cfg.filters, t, ParseBody(body).records)
  }

  /** A message contributes exactly the records decoded from it whose key is under some filter, each under
      the message's time and the C string of its key. */
  lemma MessagePointsIff(cfg: ProxyConfig, payload: Bytes, t: u32, body: Bytes, records: seq<KeyVal>, p: Point)
    requires ParseHeader(cfg.channel, payload) == Body(t, body) && ParseBody(body).records == records
    ensures p in MessagePoints(cfg, payload) <==> exists i :: 0 <= i < |records| && Gives(cfg.filters, t, records[i], p)
  {
    hide ParseHeader;
    hide Gives;
    KeptIff(cfg.filters, t, records, p);
  }

  predicate MessageHangs(cfg: ProxyConfig, payload: Bytes) {
    match ParseHeader(cfg.channel, payload)
    case Skip => false
    case Body(t, body) => ParseBody(body).end == Stuck
  }

  predicate MessageKeysFit(cfg: ProxyConfig, payload: Bytes) {
    match ParseHeader(cfg.channel, payload)
    case Skip => true
    case Body(t, body) => ShortKeys(body)
  }
}
