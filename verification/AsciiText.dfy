/** The printer of lib/backends/timeseries_backend_ascii.c against the line parser of tools/timeseries-insert.c. */
module AsciiText {
  import opened Basics
  import opened Decimal
  import opened KeyPackage
  import opened KafkaFormat

  // ---------- the printer ----------

  /** The text of a flush: one line per point. */
  function Text(points: seq<Point>): Bytes {
    Records(Format.Ascii, points)
  }

  class AsciiBackend {
    /** Everything printed so far. */
    var out: Bytes

    constructor ()
      ensures out == []
    {
      out := [];
    }

    /** snprintf of a uint32 into the 11-byte time buffer: at most 10 characters and a NUL. */
    method TimeBuffer(time: u32) returns (buffer: array<byte>)
      ensures fresh(buffer) && buffer.Length == 11
      ensures CString(buffer[..]) == Digits(time)
    {
      hide Digits;
      buffer := new byte[11](_ => 0);
      var text := Digits(time);
      DecimalWidths(0, time);
      DigitsDenote(time);
      var n := if |text| < 11 then |text| else 10;
      for i := 0 to n
        invariant forall j :: 0 <= j < i ==> buffer[j] == text[j]
        invariant forall j :: i <= j < 11 ==> buffer[j] == 0
      {
        buffer[i] := text[i];
      }
      assert buffer[..] == text + buffer[..][|text|..];
      CStringPrefix(text, buffer[..][|text|..]);
    }

    lemma {:induction false} CStringPrefix(s: Bytes, tail: Bytes)
      requires forall i :: 0 <= i < |s| ==> s[i] != 0
      requires tail != [] && tail[0] == 0
      ensures CString(s + tail) == s
    {
      if s != [] {
        assert (s + tail)[1..] == s[1..] + tail;
        CStringPrefix(s[1..], tail);
      }
    }

    /** timeseries_backend_ascii_kp_flush. */
    method KpFlush(kp: KP, time: u32) returns (rc: int)
      modifies this
      ensures rc == 0 && out == old(out) + Text(Enabled(kp.infos, time))
    {
      hide Digits;
      hide CString;
      hide PrintMetric;
      hide Line;
      var infos := kp.infos;
      var timeBuffer := TimeBuffer(time);
      var timeString := CString(timeBuffer[..]);
      assert infos[..0] == [] && Text(Enabled([], time)) == [];
      hide Text;
      hide Enabled;
      for id := 0 to |infos|
        invariant out == old(out) + Text(Enabled(infos[..id], time))
      {
        TextStep(infos, id, time);
        if !infos[id].disabled {
          var metric := PrintMetric(infos[id].key, infos[id].value, timeString);
          ConcatAssoc(old(out), Text(Enabled(infos[..id], time)), metric);
          out := out + metric;
        }
      }
      assert infos[..|infos|] == infos;
      return 0;
    }

    /** timeseries_backend_ascii_set_single. */
    method SetSingle(key: Bytes, value: u64, time: u32) returns (rc: int)
      modifies this
      ensures rc == 0 && out == old(out) + Text([Point(time, key, value)])
    {
      hide Digits;
      hide CString;
      var timeBuffer := TimeBuffer(time);
      TextSnoc([], Point(time, key, value));
      out := out + PrintMetric(key, value, CString(timeBuffer[..]));
      return 0;
    }
  }

  /** "%s %PRIu64 %s\n" */
  function PrintMetric(key: Bytes, value: u64, time: Bytes): Bytes {
    key + [SPACE] + Digits(value) + [SPACE] + time + [NEWLINE]
  }

  /** One more record visited. */
  lemma TextStep(infos: seq<KeyInfo>, id: nat, time: u32)
    requires id < |infos|
    ensures infos[id].disabled ==> Text(Enabled(infos[..id + 1], time)) == Text(Enabled(infos[..id], time))
    ensures !infos[id].disabled ==>
      Text(Enabled(infos[..id + 1], time)) == Text(Enabled(infos[..id], time)) + PrintMetric(infos[id].key, infos[id].value, Digits(time))
  {
    hide Text;
    hide Enabled;
    hide Line;
    hide PrintMetric;
    hide Digits;
    EnabledSnoc(infos, id, time);
    var before := Enabled(infos[..id], time);
    if infos[id].disabled {
      assert before + [] == before;
    } else {
      TextSnoc(before, Point(time, infos[id].key, infos[id].value));
      MetricIsLine(infos[id].key, infos[id].value, time);
    }
  }

  lemma MetricIsLine(key: Bytes, value: u64, time: u32)
    ensures PrintMetric(key, value, Digits(time)) == Line(key, value, time)
  {
    hide Digits;
  }

  lemma TextSnoc(points: seq<Point>, p: Point)
    ensures Text(points + [p]) == Text(points) + Line(p.key, p.value, p.time)
    ensures Text([]) == []
    ensures points == [] ==> points + [p] == [p]
  {
    hide Line;
    assert (points + [p])[..|points|] == points;
  }

  // ---------- the C library calls of the parser ----------

  /** strsep(&line, " "): the next token and what is left; no line, no token. */
  function StrSep(line: Option<Bytes>): (Option<Bytes>, Option<Bytes>) {
    if line.None? then (None, None)
    else
      var i := FirstSpace(line.value);
      if i == |line.value| then (line, None) else (Some(line.value[..i]), Some(line.value[i + 1..]))
  }

  /** Position of the first space, or the length. */
  function FirstSpace(s: Bytes): (i: nat)
    ensures i <= |s|
    ensures i < |s| ==> s[i] == SPACE
    ensures forall j :: 0 <= j < i ==> s[j] != SPACE
  {
    if s == [] || s[0] == SPACE then 0 else FirstSpace(s[1..]) + 1
  }

  predicate IsSpace(b: byte) { b == 32 || 9 <= b <= 13 }

  function SkipSpaces(s: Bytes): (n: nat)
    ensures n <= |s|
  {
    if s == [] || !IsSpace(s[0]) then 0 else SkipSpaces(s[1..]) + 1
  }

  function CountDigits(s: Bytes): (n: nat)
    ensures n <= |s|
  {
    if s == [] || !IsDigit(s[0]) then 0 else CountDigits(s[1..]) + 1
  }

  /** strtoull(s, &end, 10), and strtoul where unsigned long has 64 bits: value, end, ERANGE. */
  function StrToU64(s: Bytes): (r: (u64, nat, bool)) {
    var start := SkipSpaces(s);
    var signed := start < |s| && (s[start] == 43 || s[start] == 45);
    var first := if signed then start + 1 else start;
    var n := CountDigits(s[first..]);
    if n == 0 then (0, 0, false)
    else
      var magnitude := Denotes(s[first..][..n]);
      if magnitude >= 0x1_0000_0000_0000_0000 then (0xFFFF_FFFF_FFFF_FFFF, first + n, true)
      else (if signed && s[start] == 45 then (-magnitude) % 0x1_0000_0000_0000_0000 else magnitude % 0x1_0000_0000_0000_0000,
            first + n, false)
  }

  // ---------- insert(): one line ----------

  /** What insert makes of a line: a point or nothing, and whether errno is ERANGE afterwards.
      Nothing ever clears errno. */
  datatype LineResult = LineResult(point: Option<Point>, erange: bool)

  function ParseLine(line: Bytes, erange: bool): LineResult {
    var (key, rest1) := StrSep(Some(line));
    var (valueStr, rest2) := StrSep(rest1);
    if valueStr.None? then LineResult(None, erange)
    else
      var v := StrToU64(valueStr.value);
      var erange1 := erange || v.2;
      if v.1 == 0 || v.1 != |valueStr.value| || erange1 then LineResult(None, erange1)
      else
        var (timeStr, rest3) := StrSep(rest2);
        if timeStr.None? then LineResult(None, erange1)
        else
          var t := StrToU64(timeStr.value);
          var erange2 := erange1 || t.2;
          if t.1 == 0 || t.1 != |timeStr.value| || erange2 then LineResult(None, erange2)
          else LineResult(Some(Point(t.0 % 0x1_0000_0000, key.value, v.0)), erange2)
  }
}

/** Reading back what was printed. */
module AsciiRoundTrip {
  import opened Basics
  import opened Decimal
  import opened AsciiText

  const BUFFER_LEN: nat := 1024
  const HASH: byte := 35

  // ---------- the read loop of main ----------

  /** wandio_fgets into a buffer of 1024 bytes, the newline chomped: at most 1023 bytes at a time. */
  function NextLine(text: Bytes): (r: (Bytes, Bytes))
    requires text != []
    ensures |r.1| < |text| && |r.0| < BUFFER_LEN && NEWLINE !in r.0
    ensures text == r.0 + [NEWLINE] + r.1 || (text == r.0 + r.1 && (r.1 == [] || |r.0| == BUFFER_LEN - 1))
  {
    var i := FirstNewline(text);
    if i < |text| && i < BUFFER_LEN - 1 then (text[..i], text[i + 1..])
    else if |text| < BUFFER_LEN then (text, [])
    else (text[..BUFFER_LEN - 1], text[BUFFER_LEN - 1..])
  }

  /** Position of the first newline, or the length. */
  function FirstNewline(s: Bytes): (i: nat)
    ensures i <= |s|
    ensures i < |s| ==> s[i] == NEWLINE
    ensures forall j :: 0 <= j < i ==> s[j] != NEWLINE
  {
    if s == [] || s[0] == NEWLINE then 0 else FirstNewline(s[1..]) + 1
  }

  /** Comments and empty lines are ignored; the buffer is read as a C string. */
  function ReadLine(line: Bytes, erange: bool): LineResult {
    var s := CString(line);
    if s == [] || s[0] == HASH then LineResult(None, erange) else ParseLine(s, erange)
  }

  /** The points accepted from a text, in order. */
  function ReadText(text: Bytes, erange: bool): seq<Point>
    decreases |text|
  {
    if text == [] then []
    else
      var (line, rest) := NextLine(text);
      var p := ReadLine(line, erange);
      (if p.point.Some? then [p.point.value] else []) + ReadText(rest, p.erange)
  }

  /** Once a number was out of range, errno stays ERANGE and nothing more is accepted from any text. */
  lemma {:induction false} ErangeIsForever(text: Bytes)
    ensures ReadText(text, true) == []
    decreases |text|
  {
    hide NextLine;
    hide StrToU64;
    hide CString;
    if text != [] {
      ErangeIsForever(NextLine(text).1);
    }
  }

  /** A key without a space, a newline or a leading '#'. */
  predicate AllClean(points: seq<Point>) {
    forall i :: 0 <= i < |points| ==> Clean(points[i].key)
  }

  /** C strings whose lines fit the read buffer. */
  predicate Printable(points: seq<Point>) {
    forall i :: 0 <= i < |points| ==> 0 !in points[i].key && Fits(points[i])
  }

  // ---------- every accepted key is clean ----------

  /** No space, no newline, no leading '#'. */
  predicate Clean(key: Bytes) {
    SPACE !in key && NEWLINE !in key && (key != [] ==> key[0] != HASH)
  }

  lemma {:induction false} CStringIsPrefix(s: Bytes)
    ensures CString(s) <= s
  {
    if s != [] && s[0] != 0 {
      CStringIsPrefix(s[1..]);
    }
  }

  lemma AcceptedKeyIsToken(line: Bytes, erange: bool)
    requires ParseLine(line, erange).point.Some?
    ensures var k := ParseLine(line, erange).point.value.key; k <= line && SPACE !in k
  {
    hide StrToU64;
    assert ParseLine(line, erange).point.value.key == StrSep(Some(line)).0.value;
  }

  lemma {:induction false} AcceptedKeysClean(text: Bytes, erange: bool)
    ensures forall p :: p in ReadText(text, erange) ==> Clean(p.key)
    decreases |text|
  {
    hide ParseLine;
    hide NextLine;
    hide CString;
    if text != [] {
      var (line, rest) := NextLine(text);
      CStringIsPrefix(line);
      var s := CString(line);
      var p := ReadLine(line, erange);
      AcceptedKeysClean(rest, p.erange);
      if p.point.Some? {
        AcceptedKeyIsToken(s, erange);
        PrefixClean(p.point.value.key, s, line);
      }
    }
  }

  lemma PrefixClean(key: Bytes, s: Bytes, line: Bytes)
    requires key <= s <= line && NEWLINE !in line && SPACE !in key
    requires s != [] && s[0] != HASH
    ensures Clean(key)
  {
    assert forall i :: 0 <= i < |key| ==> key[i] == line[i];
  }

  // ---------- one printed line ----------

  lemma {:induction false} NumberReadsBack(n: nat)
    requires n < 0x1_0000_0000_0000_0000
    ensures StrToU64(Digits(n)) == (n, |Digits(n)|, false)
  {
    hide Digits;
    hide Denotes;
    var s := Digits(n);
    DigitsDenote(n);
    assert IsDigit(s[0]);
    AllDigitsCounted(s);
    assert s[0..] == s && s[..|s|] == s;
  }

  lemma {:induction false} AllDigitsCounted(s: Bytes)
    requires forall i :: 0 <= i < |s| ==> IsDigit(s[i])
    ensures CountDigits(s) == |s|
  {
    if s != [] {
      AllDigitsCounted(s[1..]);
    }
  }

  lemma {:induction false} FirstSpaceAfter(a: Bytes, b: Bytes)
    requires SPACE !in a
    ensures FirstSpace(a + [SPACE] + b) == |a|
    ensures FirstSpace(a) == |a|
  {
    if a != [] {
      assert (a + [SPACE] + b)[1..] == a[1..] + [SPACE] + b;
      FirstSpaceAfter(a[1..], b);
    }
  }

  lemma TokenThenRest(a: Bytes, b: Bytes)
    requires SPACE !in a
    ensures StrSep(Some(a + [SPACE] + b)) == (Some(a), Some(b))
    ensures StrSep(Some(a)) == (Some(a), None)
  {
    FirstSpaceAfter(a, b);
    var s := a + [SPACE] + b;
    assert s[..|a|] == a && s[|a| + 1..] == b;
  }

  lemma DigitsAreTokens(n: nat)
    ensures forall b :: b in Digits(n) ==> b != SPACE && b != NEWLINE && b != 0
  {
    DigitsDenote(n);
  }

  /** A printed line without its newline. */
  function Printed(p: Point): Bytes {
    p.key + [SPACE] + (Digits(p.value) + [SPACE] + Digits(p.time))
  }

  lemma PrintedParses(p: Point)
    requires SPACE !in p.key
    ensures ParseLine(Printed(p), false) == LineResult(Some(p), false)
  {
    hide Digits;
    hide StrSep;
    hide StrToU64;
    var v, t := Digits(p.value), Digits(p.time);
    DigitsAreTokens(p.value);
    DigitsAreTokens(p.time);
    TokenThenRest(p.key, v + [SPACE] + t);
    TokenThenRest(v, t);
    TokenThenRest(t, []);
    NumberReadsBack(p.value);
    NumberReadsBack(p.time);
    DigitsDenote(p.value);
    DigitsDenote(p.time);
  }

  lemma {:induction false} FirstNewlineAfter(a: Bytes, b: Bytes)
    requires NEWLINE !in a
    ensures FirstNewline(a + [NEWLINE] + b) == |a|
  {
    if a != [] {
      assert (a + [NEWLINE] + b)[1..] == a[1..] + [NEWLINE] + b;
      FirstNewlineAfter(a[1..], b);
    }
  }

  /** The line fits the read buffer with its NUL. */
  predicate Fits(p: Point) { |Printed(p)| < BUFFER_LEN - 1 }

  lemma PrintedLineAlone(p: Point)
    requires Clean(p.key) && 0 !in p.key
    ensures NEWLINE !in Printed(p) && ReadLine(Printed(p), false) == LineResult(Some(p), false)
  {
    hide ParseLine;
    hide Digits;
    var line := Printed(p);
    DigitsAreTokens(p.value);
    DigitsAreTokens(p.time);
    assert 0 !in line;
    CStringOfClean(line);
    assert line[0] != HASH;
    PrintedParses(p);
  }

  lemma FirstLine(line: Bytes, rest: Bytes)
    requires NEWLINE !in line && |line| < BUFFER_LEN - 1
    ensures NextLine(line + [NEWLINE] + rest) == (line, rest)
  {
    hide FirstNewline;
    FirstNewlineAfter(line, rest);
    var text := line + [NEWLINE] + rest;
    assert text[..|line|] == line && text[|line| + 1..] == rest;
  }

  /** A printed line at the front of a text is read back as its point, with nothing left of it. */
  lemma PrintedLineReads(p: Point, rest: Bytes)
    requires Clean(p.key) && 0 !in p.key && Fits(p)
    ensures ReadText(Printed(p) + [NEWLINE] + rest, false) == [p] + ReadText(rest, false)
  {
    hide ReadLine;
    hide NextLine;
    hide Printed;
    PrintedLineAlone(p);
    FirstLine(Printed(p), rest);
  }

  // ---------- a whole flush ----------

  lemma TextFront(points: seq<Point>)
    requires points != []
    ensures Text(points) == Printed(points[0]) + [NEWLINE] + Text(points[1..])
  {
    hide Text;
    hide Line;
    hide Printed;
    var p := points[0];
    assert points == [p] + points[1..];
    TextConcat([p], points[1..]);
    TextSnoc([], p);
    LineIsPrinted(p);
  }

  lemma LineIsPrinted(p: Point)
    ensures Line(p.key, p.value, p.time) == Printed(p) + [NEWLINE]
  {
    hide Digits;
  }

  lemma {:induction false} TextConcat(a: seq<Point>, b: seq<Point>)
    ensures Text(a + b) == Text(a) + Text(b)
    decreases |b|
  {
    hide Line;
    if b == [] {
      assert a + b == a;
    } else {
      var n := |b| - 1;
      assert a + b == (a + b[..n]) + [b[n]] && b == b[..n] + [b[n]];
      TextSnoc(a + b[..n], b[n]);
      TextSnoc(b[..n], b[n]);
      TextConcat(a, b[..n]);
    }
  }

  lemma {:induction false} CleanTextReadsBack(points: seq<Point>)
    requires Printable(points) && AllClean(points)
    ensures ReadText(Text(points), false) == points
    decreases |points|
  {
    hide ReadText;
    hide Clean;
    hide Printed;
    hide Fits;
    NothingToRead();
    if points != [] {
      TextFront(points);
      PrintedLineReads(points[0], Text(points[1..]));
      CleanTextReadsBack(points[1..]);
    }
  }

  lemma NothingToRead()
    ensures ReadText([], false) == []
    ensures Text([]) == []
  {
  }

  /** Reading the text of a flush gives back its points exactly when no key has a space, a newline or a
      leading '#'. Value and time are any uint64 and uint32; each line must fit the read buffer, and no
      number may have been out of range before. */
  lemma TextReadsBackIff(points: seq<Point>)
    requires Printable(points)
    ensures ReadText(Text(points), false) == points <==> AllClean(points)
  {
    hide ReadText;
    hide Text;
    hide Clean;
    AcceptedKeysClean(Text(points), false);
    if AllClean(points) {
      CleanTextReadsBack(points);
    }
  }

  // ---------- lines lost to a stale errno ----------

  function Lines(text: Bytes): seq<Bytes>
    decreases |text|
  {
    if text == [] then [] else [NextLine(text).0] + Lines(NextLine(text).1)
  }

  /** The points of the lines that are acceptable on their own, each read with errno clear. */
  function Alone(lines: seq<Bytes>): seq<Point> {
    if lines == [] then []
    else
      var p := ReadLine(lines[0], false).point;
      (if p.Some? then [p.value] else []) + Alone(lines[1..])
  }

  predicate Acceptable(line: Bytes) { ReadLine(line, false).point.Some? }

  /** The line holds a number that does not fit 64 bits where strtoull or strtoul reads it. */
  predicate OutOfRange(line: Bytes) { ReadLine(line, false).erange }

  /** An acceptable line stands somewhere after a number out of range. */
  predicate AcceptableAfterOutOfRange(lines: seq<Bytes>) {
    exists i, j :: 0 <= i < j < |lines| && OutOfRange(lines[i]) && Acceptable(lines[j])
  }

  predicate SomeAcceptable(lines: seq<Bytes>) {
    exists j :: 0 <= j < |lines| && Acceptable(lines[j])
  }

  lemma {:induction false} AloneIsEmptyIff(lines: seq<Bytes>)
    ensures Alone(lines) != [] <==> SomeAcceptable(lines)
  {
    hide ReadLine;
    if lines != [] {
      var rest := lines[1..];
      AloneIsEmptyIff(rest);
      if j :| 0 <= j < |rest| && Acceptable(rest[j]) {
        assert Acceptable(lines[j + 1]);
      }
      if j :| 0 <= j < |lines| && Acceptable(lines[j]) {
        assert j == 0 || Acceptable(rest[j - 1]);
      }
    }
  }

  lemma LostAtOrAfterFirst(lines: seq<Bytes>)
    requires lines != []
    ensures AcceptableAfterOutOfRange(lines) <==>
      AcceptableAfterOutOfRange(lines[1..]) || (OutOfRange(lines[0]) && SomeAcceptable(lines[1..]))
  {
    hide Acceptable;
    hide OutOfRange;
    var rest := lines[1..];
    assert forall j :: 0 <= j < |rest| ==> rest[j] == lines[j + 1];
    if i, j :| 0 <= i < j < |lines| && OutOfRange(lines[i]) && Acceptable(lines[j]) {
      assert Acceptable(rest[j - 1]);
      if i > 0 {
        assert OutOfRange(rest[i - 1]);
      }
    }
  }

  lemma OutOfRangeIsRefused(line: Bytes)
    ensures OutOfRange(line) ==> !Acceptable(line)
  {
    hide StrToU64;
    hide StrSep;
  }

  /** A text is read as its lines would be one by one exactly when no acceptable line stands after a number
      out of range: errno is never cleared. */
  lemma {:induction false} NothingIsLostIff(text: Bytes)
    ensures ReadText(text, false) == Alone(Lines(text)) <==> !AcceptableAfterOutOfRange(Lines(text))
    decreases |text|
  {
    hide ReadLine;
    hide NextLine;
    hide AcceptableAfterOutOfRange;
    hide SomeAcceptable;
    if text == [] {
      NoLineIsLost();
    } else {
      var (line, rest) := NextLine(text);
      var after := Lines(rest);
      assert Lines(text) == [line] + after;
      LostAtOrAfterFirst([line] + after);
      assert ([line] + after)[1..] == after;
      NothingIsLostIff(rest);
      if OutOfRange(line) {
        OutOfRangeIsRefused(line);
        ErangeIsForever(rest);
        AloneIsEmptyIff(after);
        LostAmong(after);
        assert ReadText(text, false) == [];
      } else {
        var p := ReadLine(line, false).point;
        SameFront(if p.Some? then [p.value] else [], ReadText(rest, false), Alone(after));
      }
    }
  }

  lemma SameFront(front: seq<Point>, a: seq<Point>, b: seq<Point>)
    ensures front + a == front + b <==> a == b
  {
    if front + a == front + b {
      assert a == (front + a)[|front|..] == (front + b)[|front|..] == b;
    }
  }

  lemma NoLineIsLost()
    ensures !AcceptableAfterOutOfRange([])
  {
  }

  lemma LostAmong(lines: seq<Bytes>)
    ensures AcceptableAfterOutOfRange(lines) ==> SomeAcceptable(lines)
  {
  }

  lemma BigNumberIsOutOfRange(n: nat)
    requires n >= 0x1_0000_0000_0000_0000
    ensures StrToU64(Digits(n)) == (0xFFFF_FFFF_FFFF_FFFF, |Digits(n)|, true)
  {
    hide Digits;
    hide Denotes;
    var s := Digits(n);
    DigitsDenote(n);
    assert IsDigit(s[0]);
    AllDigitsCounted(s);
    assert s[0..] == s && s[..|s|] == s;
  }

  /** "<key> <value> <time>" for a value of any size. */
  function AnyLine(key: Bytes, value: nat, time: nat): Bytes {
    key + [SPACE] + (Digits(value) + [SPACE] + Digits(time))
  }

  lemma BigLineIsOutOfRange(key: Bytes, value: nat, time: nat)
    requires Clean(key) && 0 !in key && value >= 0x1_0000_0000_0000_0000
    ensures NEWLINE !in AnyLine(key, value, time)
    ensures ReadLine(AnyLine(key, value, time), false) == LineResult(None, true)
  {
    hide Digits;
    hide StrSep;
    hide StrToU64;
    var line, v, t := AnyLine(key, value, time), Digits(value), Digits(time);
    DigitsAreTokens(value);
    DigitsAreTokens(time);
    CStringOfClean(line);
    assert line[0] != HASH;
    TokenThenRest(key, v + [SPACE] + t);
    TokenThenRest(v, t);
    BigNumberIsOutOfRange(value);
  }

  lemma {:induction false} CleanTextAlone(points: seq<Point>)
    requires Printable(points) && AllClean(points)
    ensures Alone(Lines(Text(points))) == points
    decreases |points|
  {
    hide NextLine;
    hide ReadLine;
    hide Clean;
    hide Printed;
    hide Text;
    NothingToRead();
    if points != [] {
      var p, rest := points[0], Text(points[1..]);
      TextFront(points);
      PrintedLineAlone(p);
      assert Fits(p);
      FirstLine(Printed(p), rest);
      CleanTextAlone(points[1..]);
      assert Lines(Text(points)) == [Printed(p)] + Lines(rest);
    }
  }

  /** One value too big in front of a printed flush: every line of the flush is acceptable, none is accepted. */
  lemma OneBigValueLosesTheRest(key: Bytes, value: nat, time: nat, points: seq<Point>)
    requires Clean(key) && 0 !in key && value >= 0x1_0000_0000_0000_0000 && |AnyLine(key, value, time)| < BUFFER_LEN - 1
    requires Printable(points) && AllClean(points)
    ensures ReadText(AnyLine(key, value, time) + [NEWLINE] + Text(points), false) == []
    ensures Alone(Lines(AnyLine(key, value, time) + [NEWLINE] + Text(points))) == points
  {
    hide NextLine;
    hide ReadLine;
    hide Clean;
    hide AnyLine;
    hide Text;
    var line := AnyLine(key, value, time);
    var text := line + [NEWLINE] + Text(points);
    BigLineIsOutOfRange(key, value, time);
    FirstLine(line, Text(points));
    assert Lines(text) == [line] + Lines(Text(points));
    ErangeIsForever(Text(points));
    CleanTextAlone(points);
  }

  /** "a 18446744073709551616 1", then "b 1 1": the second line is lost. */
  lemma LostLine() returns (text: Bytes)
    ensures text == [97, SPACE] + Digits(0x1_0000_0000_0000_0000) + [SPACE] + Digits(1) + [NEWLINE] + Text([Point(1, [98], 1)])
    ensures ReadText(text, false) == [] && Alone(Lines(text)) == [Point(1, [98], 1)]
    ensures AcceptableAfterOutOfRange(Lines(text))
  {
    hide Digits;
    hide Text;
    hide ReadText;
    hide Alone;
    hide Lines;
    var n, q := 0x1_0000_0000_0000_0000, Point(1, [98], 1);
    DecimalWidths(1, 1);
    TwentyDigits();
    assert Printable([q]) && AllClean([q]) by {
      assert |Printed(q)| == 3 + |Digits(1)| + |Digits(1)|;
    }
    var line := AnyLine([97], n, 1);
    assert line == [97, SPACE] + Digits(n) + [SPACE] + Digits(1);
    OneBigValueLosesTheRest([97], n, 1, [q]);
    text := line + [NEWLINE] + Text([q]);
    NothingIsLostIff(text);
  }

  lemma TwentyDigits()
    ensures |Digits(0x1_0000_0000_0000_0000)| <= 20
  {
    PowersOfTen();
    DigitsLength(0x1_0000_0000_0000_0000, 20);
  }
}
