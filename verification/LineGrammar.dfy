/** Which lines insert accepts, and as what: strsep, strtoull and strtoul described by the shape of their input. */
module LineGrammar {
  import opened Basics
  import opened Decimal
  import opened AsciiText
  import opened AsciiRoundTrip

  const PLUS: byte := 43
  const MINUS: byte := 45
  const TWO64: nat := 0x1_0000_0000_0000_0000

  // ---------- numbers ----------

  /** White space, at most one sign, and at least one digit. */
  predicate Parts(space: Bytes, sign: Bytes, digits: Bytes) {
    && (forall b :: b in space ==> IsSpace(b))
    && (sign == [] || sign == [PLUS] || sign == [MINUS])
    && digits != [] && forall b :: b in digits ==> IsDigit(b)
  }

  /** What cannot be part of a number any more. */
  predicate Junk(s: Bytes) {
    s == [] || !IsDigit(s[0])
  }

  /** A minus sign negates in uint64_t. */
  function Signed(sign: Bytes, n: int): int {
    if sign == [MINUS] && n > 0 then TWO64 - n else n
  }

  /** The whole token is a number that fits 64 bits, and denotes v. */
  ghost predicate Number(token: Bytes, v: u64) {
    exists space, sign, digits ::
      token == space + (sign + digits) && Parts(space, sign, digits) && Denotes(digits) < TWO64 && v == Signed(sign, Denotes(digits))
  }

  /** The token begins with a number that does not fit 64 bits, whatever stands behind it. */
  ghost predicate TooBig(token: Bytes) {
    exists space, sign, digits, junk ::
      token == space + (sign + (digits + junk)) && Parts(space, sign, digits) && Junk(junk) && Denotes(digits) >= TWO64
  }

  lemma {:induction false} DenotesNat(digits: Bytes)
    requires forall b :: b in digits ==> IsDigit(b)
    ensures Denotes(digits) >= 0
  {
    if digits != [] {
      assert digits[|digits| - 1] in digits;
      DenotesNat(digits[..|digits| - 1]);
    }
  }

  lemma {:induction false} SpacesSkipped(space: Bytes, rest: Bytes)
    requires forall b :: b in space ==> IsSpace(b)
    requires rest == [] || !IsSpace(rest[0])
    ensures SkipSpaces(space + rest) == |space|
  {
    if space == [] {
      assert space + rest == rest;
    } else {
      assert (space + rest)[1..] == space[1..] + rest;
      SpacesSkipped(space[1..], rest);
    }
  }

  lemma {:induction false} DigitsCounted(digits: Bytes, junk: Bytes)
    requires (forall b :: b in digits ==> IsDigit(b)) && Junk(junk)
    ensures CountDigits(digits + junk) == |digits|
  {
    if digits == [] {
      assert digits + junk == junk;
    } else {
      assert (digits + junk)[1..] == digits[1..] + junk;
      DigitsCounted(digits[1..], junk);
    }
  }

  /** strtoull and strtoul on any text that begins with a number: they read it all, and only it. */
  lemma NumberIsRead(space: Bytes, sign: Bytes, digits: Bytes, junk: Bytes)
    requires Parts(space, sign, digits) && Junk(junk)
    ensures Denotes(digits) >= 0
    ensures var n := Denotes(digits);
      StrToU64(space + (sign + (digits + junk))) ==
      (if n >= TWO64 then TWO64 - 1 else Signed(sign, n), |space| + |sign| + |digits|, n >= TWO64)
  {
    hide SkipSpaces;
    hide CountDigits;
    hide Denotes;
    hide Parts;
    PartsAreDigits(space, sign, digits);
    DenotesNat(digits);
    PartsInPlace(space, sign, digits, junk);
    var s := space + (sign + (digits + junk));
    assert s[|space| + |sign|..][..|digits|] == digits;
    Scanned(s, sign, |space|, |space| + |sign|, |digits|, digits);
    hide StrToU64;
    hide Signed;
  }

  lemma Scanned(s: Bytes, sign: Bytes, start: nat, first: nat, n: nat, digits: Bytes)
    requires start == SkipSpaces(s) < |s| && first == start + (if s[start] == PLUS || s[start] == MINUS then 1 else 0)
    requires sign == [MINUS] <==> s[start] == MINUS
    requires n == CountDigits(s[first..]) > 0 && s[first..][..n] == digits && Denotes(digits) >= 0
    ensures StrToU64(s) ==
      (if Denotes(digits) >= TWO64 then TWO64 - 1 else Signed(sign, Denotes(digits)), first + n, Denotes(digits) >= TWO64)
  {
    hide SkipSpaces;
    hide CountDigits;
    hide Denotes;
    if Denotes(digits) < TWO64 {
      Reduced(Denotes(digits));
    }
  }

  lemma Reduced(m: int)
    requires 0 <= m < TWO64
    ensures m % TWO64 == m && (-m) % TWO64 == if m == 0 then 0 else TWO64 - m
  {
  }

  lemma PartsAreDigits(space: Bytes, sign: Bytes, digits: Bytes)
    requires Parts(space, sign, digits)
    ensures digits != [] && forall b :: b in digits ==> IsDigit(b)
  {
  }

  /** Where the scan finds the parts. */
  lemma PartsInPlace(space: Bytes, sign: Bytes, digits: Bytes, junk: Bytes)
    requires Parts(space, sign, digits) && Junk(junk)
    ensures var s := space + (sign + (digits + junk)); var start := SkipSpaces(s);
      && start == |space| < |s|
      && (sign != [] <==> s[start] == PLUS || s[start] == MINUS)
      && (sign == [MINUS] <==> s[start] == MINUS)
      && |sign| == (if s[start] == PLUS || s[start] == MINUS then 1 else 0)
      && s[|space| + |sign|..] == digits + junk
      && CountDigits(digits + junk) == |digits| > 0 && (digits + junk)[..|digits|] == digits
  {
    hide SkipSpaces;
    hide CountDigits;
    var tail := digits + junk;
    var rest := sign + tail;
    assert digits[0] in digits && tail[0] == digits[0];
    assert rest[0] == if sign == [] then digits[0] else sign[0];
    SpacesSkipped(space, rest);
    DigitsCounted(digits, junk);
    DropFront(space, sign, tail);
  }

  lemma DropFront(a: Bytes, b: Bytes, c: Bytes)
    ensures (a + (b + c))[|a| + |b|..] == c
    ensures b + c != [] ==> (a + (b + c))[|a|] == (b + c)[0]
  {
  }

  lemma {:induction false} CountedAreDigits(s: Bytes)
    ensures forall b :: b in s[..CountDigits(s)] ==> IsDigit(b)
    ensures Junk(s[CountDigits(s)..])
  {
    if s != [] && IsDigit(s[0]) {
      CountedAreDigits(s[1..]);
      assert s[..CountDigits(s)] == [s[0]] + s[1..][..CountDigits(s[1..])];
      assert s[CountDigits(s)..] == s[1..][CountDigits(s[1..])..];
    }
  }

  lemma {:induction false} SkippedAreSpaces(s: Bytes)
    ensures forall b :: b in s[..SkipSpaces(s)] ==> IsSpace(b)
  {
    if s != [] && IsSpace(s[0]) {
      SkippedAreSpaces(s[1..]);
      assert s[..SkipSpaces(s)] == [s[0]] + s[1..][..SkipSpaces(s[1..])];
    }
  }

  /** ... and where they read anything, the text begins with a number. */
  lemma WhatIsRead(s: Bytes) returns (space: Bytes, sign: Bytes, digits: Bytes, junk: Bytes)
    requires StrToU64(s).1 > 0
    ensures s == space + (sign + (digits + junk)) && Parts(space, sign, digits) && Junk(junk)
  {
    hide SkipSpaces;
    hide CountDigits;
    hide Denotes;
    var start := SkipSpaces(s);
    var signed := start < |s| && (s[start] == PLUS || s[start] == MINUS);
    var first := if signed then start + 1 else start;
    var tail := s[first..];
    var n := CountDigits(tail);
    SkippedAreSpaces(s);
    CountedAreDigits(tail);
    space, sign, digits, junk := s[..start], s[start..first], tail[..n], tail[n..];
    assert tail == digits + junk;
    assert s[start..] == sign + tail;
  }

  lemma NumberIff(token: Bytes, v: u64)
    ensures Number(token, v) <==> token != [] && StrToU64(token) == (v, |token|, false)
  {
    hide StrToU64;
    hide Denotes;
    hide Parts;
    if token != [] && StrToU64(token) == (v, |token|, false) {
      var space, sign, digits, junk := WhatIsRead(token);
      NumberIsRead(space, sign, digits, junk);
      assert junk == [] && digits + junk == digits;
    }
    forall space, sign, digits |
      token == space + (sign + digits) && Parts(space, sign, digits) && Denotes(digits) < TWO64 && v == Signed(sign, Denotes(digits))
      ensures token != [] && StrToU64(token) == (v, |token|, false)
    {
      NumberIsRead(space, sign, digits, []);
      assert digits + [] == digits;
      PartsAreDigits(space, sign, digits);
    }
  }

  lemma TooBigIff(token: Bytes)
    ensures TooBig(token) <==> StrToU64(token).2
  {
    hide Denotes;
    hide Parts;
    if StrToU64(token).2 {
      var space, sign, digits, junk := WhatIsRead(token);
      NumberIsRead(space, sign, digits, junk);
    }
    hide StrToU64;
    forall space, sign, digits, junk |
      token == space + (sign + (digits + junk)) && Parts(space, sign, digits) && Junk(junk) && Denotes(digits) >= TWO64
      ensures StrToU64(token).2
    {
      NumberIsRead(space, sign, digits, junk);
    }
  }

  // ---------- lines ----------

  /** The end of a token: the end of the line, or a space. */
  predicate Ends(tail: Bytes) {
    tail == [] || tail[0] == SPACE
  }

  /** "<key> <value> <time>", perhaps with more behind a further space: value and time are numbers that fit
      64 bits, of the time its low 32 bits count. */
  ghost predicate WellFormed(line: Bytes, p: Point) {
    exists v, t, tail, seconds: u64 :: MadeOf(line, p, v, t, tail, seconds)
  }

  ghost predicate MadeOf(line: Bytes, p: Point, v: Bytes, t: Bytes, tail: Bytes, seconds: u64) {
    && line == p.key + [SPACE] + (v + [SPACE] + (t + tail))
    && SPACE !in p.key && SPACE !in v && SPACE !in t && Ends(tail)
    && Number(v, p.value) && Number(t, seconds) && p.time == seconds % 0x1_0000_0000
  }

  lemma TokenThenTail(token: Bytes, tail: Bytes)
    requires SPACE !in token && Ends(tail)
    ensures StrSep(Some(token + tail)) == (Some(token), if tail == [] then None else Some(tail[1..]))
  {
    hide FirstSpace;
    if tail == [] {
      assert token + tail == token;
      TokenThenRest(token, []);
    } else {
      assert token + tail == token + [SPACE] + tail[1..];
      TokenThenRest(token, tail[1..]);
    }
  }

  lemma WellFormedIsAccepted(line: Bytes, p: Point)
    requires WellFormed(line, p)
    ensures ParseLine(line, false) == LineResult(Some(p), false)
  {
    hide StrSep;
    hide StrToU64;
    hide Number;
    var v, t, tail, seconds: u64 :| MadeOf(line, p, v, t, tail, seconds);
    TokenThenRest(p.key, v + [SPACE] + (t + tail));
    TokenThenRest(v, t + tail);
    TokenThenTail(t, tail);
    NumberIff(v, p.value);
    NumberIff(t, seconds);
  }

  lemma TokensMakeLine(line: Bytes)
    ensures var (token, rest) := StrSep(Some(line));
      && token.Some? && SPACE !in token.value
      && (rest.Some? ==> line == token.value + [SPACE] + rest.value)
      && (rest.None? ==> line == token.value)
  {
    var i := FirstSpace(line);
    if i < |line| {
      assert line == line[..i] + [line[i]] + line[i + 1..];
    }
  }

  /** A line as its first token and what stands behind it. */
  lemma FirstTokenAndTail(line: Bytes) returns (token: Bytes, tail: Bytes)
    ensures line == token + tail && SPACE !in token && Ends(tail)
    ensures StrSep(Some(line)) == (Some(token), if tail == [] then None else Some(tail[1..]))
  {
    TokensMakeLine(line);
    var (first, rest) := StrSep(Some(line));
    token, tail := first.value, if rest.Some? then [SPACE] + rest.value else [];
    if rest.Some? {
      ConcatAssoc(token, [SPACE], rest.value);
    }
  }

  lemma AcceptedIsWellFormed(line: Bytes, p: Point)
    requires ParseLine(line, false).point == Some(p)
    ensures WellFormed(line, p)
  {
    hide StrSep;
    hide StrToU64;
    hide Number;
    NoLineNoToken(None);
    var key, behind := FirstTokenAndTail(line);
    var v, behindValue := FirstTokenAndTail(behind[1..]);
    var t, tail := FirstTokenAndTail(behindValue[1..]);
    var seconds := StrToU64(t).0;
    NumberIff(v, p.value);
    NumberIff(t, seconds);
    assert behindValue == [SPACE] + (t + tail) && behind == [SPACE] + (v + behindValue);
    ConcatAssoc(v, [SPACE], t + tail);
    ConcatAssoc(key, [SPACE], v + behindValue);
    assert MadeOf(line, p, v, t, tail, seconds);
  }

  lemma NoLineNoToken(line: Option<Bytes>)
    ensures line.None? ==> StrSep(line).0.None?
  {
  }

  /** insert accepts exactly the well-formed lines, each as its point, as long as errno is clear ... */
  lemma AcceptedIff(line: Bytes, p: Point)
    ensures ParseLine(line, false).point == Some(p) <==> WellFormed(line, p)
  {
    hide ParseLine;
    hide WellFormed;
    if WellFormed(line, p) {
      WellFormedIsAccepted(line, p);
    }
    if ParseLine(line, false).point == Some(p) {
      AcceptedIsWellFormed(line, p);
    }
  }

  /** ... and nothing any more once it is ERANGE. */
  lemma NothingWhenOutOfRange(line: Bytes)
    ensures ParseLine(line, true) == LineResult(None, true)
  {
    hide StrSep;
    hide StrToU64;
  }

  /** A line of the input on its own: acceptable exactly when it is no comment and what stands before its
      first NUL is well-formed. */
  lemma AcceptableIff(line: Bytes)
    ensures Acceptable(line) <==> CString(line) != [] && CString(line)[0] != HASH && exists p :: WellFormed(CString(line), p)
  {
    hide ParseLine;
    hide WellFormed;
    hide CString;
    var s := CString(line);
    forall p | WellFormed(s, p) ensures ParseLine(s, false).point.Some? {
      AcceptedIff(s, p);
    }
    if ParseLine(s, false).point.Some? {
      AcceptedIff(s, ParseLine(s, false).point.value);
    }
  }

  /** errno becomes ERANGE exactly on a value token that begins with a number too big, or behind a good value
      on such a time token. */
  lemma OutOfRangeIff(line: Bytes)
    ensures ParseLine(line, false).erange <==> exists key, v, tail :: BigAt(line, key, v, tail)
  {
    hide ParseLine;
    hide BigAt;
    if ParseLine(line, false).erange {
      OutOfRangeIsBig(line);
    }
    forall key, v, tail | BigAt(line, key, v, tail) ensures ParseLine(line, false).erange {
      BigIsOutOfRange(line, key, v, tail);
    }
  }

  ghost predicate BigAt(line: Bytes, key: Bytes, v: Bytes, tail: Bytes) {
    && line == key + [SPACE] + (v + tail) && SPACE !in key && SPACE !in v && Ends(tail)
    && (TooBig(v) || exists value: u64, t, end :: BigTime(v, tail, value, t, end))
  }

  ghost predicate BigTime(v: Bytes, tail: Bytes, value: u64, t: Bytes, end: Bytes) {
    Number(v, value) && tail == [SPACE] + (t + end) && SPACE !in t && Ends(end) && TooBig(t)
  }

  lemma OutOfRangeIsBig(line: Bytes)
    requires ParseLine(line, false).erange
    ensures exists key, v, tail :: BigAt(line, key, v, tail)
  {
    hide StrSep;
    hide StrToU64;
    hide Number;
    hide TooBig;
    var key, behind := FirstTokenAndTail(line);
    NoLineNoToken(None);
    var v, tail := FirstTokenAndTail(behind[1..]);
    TooBigIff(v);
    NumberIff(v, StrToU64(v).0);
    assert behind == [SPACE] + (v + tail);
    ConcatAssoc(key, [SPACE], v + tail);
    if !TooBig(v) {
      var t, end := FirstTokenAndTail(tail[1..]);
      TooBigIff(t);
      assert BigTime(v, tail, StrToU64(v).0, t, end);
    }
    assert BigAt(line, key, v, tail);
  }

  lemma BigIsOutOfRange(line: Bytes, key: Bytes, v: Bytes, tail: Bytes)
    requires BigAt(line, key, v, tail)
    ensures ParseLine(line, false).erange
  {
    hide StrSep;
    hide StrToU64;
    hide Number;
    hide TooBig;
    TokenThenRest(key, v + tail);
    TokenThenTail(v, tail);
    TooBigIff(v);
    if !TooBig(v) {
      var value: u64, t, end :| BigTime(v, tail, value, t, end);
      assert tail[1..] == t + end;
      TokenThenTail(t, end);
      NumberIff(v, value);
      TooBigIff(t);
    }
  }
}
