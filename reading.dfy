/** What each of the three reading loops of the framer knows about the
    events it has consumed, stated on values: a loop invariant per loop, the
    outcome of each loop, and one lemma per kind of event that carries the
    invariant over that event or turns it into the outcome. */
module Reading {
  import opened Io
  import opened Framing

  /** The read at `ev[b]` ends the loop with error kind `k` and leaves the
      cursor at `c`: the events ran out (`UnexpectedEof`), or the event is an
      error other than an interrupted read. */
  ghost predicate HardStop(ev: seq<ReadEvent>, b: nat, c: nat, k: ErrorKind) {
    k != Interrupted &&
    ((b == |ev| && c == b && k == UnexpectedEof) ||
     (b < |ev| && ev[b] == Failed(k) && c == b + 1))
  }

  lemma HardStopEnds(ev: seq<ReadEvent>, a: nat, b: nat, c: nat, k: ErrorKind)
    requires SoftBetween(ev, a, b) && HardStop(ev, b, c, k)
    ensures b <= c <= |ev| && SourceStopped(ev, a, c, k) && DataBytes(ev, a, c) == DataBytes(ev, a, b)
  {
  }

  /** The read at `ev[b]` is an interrupted read, skipped by every loop. */
  lemma SkipKeepsBytes(ev: seq<ReadEvent>, a: nat, b: nat)
    requires SoftBetween(ev, a, b) && b < |ev| && ev[b] == Failed(Interrupted)
    ensures SoftBetween(ev, a, b + 1) && DataBytes(ev, a, b + 1) == DataBytes(ev, a, b)
  {
  }

  /** The read at `ev[b]` is a byte, appended to what was read before. */
  lemma ByteAppends(ev: seq<ReadEvent>, a: nat, b: nat)
    requires SoftBetween(ev, a, b) && b < |ev| && ev[b].Data?
    ensures SoftBetween(ev, a, b + 1) && Completed(ev, a, b + 1)
    ensures DataBytes(ev, a, b + 1) == DataBytes(ev, a, b) + [ev[b].byte]
  {
  }

  // ---------------------------------------------------------------------
  // The header loop

  /** The header loop has read `ev[a..b]`, all bytes or interrupted reads,
      and appended the bytes to `h0`; no CR LF CR LF ends the buffer at any
      length past `|h0|`. */
  ghost predicate HeaderLoop(ev: seq<ReadEvent>, a: nat, b: nat, h0: seq<Byte>, h: seq<Byte>) {
    a <= b <= |ev| && SoftBetween(ev, a, b) && h == h0 + DataBytes(ev, a, b) &&
    forall k :: |h0| < k <= |h| ==> !EndsAt(h, k)
  }

  /** The header loop has read `ev[a..b]` into `h` and returned `r`: it
      returns `Ok` exactly when the buffer first ends with CR LF CR LF, just
      after a byte, and otherwise the error that stopped the source. */
  ghost predicate HeaderRead(ev: seq<ReadEvent>, a: nat, b: nat, h0: seq<Byte>, h: seq<Byte>, r: Outcome<ErrorKind>) {
    a <= b <= |ev| && h == h0 + DataBytes(ev, a, b) &&
    (forall k :: |h0| < k <= |h| && EndsAt(h, k) ==> r.Pass? && k == |h|) &&
    (r.Pass? ==> Completed(ev, a, b) && EndsAt(h, |h|)) &&
    (r.Fail? ==> SourceStopped(ev, a, b, r.error))
  }

  lemma HeaderStart(ev: seq<ReadEvent>, a: nat, h0: seq<Byte>)
    requires a <= |ev|
    ensures HeaderLoop(ev, a, a, h0, h0)
  {
  }

  lemma HeaderSkip(ev: seq<ReadEvent>, a: nat, b: nat, h0: seq<Byte>, h: seq<Byte>)
    requires HeaderLoop(ev, a, b, h0, h) && b < |ev| && ev[b] == Failed(Interrupted)
    ensures HeaderLoop(ev, a, b + 1, h0, h)
  {
    SkipKeepsBytes(ev, a, b);
  }

  lemma HeaderStopped(ev: seq<ReadEvent>, a: nat, b: nat, c: nat, h0: seq<Byte>, h: seq<Byte>, k: ErrorKind)
    requires HeaderLoop(ev, a, b, h0, h) && HardStop(ev, b, c, k)
    ensures HeaderRead(ev, a, c, h0, h, Fail(k))
  {
    HardStopEnds(ev, a, b, c, k);
  }

  /** A byte either completes the header block or keeps the loop going. */
  lemma HeaderByte(ev: seq<ReadEvent>, a: nat, b: nat, h0: seq<Byte>, h: seq<Byte>)
    requires HeaderLoop(ev, a, b, h0, h) && b < |ev| && ev[b].Data?
    ensures var h' := h + [ev[b].byte];
      (EndsAt(h', |h'|) ==> HeaderRead(ev, a, b + 1, h0, h', Pass)) &&
      (!EndsAt(h', |h'|) ==> HeaderLoop(ev, a, b + 1, h0, h'))
  {
    ByteAppends(ev, a, b);
    AppendHeaderByte(h, ev[b].byte, |h0|);
  }

  // ---------------------------------------------------------------------
  // The body loop

  /** The body loop has read `ev[a..b]`, all bytes or interrupted reads,
      into `m`; outside any string, with brace count `depth`, and no prefix
      of `m` (itself included) ends the body. */
  ghost predicate BodyLoop(ev: seq<ReadEvent>, a: nat, b: nat, m: seq<Byte>, depth: int) {
    a <= b <= |ev| && SoftBetween(ev, a, b) && m == DataBytes(ev, a, b) &&
    Run(m) == Scan(depth, false, false) &&
    forall k :: 0 <= k <= |m| ==> !StopsAt(m, k)
  }

  /** As `BodyLoop`, but just after the quote that opens a string. */
  ghost predicate BodyInString(ev: seq<ReadEvent>, a: nat, b: nat, m: seq<Byte>, depth: int) {
    a <= b <= |ev| && SoftBetween(ev, a, b) && m == DataBytes(ev, a, b) &&
    Run(m) == Scan(depth, true, false) &&
    forall k :: 0 <= k <= |m| ==> !StopsAt(m, k)
  }

  /** The JSON check run on a finished body. */
  function Validate(m: seq<Byte>, isJson: seq<Byte> -> bool): (r: Outcome<ErrorKind>)
    ensures r.Pass? <==> isJson(m)
    ensures r.Fail? ==> r.error == InvalidData
  {
    if isJson(m) then Pass else Fail(InvalidData)
  }

  /** The body loop has read `ev[a..b]` into `m` and returned `r`: it stops
      at the first point where the body ends, just after a byte, and returns
      the verdict of the JSON check; if no prefix ends the body it returns
      the error that stopped the source. */
  ghost predicate BodyRead(ev: seq<ReadEvent>, a: nat, b: nat, m: seq<Byte>, isJson: seq<Byte> -> bool, r: Outcome<ErrorKind>) {
    a <= b <= |ev| && m == DataBytes(ev, a, b) &&
    (forall k :: 0 <= k < |m| ==> !StopsAt(m, k)) &&
    (StopsAt(m, |m|) ==> Completed(ev, a, b) && r == Validate(m, isJson)) &&
    (!StopsAt(m, |m|) ==> r.Fail? && SourceStopped(ev, a, b, r.error))
  }

  lemma BodyStart(ev: seq<ReadEvent>, a: nat)
    requires a <= |ev|
    ensures BodyLoop(ev, a, a, [], 0)
  {
  }

  lemma BodySkip(ev: seq<ReadEvent>, a: nat, b: nat, m: seq<Byte>, depth: int)
    requires BodyLoop(ev, a, b, m, depth) && b < |ev| && ev[b] == Failed(Interrupted)
    ensures BodyLoop(ev, a, b + 1, m, depth)
  {
    SkipKeepsBytes(ev, a, b);
  }

  lemma BodyStopped(ev: seq<ReadEvent>, a: nat, b: nat, c: nat, m: seq<Byte>, depth: int,
                    isJson: seq<Byte> -> bool, k: ErrorKind)
    requires BodyLoop(ev, a, b, m, depth) && HardStop(ev, b, c, k)
    ensures BodyRead(ev, a, c, m, isJson, Fail(k))
  {
    HardStopEnds(ev, a, b, c, k);
  }

  /** A byte other than a brace or a quote changes nothing but the buffer. */
  lemma BodyPlain(ev: seq<ReadEvent>, a: nat, b: nat, m: seq<Byte>, depth: int)
    requires BodyLoop(ev, a, b, m, depth) && b < |ev| && ev[b].Data?
    requires ev[b].byte != OpenBrace && ev[b].byte != CloseBrace && ev[b].byte != Quote
    ensures BodyLoop(ev, a, b + 1, m + [ev[b].byte], depth)
  {
    ByteAppends(ev, a, b);
    AppendByte(m, ev[b].byte);
  }

  /** A brace moves the count; the body ends there exactly when the count
      is no longer positive. */
  lemma BodyBrace(ev: seq<ReadEvent>, a: nat, b: nat, m: seq<Byte>, depth: int, isJson: seq<Byte> -> bool)
    requires BodyLoop(ev, a, b, m, depth) && b < |ev| && ev[b].Data?
    requires ev[b].byte == OpenBrace || ev[b].byte == CloseBrace
    ensures var m', d' := m + [ev[b].byte], if ev[b].byte == OpenBrace then depth + 1 else depth - 1;
      (d' > 0 ==> BodyLoop(ev, a, b + 1, m', d')) &&
      (d' <= 0 ==> BodyRead(ev, a, b + 1, m', isJson, Validate(m', isJson)))
  {
    ByteAppends(ev, a, b);
    AppendByte(m, ev[b].byte);
  }

  /** A quote opens a string. */
  lemma BodyQuote(ev: seq<ReadEvent>, a: nat, b: nat, m: seq<Byte>, depth: int)
    requires BodyLoop(ev, a, b, m, depth) && b < |ev| && ev[b] == Data(Quote)
    ensures BodyInString(ev, a, b + 1, m + [Quote], depth)
  {
    ByteAppends(ev, a, b);
    AppendByte(m, Quote);
    NoStopInString(m + [Quote]);
  }

  /** After the string: the source's error, or the same test as after a
      brace, on the unchanged count. */
  lemma BodyAfterString(ev: seq<ReadEvent>, a: nat, b: nat, c: nat, m0: seq<Byte>, m: seq<Byte>, depth: int,
                        isJson: seq<Byte> -> bool, r: Outcome<ErrorKind>)
    requires BodyInString(ev, a, b, m0, depth) && StringRead(ev, b, c, m0, m, r)
    ensures r.Fail? ==> BodyRead(ev, a, c, m, isJson, r)
    ensures r.Pass? && depth > 0 ==> BodyLoop(ev, a, c, m, depth)
    ensures r.Pass? && depth <= 0 ==> BodyRead(ev, a, c, m, isJson, Validate(m, isJson))
  {
    DataBytesJoin(ev, a, b, c);
    if r.Fail? {
      SourceStoppedJoin(ev, a, b, c, r.error);
    } else {
      CompletedJoin(ev, a, b, c);
    }
  }

  // ---------------------------------------------------------------------
  // The string loop

  /** The string loop, started on `m0`, has read `ev[a..b]` into `m`; the
      string is still open with the brace count it was opened at, `escape`
      says whether the next byte is escaped, the string has been open after
      every byte read so far, and no prefix of `m` longer than `m0` ends the
      body. */
  ghost predicate StringLoop(ev: seq<ReadEvent>, a: nat, b: nat, m0: seq<Byte>, m: seq<Byte>, depth: int, escape: bool) {
    a <= b <= |ev| && SoftBetween(ev, a, b) && m == m0 + DataBytes(ev, a, b) &&
    Run(m) == Scan(depth, true, escape) &&
    (forall k :: |m0| <= k <= |m| ==> Run(m[..k]).inString) &&
    (forall k :: 0 <= k <= |m0| ==> StopsAt(m, k) == StopsAt(m0, k)) &&
    forall k :: |m0| <= k <= |m| ==> !StopsAt(m, k)
  }

  /** The string loop, started on `m0`, has read `ev[a..b]` into `m` and
      returned `r`: on `Ok` the string is closed, just after a byte, by the
      first quote that closes it, with the brace count it was opened at, and
      the body ends there exactly when that count is no longer positive; on
      an error the source stopped it with the string still open. No byte it
      read before the last one closes the string or ends the body. */
  ghost predicate StringRead(ev: seq<ReadEvent>, a: nat, b: nat, m0: seq<Byte>, m: seq<Byte>, r: Outcome<ErrorKind>) {
    a <= b <= |ev| && m == m0 + DataBytes(ev, a, b) &&
    (forall k :: 0 <= k <= |m0| ==> StopsAt(m, k) == StopsAt(m0, k)) &&
    (forall k :: |m0| <= k < |m| ==> !StopsAt(m, k)) &&
    (forall k :: |m0| <= k < |m| ==> Run(m[..k]).inString) &&
    (r.Pass? ==>
       Completed(ev, a, b) && Run(m) == Scan(Run(m0).depth, false, false) &&
       (StopsAt(m, |m|) <==> Run(m0).depth <= 0)) &&
    (r.Fail? ==> SourceStopped(ev, a, b, r.error) && !StopsAt(m, |m|) && Run(m).inString)
  }

  lemma StringStart(ev: seq<ReadEvent>, a: nat, m0: seq<Byte>)
    requires a <= |ev| && Run(m0).inString && !Run(m0).escape
    ensures StringLoop(ev, a, a, m0, m0, Run(m0).depth, false)
  {
    NoStopInString(m0);
    assert m0[..|m0|] == m0;
  }

  lemma StringSkip(ev: seq<ReadEvent>, a: nat, b: nat, m0: seq<Byte>, m: seq<Byte>, depth: int, escape: bool)
    requires StringLoop(ev, a, b, m0, m, depth, escape) && b < |ev| && ev[b] == Failed(Interrupted)
    ensures StringLoop(ev, a, b + 1, m0, m, depth, escape)
  {
    SkipKeepsBytes(ev, a, b);
  }

  lemma StringStopped(ev: seq<ReadEvent>, a: nat, b: nat, c: nat, m0: seq<Byte>, m: seq<Byte>, depth: int,
                      escape: bool, k: ErrorKind)
    requires StringLoop(ev, a, b, m0, m, depth, escape) && HardStop(ev, b, c, k)
    ensures StringRead(ev, a, c, m0, m, Fail(k))
  {
    HardStopEnds(ev, a, b, c, k);
    NoStopInString(m);
  }

  /** An escaped byte or a backslash keeps the string open; an unescaped
      quote closes it. */
  lemma StringByte(ev: seq<ReadEvent>, a: nat, b: nat, m0: seq<Byte>, m: seq<Byte>, depth: int, escape: bool)
    requires StringLoop(ev, a, b, m0, m, depth, escape) && b < |ev| && ev[b].Data?
    requires Run(m0) == Scan(depth, true, false)
    ensures var x := ev[b].byte;
      (escape ==> StringLoop(ev, a, b + 1, m0, m + [x], depth, false)) &&
      (!escape && x == Backslash ==> StringLoop(ev, a, b + 1, m0, m + [x], depth, true)) &&
      (!escape && x == Quote ==> StringRead(ev, a, b + 1, m0, m + [x], Pass)) &&
      (!escape && x != Backslash && x != Quote ==> StringLoop(ev, a, b + 1, m0, m + [x], depth, false))
  {
    ByteAppends(ev, a, b);
    AppendByte(m, ev[b].byte);
    OpenBefore(m0, m, ev[b].byte);
  }

  /** One more byte leaves the scan of every shorter prefix as it was. */
  lemma OpenBefore(m0: seq<Byte>, m: seq<Byte>, x: Byte)
    requires forall k :: |m0| <= k <= |m| ==> Run(m[..k]).inString
    ensures forall k :: |m0| <= k <= |m| ==> Run((m + [x])[..k]).inString
    ensures (m + [x])[..|m| + 1] == m + [x]
  {
    forall k | |m0| <= k <= |m| ensures Run((m + [x])[..k]).inString {
      assert (m + [x])[..k] == m[..k];
    }
  }
}
