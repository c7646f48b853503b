/** The grammar `LspMessageReader` recognises, stated on the byte stream
    with interrupted reads already dropped: a header block that runs up to
    and including the first CR LF CR LF, then a body whose end is found by
    counting braces outside quoted strings. */
module Framing {
  import opened Io

  const CR: Byte := 13
  const LF: Byte := 10
  const Quote: Byte := 34
  const Backslash: Byte := 92
  const OpenBrace: Byte := 123
  const CloseBrace: Byte := 125

  /** The blank line that closes the header block. */
  const Terminator: seq<Byte> := [CR, LF, CR, LF]

  // ---------------------------------------------------------------------
  // Header block

  /** The first `n` bytes of `s` end with the terminator. */
  predicate EndsAt(s: seq<Byte>, n: int) {
    4 <= n <= |s| && s[n - 4..n] == Terminator
  }

  /** `s[..n]` is the header block of `s`: it ends with the terminator and
      no shorter prefix does. */
  predicate IsHeaderEnd(s: seq<Byte>, n: int) {
    EndsAt(s, n) && forall k :: 0 <= k < n ==> !EndsAt(s, k)
  }

  function HeaderEndFrom(s: seq<Byte>, n: nat): (r: Option<nat>)
    requires forall k :: 0 <= k < n ==> !EndsAt(s, k)
    ensures r.Some? ==> IsHeaderEnd(s, r.value)
    ensures r.None? ==> forall k :: !EndsAt(s, k)
    decreases |s| + 1 - n
  {
    if n > |s| then None
    else if EndsAt(s, n) then Some(n)
    else HeaderEndFrom(s, n + 1)
  }

  /** Where the header block of `s` ends, if `s` holds a whole one. */
  function FirstHeaderEnd(s: seq<Byte>): (r: Option<nat>)
    ensures r.Some? ==> IsHeaderEnd(s, r.value)
    ensures r.None? ==> forall k :: !EndsAt(s, k)
  {
    HeaderEndFrom(s, 0)
  }

  lemma EndsAtPrefix(s: seq<Byte>, t: seq<Byte>, k: int)
    requires k <= |s|
    ensures EndsAt(s + t, k) == EndsAt(s, k)
  {
    if 4 <= k {
      assert (s + t)[k - 4..k] == s[k - 4..k];
    }
  }

  /** One more header byte: the shorter prefixes still do not end with the
      terminator, and the new one does exactly when its last four bytes are it. */
  lemma AppendHeaderByte(h: seq<Byte>, b: Byte, lo: nat)
    requires lo <= |h| && forall k :: lo < k <= |h| ==> !EndsAt(h, k)
    ensures forall k :: lo < k <= |h| ==> !EndsAt(h + [b], k)
    ensures EndsAt(h + [b], |h| + 1) <==> |h| + 1 >= 4 && (h + [b])[|h| + 1 - 4..] == Terminator
  {
    forall k | lo < k <= |h| ensures !EndsAt(h + [b], k) {
      EndsAtPrefix(h, [b], k);
    }
  }

  /** A header block stays the header block whatever bytes follow it. */
  lemma HeaderEndExtends(h: seq<Byte>, t: seq<Byte>)
    requires IsHeaderEnd(h, |h|)
    ensures IsHeaderEnd(h + t, |h|)
  {
    EndsAtPrefix(h, t, |h|);
    forall k | 0 <= k < |h| ensures !EndsAt(h + t, k) {
      EndsAtPrefix(h, t, k);
    }
  }

  // ---------------------------------------------------------------------
  // Body

  /** What the body loops know after each byte: the brace count, whether
      the cursor is inside a quoted string, and whether the next byte is
      escaped by a backslash. */
  datatype Scan = Scan(depth: int, inString: bool, escape: bool)

  const Start: Scan := Scan(0, false, false)

  /** The effect of one body byte. Outside a string `{` and `}` move the
      count and `"` opens a string; inside one, a backslash escapes the next
      byte and an unescaped `"` closes it. */
  function Step(st: Scan, b: Byte): Scan {
    if st.inString then
      if st.escape then st.(escape := false)
      else if b == Backslash then st.(escape := true)
      else if b == Quote then st.(inString := false)
      else st
    else if b == OpenBrace then st.(depth := st.depth + 1)
    else if b == CloseBrace then st.(depth := st.depth - 1)
    else if b == Quote then st.(inString := true, escape := false)
    else st
  }

  /** Byte `b` read in state `st` is one after which the brace count is
      looked at: a `{` or `}` outside a string, or the quote closing one. */
  predicate Checks(st: Scan, b: Byte) {
    if st.inString then !st.escape && b == Quote else b == OpenBrace || b == CloseBrace
  }

  function RunFrom(st: Scan, s: seq<Byte>): Scan
    decreases |s|
  {
    if s == [] then st else RunFrom(Step(st, s[0]), s[1..])
  }

  /** The scan state after the bytes `s` of a body. */
  function Run(s: seq<Byte>): Scan {
    RunFrom(Start, s)
  }

  lemma {:induction false} RunFromConcat(st: Scan, a: seq<Byte>, b: seq<Byte>)
    ensures RunFrom(st, a + b) == RunFrom(RunFrom(st, a), b)
    decreases |a|
  {
    if a == [] {
      assert a + b == b;
    } else {
      assert (a + b)[1..] == a[1..] + b;
      RunFromConcat(Step(st, a[0]), a[1..], b);
    }
  }

  lemma RunSnoc(s: seq<Byte>, b: Byte)
    ensures Run(s + [b]) == Step(Run(s), b)
  {
    RunFromConcat(Start, s, [b]);
  }

  /** The body `p` is complete: its last byte is a checked one and the
      brace count is then no longer positive. */
  predicate Stops(p: seq<Byte>) {
    |p| > 0 && Checks(Run(p[..|p| - 1]), p[|p| - 1]) && Run(p).depth <= 0
  }

  predicate StopsAt(t: seq<Byte>, n: int) {
    0 < n <= |t| && Stops(t[..n])
  }

  /** `t[..n]` is the body at the front of `t`: the first prefix that stops. */
  predicate IsBodyEnd(t: seq<Byte>, n: int) {
    StopsAt(t, n) && forall k :: 0 <= k < n ==> !StopsAt(t, k)
  }

  function BodyEndFrom(t: seq<Byte>, n: nat): (r: Option<nat>)
    requires forall k :: 0 <= k < n ==> !StopsAt(t, k)
    ensures r.Some? ==> IsBodyEnd(t, r.value)
    ensures r.None? ==> forall k :: !StopsAt(t, k)
    decreases |t| + 1 - n
  {
    if n > |t| then None
    else if StopsAt(t, n) then Some(n)
    else BodyEndFrom(t, n + 1)
  }

  /** Where the body at the front of `t` ends, if `t` holds a whole one. */
  function FirstBodyEnd(t: seq<Byte>): (r: Option<nat>)
    ensures r.Some? ==> IsBodyEnd(t, r.value)
    ensures r.None? ==> forall k :: !StopsAt(t, k)
  {
    BodyEndFrom(t, 0)
  }

  lemma StopsAtPrefix(s: seq<Byte>, t: seq<Byte>, k: int)
    requires k <= |s|
    ensures StopsAt(s + t, k) == StopsAt(s, k)
  {
    if 0 < k {
      assert (s + t)[..k] == s[..k];
    }
  }

  /** One more body byte: the new scan state, whether the body now stops,
      and that the earlier prefixes are unchanged. */
  lemma AppendByte(m: seq<Byte>, b: Byte)
    ensures Run(m + [b]) == Step(Run(m), b)
    ensures StopsAt(m + [b], |m| + 1) <==> Checks(Run(m), b) && Step(Run(m), b).depth <= 0
    ensures forall k :: 0 <= k <= |m| ==> StopsAt(m + [b], k) == StopsAt(m, k)
  {
    RunSnoc(m, b);
    assert (m + [b])[..|m| + 1] == m + [b];
    assert (m + [b])[..|m|] == m;
    forall k | 0 <= k <= |m| ensures StopsAt(m + [b], k) == StopsAt(m, k) {
      StopsAtPrefix(m, [b], k);
    }
  }

  /** Only a body outside any string can stop. */
  lemma StopsOutsideString(p: seq<Byte>)
    requires Stops(p)
    ensures !Run(p).inString
  {
    assert p[..|p| - 1] + [p[|p| - 1]] == p;
    RunSnoc(p[..|p| - 1], p[|p| - 1]);
  }

  /** Inside a string the body cannot stop. */
  lemma NoStopInString(m: seq<Byte>)
    requires Run(m).inString
    ensures !StopsAt(m, |m|)
  {
    if StopsAt(m, |m|) {
      assert m[..|m|] == m;
      StopsOutsideString(m);
    }
  }

  /** A body stays the body whatever bytes follow it. */
  lemma BodyEndExtends(m: seq<Byte>, t: seq<Byte>)
    requires IsBodyEnd(m, |m|)
    ensures IsBodyEnd(m + t, |m|)
  {
    StopsAtPrefix(m, t, |m|);
    forall k | 0 <= k < |m| ensures !StopsAt(m + t, k) {
      StopsAtPrefix(m, t, k);
    }
  }

  /** The brace count is only looked at right after a `{`, a `}` or the
      quote that closes a string; whitespace, digits and every other byte
      never end a body. */
  lemma StopsOnlyAfterBraceOrQuote(p: seq<Byte>)
    requires Stops(p)
    ensures p[|p| - 1] == OpenBrace || p[|p| - 1] == CloseBrace || p[|p| - 1] == Quote
  {
  }

  /** The bytes between the quotes of a string: no unescaped quote, and no
      backslash left without the byte it escapes. */
  predicate StringContent(c: seq<Byte>)
    decreases |c|
  {
    c == [] ||
    (c[0] == Backslash && |c| >= 2 && StringContent(c[2..])) ||
    (c[0] != Backslash && c[0] != Quote && StringContent(c[1..]))
  }

  lemma {:induction false} InsideString(st: Scan, c: seq<Byte>)
    requires st.inString && !st.escape && StringContent(c)
    ensures RunFrom(st, c) == st
    ensures forall k :: 0 < k <= |c| ==> RunFrom(st, c[..k]).inString && RunFrom(st, c[..k]).depth == st.depth
    decreases |c|
  {
    if c != [] {
      if c[0] == Backslash {
        var e := Step(st, c[0]);
        assert e == st.(escape := true);
        var mid := Step(e, c[1]);
        assert mid == st;
        InsideString(st, c[2..]);
        assert RunFrom(st, c) == RunFrom(st, c[2..]);
        forall k | 0 < k <= |c|
          ensures RunFrom(st, c[..k]).inString && RunFrom(st, c[..k]).depth == st.depth
        {
          if k == 1 {
            assert RunFrom(st, c[..1]) == RunFrom(e, []);
          } else {
            assert c[..k][1..][1..] == c[2..][..k - 2];
            assert RunFrom(st, c[..k]) == RunFrom(st, c[2..][..k - 2]);
          }
        }
      } else {
        assert Step(st, c[0]) == st;
        InsideString(st, c[1..]);
        forall k | 0 < k <= |c|
          ensures RunFrom(st, c[..k]).inString && RunFrom(st, c[..k]).depth == st.depth
        {
          assert c[..k][1..] == c[1..][..k - 1];
          if k > 1 { assert RunFrom(st, c[..k]) == RunFrom(st, c[1..][..k - 1]); }
        }
      }
    }
  }

  /** After an opening quote and any part of well-formed string content the
      scan is inside the string, at the brace count it had before the quote. */
  lemma InStringAfterPrefix(p: seq<Byte>, c: seq<Byte>, j: nat)
    requires !Run(p).inString && StringContent(c) && j <= |c|
    ensures Run(p + [Quote] + c[..j]) == Scan(Run(p).depth, true, Run(p + [Quote] + c[..j]).escape)
  {
    var open := Step(Run(p), Quote);
    RunSnoc(p, Quote);
    RunFromConcat(Start, p + [Quote], c[..j]);
    InsideString(open, c);
    if j == 0 {
      assert c[..j] == [];
    }
  }

  /** Quoted-brace immunity: a whole string literal, whatever braces or
      escaped quotes it holds, leaves the brace count where it was, and the
      count is not looked at before its closing quote. */
  lemma StringLiteralSkipped(p: seq<Byte>, c: seq<Byte>)
    requires !Run(p).inString && StringContent(c)
    ensures Run(p + [Quote] + c + [Quote]) == Scan(Run(p).depth, false, false)
    ensures forall k :: |p| < k < |p| + |c| + 2 ==> !Stops((p + [Quote] + c + [Quote])[..k])
  {
    var lit := p + [Quote] + c + [Quote];
    InStringAfterPrefix(p, c, |c|);
    assert c[..|c|] == c;
    InsideString(Step(Run(p), Quote), c);
    RunFromConcat(Start, p + [Quote], c);
    RunSnoc(p, Quote);
    RunSnoc(p + [Quote] + c, Quote);
    forall k | |p| < k < |p| + |c| + 2 ensures !Stops(lit[..k]) {
      NotStopsInLiteral(p, c, k);
    }
  }

  lemma NotStopsInLiteral(p: seq<Byte>, c: seq<Byte>, k: int)
    requires !Run(p).inString && StringContent(c)
    requires |p| < k < |p| + |c| + 2
    ensures !Stops((p + [Quote] + c + [Quote])[..k])
  {
    var q := (p + [Quote] + c + [Quote])[..k];
    if k == |p| + 1 {
      assert q[..|q| - 1] == p;
    } else {
      var j := k - |p| - 1;
      assert q == p + [Quote] + c[..j];
      NotStopsInContent(p, c, j);
    }
  }

  lemma NotStopsInContent(p: seq<Byte>, c: seq<Byte>, j: nat)
    requires !Run(p).inString && StringContent(c)
    requires 0 < j <= |c|
    ensures !Stops(p + [Quote] + c[..j])
  {
    var q := p + [Quote] + c[..j];
    assert q[..|q| - 1] == p + [Quote] + c[..j - 1];
    InStringAfterPrefix(p, c, j - 1);
    InStringAfterPrefix(p, c, j);
    RunSnoc(q[..|q| - 1], q[|q| - 1]);
    assert q[..|q| - 1] + [q[|q| - 1]] == q;
  }

  // ---------------------------------------------------------------------
  // Frames

  /** What the bytes read so far hold: not yet a whole frame, or a frame of
      `headerLen` header bytes followed by `bodyLen` body bytes. */
  datatype Frame = Incomplete | Found(headerLen: nat, bodyLen: nat)

  /** The first frame at the front of `s`. */
  function FindFrame(s: seq<Byte>): (r: Frame)
    ensures r.Found? ==> IsHeaderEnd(s, r.headerLen) && IsBodyEnd(s[r.headerLen..], r.bodyLen)
    ensures r.Found? ==> 5 <= r.headerLen + r.bodyLen <= |s|
    ensures r.Incomplete? ==> forall h, n :: IsHeaderEnd(s, h) ==> !StopsAt(s[h..], n)
  {
    match FirstHeaderEnd(s)
    case None => Incomplete
    case Some(h) =>
      match FirstBodyEnd(s[h..])
      case None => Incomplete
      case Some(n) => Found(h, n)
  }

  lemma HeaderEndUnique(s: seq<Byte>, a: int, b: int)
    requires IsHeaderEnd(s, a) && IsHeaderEnd(s, b)
    ensures a == b
  {
  }

  /** Bytes that never end with the terminator hold no frame. */
  lemma IncompleteHeader(s: seq<Byte>)
    requires forall k :: 0 < k <= |s| ==> !EndsAt(s, k)
    ensures FindFrame(s) == Incomplete
  {
  }

  /** A header block followed by bytes in which no body ends holds no frame. */
  lemma IncompleteBody(h: seq<Byte>, m: seq<Byte>)
    requires IsHeaderEnd(h, |h|)
    requires forall k :: 0 <= k <= |m| ==> !StopsAt(m, k)
    ensures FindFrame(h + m) == Incomplete
  {
    HeaderEndExtends(h, m);
    assert (h + m)[|h|..] == m;
  }

  /** A header block followed by a body is read back as exactly that frame,
      whatever follows it in the stream. */
  lemma FrameRoundTrip(h: seq<Byte>, m: seq<Byte>, rest: seq<Byte>)
    requires IsHeaderEnd(h, |h|) && IsBodyEnd(m, |m|)
    ensures FindFrame(h + m + rest) == Found(|h|, |m|)
  {
    var s := h + m + rest;
    assert s == h + (m + rest);
    HeaderEndExtends(h, m + rest);
    BodyEndExtends(m, rest);
    assert s[|h|..] == m + rest;
  }

  /** No over-read: a frame found in `s` is found again when everything
      after it is replaced by anything else. */
  lemma FrameIgnoresWhatFollows(s: seq<Byte>, t: seq<Byte>)
    requires FindFrame(s).Found?
    ensures FindFrame(s[..FindFrame(s).headerLen + FindFrame(s).bodyLen] + t) == FindFrame(s)
  {
    var h, n := FindFrame(s).headerLen, FindFrame(s).bodyLen;
    assert s[..h] + s[h..h + n] == s[..h + n];
    assert s[..h + n][..h] == s[..h];
    HeaderEndExtendsBack(s, h);
    assert s[h..][..n] == s[h..h + n];
    BodyEndBack(s[h..], n);
    FrameRoundTrip(s[..h], s[h..h + n], t);
  }

  lemma HeaderEndExtendsBack(s: seq<Byte>, h: int)
    requires IsHeaderEnd(s, h)
    ensures IsHeaderEnd(s[..h], h)
  {
    forall k | 0 <= k <= h ensures EndsAt(s[..h], k) == EndsAt(s, k) {
      EndsAtPrefix(s[..h], s[h..], k);
      assert s[..h] + s[h..] == s;
    }
  }

  lemma BodyEndBack(t: seq<Byte>, n: int)
    requires IsBodyEnd(t, n)
    ensures IsBodyEnd(t[..n], n)
  {
    forall k | 0 <= k <= n ensures StopsAt(t[..n], k) == StopsAt(t, k) {
      StopsAtPrefix(t[..n], t[n..], k);
      assert t[..n] + t[n..] == t;
    }
  }

  /** Truncation: a stream cut anywhere before the end of its first frame
      holds no frame at all. */
  lemma TruncatedIsIncomplete(s: seq<Byte>, k: nat)
    requires FindFrame(s).Found? && k < FindFrame(s).headerLen + FindFrame(s).bodyLen
    ensures FindFrame(s[..k]) == Incomplete
  {
    var p := s[..k];
    if FindFrame(p).Found? {
      var h, n := FindFrame(p).headerLen, FindFrame(p).bodyLen;
      assert p[..h + n] + s[h + n..] == s;
      FrameIgnoresWhatFollows(p, s[h + n..]);
      assert false;
    }
  }
}
