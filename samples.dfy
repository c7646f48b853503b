/** Worked frames: concrete header blocks and bodies, and where the framer
    ends them. */
module Samples {
  import opened Io
  import opened Framing
  import opened Sbt
  import opened Relay

  /** `m` followed by `b` still has no prefix that ends the body, as long as
      `b` is not a checkpoint at which the count is no longer positive. */
  lemma NoStopThrough(m: seq<Byte>, b: Byte, m': seq<Byte>)
    requires m' == m + [b] && forall k :: 0 <= k <= |m| ==> !StopsAt(m, k)
    requires !(Checks(Run(m), b) && Step(Run(m), b).depth <= 0)
    ensures Run(m') == Step(Run(m), b)
    ensures forall k :: 0 <= k <= |m'| ==> !StopsAt(m', k)
  {
    AppendByte(m, b);
  }

  /** `m` followed by `b` ends the body exactly at `b`. */
  lemma StopAt(m: seq<Byte>, b: Byte, m': seq<Byte>)
    requires m' == m + [b] && forall k :: 0 <= k <= |m| ==> !StopsAt(m, k)
    requires Checks(Run(m), b) && Step(Run(m), b).depth <= 0
    ensures IsBodyEnd(m', |m'|)
  {
    AppendByte(m, b);
  }

  /** The header block `X` CR LF CR LF. */
  const Header: seq<Byte> := [88, CR, LF, CR, LF]

  lemma HeaderEndsOnce()
    ensures IsHeaderEnd(Header, |Header|)
  {
    assert Header[0..4][0] != Terminator[0];
  }

  /** The body `{"a":"}"}`: the brace inside the string is not counted. */
  const QuotedBrace: seq<Byte> := [OpenBrace, Quote, 97, Quote, 58, Quote, CloseBrace, Quote, CloseBrace]

  lemma QuotedBraceIsSkipped()
    ensures IsBodyEnd(QuotedBrace, 9)
  {
    var m := QuotedBrace;
    assert Run(m[..0]) == Start;
    NoStopThrough(m[..0], m[0], m[..1]);
    assert Run(m[..1]) == Scan(1, false, false);
    NoStopThrough(m[..1], m[1], m[..2]);
    assert Run(m[..2]) == Scan(1, true, false);
    NoStopThrough(m[..2], m[2], m[..3]);
    assert Run(m[..3]) == Scan(1, true, false);
    NoStopThrough(m[..3], m[3], m[..4]);
    assert Run(m[..4]) == Scan(1, false, false);
    NoStopThrough(m[..4], m[4], m[..5]);
    assert Run(m[..5]) == Scan(1, false, false);
    NoStopThrough(m[..5], m[5], m[..6]);
    assert Run(m[..6]) == Scan(1, true, false);
    NoStopThrough(m[..6], m[6], m[..7]);
    assert Run(m[..7]) == Scan(1, true, false);
    NoStopThrough(m[..7], m[7], m[..8]);
    assert Run(m[..8]) == Scan(1, false, false);
    StopAt(m[..8], m[8], m[..9]);
    assert m[..9] == m;
  }

  /** The body `{"\"}"}`: an escaped quote does not close the string, so
      the first `}` is inside it. */
  const EscapedQuote: seq<Byte> := [OpenBrace, Quote, Backslash, Quote, CloseBrace, Quote, CloseBrace]

  lemma EscapedQuoteStaysInString()
    ensures IsBodyEnd(EscapedQuote, 7)
  {
    var m := EscapedQuote;
    assert Run(m[..0]) == Start;
    NoStopThrough(m[..0], m[0], m[..1]);
    assert Run(m[..1]) == Scan(1, false, false);
    NoStopThrough(m[..1], m[1], m[..2]);
    assert Run(m[..2]) == Scan(1, true, false);
    NoStopThrough(m[..2], m[2], m[..3]);
    assert Run(m[..3]) == Scan(1, true, true);
    NoStopThrough(m[..3], m[3], m[..4]);
    assert Run(m[..4]) == Scan(1, true, false);
    NoStopThrough(m[..4], m[4], m[..5]);
    assert Run(m[..5]) == Scan(1, true, false);
    NoStopThrough(m[..5], m[5], m[..6]);
    assert Run(m[..6]) == Scan(1, false, false);
    StopAt(m[..6], m[6], m[..7]);
    assert m[..7] == m;
  }

  /** The body `{"a":"\""}`: the string value is one escaped quote. */
  const EscapedValue: seq<Byte> := [OpenBrace, Quote, 97, Quote, 58, Quote, Backslash, Quote, Quote, CloseBrace]

  lemma EscapedValueIsOneBody()
    ensures IsBodyEnd(EscapedValue, 10)
  {
    var m := EscapedValue;
    assert Run(m[..0]) == Start;
    NoStopThrough(m[..0], m[0], m[..1]);
    assert Run(m[..1]) == Scan(1, false, false);
    NoStopThrough(m[..1], m[1], m[..2]);
    assert Run(m[..2]) == Scan(1, true, false);
    NoStopThrough(m[..2], m[2], m[..3]);
    assert Run(m[..3]) == Scan(1, true, false);
    NoStopThrough(m[..3], m[3], m[..4]);
    assert Run(m[..4]) == Scan(1, false, false);
    NoStopThrough(m[..4], m[4], m[..5]);
    assert Run(m[..5]) == Scan(1, false, false);
    NoStopThrough(m[..5], m[5], m[..6]);
    assert Run(m[..6]) == Scan(1, true, false);
    NoStopThrough(m[..6], m[6], m[..7]);
    assert Run(m[..7]) == Scan(1, true, true);
    NoStopThrough(m[..7], m[7], m[..8]);
    assert Run(m[..8]) == Scan(1, true, false);
    NoStopThrough(m[..8], m[8], m[..9]);
    assert Run(m[..9]) == Scan(1, false, false);
    StopAt(m[..9], m[9], m[..10]);
    assert m[..10] == m;
  }

  /** The body ` }`: a leading space is not a checkpoint, and a closing
      brace with no opening one ends the body at once, since the count is
      already below one. */
  const StrayBrace: seq<Byte> := [32, CloseBrace]

  lemma StrayBraceEndsBody()
    ensures IsBodyEnd(StrayBrace, 2)
  {
    var m := StrayBrace;
    assert Run(m[..0]) == Start;
    NoStopThrough(m[..0], m[0], m[..1]);
    assert Run(m[..1]) == Scan(0, false, false);
    StopAt(m[..1], m[1], m[..2]);
    assert m[..2] == m;
  }

  /** The two messages used below: `{"a":"}"}` and `{"\"}"}`, each after
      the header block `X` CR LF CR LF. */
  const Two: seq<LspMessage> := [LspMessage(Header, QuotedBrace), LspMessage(Header, EscapedQuote)]

  lemma TwoAreWellFormed(isJson: seq<Byte> -> bool)
    requires isJson(QuotedBrace) && isJson(EscapedQuote)
    ensures forall i :: 0 <= i < |Two| ==> Two[i].WellFormed() && isJson(Two[i].message)
    ensures Concat(Two) == Header + QuotedBrace + Header + EscapedQuote
  {
    HeaderEndsOnce();
    QuotedBraceIsSkipped();
    EscapedQuoteStaysInString();
    assert Concat(Two) == Header + QuotedBrace + Concat(Two[1..]);
    assert Concat(Two[1..]) == Header + EscapedQuote + Concat([]);
  }

  /** Two messages written one after the other are framed and decoded as
      those two messages. */
  lemma TwoMessagesDecode(isJson: seq<Byte> -> bool)
    requires isJson(QuotedBrace) && isJson(EscapedQuote)
    ensures FindFrame(Header + QuotedBrace + Header + EscapedQuote) == Found(5, 9)
    ensures Decode(Header + QuotedBrace + Header + EscapedQuote, isJson) == Two
  {
    TwoAreWellFormed(isJson);
    FrameRoundTrip(Header, QuotedBrace, Header + EscapedQuote);
    DecodeConcat(Two, isJson);
  }

  /** `copy_messages` on a source that yields those two messages and nothing
      else writes both back, in order, having consumed all 26 bytes, and
      stops with `UnexpectedEof`. The requirements on `frames`, `done`,
      `end`, `h`, `m` and `e` are what `CopyMessages` ensures of its results. */
  lemma TwoMessagesRelayed(isJson: seq<Byte> -> bool, e: ErrorKind, frames: seq<LspMessage>,
                           done: nat, end: nat, h: seq<Byte>, m: seq<Byte>)
    requires isJson(QuotedBrace) && isJson(EscapedQuote)
    requires forall i :: 0 <= i < |frames| ==> frames[i].WellFormed() && isJson(frames[i].message)
    requires done <= end <= |Concat(Two)| && Concat(frames) == DataBytes(Events(Concat(Two)), 0, done)
    requires MessageRead(Events(Concat(Two)), done, end, h, m, isJson, Err(e))
    ensures frames == Two && e == UnexpectedEof && end == |Concat(Two)| == 26
  {
    TwoAreWellFormed(isJson);
    CopiesWrittenMessages(Two, isJson, e, frames, done, end, h, m);
  }

  /** `read_message` on a source that yields `X` CR LF CR LF `{"a":"}"}` and
      then anything returns that message, having read its 14 bytes only. */
  lemma ReadsQuotedBrace(rest: seq<Byte>, isJson: seq<Byte> -> bool, b: nat, h: seq<Byte>, m: seq<Byte>,
                         r: Result<LspMessage, ErrorKind>)
    requires isJson(QuotedBrace)
    requires MessageRead(Events(Header + QuotedBrace + rest), 0, b, h, m, isJson, r)
    ensures r == Ok(LspMessage(Header, QuotedBrace)) && b == 14
  {
    HeaderEndsOnce();
    QuotedBraceIsSkipped();
    assert (Header + QuotedBrace + rest)[0..] == Header + QuotedBrace + rest;
    WrittenIsReadBack(LspMessage(Header, QuotedBrace), Header + QuotedBrace + rest, 0, rest, b, h, m, isJson, r);
  }

  /** The same bytes without the last `}`: the source runs out inside the
      body and the call reports `UnexpectedEof`. */
  lemma TruncatedReadFails(isJson: seq<Byte> -> bool, b: nat, h: seq<Byte>, m: seq<Byte>,
                           r: Result<LspMessage, ErrorKind>)
    requires MessageRead(Events((Header + QuotedBrace)[..13]), 0, b, h, m, isJson, r)
    ensures r == Err(UnexpectedEof) && b == 13
  {
    var s := Header + QuotedBrace;
    HeaderEndsOnce();
    QuotedBraceIsSkipped();
    FrameRoundTrip(Header, QuotedBrace, []);
    assert s + [] == s;
    TruncatedIsIncomplete(s, 13);
    EventsCarryBytes(s[..13], 0, 13);
    assert s[..13][0..13] == s[..13];
    EndOfInputIsUnexpected(Events(s[..13]), 0, b, h, m, isJson, r);
  }
}
