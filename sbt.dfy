/** The LSP message framer of `src/sbt.rs`: `LspMessageReader` pulls items
    one at a time from a byte iterator, collects a header block up to the
    first blank line and then a body up to the point where its brace count
    is no longer positive, and checks the body with a JSON parser.
    `LspMessage` holds the two parts and writes them back out. */
module Sbt {
  import opened Io
  import opened Framing
  import opened Reading

  /** One framed message: the raw header block and the raw body. */
  datatype LspMessage = LspMessage(headers: seq<Byte>, message: seq<Byte>) {

    /** The header block ends with its only CR LF CR LF, and the body is
        complete exactly at its last byte. */
    ghost predicate WellFormed() {
      IsHeaderEnd(headers, |headers|) && IsBodyEnd(message, |message|)
    }

    /** Writes the header block, then the body, then flushes. */
    method WriteInto(w: Sink)
      requires w.Valid()
      modifies w
      ensures w.Valid()
      ensures w.written == old(w.written) + headers + message
      ensures w.flushed == |w.written|
    {
      w.WriteAll(headers);
      w.WriteAll(message);
      w.Flush();
    }
  }

  /** A message is well formed exactly when, written out, it is read back as
      one frame with the same split between header block and body. */
  lemma WellFormedIffReadBack(m: LspMessage)
    ensures m.WellFormed() <==> FindFrame(m.headers + m.message) == Found(|m.headers|, |m.message|)
  {
    var s := m.headers + m.message;
    if m.WellFormed() {
      FrameRoundTrip(m.headers, m.message, []);
      assert s + [] == s;
    }
    if FindFrame(s) == Found(|m.headers|, |m.message|) {
      HeaderEndExtendsBack(s, |m.headers|);
      assert s[..|m.headers|] == m.headers;
      assert s[|m.headers|..] == m.message;
    }
  }

  /** `read_message` has read `ev[a..b]` into the header buffer `h` and the
      body buffer `m` and returned `r`. The two buffers hold exactly the bytes
      read. If they make one complete frame the last read was a byte and the
      result is that message, or `InvalidData` when the body is not JSON;
      otherwise the buffers are an incomplete frame and the result is the
      error that stopped the source. A message returned is well formed and
      its body is JSON (and so, by `WellFormedIffReadBack`, well formed). */
  ghost predicate MessageRead(ev: seq<ReadEvent>, a: nat, b: nat, h: seq<Byte>, m: seq<Byte>,
                              isJson: seq<Byte> -> bool, r: Result<LspMessage, ErrorKind>) {
    a <= b <= |ev| && h + m == DataBytes(ev, a, b) &&
    (FindFrame(h + m) == Found(|h|, |m|) ==>
       Completed(ev, a, b) && r == (if isJson(m) then Ok(LspMessage(h, m)) else Err(InvalidData))) &&
    (FindFrame(h + m) != Found(|h|, |m|) ==>
       FindFrame(h + m) == Incomplete && r.Err? && SourceStopped(ev, a, b, r.error)) &&
    (r.Ok? ==> r.value == LspMessage(h, m) && isJson(m))
  }

  /** The header loop failed: nothing was put in the body buffer. */
  lemma HeaderFailed(ev: seq<ReadEvent>, a: nat, b: nat, h: seq<Byte>, isJson: seq<Byte> -> bool, k: ErrorKind)
    requires HeaderRead(ev, a, b, [], h, Fail(k))
    ensures MessageRead(ev, a, b, h, [], isJson, Err(k))
  {
    assert h + [] == h;
    IncompleteHeader(h);
  }

  /** The header loop succeeded and the body loop returned `o`. */
  lemma BodyDone(ev: seq<ReadEvent>, a: nat, b: nat, c: nat, h: seq<Byte>, m: seq<Byte>,
                 isJson: seq<Byte> -> bool, o: Outcome<ErrorKind>)
    requires HeaderRead(ev, a, b, [], h, Pass) && BodyRead(ev, b, c, m, isJson, o)
    ensures MessageRead(ev, a, c, h, m, isJson, if o.Fail? then Err(o.error) else Ok(LspMessage(h, m)))
  {
    DataBytesJoin(ev, a, b, c);
    assert IsHeaderEnd(h, |h|);
    if StopsAt(m, |m|) {
      assert IsBodyEnd(m, |m|);
      WellFormedIffReadBack(LspMessage(h, m));
      CompletedJoin(ev, a, b, c);
    } else {
      IncompleteBody(h, m);
      SourceStoppedJoin(ev, a, b, c, o.error);
    }
  }

  /** A message returned was made of bytes read by this call, at least one. */
  lemma ReadOk(ev: seq<ReadEvent>, a: nat, b: nat, h: seq<Byte>, m: seq<Byte>,
               isJson: seq<Byte> -> bool, r: Result<LspMessage, ErrorKind>)
    requires MessageRead(ev, a, b, h, m, isJson, r) && r.Ok?
    ensures a < b && r.value.headers + r.value.message == DataBytes(ev, a, b)
    ensures r.value.WellFormed() && isJson(r.value.message)
  {
    WellFormedIffReadBack(r.value);
  }

  /** An error returned is `InvalidData`, for a frame whose body is not
      JSON, or the error that stopped the source before the bytes read made
      a frame; never `Interrupted`. */
  lemma ReadErr(ev: seq<ReadEvent>, a: nat, b: nat, h: seq<Byte>, m: seq<Byte>,
                isJson: seq<Byte> -> bool, r: Result<LspMessage, ErrorKind>)
    requires MessageRead(ev, a, b, h, m, isJson, r) && r.Err?
    ensures r.error != Interrupted && (r.error == InvalidData || SourceStopped(ev, a, b, r.error))
    ensures || (FindFrame(h + m) == Incomplete && SourceStopped(ev, a, b, r.error))
            || (FindFrame(h + m) == Found(|h|, |m|) && !isJson(m) && r.error == InvalidData)
  {
  }

  /** No over-read: the message returned is the first frame of the bytes
      the source offers from where the call started, however many of the
      events after it are looked at. */
  lemma MessageIsFirstFrame(ev: seq<ReadEvent>, a: nat, b: nat, c: nat, h: seq<Byte>, m: seq<Byte>,
                            isJson: seq<Byte> -> bool, r: Result<LspMessage, ErrorKind>)
    requires MessageRead(ev, a, b, h, m, isJson, r) && FindFrame(h + m).Found? && b <= c <= |ev|
    ensures FindFrame(DataBytes(ev, a, c)) == Found(|h|, |m|)
  {
    var s := h + m;
    DataBytesJoin(ev, a, b, c);
    assert s[..|h| + |m|] == s;
    FrameIgnoresWhatFollows(s, DataBytes(ev, b, c));
  }

  /** A source that runs out, with no hard error, before the bytes from
      where the call started make a frame: the call consumes everything and
      reports `UnexpectedEof`. */
  lemma EndOfInputIsUnexpected(ev: seq<ReadEvent>, a: nat, b: nat, h: seq<Byte>, m: seq<Byte>,
                               isJson: seq<Byte> -> bool, r: Result<LspMessage, ErrorKind>)
    requires MessageRead(ev, a, b, h, m, isJson, r)
    requires SoftBetween(ev, a, |ev|) && FindFrame(DataBytes(ev, a, |ev|)) == Incomplete
    ensures r == Err(UnexpectedEof) && b == |ev|
  {
    if FindFrame(h + m) == Found(|h|, |m|) {
      MessageIsFirstFrame(ev, a, b, |ev|, h, m, isJson, r);
      assert false;
    }
  }

  /** Read from a source that yields the bytes `s` and nothing else, with
      the cursor at `a` where the rest of `s` begins with a frame,
      `read_message` returns exactly that frame's bytes, split where the
      frame splits. */
  lemma FrameOfBytesIsRead(s: seq<Byte>, a: nat, b: nat, h: seq<Byte>, m: seq<Byte>,
                           isJson: seq<Byte> -> bool, r: Result<LspMessage, ErrorKind>)
    requires MessageRead(Events(s), a, b, h, m, isJson, r) && FindFrame(s[a..]).Found?
    ensures h + m == s[a..b] && FindFrame(s[a..]) == Found(|h|, |m|) == FindFrame(h + m)
  {
    EventsCarryBytes(s, a, b);
    if b == |s| {
      assert h + m == s[a..];
    }
    assert s[a..][..b - a] == s[a..b];
    FirstFrameOfPrefix(s[a..], b - a, h, m);
  }

  lemma FirstFrameOfPrefix(s: seq<Byte>, b: nat, h: seq<Byte>, m: seq<Byte>)
    requires b <= |s| && h + m == s[..b] && FindFrame(h + m) == Found(|h|, |m|)
    ensures FindFrame(s) == Found(|h|, |m|)
  {
    assert (h + m)[..|h| + |m|] + s[b..] == s;
    FrameIgnoresWhatFollows(h + m, s[b..]);
  }

  /** What `write_into` puts out is read back by `read_message` as the same
      message, from a source that yields those bytes at the cursor `a` and
      then any others; the read stops exactly at the end of the message. */
  lemma WrittenIsReadBack(msg: LspMessage, s: seq<Byte>, a: nat, rest: seq<Byte>, b: nat, h: seq<Byte>, m: seq<Byte>,
                          isJson: seq<Byte> -> bool, r: Result<LspMessage, ErrorKind>)
    requires msg.WellFormed() && isJson(msg.message)
    requires a <= |s| && s[a..] == msg.headers + msg.message + rest
    requires MessageRead(Events(s), a, b, h, m, isJson, r)
    ensures r == Ok(msg) && b == a + |msg.headers + msg.message|
  {
    var e := msg.headers + msg.message;
    FrameRoundTrip(msg.headers, msg.message, rest);
    FrameOfBytesIsRead(s, a, b, h, m, isJson, r);
    assert h + m == e;
    assert h == e[..|h|] && m == e[|h|..];
  }

  class LspMessageReader {
    /** The iterator `inner`: the items it will yield, in order, and how many
        it has yielded so far. Past the end it yields `None`. */
    const input: seq<ReadEvent>
    var pos: nat
    /** Whether `serde_json::from_slice::<Value>` accepts a byte slice. */
    const isJson: seq<Byte> -> bool
    var headers: seq<Byte>
    var message: seq<Byte>

    ghost predicate Valid()
      reads this
    {
      pos <= |input|
    }

    constructor (input: seq<ReadEvent>, isJson: seq<Byte> -> bool)
      ensures Valid()
      ensures this.input == input && this.isJson == isJson
      ensures pos == 0 && headers == [] && message == []
    {
      this.input := input;
      this.isJson := isJson;
      pos := 0;
      headers := [];
      message := [];
    }

    /** `inner.next()`. */
    method Next() returns (bo: Option<ReadEvent>)
      requires Valid()
      modifies this`pos
      ensures Valid()
      ensures bo == (if old(pos) < |input| then Some(input[old(pos)]) else None)
      ensures pos == (if old(pos) < |input| then old(pos) + 1 else old(pos))
    {
      if pos < |input| {
        bo := Some(input[pos]);
        pos := pos + 1;
      } else {
        bo := None;
      }
    }

    /** Reads one whole message: the header block, then the body. Both
        buffers start empty, so the message is made only of bytes consumed by
        this call. */
    method ReadMessage() returns (r: Result<LspMessage, ErrorKind>)
      requires Valid()
      modifies this`pos, this`headers, this`message
      ensures Valid()
      ensures MessageRead(input, old(pos), pos, headers, message, isJson, r)
    {
      ghost var p0 := pos;
      headers := [];
      message := [];
      var o := ParseHeaders();
      if o.Fail? {
        HeaderFailed(input, p0, pos, headers, isJson, o.error);
        r := Err(o.error);
        return;
      }
      ghost var p1 := pos;
      o := ParseMessage();
      BodyDone(input, p0, p1, pos, headers, message, isJson, o);
      if o.Fail? {
        r := Err(o.error);
        return;
      }
      r := Ok(LspMessage(headers, message));
    }

    /** Collects bytes into `headers` until the buffer first ends with
        CR LF CR LF. */
    method ParseHeaders() returns (r: Outcome<ErrorKind>)
      requires Valid()
      modifies this`pos, this`headers
      ensures Valid()
      ensures HeaderRead(input, old(pos), pos, old(headers), headers, r)
    {
      ghost var p0, h0 := pos, headers;
      HeaderStart(input, p0, h0);
      while true
        invariant Valid()
        invariant HeaderLoop(input, p0, pos, h0, headers)
        decreases |input| - pos
      {
        ghost var q := pos;
        var bo := Next();
        var mb := MatchByte(bo);
        if mb.Err? {
          HeaderStopped(input, p0, q, pos, h0, headers, mb.error);
          r := Fail(mb.error);
          return;
        }
        if mb.value.Some? {
          var b := mb.value.value;
          HeaderByte(input, p0, q, h0, headers);
          headers := headers + [b];
          if |headers| >= 4 && headers[|headers| - 4..] == Terminator {
            r := Pass;
            return;
          }
        } else {
          HeaderSkip(input, p0, q, h0, headers);
        }
      }
    }

    /** Turns one item of the iterator into a byte, `None` for an
        interrupted read that is to be retried, or the error to return. */
    static function MatchByte(bo: Option<ReadEvent>): (r: Result<Option<Byte>, ErrorKind>)
      ensures r == Ok(None) <==> bo == Some(Failed(Interrupted))
      ensures r.Ok? && r.value.Some? <==> bo.Some? && bo.value.Data?
      ensures bo.Some? && bo.value.Data? ==> r.value.value == bo.value.byte
      ensures r.Err? ==> r.error != Interrupted
      ensures bo.None? ==> r == Err(UnexpectedEof)
      ensures bo.Some? && bo.value.Failed? && bo.value.kind != Interrupted ==> r == Err(bo.value.kind)
    {
      match bo
      case None => Err(UnexpectedEof)
      case Some(Failed(e)) => if e == Interrupted then Ok(None) else Err(e)
      case Some(Data(b)) => Ok(Some(b))
    }

    /** Collects the body into `message`, counting braces outside strings,
        and checks it as JSON the first time, right after a brace or a
        closed string, that the count is no longer positive. */
    method ParseMessage() returns (r: Outcome<ErrorKind>)
      requires Valid() && message == []
      modifies this`pos, this`message
      ensures Valid()
      ensures BodyRead(input, old(pos), pos, message, isJson, r)
    {
      ghost var p0 := pos;
      var braceCount := 0;
      BodyStart(input, p0);
      while true
        invariant Valid()
        invariant BodyLoop(input, p0, pos, message, braceCount)
        decreases |input| - pos
      {
        ghost var q := pos;
        var bo := Next();
        var mb := MatchByte(bo);
        if mb.Err? {
          BodyStopped(input, p0, q, pos, message, braceCount, isJson, mb.error);
          r := Fail(mb.error);
          return;
        }
        if mb.value.Some? {
          var b := mb.value.value;
          ghost var m := message;
          message := message + [b];
          if b == OpenBrace || b == CloseBrace || b == Quote {
            if b == OpenBrace {
              BodyBrace(input, p0, q, m, braceCount, isJson);
              braceCount := braceCount + 1;
            } else if b == CloseBrace {
              BodyBrace(input, p0, q, m, braceCount, isJson);
              braceCount := braceCount - 1;
            } else {
              BodyQuote(input, p0, q, m, braceCount);
              ghost var p1 := pos;
              r := ParseString();
              BodyAfterString(input, p0, p1, pos, m + [b], message, braceCount, isJson, r);
              if r.Fail? {
                return;
              }
            }
            if braceCount <= 0 {
              r := Validate(message, isJson);
              return;
            }
          } else {
            BodyPlain(input, p0, q, m, braceCount);
          }
        } else {
          BodySkip(input, p0, q, message, braceCount);
        }
      }
    }

    /** Collects the rest of a quoted string into `message`, up to and
        including the first quote that no backslash escapes. */
    method ParseString() returns (r: Outcome<ErrorKind>)
      requires Valid() && Run(message).inString && !Run(message).escape
      modifies this`pos, this`message
      ensures Valid()
      ensures StringRead(input, old(pos), pos, old(message), message, r)
    {
      ghost var p0, m0, depth := pos, message, Run(message).depth;
      var escape := false;
      StringStart(input, p0, m0);
      while true
        invariant Valid()
        invariant StringLoop(input, p0, pos, m0, message, depth, escape)
        decreases |input| - pos
      {
        ghost var q := pos;
        var bo := Next();
        var mb := MatchByte(bo);
        if mb.Err? {
          StringStopped(input, p0, q, pos, m0, message, depth, escape, mb.error);
          r := Fail(mb.error);
          return;
        }
        if mb.value.Some? {
          var b := mb.value.value;
          StringByte(input, p0, q, m0, message, depth, escape);
          message := message + [b];
          if escape {
            escape := false;
          } else if b == Backslash {
            escape := true;
          } else if b == Quote {
            r := Pass;
            return;
          }
        } else {
          StringSkip(input, p0, q, m0, message, depth, escape);
        }
      }
    }
  }
}
