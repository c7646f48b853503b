/** The forwarding loop of `src/main.rs`: one thread per direction reads
    messages from one end and writes each to the other, until a read or a
    write fails. */
module Relay {
  import opened Io
  import opened Framing
  import opened Sbt

  /** The bytes of messages written one after another. */
  function Concat(fs: seq<LspMessage>): (r: seq<Byte>)
    ensures fs == [] ==> r == []
  {
    if fs == [] then [] else fs[0].headers + fs[0].message + Concat(fs[1..])
  }

  lemma {:induction false} ConcatSnoc(fs: seq<LspMessage>, f: LspMessage)
    ensures Concat(fs + [f]) == Concat(fs) + f.headers + f.message
  {
    if fs == [] {
      assert [f][1..] == [];
    } else {
      assert (fs + [f])[1..] == fs[1..] + [f];
      ConcatSnoc(fs[1..], f);
    }
  }

  /** Writing one more message after others appends its bytes. */
  lemma WrittenGrows(w0: seq<Byte>, fs: seq<LspMessage>, f: LspMessage)
    ensures w0 + Concat(fs) + f.headers + f.message == w0 + Concat(fs + [f])
  {
    ConcatSnoc(fs, f);
  }

  /** The messages a reader takes from the bytes `s`, one frame after
      another, up to the first frame that is incomplete or not JSON. */
  function Decode(s: seq<Byte>, isJson: seq<Byte> -> bool): (r: seq<LspMessage>)
    ensures forall i :: 0 <= i < |r| ==> r[i].WellFormed() && isJson(r[i].message)
    decreases |s|
  {
    match FindFrame(s)
    case Incomplete => []
    case Found(h, n) =>
      var msg := LspMessage(s[..h], s[h..h + n]);
      if !isJson(msg.message) then []
      else
        WellFormedIffReadBack(msg);
        assert msg.headers + msg.message == s[..h + n];
        FrameIgnoresWhatFollows(s, []);
        assert s[..h + n] + [] == s[..h + n];
        [msg] + Decode(s[h + n..], isJson)
  }

  /** Well formed JSON messages, written one after another, are decoded back
      to the same messages. */
  lemma {:induction false} DecodeConcat(fs: seq<LspMessage>, isJson: seq<Byte> -> bool)
    requires forall i :: 0 <= i < |fs| ==> fs[i].WellFormed() && isJson(fs[i].message)
    ensures Decode(Concat(fs), isJson) == fs
  {
    if fs != [] {
      var f := fs[0];
      var s := Concat(fs);
      assert s == f.headers + f.message + Concat(fs[1..]);
      FrameRoundTrip(f.headers, f.message, Concat(fs[1..]));
      var h, n := |f.headers|, |f.message|;
      assert s[..h] == f.headers && s[h..h + n] == f.message && s[h + n..] == Concat(fs[1..]);
      DecodeConcat(fs[1..], isJson);
      assert fs == [f] + fs[1..];
    }
  }

  /** One more message, read from the events that follow those already
      consumed, keeps the bytes written equal to the bytes consumed. */
  lemma CopyStep(input: seq<ReadEvent>, frames: seq<LspMessage>, done: nat, b: nat, f: LspMessage)
    requires done <= b <= |input| && f.headers + f.message == DataBytes(input, done, b)
    requires Concat(frames) == DataBytes(input, 0, done)
    ensures Concat(frames + [f]) == DataBytes(input, 0, b)
  {
    calc {
      Concat(frames + [f]);
    == { ConcatSnoc(frames, f); }
      Concat(frames) + f.headers + f.message;
    ==
      Concat(frames) + (f.headers + f.message);
    == { DataBytesJoin(input, 0, done, b); }
      DataBytes(input, 0, b);
    }
  }

  /** `copy_messages`: reads messages from `input` and writes each to `w`
      until reading one fails, and returns that error. Every message written
      is well formed and JSON; what was written is exactly the bytes consumed
      up to the end of the last message, and it decodes back to those
      messages, and the events consumed up to there hold only bytes and
      interrupted reads. The read that failed took `input[done..end]` into
      the buffers `h` and `m`: they hold no frame and the source stopped with `e`, or
      they hold a frame whose body is not JSON and `e` is `InvalidData`. */
  method CopyMessages(input: seq<ReadEvent>, isJson: seq<Byte> -> bool, w: Sink)
      returns (e: ErrorKind, ghost frames: seq<LspMessage>, ghost done: nat, ghost end: nat,
               ghost h: seq<Byte>, ghost m: seq<Byte>)
    requires w.Valid()
    modifies w
    ensures w.Valid()
    ensures w.written == old(w.written) + Concat(frames)
    ensures w.flushed == if frames == [] then old(w.flushed) else |w.written|
    ensures forall i :: 0 <= i < |frames| ==> frames[i].WellFormed() && isJson(frames[i].message)
    ensures Decode(Concat(frames), isJson) == frames
    ensures done <= end <= |input| && Concat(frames) == DataBytes(input, 0, done)
    ensures SoftBetween(input, 0, done)
    ensures MessageRead(input, done, end, h, m, isJson, Err(e))
    ensures e != Interrupted && (e == InvalidData || SourceStopped(input, done, end, e))
  {
    ghost var w0 := w.written;
    var reader := new LspMessageReader(input, isJson);
    frames, done := [], 0;
    while true
      invariant reader.Valid() && w.Valid() && fresh(reader)
      invariant reader.input == input && reader.isJson == isJson && reader.pos == done
      invariant w.written == w0 + Concat(frames)
      invariant w.flushed == if frames == [] then old(w.flushed) else |w.written|
      invariant forall i :: 0 <= i < |frames| ==> frames[i].WellFormed() && isJson(frames[i].message)
      invariant Concat(frames) == DataBytes(input, 0, done)
      invariant SoftBetween(input, 0, done)
      decreases |input| - reader.pos
    {
      var r := reader.ReadMessage();
      if r.Err? {
        ReadErr(input, done, reader.pos, reader.headers, reader.message, isJson, r);
        DecodeConcat(frames, isJson);
        e, end, h, m := r.error, reader.pos, reader.headers, reader.message;
        return;
      }
      ReadOk(input, done, reader.pos, reader.headers, reader.message, isJson, r);
      var msg := r.value;
      CopyStep(input, frames, done, reader.pos, msg);
      WrittenGrows(w0, frames, msg);
      msg.WriteInto(w);
      frames, done := frames + [msg], reader.pos;
    }
  }

  /** Two well formed messages at the front of the same bytes are the same
      message, followed by the same bytes. */
  lemma SameFirstMessage(f: LspMessage, tail: seq<Byte>, g: LspMessage, rest: seq<Byte>)
    requires f.WellFormed() && g.WellFormed()
    requires f.headers + f.message + tail == g.headers + g.message + rest
    ensures f == g && tail == rest
  {
    var t := g.headers + g.message + rest;
    FrameRoundTrip(f.headers, f.message, tail);
    FrameRoundTrip(g.headers, g.message, rest);
    assert f.headers == t[..|f.headers|] == g.headers;
    assert f.message == t[|f.headers|..|f.headers| + |f.message|] == g.message;
    assert tail == t[|f.headers| + |f.message|..] == rest;
  }

  /** Messages that are a prefix of a stream of messages, byte for byte,
      are its first messages, and the bytes that follow are the rest. */
  lemma {:induction false} ConcatPrefix(frames: seq<LspMessage>, fs: seq<LspMessage>, u: seq<Byte>)
    requires forall i :: 0 <= i < |frames| ==> frames[i].WellFormed()
    requires forall i :: 0 <= i < |fs| ==> fs[i].WellFormed()
    requires Concat(frames) + u == Concat(fs)
    ensures |frames| <= |fs| && frames == fs[..|frames|] && u == Concat(fs[|frames|..])
  {
    if frames == [] {
      assert fs[0..] == fs;
    } else {
      var f, tail := frames[0], Concat(frames[1..]) + u;
      assert Concat(fs) == f.headers + f.message + tail;
      FrameRoundTrip(f.headers, f.message, tail);
      assert |Concat(fs)| >= 5;
      assert fs != [];
      SameFirstMessage(f, tail, fs[0], Concat(fs[1..]));
      ConcatPrefix(frames[1..], fs[1..], u);
      assert fs[1..][|frames| - 1..] == fs[|frames|..];
      assert frames == [f] + frames[1..];
      assert fs[..|frames|] == [fs[0]] + fs[1..][..|frames| - 1];
    }
  }

  /** The reader's round trip, as `copy_messages` runs it: on a source that
      yields well formed JSON messages written one after another and nothing
      else, the loop writes back exactly those messages, in order, consumes
      every byte, and stops with `UnexpectedEof`. The requirements on
      `frames`, `done`, `end`, `h`, `m` and `e` are what `CopyMessages`
      ensures of its results. */
  lemma CopiesWrittenMessages(fs: seq<LspMessage>, isJson: seq<Byte> -> bool, e: ErrorKind,
                              frames: seq<LspMessage>, done: nat, end: nat, h: seq<Byte>, m: seq<Byte>)
    requires forall i :: 0 <= i < |fs| ==> fs[i].WellFormed() && isJson(fs[i].message)
    requires forall i :: 0 <= i < |frames| ==> frames[i].WellFormed() && isJson(frames[i].message)
    requires done <= end <= |Concat(fs)| && Concat(frames) == DataBytes(Events(Concat(fs)), 0, done)
    requires MessageRead(Events(Concat(fs)), done, end, h, m, isJson, Err(e))
    ensures frames == fs && e == UnexpectedEof && done == end == |Concat(fs)|
  {
    var s := Concat(fs);
    EventsCarryBytes(s, 0, done);
    assert Concat(frames) + s[done..] == s;
    ConcatPrefix(frames, fs, s[done..]);
    var k := |frames|;
    if k < |fs| {
      var g := fs[k];
      assert fs[k..] == [g] + fs[k + 1..];
      assert s[done..] == g.headers + g.message + Concat(fs[k + 1..]);
      WrittenIsReadBack(g, s, done, Concat(fs[k + 1..]), end, h, m, isJson, Err(e));
      assert false;
    }
    assert fs[k..] == [];
    assert frames == fs;
    EventsCarryBytes(s, done, end);
    assert h + m == [];
  }
}
