/** The parts of Rust's std::io that the LSP framer touches: bytes, the
    error kinds it distinguishes, the items a `Bytes<R>` iterator yields,
    and a writer that records what was written and flushed. */
module Io {

  /** A `u8`. */
  type Byte = x: int | 0 <= x < 256

  datatype Option<T> = None | Some(value: T)

  datatype Result<T, E> = Ok(value: T) | Err(error: E)

  /** An `io::Result<()>`. */
  datatype Outcome<E> = Pass | Fail(error: E)

  /** The `io::ErrorKind`s the framer tells apart; every other kind is `Other`. */
  datatype ErrorKind = Interrupted | UnexpectedEof | InvalidData | Other(code: nat)

  /** One item of the byte iterator `Bytes<R>`: `Some(Ok(b))` or `Some(Err(e))`.
      The iterator's `None` is the end of the sequence of events. */
  datatype ReadEvent = Data(byte: Byte) | Failed(kind: ErrorKind)

  /** An event the framer reads past: a byte, or a read that was interrupted
      and is retried. */
  predicate Soft(e: ReadEvent) {
    e.Data? || e == Failed(Interrupted)
  }

  /** Every event of `ev[a..b]` is a byte or an interrupted read. */
  predicate SoftBetween(ev: seq<ReadEvent>, a: int, b: int) {
    0 <= a <= b <= |ev| && forall i :: a <= i < b ==> Soft(ev[i])
  }

  /** The bytes carried by the events `ev[a..b]`, in order; errors carry none. */
  function DataBytes(ev: seq<ReadEvent>, a: nat, b: nat): (r: seq<Byte>)
    requires a <= b <= |ev|
    ensures |r| <= b - a
    decreases b - a
  {
    if a == b then [] else DataBytes(ev, a, b - 1) + (if ev[b - 1].Data? then [ev[b - 1].byte] else [])
  }

  /** Two runs of events read one after the other. */
  lemma {:induction false} DataBytesJoin(ev: seq<ReadEvent>, a: nat, b: nat, c: nat)
    requires a <= b <= c <= |ev|
    ensures DataBytes(ev, a, c) == DataBytes(ev, a, b) + DataBytes(ev, b, c)
    decreases c - b
  {
    if b < c {
      DataBytesJoin(ev, a, b, c - 1);
    }
  }

  /** The bytes of `ev[a..b]` depend on those events only. */
  lemma {:induction false} DataBytesLocal(ev: seq<ReadEvent>, a: nat, b: nat, ev': seq<ReadEvent>, a': nat)
    requires a <= b <= |ev| && a' + (b - a) <= |ev'|
    requires ev[a..b] == ev'[a'..a' + (b - a)]
    ensures DataBytes(ev, a, b) == DataBytes(ev', a', a' + (b - a))
    decreases b - a
  {
    if a < b {
      assert ev[b - 1] == ev[a..b][b - 1 - a] == ev'[a'..a' + (b - a)][b - 1 - a];
      assert ev[a..b - 1] == ev[a..b][..b - 1 - a];
      assert ev'[a'..a' + (b - 1 - a)] == ev'[a'..a' + (b - a)][..b - 1 - a];
      DataBytesLocal(ev, a, b - 1, ev', a');
    }
  }

  /** An interrupted read, wherever it falls, leaves the bytes of the stream
      and whether it is free of hard errors exactly as they were. */
  lemma InterruptIgnored(x: seq<ReadEvent>, y: seq<ReadEvent>)
    ensures var s, t := x + [Failed(Interrupted)] + y, x + y;
      DataBytes(s, 0, |s|) == DataBytes(t, 0, |t|) &&
      (SoftBetween(s, 0, |s|) <==> SoftBetween(t, 0, |t|))
  {
    InterruptCarriesNoByte(x, y);
    InterruptIsSoft(x, y);
  }

  lemma InterruptCarriesNoByte(x: seq<ReadEvent>, y: seq<ReadEvent>)
    ensures var s, t := x + [Failed(Interrupted)] + y, x + y;
      DataBytes(s, 0, |s|) == DataBytes(t, 0, |t|)
  {
    var s, t := x + [Failed(Interrupted)] + y, x + y;
    var n := |x|;
    DataBytesJoin(s, 0, n, |s|);
    DataBytesJoin(s, n, n + 1, |s|);
    DataBytesJoin(t, 0, n, |t|);
    assert s[n] == Failed(Interrupted);
    assert DataBytes(s, n, n + 1) == [];
    assert s[0..n] == t[0..n];
    DataBytesLocal(s, 0, n, t, 0);
    assert s[n + 1..|s|] == t[n..|t|];
    DataBytesLocal(s, n + 1, |s|, t, n);
  }

  lemma InterruptIsSoft(x: seq<ReadEvent>, y: seq<ReadEvent>)
    ensures var s, t := x + [Failed(Interrupted)] + y, x + y;
      SoftBetween(s, 0, |s|) <==> SoftBetween(t, 0, |t|)
  {
    var s, t := x + [Failed(Interrupted)] + y, x + y;
    if SoftBetween(t, 0, |t|) {
      forall i | 0 <= i < |s| ensures Soft(s[i]) {
        if i > |x| { assert s[i] == t[i - 1]; } else if i < |x| { assert s[i] == t[i]; }
      }
    }
    if SoftBetween(s, 0, |s|) {
      forall i | 0 <= i < |t| ensures Soft(t[i]) {
        if i < |x| { assert t[i] == s[i]; } else { assert t[i] == s[i + 1]; }
      }
    }
  }

  /** A source that yields the bytes `s` and nothing else. */
  function Events(s: seq<Byte>): (r: seq<ReadEvent>)
    ensures |r| == |s| && forall i :: 0 <= i < |s| ==> r[i] == Data(s[i])
  {
    seq(|s|, i requires 0 <= i < |s| => Data(s[i]))
  }

  /** Reading such a source yields its bytes, without a hard error. */
  lemma {:induction false} EventsCarryBytes(s: seq<Byte>, a: nat, b: nat)
    requires a <= b <= |s|
    ensures DataBytes(Events(s), a, b) == s[a..b] && SoftBetween(Events(s), a, b)
    decreases b - a
  {
    if a < b {
      EventsCarryBytes(s, a, b - 1);
      assert s[a..b] == s[a..b - 1] + [s[b - 1]];
    }
  }

  /** Reading `ev[a..b]` ended on a byte, after only bytes and interrupted reads. */
  ghost predicate Completed(ev: seq<ReadEvent>, a: nat, b: nat) {
    a < b <= |ev| && ev[b - 1].Data? && SoftBetween(ev, a, b)
  }

  /** Reading `ev[a..b]` was stopped by the source with error kind `k`: it ran
      out of events (`UnexpectedEof`), or its last event was an error other
      than an interrupted read; everything before was bytes or interrupted reads. */
  ghost predicate SourceStopped(ev: seq<ReadEvent>, a: nat, b: nat, k: ErrorKind) {
    a <= b <= |ev| && k != Interrupted &&
    ((k == UnexpectedEof && b == |ev| && SoftBetween(ev, a, b)) ||
     (a < b && ev[b - 1] == Failed(k) && SoftBetween(ev, a, b - 1)))
  }

  lemma CompletedJoin(ev: seq<ReadEvent>, a: nat, b: nat, c: nat)
    requires SoftBetween(ev, a, b) && Completed(ev, b, c)
    ensures Completed(ev, a, c)
  {
  }

  lemma SourceStoppedJoin(ev: seq<ReadEvent>, a: nat, b: nat, c: nat, k: ErrorKind)
    requires SoftBetween(ev, a, b) && SourceStopped(ev, b, c, k)
    ensures SourceStopped(ev, a, c, k)
  {
  }

  /** A `Write` implementation: every byte passed to `write_all`, in order,
      and how many of them a `flush` has pushed out. */
  class Sink {
    var written: seq<Byte>
    var flushed: nat

    ghost predicate Valid()
      reads this
    {
      flushed <= |written|
    }

    constructor ()
      ensures Valid() && written == [] && flushed == 0
    {
      written, flushed := [], 0;
    }

    method WriteAll(data: seq<Byte>)
      requires Valid()
      modifies this
      ensures Valid()
      ensures written == old(written) + data && flushed == old(flushed)
    {
      written := written + data;
    }

    method Flush()
      requires Valid()
      modifies this
      ensures Valid()
      ensures written == old(written) && flushed == |written|
    {
      flushed := |written|;
    }
  }
}
