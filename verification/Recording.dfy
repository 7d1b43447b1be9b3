/**
 The recording that `WriteRawData` of `src/simgear/mpserver.cxx` writes and `test_fgmp_message` of
 `src/simgear/fgmp_msg.cxx` reads: each message padded to a multiple of 16 bytes and followed by 16 more.
 */
module Recording {
  import opened Wire
  import opened Header

  const FILL: byte := 0x3D

  // ---------------------------------------------------------------- the format

  /** What `n` lacks to a multiple of 16. */
  function Gap(n: nat): (g: nat)
    ensures g < 16
  {
    (16 - n % 16) % 16
  }

  /** Counting up from `n`, the first multiple of 16 is where the gap ends. */
  lemma GapEnds(n: nat, k: nat)
    requires k <= Gap(n)
    ensures (n + k) % 16 == 0 <==> k == Gap(n)
  {
    var r := n % 16;
    assert n + k == 16 * (n / 16) + (r + k);
    assert r + k <= 16;
  }

  function PadLen(n: nat): (p: nat)
    ensures 16 <= p < 32
  {
    Gap(n) + 16
  }

  /** A message and its padding fill whole lines of 16 bytes, of which the last belongs to the padding alone. */
  lemma PadLenIs(n: nat)
    ensures (n + PadLen(n)) % 16 == 0 && (n + PadLen(n) - 16) % 16 == 0 && n <= n + PadLen(n) - 16 < n + 16
  {
    hide Gap;
    GapEnds(n, Gap(n));
  }

  function Padding(n: nat): (p: Bytes)
    ensures |p| == PadLen(n)
  {
    seq(PadLen(n), _ => FILL)
  }

  /** What is written for one message; nothing at all for an empty one. */
  function Frame(m: Bytes): Bytes
  {
    if m == [] then [] else m + Padding(|m|)
  }

  function Record(msgs: seq<Bytes>): Bytes
  {
    if msgs == [] then [] else Frame(msgs[0]) + Record(msgs[1..])
  }

  /** A message that fits the readers' buffers, and whose header is of a known format and tells its length. */
  predicate WellFormed(m: Bytes)
  {
    && HEADER_SIZE <= |m| <= MAX_PACKET_SIZE
    && KnownFormat(Decode(m))
    && Value(Decode(m).msgLen) == |m|
  }

  lemma {:induction false} RecordAppend(msgs: seq<Bytes>, m: Bytes)
    ensures Record(msgs + [m]) == Record(msgs) + Frame(m)
  {
    if msgs == [] {
      assert Record([m]) == Frame(m) + Record([]);
    } else {
      assert (msgs + [m])[1..] == msgs[1..] + [m];
      RecordAppend(msgs[1..], m);
    }
  }

  // ---------------------------------------------------------------- the writer

  class Recorder {
    var file: Bytes
    var isOpen: bool
    const hexBuffer: array<byte>

    constructor ()
      ensures file == [] && isOpen && fresh(hexBuffer) && hexBuffer.Length == 2048
    {
      file, isOpen := [], true;
      hexBuffer := new byte[2048];
    }

    /**
     Record the first `rlen` bytes of a buffer. A short first write abandons the file; whether the
     padding was written is never looked at. `complete` says that nothing fell short.
     */
    method WriteRawData(buf: array<byte>, rlen: int) returns (ghost complete: bool)
      requires rlen <= buf.Length && hexBuffer.Length == 2048 && buf != hexBuffer
      modifies this, hexBuffer
      ensures !old(isOpen) || rlen <= 0 ==> file == old(file) && isOpen == old(isOpen)
      ensures old(isOpen) && rlen > 0 ==>
                var all := old(file) + Frame(buf[..rlen]);
                && old(file) <= file <= all
                && (complete <==> file == all) && (complete ==> isOpen)
                && (isOpen <==> |file| >= |old(file)| + rlen)
    {
      complete := false;
      if isOpen && rlen > 0 {
        var wlen: int := *;
        if wlen < 0 || wlen > rlen {
          wlen := rlen;
        }
        file := file + buf[..wlen];
        if wlen != rlen {
          isOpen := false;
          return;
        }
        var off := FillPadding(rlen);
        var plen: int := *;
        if plen < 0 || plen > off {
          plen := off;
        }
        assert hexBuffer[..plen] == Padding(rlen)[..plen];
        file := file + hexBuffer[..plen];
        complete := plen == off;
        assert Padding(rlen)[..off] == Padding(rlen);
      }
    }

    /** The two padding loops; `off` bytes of the buffer are to be written. */
    method FillPadding(rlen: nat) returns (off: nat)
      requires hexBuffer.Length == 2048
      modifies hexBuffer
      ensures off <= hexBuffer.Length && hexBuffer[..off] == Padding(rlen)
    {
      hide Gap;
      var i := rlen;
      off := 0;
      GapEnds(rlen, 0);
      while i % 16 != 0
        invariant i == rlen + off && off <= Gap(rlen) && (i % 16 == 0 <==> off == Gap(rlen))
        invariant forall j :: 0 <= j < off ==> hexBuffer[j] == FILL
        decreases 16 - off
      {
        hexBuffer[off] := FILL;
        off := off + 1;
        i := i + 1;
        GapEnds(rlen, off);
      }
      i := 16;
      ghost var start := off;
      while i > 0
        invariant 0 <= i <= 16 && off == start + 16 - i
        invariant forall j :: 0 <= j < off ==> hexBuffer[j] == FILL
      {
        i := i - 1;
        hexBuffer[off] := FILL;
        off := off + 1;
      }
    }
  }

  // ---------------------------------------------------------------- the reader

  /**
   What the reader comes across first: a message, a reason to stop, or more bytes than its buffer holds.
   A length below 32 makes it ask for more than any file has, and so read all there is.
   */
  datatype Step = Stop | Overrun | Message(len: nat)

  function FirstMessage(file: Bytes): (s: Step)
    ensures s.Message? ==> HEADER_SIZE <= s.len <= |file| && s.len <= MAX_PACKET_SIZE
  {
    if |file| < HEADER_SIZE || !KnownFormat(Decode(file)) then Stop
    else
      var len := Value(Decode(file).msgLen);
      if len < HEADER_SIZE || len > |file| then (if |file| > MAX_PACKET_SIZE then Overrun else Stop)
      else if len > MAX_PACKET_SIZE then Overrun
      else Message(len)
  }

  /** The file after its first message and padding, of which the last may be cut short. */
  function Rest(file: Bytes, len: nat): Bytes
    requires len <= |file|
  {
    if len + PadLen(len) <= |file| then file[len + PadLen(len)..] else []
  }

  /** The messages the reader delivers. */
  function Parse(file: Bytes): seq<Bytes>
    decreases |file|
  {
    match FirstMessage(file)
    case Message(len) => [file[..len]] + Parse(Rest(file, len))
    case _ => []
  }

  /** Reading ends with bytes written behind the reader's buffer. */
  predicate Overruns(file: Bytes)
    decreases |file|
  {
    match FirstMessage(file)
    case Stop => false
    case Overrun => true
    case Message(len) => Overruns(Rest(file, len))
  }

  lemma DecodeHeaderOnly(d: Bytes, e: Bytes)
    requires |d| >= HEADER_SIZE && |e| >= HEADER_SIZE && d[..HEADER_SIZE] == e[..HEADER_SIZE]
    ensures Decode(d) == Decode(e)
  {
    assert forall i :: 0 <= i < HEADER_SIZE ==> d[i] == d[..HEADER_SIZE][i] && e[i] == e[..HEADER_SIZE][i];
    assert d[24..HEADER_SIZE - 1] == e[24..HEADER_SIZE - 1];
  }

  /** Whatever the file holds, the reader only delivers well-formed messages. */
  lemma {:induction false} ParseIsWellFormed(file: Bytes)
    ensures forall m :: m in Parse(file) ==> WellFormed(m)
    decreases |file|
  {
    hide Decode, Value;
    match FirstMessage(file) {
      case Message(len) =>
        DecodeHeaderOnly(file, file[..len]);
        ParseIsWellFormed(Rest(file, len));
      case _ =>
    }
  }

  /** A well-formed message in front of a file is delivered first, and its padding skipped. */
  lemma ParseFrame(m: Bytes, file: Bytes)
    requires WellFormed(m)
    ensures Parse(Frame(m) + file) == [m] + Parse(file) && Overruns(Frame(m) + file) == Overruns(file)
  {
    hide Decode, Value, FirstMessage, Rest;
    FirstOfRecording(m, file);
    assert (Frame(m) + file)[..|m|] == m;
  }

  /** Reading gives back exactly what was recorded if and only if every message was well-formed. */
  lemma {:induction false} RecordingRoundTrip(msgs: seq<Bytes>)
    ensures Parse(Record(msgs)) == msgs <==> forall m :: m in msgs ==> WellFormed(m)
    ensures Parse(Record(msgs)) == msgs ==> !Overruns(Record(msgs))
  {
    hide WellFormed, Frame;
    if forall m :: m in msgs ==> WellFormed(m) {
      ReadsAll(msgs, []);
      assert Record(msgs) + [] == Record(msgs);
      assert Parse([]) == [] && !Overruns([]);
      assert msgs + [] == msgs;
    } else {
      ParseIsWellFormed(Record(msgs));
    }
  }

  lemma {:induction false} ReadsAll(msgs: seq<Bytes>, file: Bytes)
    requires forall m :: m in msgs ==> WellFormed(m)
    ensures Parse(Record(msgs) + file) == msgs + Parse(file)
    ensures Overruns(Record(msgs) + file) == Overruns(file)
  {
    hide WellFormed, Frame, Parse, Overruns;
    if msgs == [] {
      assert Record(msgs) + file == file;
    } else {
      ReadsAll(msgs[1..], file);
      ParseFrame(msgs[0], Record(msgs[1..]) + file);
      assert Record(msgs) + file == Frame(msgs[0]) + (Record(msgs[1..]) + file);
    }
  }

  /** The server records before it checks: a message of a foreign format hides everything after it. */
  lemma ReaderStopsAtForeign(before: seq<Bytes>, m: Bytes, after: seq<Bytes>)
    requires forall b :: b in before ==> WellFormed(b)
    requires |m| >= HEADER_SIZE && !KnownFormat(Decode(m))
    ensures Parse(Record(before + [m] + after)) == before
  {
    hide Decode, Parse, Record, WellFormed;
    var file := Record([m] + after);
    ForeignFirst(m, after);
    ReadsAll(before, file);
    RecordSplit(before, [m] + after);
    assert before + [m] + after == before + ([m] + after);
    assert before + [] == before;
  }

  lemma ForeignFirst(m: Bytes, after: seq<Bytes>)
    requires |m| >= HEADER_SIZE && !KnownFormat(Decode(m))
    ensures Parse(Record([m] + after)) == []
  {
    hide Decode, Value;
    var file := Record([m] + after);
    assert ([m] + after)[0] == m && ([m] + after)[1..] == after;
    assert file == m + (Padding(|m|) + Record(after));
    assert file[..HEADER_SIZE] == m[..HEADER_SIZE];
    DecodeHeaderOnly(file, m);
  }

  lemma {:induction false} RecordSplit(a: seq<Bytes>, b: seq<Bytes>)
    ensures Record(a + b) == Record(a) + Record(b)
  {
    if a == [] {
      assert a + b == b;
    } else {
      assert (a + b)[1..] == a[1..] + b;
      RecordSplit(a[1..], b);
    }
  }

  // ---------------------------------------------------------------- what all readers do

  /** A buffer that held `b`, with message `m` read into it. */
  function Loaded(b: Bytes, m: Bytes): (r: Bytes)
    requires |m| <= |b|
    ensures |r| == |b|
  {
    m + b[|m|..]
  }

  /** `fread`: the next `n` bytes from `pos` on, or as many as there are. */
  function Fread(file: Bytes, pos: nat, n: nat): (b: Bytes)
    requires pos <= |file|
    ensures |b| == if pos + n <= |file| then n else |file| - pos
  {
    if pos + n <= |file| then file[pos..pos + n] else file[pos..]
  }

  /** The bytes after a message that the reader skips, counted one by one. */
  method CountPadding(buflen: nat) returns (off: nat)
    ensures off == PadLen(buflen)
  {
    hide Gap;
    var i := buflen;
    off := 0;
    GapEnds(buflen, 0);
    while i % 16 != 0
      invariant i == buflen + off && off <= Gap(buflen) && (i % 16 == 0 <==> off == Gap(buflen))
      decreases 16 - off
    {
      off := off + 1;
      i := i + 1;
      GapEnds(buflen, off);
    }
    off := off + 16;
  }

  lemma FirstOfRecording(m: Bytes, file: Bytes)
    requires WellFormed(m)
    ensures FirstMessage(Frame(m) + file) == Message(|m|) && Rest(Frame(m) + file, |m|) == file
  {
    hide Decode, Value;
    var all := Frame(m) + file;
    assert all[..|m|] == m && all[..HEADER_SIZE] == m[..HEADER_SIZE];
    DecodeHeaderOnly(all, m);
  }

  function TotalLength(msgs: seq<Bytes>): nat
  {
    if msgs == [] then 0 else |msgs[0]| + TotalLength(msgs[1..])
  }
}
