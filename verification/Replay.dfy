/** The replaying client of `src/mpclient.cxx`: it sends the messages of a recording over and over. */
module Replay {
  import opened Wire
  import opened Header
  import opened Recording

  const MODEL: Bytes := [0x63, 0x31, 0x37, 0x32]                     // "c172"
  const CALLSIGN: Bytes := [0x54, 0x45, 0x53, 0x54, 0x4D, 0x53, 0x47] // "TESTMSG"

  // ---------------------------------------------------------------- one message out of the file

  /** `TooBig`: more bytes are there than the message buffer takes, and the client reads them all the same. */
  datatype Fetch = GiveUp | TooBig | Fetched(start: nat, len: nat, next: nat)

  /** The length the header at `pos` tells. */
  function LengthAt(file: Bytes, pos: nat): nat
    requires pos + HEADER_SIZE <= |file|
  {
    Value(WordAt(file, pos + 12))
  }

  /** The position after a message and its padding. */
  function Next(file: Bytes, pos: nat, len: nat): (n: nat)
    requires pos + len <= |file|
    ensures pos + len <= n <= |file|
  {
    if pos + len + PadLen(len) <= |file| then pos + len + PadLen(len) else |file|
  }

  /** What the next message is, from `pos` or, if no header is left there, from the beginning. */
  function FetchAt(file: Bytes, pos: nat): (f: Fetch)
    ensures f.Fetched? ==> HEADER_SIZE < f.len <= MAX_PACKET_SIZE && f.start + f.len <= f.next <= |file|
  {
    var start := if pos + HEADER_SIZE <= |file| then pos else 0;
    if start + HEADER_SIZE > |file| then GiveUp
    else
      var len := LengthAt(file, start);
      if len <= HEADER_SIZE then GiveUp
      else if len > MAX_PACKET_SIZE && |file| - start > MAX_PACKET_SIZE then TooBig
      else if start + len > |file| then GiveUp
      else Fetched(start, len, Next(file, start, len))
  }

  /** When there is nothing to send from `pos`: no header, no body, or a file that ends within a message. */
  lemma GivesUpExactly(file: Bytes, pos: nat)
    ensures var start := if pos + 32 <= |file| then pos else 0;
            FetchAt(file, pos).GiveUp? <==>
            || |file| < start + 32
            || Value(WordAt(file, start + 12)) <= 32
            || (Value(WordAt(file, start + 12)) > |file| - start && |file| - start <= 1200)
  {
    hide Value, WordAt;
  }

  /** What is sent for a message of the recording: a fresh header and the old body. */
  function Datagram(m: Bytes): Bytes
    requires HEADER_SIZE <= |m| < 0x1_0000_0000
  {
    FreshWords(POS_DATA_ID, |m|) + CALLSIGN + [0] + m[HEADER_SIZE..]
  }

  // ---------------------------------------------------------------- the client

  class Client {
    const little: bool
    const file: Bytes
    const buf: array<byte>
    var pos: nat
    var isOpen: bool

    predicate Valid()
      reads this
    {
      buf.Length == MAX_PACKET_SIZE && pos <= |file|
    }

    constructor (file: Bytes, little: bool)
      ensures Valid() && fresh(buf) && isOpen && pos == 0 && this.file == file
    {
      this.file, this.little, pos, isOpen := file, little, 0, true;
      buf := new byte[MAX_PACKET_SIZE];
    }

    /** `fread` into the message buffer. */
    method ReadInto(at: nat, n: nat) returns (count: nat)
      requires pos <= |file| && at + |Fread(file, pos, n)| <= buf.Length
      modifies this`pos, buf
      ensures count == |Fread(file, old(pos), n)| && pos == old(pos) + count
      ensures buf[..] == old(buf[..at]) + Fread(file, old(pos), n) + old(buf[at + count..])
    {
      var b := Fread(file, pos, n);
      count := |b|;
      forall i | 0 <= i < count {
        buf[at + i] := b[i];
      }
      pos := pos + count;
    }

    /** A header from the current position or, after a rewind, from the beginning. */
    method ReadHeader() returns (ok: bool)
      requires Valid() && isOpen
      modifies this, buf
      ensures ok <==> |file| >= HEADER_SIZE
      ensures isOpen == ok && pos <= |file|
      ensures ok ==>
                var start := if old(pos) + HEADER_SIZE <= |file| then old(pos) else 0;
                pos == start + HEADER_SIZE && buf[..HEADER_SIZE] == file[start..start + HEADER_SIZE]
    {
      ok := false;
      var rlen := ReadInto(0, HEADER_SIZE);
      if rlen == HEADER_SIZE {
        ok := true;
      } else {
        pos := 0;
        rlen := ReadInto(0, HEADER_SIZE);
        if rlen == HEADER_SIZE {
          ok := true;
        } else {
          isOpen := false;
        }
      }
    }

    /**
     Fill the message buffer from the file; the length to send changes only if that works. When more is
     read than the buffer holds, what happens is not defined; `overrun` says so.
     */
    method FillPosMsg(buflen: nat) returns (newlen: nat, overrun: bool)
      requires Valid()
      modifies this, buf
      ensures Valid() && overrun == (old(isOpen) && FetchAt(file, old(pos)).TooBig?)
      ensures !old(isOpen) ==> newlen == buflen && !isOpen && pos == old(pos)
      ensures !old(isOpen) ==> buf[..] == old(buf[..HEADER_SIZE]) + (MODEL + [0]) + old(buf[HEADER_SIZE + 5..])
      ensures old(isOpen) ==>
                match FetchAt(file, old(pos))
                case GiveUp => newlen == buflen && !isOpen
                case TooBig => true
                case Fetched(start, len, next) =>
                  && newlen == len && isOpen && pos == next
                  && buf[HEADER_SIZE..len] == file[start + HEADER_SIZE..start + len]
    {
      hide Value, WordAt, Next;
      newlen, overrun := buflen, false;
      CopyString(buf, HEADER_SIZE, MODEL);
      if !isOpen {
        return;
      }
      var ok := ReadHeader();
      if !ok {
        return;
      }
      ghost var start := pos - HEADER_SIZE;
      var w := GetXdr(buf, 12, little);
      SameWord(buf[..], file, start);
      var rlen := Value(w);
      if rlen <= HEADER_SIZE {
        isOpen := false;
        return;
      }
      if HEADER_SIZE + |Fread(file, pos, rlen - HEADER_SIZE)| > buf.Length {
        overrun := true;
        return;
      }
      ok := ReadBody(start, rlen);
      if ok {
        newlen := rlen;
      }
    }

    /** The body of the message that starts at `start`, and then its padding, over the header. */
    method ReadBody(ghost start: nat, rlen: nat) returns (ok: bool)
      requires pos == start + HEADER_SIZE <= |file| && isOpen
      requires HEADER_SIZE < rlen && buf.Length == MAX_PACKET_SIZE
      requires rlen <= MAX_PACKET_SIZE || |file| - start <= MAX_PACKET_SIZE
      modifies this, buf
      ensures ok == isOpen == (start + rlen <= |file|) && pos <= |file|
      ensures ok ==>
                && rlen <= MAX_PACKET_SIZE
                && pos == Next(file, start, rlen)
                && buf[HEADER_SIZE..rlen] == file[start + HEADER_SIZE..start + rlen]
    {
      var count := ReadInto(HEADER_SIZE, rlen - HEADER_SIZE);
      if count != rlen - HEADER_SIZE {
        isOpen := false;
        return false;
      }
      ghost var body := buf[HEADER_SIZE..rlen];
      var off := CountPadding(rlen);
      var _ := ReadInto(0, off);
      assert buf[HEADER_SIZE..rlen] == body;
      return true;
    }

    /** One pass of the send loop: clear the buffer, fill it, put a fresh header over it, send it. */
    method SendOne() returns (datagram: Bytes, overrun: bool)
      requires Valid()
      modifies this, buf
      ensures Valid() && overrun == (old(isOpen) && FetchAt(file, old(pos)).TooBig?)
      ensures !old(isOpen) ==> !isOpen && datagram == Blank()
      ensures old(isOpen) ==>
                match FetchAt(file, old(pos))
                case GiveUp => !isOpen && |datagram| == HEADER_SIZE + POSITION_SIZE
                case TooBig => true
                case Fetched(start, len, next) =>
                  isOpen && pos == next && datagram == Datagram(file[start..start + len])
    {
      hide FetchAt, FreshWords;
      forall i | 0 <= i < buf.Length {
        buf[i] := 0;
      }
      var buflen;
      buflen, overrun := FillPosMsg(HEADER_SIZE + POSITION_SIZE);
      if overrun {
        return [], true;
      }
      FetchedLength(file, old(pos));
      ghost var filled := buf[..];
      datagram := Address(buflen);
      if !old(isOpen) {
        BlankBody(filled);
      } else if FetchAt(file, old(pos)).Fetched? {
        BodyOf(file, FetchAt(file, old(pos)).start, buflen);
      }
    }

    /** Put a fresh header over the buffer and take the datagram out of it. */
    method Address(buflen: nat) returns (datagram: Bytes)
      requires buf.Length == MAX_PACKET_SIZE && HEADER_SIZE <= buflen <= MAX_PACKET_SIZE
      modifies buf
      ensures datagram == FreshWords(POS_DATA_ID, buflen) + CALLSIGN + [0] + old(buf[HEADER_SIZE..buflen])
      ensures |datagram| == buflen
    {
      hide FreshWords;
      ghost var filled := buf[..];
      var rc := FillMsgHdr(buf, POS_DATA_ID, buflen, CALLSIGN, little);
      HeaderCovered(filled, buflen);
      datagram := buf[..buflen];
    }

    /** Send `n` times from a recording of messages that fit the buffer and tell their length. */
    method Replay(ghost msgs: seq<Bytes>, n: nat) returns (datagrams: seq<Bytes>)
      requires Valid() && isOpen && pos == 0
      requires file == Record(msgs) && msgs != [] && forall i :: 0 <= i < |msgs| ==> Replayable(msgs[i])
      modifies this, buf
      ensures |datagrams| == n && SentInTurn(datagrams, msgs)
    {
      hide FetchAt, FreshWords, Record, Turn, Replayable, Datagram;
      datagrams := [];
      ghost var at := 0;
      BoundaryNone(msgs);
      FirstTurn(|msgs|);
      for i := 0 to n
        invariant Valid() && isOpen && |datagrams| == i
        invariant at <= |msgs| && pos == Boundary(msgs, at)
        invariant (if at == |msgs| then 0 else at) == Turn(i, |msgs|)
        invariant SentInTurn(datagrams, msgs)
      {
        FetchesRecord(msgs, at);
        var d, overrun := SendOne();
        datagrams := datagrams + [d];
        at := (if at == |msgs| then 0 else at) + 1;
        NextTurn(i, |msgs|);
      }
    }
  }

  /** The `i`-th datagram carries the body of message `i` modulo the number of messages. */
  predicate SentInTurn(datagrams: seq<Bytes>, msgs: seq<Bytes>)
    requires msgs != []
  {
    forall i :: 0 <= i < |datagrams| ==>
      var m := msgs[Turn(i, |msgs|)];
      Replayable(m) && datagrams[i] == Datagram(m)
  }

  /** What is sent once the file has been given up: no properties and an empty position. */
  function Blank(): Bytes
  {
    FreshWords(POS_DATA_ID, HEADER_SIZE + POSITION_SIZE) + CALLSIGN + [0] + MODEL + seq(POSITION_SIZE - 4, _ => 0)
  }

  /** It decodes as a position message of the client, with no room for properties. */
  lemma BlankDecodes()
    ensures |Blank()| == 232
    ensures var f := Decode(Blank());
            f.magic == 0x46474653 && f.msgId == 7 && Value(f.msgLen) == 232 && f.callsign == CALLSIGN
  {
    hide FreshWords, Decode, Value, WordOf;
    var rest := MODEL + seq(POSITION_SIZE - 4, _ => 0);
    assert Blank() == FreshWords(POS_DATA_ID, 232) + CALLSIGN + [0] + rest;
    HeaderRoundTrip(POS_DATA_ID, 232, CALLSIGN, rest);
  }

  /** The seven characters and their terminator end exactly where the header does. */
  lemma HeaderCovered(filled: Bytes, len: nat)
    requires HEADER_SIZE <= len <= |filled| < 0x1_0000_0000
    ensures var words := FreshWords(POS_DATA_ID, len);
            (words + CALLSIGN + [0] + filled[24 + |CALLSIGN| + 1..])[..len] ==
            words + CALLSIGN + [0] + filled[HEADER_SIZE..len]
  {
  }

  lemma BlankBody(filled: Bytes)
    requires |filled| == MAX_PACKET_SIZE
    ensures filled[HEADER_SIZE..] == MODEL + [0] + seq(MAX_PACKET_SIZE - HEADER_SIZE - 5, _ => 0) ==>
              filled[HEADER_SIZE..HEADER_SIZE + POSITION_SIZE] == MODEL + seq(POSITION_SIZE - 4, _ => 0)
  {
    if filled[HEADER_SIZE..] == MODEL + [0] + seq(MAX_PACKET_SIZE - HEADER_SIZE - 5, _ => 0) {
      assert filled[HEADER_SIZE..HEADER_SIZE + POSITION_SIZE] == filled[HEADER_SIZE..][..POSITION_SIZE];
    }
  }

  lemma BodyOf(file: Bytes, start: nat, len: nat)
    requires HEADER_SIZE <= len && start + len <= |file|
    ensures file[start..start + len][HEADER_SIZE..] == file[start + HEADER_SIZE..start + len]
  {
  }

  predicate TellsLength(m: Bytes)
  {
    HEADER_SIZE < |m| && LengthAt(m, 0) == |m|
  }

  predicate Replayable(m: Bytes)
  {
    TellsLength(m) && |m| <= MAX_PACKET_SIZE
  }

  /** Where message `j` of a recording begins. */
  function Boundary(msgs: seq<Bytes>, j: nat): nat
    requires j <= |msgs|
  {
    |Record(msgs[..j])|
  }

  lemma BoundaryNone(msgs: seq<Bytes>)
    ensures Boundary(msgs, 0) == 0
  {
  }

  /** Which of `n` messages is sent `i`-th. */
  function Turn(i: nat, n: nat): (t: nat)
    requires n > 0
    ensures t < n
  {
    i % n
  }

  lemma FirstTurn(n: nat)
    requires n > 0
    ensures Turn(0, n) == 0
  {
  }

  lemma NextTurn(i: nat, n: nat)
    requires n > 0
    ensures Turn(i + 1, n) == if Turn(i, n) + 1 == n then 0 else Turn(i, n) + 1
  {
    var k := (i + 1) / n - i / n;
    Multiples(n, i / n, (i + 1) / n);
    assert n * k == i % n + 1 - (i + 1) % n;
    if k >= 2 {
      Multiples(n, k, 2);
    } else if k <= -1 {
      Multiples(n, -1, k);
    }
  }

  lemma Multiples(n: nat, a: int, b: int)
    ensures n * b - n * a == n * (b - a)
    ensures a <= b ==> n * a <= n * b
    ensures b <= a ==> n * b <= n * a
  {
    if a <= b {
      NatProduct(n, b - a);
    } else {
      NatProduct(n, a - b);
    }
  }

  lemma NatProduct(n: nat, d: nat)
    ensures n * d >= 0
  {
  }

  lemma RecordAround(msgs: seq<Bytes>, j: nat)
    requires j < |msgs| && |msgs[j]| > 0
    ensures var file, b, m := Record(msgs), Boundary(msgs, j), msgs[j];
            && b + |m| + PadLen(|m|) == Boundary(msgs, j + 1) <= |file|
            && file[b..b + |m|] == m
  {
    hide Record, Frame, Padding, PadLen;
    var m, a, c := msgs[j], Record(msgs[..j]), Record(msgs[j + 1..]);
    RecordSplit(msgs[..j], msgs[j..]);
    assert msgs == msgs[..j] + msgs[j..];
    assert msgs[j..][0] == m && msgs[j..][1..] == msgs[j + 1..];
    RecordFirst(msgs[j..]);
    assert Record(msgs) == a + (Frame(m) + c);
    assert msgs[..j + 1] == msgs[..j] + [m];
    RecordAppend(msgs[..j], m);
    FrameParts(m);
    Slice(a, m, Padding(|m|), c);
  }

  lemma FrameParts(m: Bytes)
    requires m != []
    ensures Frame(m) == m + Padding(|m|) && |Frame(m)| == |m| + PadLen(|m|)
  {
  }

  lemma RecordFirst(msgs: seq<Bytes>)
    requires msgs != []
    ensures Record(msgs) == Frame(msgs[0]) + Record(msgs[1..])
  {
  }

  lemma Slice(a: Bytes, m: Bytes, p: Bytes, c: Bytes)
    ensures (a + (m + p + c))[|a|..|a| + |m|] == m
  {
  }

  /** At the boundary of message `j` the client fetches that message; at the end it goes on with the first. */
  lemma FetchesRecord(msgs: seq<Bytes>, at: nat)
    requires at <= |msgs| && msgs != [] && forall i :: 0 <= i < |msgs| ==> Replayable(msgs[i])
    ensures var j := if at == |msgs| then 0 else at;
            var file := Record(msgs);
            && FetchAt(file, Boundary(msgs, at)) == Fetched(Boundary(msgs, j), |msgs[j]|, Boundary(msgs, j + 1))
            && file[Boundary(msgs, j)..Boundary(msgs, j) + |msgs[j]|] == msgs[j]
  {
    hide Record, PadLen, FetchAt, Replayable, Padding;
    var j := if at == |msgs| then 0 else at;
    assert Replayable(msgs[j]);
    NotEmpty(msgs[j]);
    RecordAround(msgs, j);
    FetchHere(Record(msgs), Boundary(msgs, j), msgs[j]);
    if at == |msgs| {
      assert msgs[..at] == msgs;
      BoundaryNone(msgs);
      FetchAtEnd(Record(msgs));
    }
  }

  lemma NotEmpty(m: Bytes)
    requires Replayable(m)
    ensures |m| > 0
  {
  }

  /** A whole message at `start` is what is fetched from there. */
  lemma FetchHere(file: Bytes, start: nat, m: Bytes)
    requires Replayable(m) && start + |m| + PadLen(|m|) <= |file| && file[start..start + |m|] == m
    ensures FetchAt(file, start) == Fetched(start, |m|, start + |m| + PadLen(|m|))
  {
    hide Value, PadLen, WordAt;
    assert m[..HEADER_SIZE] == file[start..start + HEADER_SIZE];
    SameWord(m, file, start);
  }

  lemma FetchAtEnd(file: Bytes)
    ensures FetchAt(file, |file|) == FetchAt(file, 0)
  {
  }

  /** The client gets through messages that tell their length without overrunning its buffer if and only if all of them fit. */
  lemma RecordingFits(msgs: seq<Bytes>)
    requires msgs != [] && forall i :: 0 <= i < |msgs| ==> TellsLength(msgs[i])
    ensures (forall i :: 0 <= i < |msgs| ==> |msgs[i]| <= MAX_PACKET_SIZE) <==>
            forall i :: 0 <= i < |msgs| ==> !FetchAt(Record(msgs), Boundary(msgs, i)).TooBig?
  {
    hide Record, FetchAt, TellsLength;
    forall i | 0 <= i < |msgs|
      ensures |msgs[i]| > MAX_PACKET_SIZE <==> FetchAt(Record(msgs), Boundary(msgs, i)).TooBig?
    {
      FitsExactly(msgs, i);
    }
  }

  lemma FitsExactly(msgs: seq<Bytes>, i: nat)
    requires i < |msgs| && TellsLength(msgs[i])
    ensures |msgs[i]| > MAX_PACKET_SIZE <==> FetchAt(Record(msgs), Boundary(msgs, i)).TooBig?
  {
    hide Record, Value, PadLen, WordAt;
    RecordAround(msgs, i);
    var file, b, m := Record(msgs), Boundary(msgs, i), msgs[i];
    assert m[..HEADER_SIZE] == file[b..b + |m|][..HEADER_SIZE] == file[b..b + HEADER_SIZE];
    SameWord(m, file, b);
  }

  lemma SameWord(d: Bytes, file: Bytes, start: nat)
    requires HEADER_SIZE <= |d| && start + HEADER_SIZE <= |file|
    requires d[..HEADER_SIZE] == file[start..start + HEADER_SIZE]
    ensures WordAt(d, 12) == WordAt(file, start + 12)
  {
    assert forall i :: 0 <= i < HEADER_SIZE ==> d[i] == d[..HEADER_SIZE][i] == file[start..start + HEADER_SIZE][i];
  }

  lemma FetchedLength(file: Bytes, pos: nat)
    ensures FetchAt(file, pos).Fetched? ==> FetchAt(file, pos).len <= MAX_PACKET_SIZE
  {
  }
}
