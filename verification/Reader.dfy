/**
 The reader of recordings, `test_fgmp_message` of `src/simgear/fgmp_msg.cxx`: each message is read into
 one buffer, over what the previous ones left there, its padding is skipped, and a position message goes
 into the motion history.
 */
module Reader {
  import opened Wire
  import opened Header
  import opened Recording
  import opened Properties
  import opened Motion

  /**
   What lies outside this model: the words behind the buffer, the table of known properties, the value of
   a double, and whether a position is at the altitude of -9999 that marks an invalid one.
   */
  datatype Setting = Setting(
    little: bool, outside: Memory, table: seq<Entry>, timeOf: (bv32, bv32) -> real, grounded: Bytes -> bool)

  // ---------------------------------------------------------------- one position message

  const TIME: nat := 128
  const POSITION: nat := 144
  const PAD: nat := 228

  /** What `_ProcessPosMsg` finds in the buffer for a message of `len` bytes. */
  datatype Look = Skipped | Seen(packet: Packet, unknown: bool)

  function LookAt(s: Setting, b: Bytes, len: nat): Look
    requires |b| == MAX_PACKET_SIZE
  {
    var time := s.timeOf(WordAt(b, TIME), WordAt(b, TIME + 4));
    if s.grounded(b[POSITION..POSITION + 24]) || time <= 0.0 then Skipped
    else
      var d := PositionProperties(MemoryOf(b, s.outside), s.table, len);
      Seen(Packet(time, b[TIME + 8..PAD], d.props), d.unknown)
  }

  /** The message counts as bad; otherwise it has gone into the history. */
  function Refused(l: Look, kept: seq<Packet>): bool
  {
    l.Skipped? || l.unknown || FateOf(kept, l.packet).Dropped?
  }

  function KeptWith(l: Look, kept: seq<Packet>): seq<Packet>
  {
    if l.Skipped? || l.unknown then kept else KeptAfter(kept, l.packet)
  }

  /** Only what is behind the header matters. */
  predicate SameBody(b: Bytes, c: Bytes)
  {
    |b| == |c| == MAX_PACKET_SIZE && b[HEADER_SIZE..] == c[HEADER_SIZE..]
  }

  lemma LookIsLocal(s: Setting, b: Bytes, c: Bytes, len: nat)
    requires SameBody(b, c)
    ensures LookAt(s, b, len) == LookAt(s, c, len)
  {
    hide PositionProperties, Join;
    assert forall j :: HEADER_SIZE <= j < |b| ==> b[j] == b[HEADER_SIZE..][j - HEADER_SIZE] == c[j];
    assert b[POSITION..POSITION + 24] == c[POSITION..POSITION + 24] && b[TIME + 8..PAD] == c[TIME + 8..PAD];
    forall i: nat | PAD_WORD <= i
      ensures MemoryOf(b, s.outside)(i) == MemoryOf(c, s.outside)(i)
    {
      if 4 * i + 4 <= |b| {
        assert WordAt(b, 4 * i) == WordAt(c, 4 * i);
      }
    }
    PropertiesAreLocal(MemoryOf(b, s.outside), MemoryOf(c, s.outside), s.table, len);
  }

  // ---------------------------------------------------------------- a whole file

  /** The totals printed at the end, and the return code. */
  datatype Report = Report(msgs: nat, msgBytes: nat, bytes: nat, bad: nat, code: int)

  /** What a message meets: the bytes in the buffer, and the packets kept since the history last restarted. */
  datatype World = World(b: Bytes, kept: seq<Packet>)

  predicate Rejected(id: bv32)
  {
    id != CHAT_MSG_ID && id != POS_DATA_ID
  }

  /** The world after a message, and whether it counts as bad. */
  function Meet(s: Setting, w: World, m: Bytes): (r: (bool, World))
    requires HEADER_SIZE <= |m| <= MAX_PACKET_SIZE == |w.b|
    ensures |r.1.b| == |w.b|
  {
    var b := Loaded(w.b, m);
    var id := Decode(m).msgId;
    if id == POS_DATA_ID then
      var l := LookAt(s, b, |m|);
      (Refused(l, w.kept), World(b, KeptWith(l, w.kept)))
    else (Rejected(id), World(b, w.kept))
  }

  /** The report on a file of which `count` messages have been read. */
  function Survey(s: Setting, w: World, file: Bytes, count: nat): Report
    requires |w.b| == MAX_PACKET_SIZE
    decreases |file|
  {
    match FirstMessage(file)
    case Stop => AtStop(file, count)
    case Overrun => Report(0, 0, 0, 0, 0)
    case Message(len) =>
      var (bad, after) := Meet(s, w, file[..len]);
      Sum(ForOne(file[..len], bad), Survey(s, after, Rest(file, len), count + 1))
  }

  /** The packets kept in the end. */
  function KeptAtEnd(s: Setting, w: World, file: Bytes): seq<Packet>
    requires |w.b| == MAX_PACKET_SIZE
    decreases |file|
  {
    match FirstMessage(file)
    case Message(len) => KeptAtEnd(s, Meet(s, w, file[..len]).1, Rest(file, len))
    case _ => w.kept
  }

  function AtStop(file: Bytes, count: nat): Report
  {
    Report(0, 0, 0,
           if |file| >= HEADER_SIZE && !KnownFormat(Decode(file)) then 1 else 0,
           if |file| < HEADER_SIZE && count == 0 then 1 else 0)
  }

  function ForOne(m: Bytes, bad: bool): Report
    requires |m| >= HEADER_SIZE
  {
    Report(1, |m|, |m| + PadLen(|m|), if bad then 1 else 0, if Rejected(Decode(m).msgId) then 1 else 0)
  }

  /** The sum of a report so far and the report on what is still to be read; a failure code once set stays. */
  function Sum(a: Report, b: Report): Report
  {
    Report(a.msgs + b.msgs, a.msgBytes + b.msgBytes, a.bytes + b.bytes, a.bad + b.bad, if a.code != 0 then a.code else b.code)
  }

  lemma SumTwice(a: Report, b: Report, c: Report)
    ensures Sum(a, Sum(b, c)) == Sum(Sum(a, b), c)
  {
  }

  lemma SurveyStep(s: Setting, w: World, rest: Bytes, count: nat)
    requires |w.b| == MAX_PACKET_SIZE
    ensures match FirstMessage(rest)
            case Message(len) =>
              var (bad, after) := Meet(s, w, rest[..len]);
              && Parse(rest) == [rest[..len]] + Parse(Rest(rest, len))
              && Overruns(rest) == Overruns(Rest(rest, len))
              && Survey(s, w, rest, count) == Sum(ForOne(rest[..len], bad), Survey(s, after, Rest(rest, len), count + 1))
              && KeptAtEnd(s, w, rest) == KeptAtEnd(s, after, Rest(rest, len))
            case Stop =>
              Parse(rest) == [] && !Overruns(rest) && Survey(s, w, rest, count) == AtStop(rest, count)
              && KeptAtEnd(s, w, rest) == w.kept
            case Overrun =>
              Parse(rest) == [] && Overruns(rest) && Survey(s, w, rest, count) == Report(0, 0, 0, 0, 0)
              && KeptAtEnd(s, w, rest) == w.kept
  {
    hide Meet, Rest, FirstMessage, ForOne;
  }

  /**
   On a recording of well-formed messages the totals are the count, the sum of the lengths, and the file
   size, and the bad ones are those that are neither chat nor a position, or that the history refuses.
   */
  lemma {:induction false} TotalsOfRecording(s: Setting, w: World, msgs: seq<Bytes>, count: nat)
    requires |w.b| == MAX_PACKET_SIZE && forall i :: 0 <= i < |msgs| ==> WellFormed(msgs[i])
    ensures var r := Survey(s, w, Record(msgs), count);
            && r.msgs == |msgs| && r.msgBytes == TotalLength(msgs) && r.bytes == |Record(msgs)|
            && r.bad == BadAmong(s, w, msgs)
            && r.code == if (msgs == [] && count == 0) || AnyRejected(msgs) then 1 else 0
    decreases |msgs|
  {
    hide Decode, Value, WellFormed, FirstMessage, Rest, Meet;
    if msgs != [] {
      var m := msgs[0];
      FitsBuffer(m);
      FirstOfRecording(m, Record(msgs[1..]));
      assert Record(msgs)[..|m|] == m;
      SurveyStep(s, w, Record(msgs), count);
      TotalsOfRecording(s, Meet(s, w, m).1, msgs[1..], count + 1);
    } else {
      NothingToRead();
      SurveyStep(s, w, [], count);
    }
  }

  lemma FitsBuffer(m: Bytes)
    requires WellFormed(m)
    ensures HEADER_SIZE <= |m| <= MAX_PACKET_SIZE
  {
  }

  lemma NothingToRead()
    ensures FirstMessage([]) == Stop
  {
  }

  /** A chat message is fine, a message of any other kind than chat and position is bad and fails the whole file. */
  lemma OtherKinds(s: Setting, w: World, m: Bytes)
    requires |w.b| == MAX_PACKET_SIZE && WellFormed(m)
    ensures var r, id := Survey(s, w, Record([m]), 0), WordAt(m, 8);
            && r.msgs == 1 && r.msgBytes == |m| && r.bytes == |Record([m])|
            && (id == 1 ==> r.bad == 0 && r.code == 0)
            && (id != 1 && id != 7 ==> r.bad == 1 && r.code == 1)
  {
    hide WellFormed, Survey, KeptAtEnd, Parse, Overruns, Record, FirstMessage, Rest, PadLen, LookAt, Loaded, WordAt;
    OneRecorded(m);
    SurveyStep(s, w, Record([m]), 0);
    NothingToRead();
    SurveyStep(s, Meet(s, w, m).1, [], 1);
  }

  /** A file without a header fails; one that begins with something foreign has one bad message and no other. */
  lemma NothingOfUse(s: Setting, w: World, file: Bytes)
    requires |w.b| == MAX_PACKET_SIZE
    ensures |file| < 32 ==> Survey(s, w, file, 0) == Report(0, 0, 0, 0, 1)
    ensures |file| >= 32
            && ((WordAt(file, 0) != 0x46474653 && WordAt(file, 0) != 0x53464746) || WordAt(file, 4) != 0x0001_0001) ==>
              Survey(s, w, file, 0) == Report(0, 0, 0, 1, 0)
  {
    hide WordAt, Value, CString;
  }

  function BadAmong(s: Setting, w: World, msgs: seq<Bytes>): nat
    requires |w.b| == MAX_PACKET_SIZE && forall i :: 0 <= i < |msgs| ==> WellFormed(msgs[i])
    decreases |msgs|
  {
    if msgs == [] then 0
    else
      assert WellFormed(msgs[0]);
      var (bad, after) := Meet(s, w, msgs[0]);
      (if bad then 1 else 0) + BadAmong(s, after, msgs[1..])
  }

  predicate AnyRejected(msgs: seq<Bytes>)
    requires forall i :: 0 <= i < |msgs| ==> WellFormed(msgs[i])
  {
    msgs != [] && (assert WellFormed(msgs[0]); Rejected(Decode(msgs[0]).msgId) || AnyRejected(msgs[1..]))
  }

  // ---------------------------------------------------------------- a message made to order

  /** What goes into a position message; `pose` is everything between its time and its padding word. */
  datatype Sample = Sample(callsign: Bytes, fill: Bytes, model: Bytes, hi: bv32, lo: bv32, pose: Bytes, items: seq<Item>)

  ghost predicate WellMade(p: Sample, table: seq<Entry>)
  {
    && 0 !in p.callsign && |p.callsign| + 1 + |p.fill| == 8
    && |p.model| == 96 && |p.pose| == 92
    && (forall i :: 0 <= i < |p.items| ==> Writable(p.items[i], table))
    && Size(p) <= MAX_PACKET_SIZE
  }

  function Size(p: Sample): nat
  {
    232 + 4 * |LayoutAll(p.items)|
  }

  function Front(p: Sample): Bytes
    requires Size(p) <= MAX_PACKET_SIZE
  {
    FreshWords(POS_DATA_ID, Size(p)) + p.callsign + [0] + (p.fill + p.model)
  }

  /** Header, model, time, pose, a zero padding word, and the properties. */
  function MessageOf(p: Sample): Bytes
    requires Size(p) <= MAX_PACKET_SIZE
  {
    Front(p) + (Split(p.hi) + (Split(p.lo) + (p.pose + (Split(0) + Words(LayoutAll(p.items))))))
  }

  lemma MessageIsWellFormed(p: Sample, table: seq<Entry>)
    requires WellMade(p, table)
    ensures var m := MessageOf(p);
            |m| == Size(p) && WellFormed(m) && Decode(m).msgId == POS_DATA_ID
  {
    hide FreshWords, Value, Decode, Words, Split, Writable, LayoutAll, WordOf;
    var body := Split(p.hi) + (Split(p.lo) + (p.pose + (Split(0) + Words(LayoutAll(p.items)))));
    var rest := p.fill + p.model + body;
    assert MessageOf(p) == FreshWords(POS_DATA_ID, Size(p)) + p.callsign + [0] + rest;
    HeaderRoundTrip(POS_DATA_ID, Size(p), p.callsign, rest);
  }

  /** Words and bytes behind a prefix. */
  lemma Behind(a: Bytes, d: Bytes, k: nat)
    requires k + 4 <= |d|
    ensures WordAt(a + d, |a| + k) == WordAt(d, k)
  {
    hide Join;
  }

  lemma FirstWord(w: bv32, d: Bytes)
    ensures WordAt(Split(w) + d, 0) == w
  {
    hide Split;
    WordAtSplit([], w, d);
    assert [] + Split(w) + d == Split(w) + d;
  }

  lemma Inside(a: Bytes, pose: Bytes, d: Bytes)
    requires |a| == 136 && |pose| == 92
    ensures (a + pose + d)[136..228] == pose && (a + pose + d)[144..168] == pose[8..32]
  {
  }

  /** Where everything is in the buffer. */
  lemma Parts(p: Sample, b: Bytes, table: seq<Entry>)
    requires WellMade(p, table) && |b| == MAX_PACKET_SIZE && |MessageOf(p)| == Size(p)
    ensures var r := Loaded(b, MessageOf(p));
            && WordAt(r, 128) == p.hi && WordAt(r, 132) == p.lo && WordAt(r, 228) == 0
            && r[136..228] == p.pose && r[144..168] == p.pose[8..32]
            && forall i :: 0 <= i < |LayoutAll(p.items)| ==> WordAt(r, 232 + 4 * i) == LayoutAll(p.items)[i]
  {
    hide FreshWords, Words, Split, Join, LayoutAll, WordAt, Writable;
    var ws, stale := LayoutAll(p.items), b[Size(p)..];
    var list := Words(ws) + stale;
    var padded := Split(0) + list;
    var posed := p.pose + padded;
    var low := Split(p.lo) + posed;
    var high := Split(p.hi) + low;
    var r := Loaded(b, MessageOf(p));
    assert |Front(p)| == 128;
    assert r == Front(p) + high;
    Behind(Front(p), high, 0);
    FirstWord(p.hi, low);
    Behind(Front(p), high, 4);
    Behind(Split(p.hi), low, 0);
    FirstWord(p.lo, posed);
    Behind(Front(p), high, 100);
    Behind(Split(p.hi), low, 96);
    Behind(Split(p.lo), posed, 92);
    Behind(p.pose, padded, 0);
    FirstWord(0, list);
    var before := Front(p) + Split(p.hi) + Split(p.lo);
    assert r == before + p.pose + padded;
    Inside(before, p.pose, padded);
    forall i | 0 <= i < |ws|
      ensures WordAt(r, 232 + 4 * i) == ws[i]
    {
      Behind(Front(p), high, 104 + 4 * i);
      Behind(Split(p.hi), low, 100 + 4 * i);
      Behind(Split(p.lo), posed, 96 + 4 * i);
      Behind(p.pose, padded, 4 + 4 * i);
      Behind(Split(0), list, 4 * i);
      WordsAt(ws, stale, i);
    }
  }

  /** The message is skipped without a time or at the altitude that marks an invalid one; otherwise all of it is seen. */
  lemma LookAtSample(s: Setting, b: Bytes, p: Sample)
    requires WellMade(p, s.table) && |b| == MAX_PACKET_SIZE && |MessageOf(p)| == Size(p)
    ensures LookAt(s, Loaded(b, MessageOf(p)), Size(p)) ==
            if s.grounded(p.pose[8..32]) || s.timeOf(p.hi, p.lo) <= 0.0 then Skipped
            else Seen(Packet(s.timeOf(p.hi, p.lo), p.pose, PropertiesOf(p.items)), false)
  {
    hide PositionProperties, Loaded, MessageOf, WordAt, LayoutAll, PropertiesOf, Writable;
    Parts(p, b, s.table);
    var r, ws := Loaded(b, MessageOf(p)), LayoutAll(p.items);
    var mem := MemoryOf(r, s.outside);
    assert mem(57) == 0;
    forall i | 0 <= i < |ws|
      ensures mem(58 + i) == ws[i]
    {
      assert 4 * (58 + i) == 232 + 4 * i;
    }
    assert ListAt(mem, s.table, 58, Size(p), p.items);
    ListIsFound(mem, s.table, Size(p), p.items);
  }

  /** The report and the history after reading a recording of this one message. */
  lemma SampleIsRead(s: Setting, w: World, p: Sample)
    requires WellMade(p, s.table) && |w.b| == MAX_PACKET_SIZE && InOrder(w.kept)
    ensures var file, time := Record([MessageOf(p)]), s.timeOf(p.hi, p.lo);
            var packet := Packet(time, p.pose, PropertiesOf(p.items));
            var refused := s.grounded(p.pose[8..32]) || time <= 0.0 || FateOf(w.kept, packet).Dropped?;
            && Survey(s, w, file, 0) == Report(1, Size(p), |file|, if refused then 1 else 0, 0)
            && KeptAtEnd(s, w, file) == (if refused then w.kept else KeptAfter(w.kept, packet))
            && !Overruns(file)
  {
    hide MessageOf, LookAt, LayoutAll, Writable, Record, Frame, FirstMessage, Rest, Decode, Survey, KeptAtEnd, Overruns;
    hide WellFormed, PropertiesOf, Kept, KeptAfter, FateOf, PadLen, Loaded, Meet;
    var m, file := MessageOf(p), Record([MessageOf(p)]);
    MessageIsWellFormed(p, s.table);
    OneRecorded(m);
    SurveyStep(s, w, file, 0);
    MeetSample(s, w, p);
    NothingToRead();
    SurveyStep(s, Meet(s, w, m).1, [], 1);
  }

  lemma OneRecorded(m: Bytes)
    requires WellFormed(m)
    ensures FirstMessage(Record([m])) == Message(|m|) && Rest(Record([m]), |m|) == []
    ensures Record([m])[..|m|] == m && |Record([m])| == |m| + PadLen(|m|)
    ensures HEADER_SIZE <= |m| <= MAX_PACKET_SIZE
  {
    hide Decode, Value, FirstMessage, Rest;
    assert [m][1..] == [] && Record([m]) == Frame(m) + [];
    FirstOfRecording(m, []);
  }

  lemma MeetSample(s: Setting, w: World, p: Sample)
    requires WellMade(p, s.table) && |w.b| == MAX_PACKET_SIZE && InOrder(w.kept)
    requires |MessageOf(p)| == Size(p) && HEADER_SIZE <= Size(p) <= MAX_PACKET_SIZE
    requires Decode(MessageOf(p)).msgId == POS_DATA_ID
    ensures var m, time := MessageOf(p), s.timeOf(p.hi, p.lo);
            var packet := Packet(time, p.pose, PropertiesOf(p.items));
            var refused := s.grounded(p.pose[8..32]) || time <= 0.0 || FateOf(w.kept, packet).Dropped?;
            var (bad, after) := Meet(s, w, m);
            && bad == refused && after.kept == if refused then w.kept else KeptAfter(w.kept, packet)
  {
    hide MessageOf, LookAt, Decode, PropertiesOf, Loaded, LayoutAll, Writable;
    LookAtSample(s, w.b, p);
  }

  // ---------------------------------------------------------------- the reader

  datatype Attempt = NoHeader | Foreign | NoBody | TooMuch | Got(header: Fields, len: nat)

  class Reader {
    const s: Setting
    const buffer: array<byte>
    const history: History

    ghost predicate Valid()
      reads this, history
    {
      buffer.Length == MAX_PACKET_SIZE && history.Valid()
    }

    constructor (s: Setting)
      ensures Valid() && this.s == s && fresh(buffer) && fresh(history) && history.arrivals == []
    {
      this.s := s;
      buffer := new byte[MAX_PACKET_SIZE];
      history := new History();
    }

    /** `fread` into the buffer; `n` bytes have room there. */
    method ReadInto(file: Bytes, pos: nat, at: nat, n: nat) returns (count: nat)
      requires pos <= |file| && at + |Fread(file, pos, n)| <= buffer.Length
      modifies buffer
      ensures count == |Fread(file, pos, n)|
      ensures buffer[..] == old(buffer[..at]) + Fread(file, pos, n) + old(buffer[at + count..])
    {
      var b := Fread(file, pos, n);
      count := |b|;
      forall i | 0 <= i < count {
        buffer[at + i] := b[i];
      }
    }

    /** Decode one word in place, to host order. */
    method DecodeWord(off: nat) returns (w: bv32)
      requires off + 4 <= buffer.Length
      modifies buffer
      ensures w == Join(old(buffer[off]), old(buffer[off + 1]), old(buffer[off + 2]), old(buffer[off + 3]))
      ensures forall j :: 0 <= j < buffer.Length && (j < off || off + 4 <= j) ==> buffer[j] == old(buffer[j])
    {
      hide Join, Store, Load, Xdr;
      w := GetXdr(buffer, off, s.little);
      ghost var b := buffer[..];
      PutWord(buffer, off, w, s.little);
      assert forall j :: 0 <= j < buffer.Length && (j < off || off + 4 <= j) ==> buffer[..][j] == b[j];
    }

    /** Decode the header in place: five words, and a terminated callsign. */
    method DecodeHeader() returns (f: Fields)
      requires buffer.Length == MAX_PACKET_SIZE
      modifies buffer
      ensures f == Decode(old(buffer[..]))
      ensures buffer[HEADER_SIZE..] == old(buffer[HEADER_SIZE..])
    {
      hide Join, CString;
      ghost var b := buffer[..];
      var magic := DecodeWord(0);
      var version := DecodeWord(4);
      var msgId := DecodeWord(8);
      var msgLen := DecodeWord(12);
      var replyPort := DecodeWord(20);
      buffer[HEADER_SIZE - 1] := 0;
      assert buffer[24..HEADER_SIZE - 1] == b[24..HEADER_SIZE - 1];
      f := Fields(magic, version, msgId, msgLen, replyPort, CString(buffer[24..HEADER_SIZE - 1]));
    }

    /** Read one message into the buffer, unless there is none or no room. */
    method ReadMessage(file: Bytes, pos: nat) returns (r: Attempt)
      requires Valid() && pos <= |file| < 0x8000_0000_0000_0000
      modifies buffer
      ensures var rest := file[pos..];
              match r
              case NoHeader => FirstMessage(rest).Stop? && |rest| < HEADER_SIZE
              case Foreign => FirstMessage(rest).Stop? && |rest| >= HEADER_SIZE && !KnownFormat(Decode(rest))
              case NoBody => FirstMessage(rest).Stop? && |rest| >= HEADER_SIZE && KnownFormat(Decode(rest))
              case TooMuch => FirstMessage(rest).Overrun?
              case Got(f, len) =>
                && FirstMessage(rest) == Message(len) && f == Decode(rest)
                && SameBody(buffer[..], Loaded(old(buffer[..]), rest[..len]))
    {
      hide Decode, Value, FirstMessage, Loaded;
      ghost var rest, before := file[pos..], buffer[..];
      Short(rest);
      var rlen := ReadInto(file, pos, 0, HEADER_SIZE);
      if rlen != HEADER_SIZE {
        return NoHeader;
      }
      assert rest[..HEADER_SIZE] == buffer[..][..HEADER_SIZE];
      DecodeHeaderOnly(rest, buffer[..]);
      assert buffer[HEADER_SIZE..] == before[HEADER_SIZE..];
      var f := DecodeHeader();
      if f.magic != MSG_MAGIC && f.magic != RELAY_MAGIC {
        return Foreign;
      }
      if f.version != PROTO_VER {
        return Foreign;
      }
      ghost var decoded := buffer[..];
      Wanted(rest, f);
      var i := (Value(f.msgLen) - HEADER_SIZE) % 0x1_0000_0000_0000_0000;
      if HEADER_SIZE + |Fread(file, pos + HEADER_SIZE, i)| > buffer.Length {
        return TooMuch;
      }
      rlen := ReadInto(file, pos + HEADER_SIZE, HEADER_SIZE, i);
      if rlen != i {
        return NoBody;
      }
      assert Fread(file, pos + HEADER_SIZE, i) == rest[HEADER_SIZE..HEADER_SIZE + i];
      LoadedBody(before, decoded, buffer[..], rest, HEADER_SIZE + i);
      return Got(f, HEADER_SIZE + i);
    }

    /** `_ProcessPosMsg`: 1 for a message that is skipped, has an unknown property, or comes too late. */
    method ProcessPosMsg(len: nat, stamp: real) returns (iret: int)
      requires Valid()
      modifies history
      ensures Valid()
      ensures var l, kept := LookAt(s, buffer[..], len), old(Kept(history.arrivals));
              iret == (if Refused(l, kept) then 1 else 0) && Kept(history.arrivals) == KeptWith(l, kept)
      ensures var b := buffer[..];
              var time, was := s.timeOf(WordAt(b, 128), WordAt(b, 132)), old(history.motionInfo);
              var d := PositionProperties(MemoryOf(b, s.outside), s.table, len);
              if s.grounded(b[144..168]) || time <= 0.0 || d.unknown
                 || (exists newest :: IsNewest(was, newest) && 0.0 < newest - time <= 10.0) then
                iret == 1 && history.motionInfo == was
              else
                && iret == 0 && IsNewest(history.motionInfo, time)
                && history.motionInfo[time] == Packet(time, b[136..228], d.props)
    {
      hide PositionProperties, MemoryOf, Join, Kept, FateOf, LastWins, IsNewest;
      ghost var kept := Kept(history.arrivals);
      if s.grounded(buffer[POSITION..POSITION + 24]) {
        return 1;
      }
      var timeHigh := GetXdr(buffer, TIME, s.little);
      var timeLow := GetXdr(buffer, TIME + 4, s.little);
      var time := s.timeOf(timeHigh, timeLow);
      if time <= 0.0 {
        return 1;
      }
      var props;
      iret, props := Properties.ProcessPosMsg(MemoryOf(buffer[..], s.outside), s.table, len);
      if iret == 0 {
        var packet := Packet(time, buffer[TIME + 8..PAD], props);
        KeptAppend(history.arrivals, packet);
        var left;
        iret, left := history.AddMotionInfo(packet, stamp);
      }
    }

    /**
     The loop of `test_fgmp_message`: messages and their padding until something is missing or foreign.
     `records` are the messages delivered. When one does not fit the buffer, what happens is not defined;
     then `overrun` is true and the report is about what came before.
     */
    method TestFgmpMessage(file: Bytes, stamp: real) returns (report: Report, overrun: bool, ghost records: seq<Bytes>)
      requires Valid() && |file| < 0x8000_0000_0000_0000
      modifies buffer, history
      ensures Valid()
      ensures records == Parse(file) && overrun == Overruns(file)
      ensures var w := World(old(buffer[..]), old(Kept(history.arrivals)));
              report == Survey(s, w, file, 0) && Kept(history.arrivals) == KeptAtEnd(s, w, file)
      ensures forall p: Sample :: WellMade(p, s.table) && file == Record([MessageOf(p)]) ==>
                Played(old(history.motionInfo), history.motionInfo, report, p)
    {
      hide Decode, Parse, Overruns, Survey, KeptAtEnd, Meet, PadLen, FirstMessage, ForOne, Kept, Loaded, SameBody, Ahead;
      report, overrun, records := Report(0, 0, 0, 0, 0), false, [];
      ghost var first := World(buffer[..], Kept(history.arrivals));
      ghost var w := first;
      var pos, rdCount := 0, 0;
      Departure(s, w, file);
      while true
        invariant Valid() && pos <= |file| && !overrun && |w.b| == MAX_PACKET_SIZE
        invariant SameBody(buffer[..], w.b) && w.kept == Kept(history.arrivals)
        invariant 0 <= report.code <= 1 && (rdCount == 0 ==> report.code == 0)
        invariant Ahead(s, first, file, pos, w, rdCount, report, records)
        decreases |file| - pos
      {
        ghost var rest, was := file[pos..], buffer[..];
        Arrival(s, first, file, pos, w, rdCount, report, records);
        var r := ReadMessage(file, pos);
        match r {
          case NoHeader =>
            if rdCount == 0 {
              report := report.(code := 1);
            }
            break;
          case Foreign =>
            report := report.(bad := report.bad + 1);
            break;
          case NoBody =>
            break;
          case TooMuch =>
            overrun := true;
            break;
          case Got(f, len) =>
            ghost var m := rest[..len];
            DecodeHeaderOnly(rest, m);
            Reloaded(w.b, was, buffer[..], m);
            records := records + [m];
            pos := pos + len;
            var off := CountPadding(len);
            pos := pos + |Fread(file, pos, off)|;
            report := Enter(report, f, len, off, stamp, w, m);
            w := Meet(s, w, m).1;
            rdCount := rdCount + 1;
        }
      }
      PlayedAlways(first, old(history.arrivals), file, report);
    }

    /**
     What reading a recording of one message comes to. Without a time, at the invalid altitude, or at most ten
     seconds older than the newest, it is bad and changes nothing; otherwise it is in the map under its time.
     */
    ghost predicate Played(was: map<real, Packet>, now: map<real, Packet>, report: Report, p: Sample)
      requires |p.pose| == 92
    {
      var time := s.timeOf(p.hi, p.lo);
      && report.msgs == 1 && report.msgBytes == Size(p) && report.code == 0
      && (s.grounded(p.pose[8..32]) || time <= 0.0 || (exists newest :: IsNewest(was, newest) && 0.0 < newest - time <= 10.0) ==>
            report.bad == 1 && now == was)
      && (!s.grounded(p.pose[8..32]) && time > 0.0 && !(exists newest :: IsNewest(was, newest) && 0.0 < newest - time <= 10.0) ==>
            report.bad == 0 && IsNewest(now, time) && now[time] == Packet(time, p.pose, PropertiesOf(p.items)))
    }

    lemma PlayedAlways(first: World, arrivals: seq<Packet>, file: Bytes, report: Report)
      requires Valid() && |first.b| == MAX_PACKET_SIZE && first.kept == Kept(arrivals)
      requires report == Survey(s, first, file, 0) && Kept(history.arrivals) == KeptAtEnd(s, first, file)
      ensures forall p: Sample :: WellMade(p, s.table) && file == Record([MessageOf(p)]) ==>
                Played(LastWins(first.kept), history.motionInfo, report, p)
    {
      hide Survey, KeptAtEnd, LastWins, LayoutAll, Writable, Record, MessageOf, FateOf, KeptAfter, IsNewest, Played;
      KeptInOrder(arrivals);
      forall p: Sample | WellMade(p, s.table) && file == Record([MessageOf(p)])
        ensures Played(LastWins(first.kept), history.motionInfo, report, p)
      {
        PlayedOnce(first, arrivals, p, report);
      }
    }

    lemma PlayedOnce(first: World, arrivals: seq<Packet>, p: Sample, report: Report)
      requires Valid() && |first.b| == MAX_PACKET_SIZE && first.kept == Kept(arrivals) && InOrder(first.kept)
      requires WellMade(p, s.table)
      requires var file := Record([MessageOf(p)]);
               report == Survey(s, first, file, 0) && Kept(history.arrivals) == KeptAtEnd(s, first, file)
      ensures Played(LastWins(first.kept), history.motionInfo, report, p)
    {
      hide Survey, KeptAtEnd, LastWins, Record, MessageOf, FateOf, KeptAfter, IsNewest, Kept, InOrder, LayoutAll, Writable;
      var packet := Packet(s.timeOf(p.hi, p.lo), p.pose, PropertiesOf(p.items));
      SampleIsRead(s, first, p);
      KeptAppend(arrivals, packet);
      KeptInOrder(arrivals + [packet]);
      FateByMap(first.kept, packet);
    }

    /** Enter a message in the buffer and its padding into the totals, and deal with it as its kind demands. */
    method Enter(report: Report, f: Fields, len: nat, off: nat, stamp: real, ghost w: World, ghost m: Bytes)
      returns (r: Report)
      requires Valid() && HEADER_SIZE <= |m| == len <= MAX_PACKET_SIZE == |w.b|
      requires f == Decode(m) && off == PadLen(len) && 0 <= report.code <= 1
      requires SameBody(buffer[..], Loaded(w.b, m)) && w.kept == Kept(history.arrivals)
      modifies history
      ensures Valid()
      ensures var (bad, after) := Meet(s, w, m);
              && r == Sum(report, ForOne(m, bad)) && 0 <= r.code <= 1
              && SameBody(buffer[..], after.b) && Kept(history.arrivals) == after.kept
    {
      hide Decode, PadLen, LookAt, Kept, FateOf;
      r := report.(msgs := report.msgs + 1, msgBytes := report.msgBytes + len, bytes := report.bytes + len);
      r := r.(bytes := r.bytes + off);
      LookIsLocal(s, buffer[..], Loaded(w.b, m), len);
      if f.msgId == CHAT_MSG_ID {
      } else if f.msgId == POS_DATA_ID {
        var iret := ProcessPosMsg(len, stamp);
        if iret != 0 {
          r := r.(bad := r.bad + 1);
        }
      } else {
        r := r.(bad := r.bad + 1, code := 1);
      }
    }
  }

  lemma Short(rest: Bytes)
    ensures |rest| < HEADER_SIZE || !KnownFormat(Decode(rest)) ==> FirstMessage(rest) == Stop
  {
    hide Decode;
  }

  /** What has been read so far and what is ahead make up the whole. */
  ghost predicate Ahead(s: Setting, first: World, file: Bytes, pos: nat, w: World, count: nat, report: Report, records: seq<Bytes>)
    requires |first.b| == |w.b| == MAX_PACKET_SIZE && pos <= |file|
  {
    var rest := file[pos..];
    && records + Parse(rest) == Parse(file) && Overruns(rest) == Overruns(file)
    && Sum(report, Survey(s, w, rest, count)) == Survey(s, first, file, 0)
    && KeptAtEnd(s, w, rest) == KeptAtEnd(s, first, file)
  }

  lemma Departure(s: Setting, w: World, file: Bytes)
    requires |w.b| == MAX_PACKET_SIZE
    ensures Ahead(s, w, file, 0, w, 0, Report(0, 0, 0, 0, 0), []) && SameBody(w.b, w.b)
  {
    hide Parse, Overruns, Survey, KeptAtEnd;
    assert file[0..] == file && [] + Parse(file) == Parse(file);
  }

  lemma Arrival(s: Setting, first: World, file: Bytes, pos: nat, w: World, count: nat, report: Report, records: seq<Bytes>)
    requires |first.b| == |w.b| == MAX_PACKET_SIZE && pos <= |file|
    requires Ahead(s, first, file, pos, w, count, report, records)
    ensures var rest := file[pos..];
            match FirstMessage(rest)
            case Message(len) =>
              var m, next := rest[..len], pos + len + |Fread(file, pos + len, PadLen(len))|;
              var (bad, after) := Meet(s, w, m);
              Ahead(s, first, file, next, after, count + 1, Sum(report, ForOne(m, bad)), records + [m])
            case Stop =>
              && records == Parse(file) && !Overruns(file) && w.kept == KeptAtEnd(s, first, file)
              && Survey(s, first, file, 0) == Sum(report, AtStop(rest, count))
            case Overrun =>
              && records == Parse(file) && Overruns(file) && w.kept == KeptAtEnd(s, first, file)
              && Survey(s, first, file, 0) == report
  {
    hide Parse, Overruns, Survey, KeptAtEnd, Meet, FirstMessage, PadLen, ForOne;
    var rest := file[pos..];
    SurveyStep(s, w, rest, count);
    assert records + [] == records;
    if FirstMessage(rest).Message? {
      var len := FirstMessage(rest).len;
      var m, next := rest[..len], pos + len + |Fread(file, pos + len, PadLen(len))|;
      var (bad, after) := Meet(s, w, m);
      assert file[next..] == Rest(rest, len);
      assert records + ([m] + Parse(file[next..])) == (records + [m]) + Parse(file[next..]);
      SumTwice(report, ForOne(m, bad), Survey(s, after, file[next..], count + 1));
    }
  }

  lemma Reloaded(w: Bytes, before: Bytes, now: Bytes, m: Bytes)
    requires HEADER_SIZE <= |m| <= MAX_PACKET_SIZE == |w| == |before|
    requires SameBody(before, w) && SameBody(now, Loaded(before, m))
    ensures SameBody(now, Loaded(w, m))
  {
    assert before[|m|..] == before[HEADER_SIZE..][|m| - HEADER_SIZE..] == w[|m|..];
  }

  /** How much is asked for behind a header, in unsigned 64-bit arithmetic, and what comes of it. */
  lemma Wanted(rest: Bytes, f: Fields)
    requires HEADER_SIZE <= |rest| < 0x8000_0000_0000_0000 && f == Decode(rest) && KnownFormat(f)
    ensures var i := (Value(f.msgLen) - HEADER_SIZE) % 0x1_0000_0000_0000_0000;
            var there := |rest| - HEADER_SIZE;
            var read := if i <= there then i else there;
            FirstMessage(rest) ==
            if HEADER_SIZE + read > MAX_PACKET_SIZE then Overrun else if read != i then Stop else Message(HEADER_SIZE + i)
  {
    hide Decode, Value, KnownFormat;
    ValueIsBounded(f.msgLen);
  }

  lemma LoadedBody(before: Bytes, decoded: Bytes, now: Bytes, rest: Bytes, len: nat)
    requires HEADER_SIZE <= len <= |rest| && len <= |before| == |decoded| == |now| == MAX_PACKET_SIZE
    requires decoded[HEADER_SIZE..] == before[HEADER_SIZE..]
    requires now == decoded[..HEADER_SIZE] + rest[HEADER_SIZE..len] + decoded[len..]
    ensures SameBody(now, Loaded(before, rest[..len]))
  {
    assert decoded[len..] == decoded[HEADER_SIZE..][len - HEADER_SIZE..] == before[len..];
    assert now[HEADER_SIZE..] == rest[HEADER_SIZE..len] + before[len..];
    assert Loaded(before, rest[..len])[HEADER_SIZE..] == rest[HEADER_SIZE..len] + before[len..];
  }
}
