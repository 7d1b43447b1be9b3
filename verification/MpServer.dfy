/** The multiplayer server of `src/simgear/mpserver.cxx`: record every datagram, check it, and keep a list of clients. */
module MpServer {
  import opened Wire
  import opened Header
  import opened Recording
  import opened Properties
  import Replay

  // ---------------------------------------------------------------- the client list

  /** The callsigns in order of first appearance. */
  function Roster(names: seq<Bytes>): (r: seq<Bytes>)
  {
    if names == [] then []
    else
      var before, name := Roster(names[..|names| - 1]), names[|names| - 1];
      if name in before then before else before + [name]
  }

  /** The client list gives each callsign its place in the roster, counted from 1. */
  predicate Numbers(clients: map<Bytes, nat>, roster: seq<Bytes>)
  {
    && |clients| == |roster|
    && (forall i :: 0 <= i < |roster| ==> roster[i] in clients && clients[roster[i]] == i + 1)
    && (forall c :: c in clients ==> c in roster)
  }

  lemma RosterAppend(names: seq<Bytes>, name: Bytes)
    ensures Roster(names + [name]) == if name in Roster(names) then Roster(names) else Roster(names) + [name]
  {
    assert (names + [name])[..|names|] == names;
  }

  /** Later arrivals never move a callsign, so an id once given stays. */
  lemma {:induction false} RosterIsStable(names: seq<Bytes>, more: seq<Bytes>)
    ensures Roster(names) <= Roster(names + more)
  {
    if more == [] {
      assert names + more == names;
    } else {
      var n := |more| - 1;
      assert names + more == (names + more[..n]) + [more[n]];
      RosterAppend(names + more[..n], more[n]);
      RosterIsStable(names, more[..n]);
    }
  }

  /** The roster has each callsign that appeared, once. */
  lemma {:induction false} RosterIsExact(names: seq<Bytes>)
    ensures forall c :: c in Roster(names) <==> c in names
    ensures forall i, j :: 0 <= i < j < |Roster(names)| ==> Roster(names)[i] != Roster(names)[j]
  {
    if names != [] {
      var before, name := names[..|names| - 1], names[|names| - 1];
      RosterIsExact(before);
      assert names == before + [name];
      RosterAppend(before, name);
    }
  }

  predicate InUse(clients: map<Bytes, nat>, n: nat)
  {
    exists c :: c in clients && clients[c] == n
  }

  /** A numbering is a bijection between the callsigns and 1..n. */
  lemma NumberingIsBijection(clients: map<Bytes, nat>, roster: seq<Bytes>)
    requires Numbers(clients, roster)
    ensures forall n: nat :: InUse(clients, n) <==> 1 <= n <= |clients|
    ensures forall c, c' :: c in clients && c' in clients && clients[c] == clients[c'] ==> c == c'
  {
    forall c | c in clients
      ensures 1 <= clients[c] <= |clients| && roster[clients[c] - 1] == c
    {
      var i :| 0 <= i < |roster| && roster[i] == c;
    }
    forall n: nat
      ensures InUse(clients, n) <==> 1 <= n <= |clients|
    {
      if 1 <= n <= |clients| {
        assert roster[n - 1] in clients;
      }
    }
    forall c, c' | c in clients && c' in clients && clients[c] == clients[c']
      ensures c == c'
    {
      assert c == roster[clients[c] - 1] == roster[clients[c'] - 1] == c';
    }
  }

  // ---------------------------------------------------------------- acceptance

  /** Whether a datagram of `rlen` bytes, now at the start of buffer `b`, is taken as a valid position message. */
  predicate Accepts(b: Bytes, rlen: nat, outside: Memory, table: seq<Entry>)
    requires |b| >= HEADER_SIZE
  {
    var f := Decode(b);
    && KnownFormat(f)
    && Value(f.msgLen) == rlen
    && f.msgId == POS_DATA_ID
    && !PositionProperties(MemoryOf(b, outside), table, rlen).unknown
  }

  /** The buffer after the header check has written to it: the length in host order, and a terminated callsign. */
  function Touched(b: Bytes, little: bool): (r: Bytes)
    requires |b| >= HEADER_SIZE
    ensures |r| == |b|
  {
    b[..12] + Store(WordAt(b, 12), little) + b[16..HEADER_SIZE - 1] + [0] + b[HEADER_SIZE..]
  }

  // ---------------------------------------------------------------- a whole run

  /** `outside` is what lies behind the buffer when the datagram is looked at. */
  datatype Input = Datagram(bytes: Bytes, outside: Memory) | WouldBlock | Failure | Escape

  /** What the buffer takes of a datagram. */
  function Cut(d: Bytes): (r: Bytes)
    ensures r <= d && |r| == if |d| <= MAX_PACKET_SIZE then |d| else MAX_PACKET_SIZE
  {
    if |d| <= MAX_PACKET_SIZE then d else d[..MAX_PACKET_SIZE]
  }

  /** The datagrams handled before the user leaves or receiving fails. */
  function Arrived(script: seq<Input>): (ds: seq<Bytes>)
    ensures forall i :: 0 <= i < |ds| ==> |ds[i]| <= MAX_PACKET_SIZE
  {
    if script == [] then []
    else
      match script[0]
      case Datagram(d, _) => [Cut(d)] + Arrived(script[1..])
      case WouldBlock => Arrived(script[1..])
      case _ => []
  }

  /** The callsigns of the accepted ones, received one after the other into a buffer that holds `b`. */
  function Callsigns(b: Bytes, script: seq<Input>, little: bool, table: seq<Entry>): seq<Bytes>
    requires |b| == MAX_PACKET_SIZE
    decreases |script|
  {
    if script == [] then []
    else
      match script[0]
      case Datagram(d, outside) =>
        var c := Loaded(b, Cut(d));
        (if Accepts(c, |Cut(d)|, outside, table) then [Decode(c).callsign] else []) +
        Callsigns(Touched(c, little), script[1..], little, table)
      case WouldBlock => Callsigns(b, script[1..], little, table)
      case _ => []
  }

  predicate Broke(script: seq<Input>)
  {
    script != [] && (script[0].Failure? || (!script[0].Escape? && Broke(script[1..])))
  }

  // ---------------------------------------------------------------- the server

  class Server {
    const little: bool
    const table: seq<Entry>
    const buffer: array<byte>
    const recorder: Recorder
    var clients: map<Bytes, nat>
    var clientId: nat
    var totalClients: nat
    var recvsDone: nat
    var recvBytes: nat
    /** The callsigns of the accepted datagrams, in order. */
    ghost var names: seq<Bytes>

    ghost predicate Valid()
      reads this
    {
      && buffer.Length == MAX_PACKET_SIZE
      && recorder.hexBuffer.Length == 2048 && recorder.hexBuffer != buffer
      && clientId == totalClients == |clients|
      && Numbers(clients, Roster(names))
    }

    constructor (little: bool, table: seq<Entry>)
      ensures Valid() && clients == map[] && names == [] && recvsDone == recvBytes == 0
      ensures fresh(buffer) && fresh(recorder) && fresh(recorder.hexBuffer)
      ensures recorder.file == [] && recorder.isOpen
    {
      this.little, this.table := little, table;
      clients, clientId, totalClients, recvsDone, recvBytes, names := map[], 0, 0, 0, 0, [];
      buffer := new byte[MAX_PACKET_SIZE];
      recorder := new Recorder();
    }

    /** `recvfrom`: the datagram, or what the buffer takes of it, at the start of the buffer. */
    method Receive(d: Bytes) returns (rlen: nat)
      requires buffer.Length == MAX_PACKET_SIZE
      modifies buffer
      ensures rlen == |Cut(d)| && buffer[..] == Loaded(old(buffer[..]), Cut(d)) && buffer[..rlen] == Cut(d)
    {
      rlen := if |d| <= MAX_PACKET_SIZE then |d| else MAX_PACKET_SIZE;
      forall i | 0 <= i < rlen {
        buffer[i] := d[i];
      }
    }

    /** Decode and check the header in place; true when the message goes on to be processed. */
    method CheckHeader(rlen: nat) returns (ok: bool, msgId: bv32)
      requires buffer.Length == MAX_PACKET_SIZE
      modifies buffer
      ensures buffer[..] == Touched(old(buffer[..]), little)
      ensures buffer[12..16] == Store(WordAt(old(buffer[..]), 12), little) && buffer[31] == 0
      ensures forall j :: 0 <= j < buffer.Length && !(12 <= j < 16) && j != 31 ==> buffer[j] == old(buffer[j])
      ensures var f := Decode(old(buffer[..]));
              msgId == f.msgId && ok == (KnownFormat(f) && Value(f.msgLen) == rlen)
    {
      hide Value, Store, Join, Touched, CString;
      var magic := GetXdr(buffer, 0, little);
      var version := GetXdr(buffer, 4, little);
      msgId := GetXdr(buffer, 8, little);
      var msgLen := GetXdr(buffer, 12, little);
      ghost var b := buffer[..];
      buffer[HEADER_SIZE - 1] := 0;
      ghost var c := b[HEADER_SIZE - 1 := 0];
      assert buffer[..] == c;
      TouchedInSteps(b, little);
      PutWord(buffer, 12, msgLen, little);
      assert buffer[..] == c[..12] + Store(msgLen, little) + c[16..];
      if magic != MSG_MAGIC && magic != RELAY_MAGIC {
        return false, msgId;
      }
      if version != PROTO_VER {
        return false, msgId;
      }
      if Value(msgLen) != rlen {
        return false, msgId;
      }
      return true, msgId;
    }

    /** Enter a callsign that is not on the list. */
    method Register(name: Bytes)
      requires Valid()
      modifies this`clients, this`clientId, this`totalClients, this`names
      ensures Valid() && names == old(names) + [name]
      ensures clients == if name in old(clients) then old(clients) else old(clients)[name := old(clientId) + 1]
    {
      RosterAppend(names, name);
      names := names + [name];
      if name !in clients {
        clientId := clientId + 1;
        clients := clients[name := clientId];
        totalClients := totalClients + 1;
      }
    }

    /** One received datagram: record it, check it, and enter its sender. */
    method Handle(d: Bytes, outside: Memory) returns (ghost complete: bool, accepted: bool)
      requires Valid()
      modifies this, buffer, recorder, recorder.hexBuffer
      ensures Valid()
      ensures var rlen := |Cut(d)|;
              var b := Loaded(old(buffer[..]), Cut(d));
              && recvsDone == old(recvsDone) + 1 && recvBytes == old(recvBytes) + rlen
              && buffer[..] == Touched(b, little)
              && accepted == Accepts(b, rlen, outside, table)
              && names == (if accepted then old(names) + [Decode(b).callsign] else old(names))
              && (old(recorder.isOpen) && (complete || rlen == 0) ==>
                    recorder.isOpen && recorder.file == old(recorder.file) + Frame(Cut(d)))
      ensures forall c :: c in old(clients) ==> c in clients && clients[c] == old(clients)[c]
    {
      hide Decode, Touched, Numbers, Roster, Accepts, Frame, Cut, Loaded;
      var rlen := Receive(d);
      ghost var b := buffer[..];
      recvsDone, recvBytes := recvsDone + 1, recvBytes + rlen;
      complete := recorder.WriteRawData(buffer, rlen);
      EmptyFrame();
      accepted := Check(rlen, outside);
      if accepted {
        TouchedKeepsCallsign(b, little);
        Register(CString(buffer[24..]));
      }
    }

    /** Check the header and, in a position message, the properties. */
    method Check(rlen: nat, outside: Memory) returns (valid: bool)
      requires buffer.Length == MAX_PACKET_SIZE
      modifies buffer
      ensures buffer[..] == Touched(old(buffer[..]), little)
      ensures valid == Accepts(old(buffer[..]), rlen, outside, table)
    {
      hide Decode, Touched, PositionProperties, Value, MemoryOf;
      ghost var b := buffer[..];
      var ok, msgId := CheckHeader(rlen);
      valid := false;
      if ok && msgId == POS_DATA_ID {
        var iret, props := ProcessPosMsg(MemoryOf(buffer[..], outside), table, rlen);
        TouchedKeepsProperties(b, little, outside, table, rlen);
        valid := iret == 0;
      }
    }

    /**
     The receive loop over whatever arrives; `whole` says that no write to the recording fell short.
     */
    method Run(script: seq<Input>) returns (code: int, ghost whole: bool)
      requires Valid() && recorder.isOpen && names == []
      modifies this, buffer, recorder, recorder.hexBuffer
      ensures Valid()
      ensures forall n: nat :: InUse(clients, n) <==> 1 <= n <= clientId
      ensures forall c, c' :: c in clients && c' in clients && clients[c] == clients[c'] ==> c == c'
      ensures names == Callsigns(old(buffer[..]), script, little, table)
      ensures recvsDone == old(recvsDone) + |Arrived(script)|
      ensures recvBytes == old(recvBytes) + TotalLength(Arrived(script))
      ensures whole ==> recorder.file == old(recorder.file) + Record(Arrived(script))
      ensures code == if Broke(script) then 1 else 0
    {
      hide Numbers, Roster, Accepts, Touched, Frame, Record, TotalLength, Callsigns, Arrived, Decode, Broke;
      code, whole := 0, true;
      ghost var ds, goal: seq<Bytes> := [], Callsigns(buffer[..], script, little, table);
      NobodyYet();
      clientId := 0;
      NothingRecorded(recorder.file);
      assert script[0..] == script;
      for i := 0 to |script|
        invariant Valid() && code == 0
        invariant recvsDone == old(recvsDone) + |ds| && recvBytes == old(recvBytes) + TotalLength(ds)
        invariant whole ==> recorder.isOpen && recorder.file == old(recorder.file) + Record(ds)
        invariant ds + Arrived(script[i..]) == Arrived(script)
        invariant names + Callsigns(buffer[..], script[i..], little, table) == goal
        invariant Broke(script[i..]) == Broke(script)
      {
        NextArrival(script, i, ds);
        NextCallsign(buffer[..], script, i, names, little, table);
        match script[i] {
          case Escape =>
            break;
          case WouldBlock =>
          case Failure =>
            code := 1;
            break;
          case Datagram(d, outside) =>
            RecordNext(old(recorder.file), ds, Cut(d));
            ghost var complete;
            var accepted;
            complete, accepted := Handle(d, outside);
            ds, whole := ds + [Cut(d)], whole && (complete || Cut(d) == []);
        }
      }
      assert script[|script|..] == [] && ds + [] == ds;
      NoMore(buffer[..], names, little, table);
      NumberingIsBijection(clients, Roster(names));
    }
  }

  lemma NextArrival(script: seq<Input>, i: nat, ds: seq<Bytes>)
    requires i < |script|
    ensures match script[i]
            case Datagram(d, _) =>
              && Arrived(script[i..]) == [Cut(d)] + Arrived(script[i + 1..])
              && ds + ([Cut(d)] + Arrived(script[i + 1..])) == (ds + [Cut(d)]) + Arrived(script[i + 1..])
              && Broke(script[i..]) == Broke(script[i + 1..])
            case WouldBlock =>
              Arrived(script[i..]) == Arrived(script[i + 1..]) && Broke(script[i..]) == Broke(script[i + 1..])
            case Failure => Arrived(script[i..]) == [] && ds + [] == ds && Broke(script[i..])
            case Escape => Arrived(script[i..]) == [] && ds + [] == ds && !Broke(script[i..])
  {
    assert script[i..][1..] == script[i + 1..];
  }

  lemma NoMore(b: Bytes, names: seq<Bytes>, little: bool, table: seq<Entry>)
    requires |b| == MAX_PACKET_SIZE
    ensures names + Callsigns(b, [], little, table) == names
    ensures Arrived([]) == [] && !Broke([])
  {
  }

  lemma NextCallsign(b: Bytes, script: seq<Input>, i: nat, names: seq<Bytes>, little: bool, table: seq<Entry>)
    requires |b| == MAX_PACKET_SIZE && i < |script|
    ensures if script[i].Datagram? then
              var d := Cut(script[i].bytes);
              var c := Loaded(b, d);
              var now := if Accepts(c, |d|, script[i].outside, table) then names + [Decode(c).callsign] else names;
              names + Callsigns(b, script[i..], little, table) ==
              now + Callsigns(Touched(c, little), script[i + 1..], little, table)
            else if script[i].WouldBlock? then
              Callsigns(b, script[i..], little, table) == Callsigns(b, script[i + 1..], little, table)
            else
              names + Callsigns(b, script[i..], little, table) == names
  {
    hide Accepts, Decode, Touched, Cut, Loaded;
    assert script[i..][1..] == script[i + 1..];
  }

  lemma RecordNext(file: Bytes, ds: seq<Bytes>, d: Bytes)
    ensures file + Record(ds) + Frame(d) == file + Record(ds + [d])
    ensures TotalLength(ds + [d]) == TotalLength(ds) + |d|
    ensures d == [] ==> Record(ds + [d]) == Record(ds)
  {
    hide Record, TotalLength;
    RecordAppend(ds, d);
    TotalAppend(ds, d);
    assert file + (Record(ds) + Frame(d)) == file + Record(ds) + Frame(d);
  }

  lemma NobodyYet()
    ensures Roster([]) == []
    ensures forall clients :: Numbers(clients, []) ==> clients == map[]
  {
  }

  lemma NothingRecorded(file: Bytes)
    ensures file + Record([]) == file && TotalLength([]) == 0
  {
  }

  lemma {:induction false} TotalAppend(msgs: seq<Bytes>, m: Bytes)
    ensures TotalLength(msgs + [m]) == TotalLength(msgs) + |m|
  {
    if msgs == [] {
      assert [m][1..] == [];
    } else {
      assert (msgs + [m])[1..] == msgs[1..] + [m];
      TotalAppend(msgs[1..], m);
    }
  }

  lemma TouchedInSteps(b: Bytes, little: bool)
    requires |b| >= HEADER_SIZE
    ensures var c := b[HEADER_SIZE - 1 := 0];
            c[..12] + Store(WordAt(b, 12), little) + c[16..] == Touched(b, little)
  {
    hide Store, WordAt;
  }

  lemma EmptyFrame()
    ensures Frame([]) == []
  {
  }

  /** The header check writes only to the header, so the properties stay what they were. */
  lemma TouchedKeepsProperties(b: Bytes, little: bool, outside: Memory, table: seq<Entry>, end: nat)
    requires |b| == MAX_PACKET_SIZE
    ensures PositionProperties(MemoryOf(Touched(b, little), outside), table, end) ==
            PositionProperties(MemoryOf(b, outside), table, end)
  {
    hide PositionProperties, Join, Store;
    var t := Touched(b, little);
    assert forall j :: HEADER_SIZE <= j < |b| ==> t[j] == b[j];
    forall i: nat | PAD_WORD <= i
      ensures MemoryOf(t, outside)(i) == MemoryOf(b, outside)(i)
    {
      if 4 * i + 4 <= |b| {
        assert WordAt(t, 4 * i) == WordAt(b, 4 * i);
      }
    }
    PropertiesAreLocal(MemoryOf(t, outside), MemoryOf(b, outside), table, end);
  }

  lemma TouchedKeepsCallsign(b: Bytes, little: bool)
    requires |b| >= HEADER_SIZE
    ensures CString(Touched(b, little)[24..]) == Decode(b).callsign
  {
    hide CString, WordAt, Store;
    var name := b[24..HEADER_SIZE - 1];
    assert Touched(b, little)[24..] == name + [0] + b[HEADER_SIZE..];
    CStringStops(name, b[HEADER_SIZE..]);
  }

  lemma {:induction false} CStringStops(s: Bytes, rest: Bytes)
    ensures CString(s + [0] + rest) == CString(s)
  {
    var d := s + [0] + rest;
    if s != [] && s[0] != 0 {
      assert d[1..] == s[1..] + [0] + rest;
      CStringStops(s[1..], rest);
    }
  }

  // ---------------------------------------------------------------- the programs together

  /** What the server accepts, the reader of the recording delivers if and only if it has a header of its own. */
  lemma AcceptedIsWellFormed(d: Bytes, stale: Bytes, outside: Memory, table: seq<Entry>)
    requires |d| + |stale| == MAX_PACKET_SIZE && Accepts(d + stale, |d|, outside, table)
    ensures WellFormed(d) <==> |d| >= HEADER_SIZE
  {
    hide Decode, PositionProperties, Value;
    if |d| >= HEADER_SIZE {
      assert (d + stale)[..HEADER_SIZE] == d[..HEADER_SIZE];
      DecodeHeaderOnly(d + stale, d);
    }
  }

  /** Sixteen bytes are enough to be accepted, under the callsign that an earlier datagram left in the buffer. */
  lemma SixteenBytesAreAccepted(stale: Bytes, outside: Memory, table: seq<Entry>)
    requires |stale| == MAX_PACKET_SIZE - 16
    ensures var d := Words([MSG_MAGIC, PROTO_VER, POS_DATA_ID, WordOf(16)]);
            && |d| == 16 && Accepts(d + stale, 16, outside, table)
            && Decode(d + stale).callsign == CString(stale[8..15])
  {
    hide Words, WordOf, Value, Join, Split, CString, VerifyWalk;
    var ws := [MSG_MAGIC, PROTO_VER, POS_DATA_ID, WordOf(16)];
    var d := Words(ws);
    WordsAt(ws, stale, 0);
    WordsAt(ws, stale, 1);
    WordsAt(ws, stale, 2);
    WordsAt(ws, stale, 3);
    ValueOfWord(16);
    assert (d + stale)[24..HEADER_SIZE - 1] == stale[8..15];
    NothingToDecode(MemoryOf(d + stale, outside), table);
  }

  /** A message that ends before its properties has none, and no unknown one either. */
  lemma NothingToDecode(mem: Memory, table: seq<Entry>)
    ensures !PositionProperties(mem, table, 16).unknown
  {
    hide VerifyWalk;
    assert DecodeWalk(mem, table, PROPS_WORD, 16) == Decoded([], PROPS_WORD, false);
    assert DecodeWalk(mem, table, PAD_WORD, 16) == Decoded([], PAD_WORD, false);
  }

  /**
   A datagram with a header from `myFillMsgHdr` passes every header check, whatever fits as a callsign,
   and is entered under that callsign; only its properties can make it invalid.
   */
  lemma FreshHeaderPasses(callsign: Bytes, rest: Bytes, stale: Bytes, outside: Memory, table: seq<Entry>)
    requires |callsign| < MAX_CALLSIGN_LEN && 0 !in callsign
    requires |rest| >= MAX_CALLSIGN_LEN - 1 - |callsign|
    requires 25 + |callsign| + |rest| <= MAX_PACKET_SIZE
    ensures var len := 25 + |callsign| + |rest|;
            var d := FreshWords(POS_DATA_ID, len) + callsign + [0] + rest;
            && |d| == len
            && Decode(d + stale).callsign == callsign
            && (Accepts(d + stale, len, outside, table) <==>
                !PositionProperties(MemoryOf(d + stale, outside), table, len).unknown)
  {
    hide Decode, PositionProperties, FreshWords, Value, WordOf;
    var len := 25 + |callsign| + |rest|;
    var d := FreshWords(POS_DATA_ID, len) + callsign + [0] + rest;
    HeaderRoundTrip(POS_DATA_ID, len, callsign, rest);
    assert (d + stale)[..HEADER_SIZE] == d[..HEADER_SIZE];
    DecodeHeaderOnly(d + stale, d);
  }

  /** Acceptance in so many words. */
  lemma AcceptsExactly(b: Bytes, rlen: nat, outside: Memory, table: seq<Entry>)
    requires |b| == MAX_PACKET_SIZE
    ensures Accepts(b, rlen, outside, table) <==>
            && (WordAt(b, 0) == 0x46474653 || WordAt(b, 0) == 0x53464746)
            && WordAt(b, 4) == 0x0001_0001 && WordAt(b, 8) == 7 && Value(WordAt(b, 12)) == rlen
            && !(MemoryOf(b, outside)(57) == 0 && DecodeWalk(MemoryOf(b, outside), table, 58, rlen).unknown)
  {
    hide WordAt, Value, CString, DecodeWalk, PositionProperties, MemoryOf;
    RefusedExactly(MemoryOf(b, outside), table, rlen);
  }

  /** A message the server accepted is accepted again when the client replays it, under the client's own callsign. */
  lemma ReplayIsAccepted(m: Bytes, stale: Bytes, outside: Memory, table: seq<Entry>)
    requires Replay.Replayable(m) && Accepts(m + stale, |m|, outside, table)
    ensures var d := Replay.Datagram(m);
            && |d| == |m|
            && Accepts(d + stale, |m|, outside, table)
            && Decode(d + stale).callsign == Replay.CALLSIGN
  {
    hide Decode, PositionProperties, FreshWords, Value, WordOf, Join;
    var d, body := Replay.Datagram(m), m[HEADER_SIZE..];
    FreshHeaderPasses(Replay.CALLSIGN, body, stale, outside, table);
    var now, first := d + stale, m + stale;
    assert forall j :: HEADER_SIZE <= j < |now| ==> now[j] == first[j];
    forall i: nat | PAD_WORD <= i
      ensures MemoryOf(now, outside)(i) == MemoryOf(first, outside)(i)
    {
      if 4 * i + 4 <= |now| {
        assert WordAt(now, 4 * i) == WordAt(first, 4 * i);
      }
    }
    PropertiesAreLocal(MemoryOf(now, outside), MemoryOf(first, outside), table, |m|);
  }
}
