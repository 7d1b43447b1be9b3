/** The header every multiplayer message starts with: `T_MsgHdr` and `myFillMsgHdr` of `src/simgear/fgmpmsg.hxx`. */
module Header {
  import opened Wire

  const MSG_MAGIC: bv32 := 0x46474653
  const RELAY_MAGIC: bv32 := 0x53464746
  const PROTO_VER: bv32 := 0x00010001

  const CHAT_MSG_ID: bv32 := 1
  const POS_DATA_ID: bv32 := 7

  const MAX_CALLSIGN_LEN: nat := 8
  const MAX_CHAT_MSG_LEN: nat := 256
  const MAX_PACKET_SIZE: nat := 1200

  /** Six words and the callsign. */
  const HEADER_SIZE: nat := 32
  /** Model name, two times, three coordinates, five vectors of three floats, and the padding word. */
  const POSITION_SIZE: nat := 200

  /** The fields a receiver looks at, in host order. */
  datatype Fields = Fields(magic: bv32, version: bv32, msgId: bv32, msgLen: bv32, replyPort: bv32, callsign: Bytes)

  /** The big-endian word at `off`. */
  function WordAt(d: Bytes, off: nat): bv32
    requires off + 4 <= |d|
  {
    Join(d[off], d[off + 1], d[off + 2], d[off + 3])
  }

  /** A C string: the bytes before the first zero. */
  function CString(d: Bytes): (s: Bytes)
    ensures |s| <= |d| && 0 !in s
  {
    if d == [] || d[0] == 0 then [] else [d[0]] + CString(d[1..])
  }

  /** What a receiver reads out of a message. The last callsign byte counts as a zero whatever it is. */
  function Decode(d: Bytes): Fields
    requires |d| >= HEADER_SIZE
  {
    Fields(WordAt(d, 0), WordAt(d, 4), WordAt(d, 8), WordAt(d, 12), WordAt(d, 20),
           CString(d[24..HEADER_SIZE - 1]))
  }

  predicate KnownFormat(f: Fields)
  {
    (f.magic == MSG_MAGIC || f.magic == RELAY_MAGIC) && f.version == PROTO_VER
  }

  /** The length `myFillMsgHdr` puts into a message of the given kind. */
  function LengthFor(msgId: bv32, len: nat): (r: nat)
    ensures len < 0x1_0000_0000 ==> r < 0x1_0000_0000
  {
    if msgId == CHAT_MSG_ID then HEADER_SIZE + MAX_CHAT_MSG_LEN
    else if msgId == POS_DATA_ID then len
    else HEADER_SIZE
  }

  /** Words as they travel, one after the other. */
  function Words(ws: seq<bv32>): (b: Bytes)
    ensures |b| == 4 * |ws|
  {
    if ws == [] then [] else Words(ws[..|ws| - 1]) + Split(ws[|ws| - 1])
  }

  function FreshList(msgId: bv32, len: nat): (ws: seq<bv32>)
    requires len < 0x1_0000_0000
    ensures |ws| == 6
  {
    [MSG_MAGIC, PROTO_VER, msgId, WordOf(LengthFor(msgId, len)), 0, 0]
  }

  /** The six words of a fresh header: the reply address and port are obsolete and zero. */
  function FreshWords(msgId: bv32, len: nat): (b: Bytes)
    requires len < 0x1_0000_0000
    ensures |b| == 24
  {
    Words(FreshList(msgId, len))
  }

  method PutWord(buf: array<byte>, off: nat, w: bv32, little: bool)
    requires off + 4 <= buf.Length
    modifies buf
    ensures buf[..] == old(buf[..off]) + Store(w, little) + old(buf[off + 4..])
  {
    var m := Store(w, little);
    buf[off], buf[off + 1], buf[off + 2], buf[off + 3] := m[0], m[1], m[2], m[3];
  }

  /** Store the XDR form of `w`; on the wire that is big-endian. */
  method PutXdr(buf: array<byte>, off: nat, w: bv32, little: bool)
    requires off + 4 <= buf.Length
    modifies buf
    ensures buf[..] == old(buf[..off]) + Split(w) + old(buf[off + 4..])
  {
    hide Store, Split, Xdr;
    XdrIsBigEndian(w, [0, 0, 0, 0], little);
    PutWord(buf, off, Xdr(w, little), little);
  }

  /** The value of the word at `off`, decoded from XDR. */
  method GetXdr(buf: array<byte>, off: nat, little: bool) returns (w: bv32)
    requires off + 4 <= buf.Length
    ensures w == WordAt(buf[..], off)
  {
    XdrIsBigEndian(0, buf[off..off + 4], little);
    w := Xdr(Load(buf[off..off + 4], little), little);
  }

  /** The callsign fits only if it leaves room for its terminator; otherwise the words are written all the same. */
  method FillMsgHdr(buf: array<byte>, msgId: bv32, len: nat, callsign: Bytes, little: bool) returns (rc: int)
    requires HEADER_SIZE <= buf.Length && len < 0x1_0000_0000 && 0 !in callsign
    modifies buf
    ensures rc == if |callsign| < MAX_CALLSIGN_LEN then 0 else 1
    ensures rc == 0 ==>
              buf[..] == FreshWords(msgId, len) + callsign + [0] + old(buf[24 + |callsign| + 1..])
    ensures rc == 1 ==> buf[..] == FreshWords(msgId, len) + old(buf[24..])
  {
    hide FreshWords;
    ghost var before, words := buf[..], FreshWords(msgId, len);
    FillWords(buf, msgId, len, little);
    if |callsign| < MAX_CALLSIGN_LEN {
      CopyString(buf, 24, callsign);
      Patch(words, before, callsign + [0]);
      assert words + (callsign + [0]) == words + callsign + [0];
      return 0;
    } else {
      return 1;
    }
  }

  /** The six assignments. */
  method FillWords(buf: array<byte>, msgId: bv32, len: nat, little: bool)
    requires HEADER_SIZE <= buf.Length && len < 0x1_0000_0000
    modifies buf
    ensures buf[..] == FreshWords(msgId, len) + old(buf[24..])
  {
    hide FreshList, Filled, WordOf, LengthFor, Words, Split;
    ghost var before, ws := buf[..], FreshList(msgId, len);
    var length := FreshItems(msgId, len);
    FilledEnds(ws, before);
    PutNext(buf, 0, MSG_MAGIC, little, ws, before);
    PutNext(buf, 1, PROTO_VER, little, ws, before);
    PutNext(buf, 2, msgId, little, ws, before);
    PutNext(buf, 3, length, little, ws, before);
    PutZero(buf, 4, little, ws, before);
    PutZero(buf, 5, little, ws, before);
  }

  /** The first `k` of the words lie at the start of the buffer; the rest is as before. */
  predicate Filled(now: Bytes, ws: seq<bv32>, k: nat, before: Bytes)
  {
    && k <= |ws| && 4 * |ws| <= |before| == |now|
    && now == Words(ws[..k]) + before[4 * k..]
  }

  lemma FilledEnds(ws: seq<bv32>, before: Bytes)
    requires 4 * |ws| <= |before|
    ensures Filled(before, ws, 0, before)
    ensures forall now :: Filled(now, ws, |ws|, before) ==> now == Words(ws) + before[4 * |ws|..]
  {
    hide Words;
    WordsNone();
    assert ws[..0] == [] && ws[..|ws|] == ws;
  }

  /** The length word, and where the six words are in the list. */
  method FreshItems(msgId: bv32, len: nat) returns (length: bv32)
    requires len < 0x1_0000_0000
    ensures var ws := FreshList(msgId, len);
            ws[0] == MSG_MAGIC && ws[1] == PROTO_VER && ws[2] == msgId && ws[3] == length && ws[4] == ws[5] == 0
    ensures length == WordOf(LengthFor(msgId, len))
  {
    hide WordOf, LengthFor;
    length := WordOf(LengthFor(msgId, len));
  }

  /** Assign word `k` through `XDR_encode_uint32`. */
  method PutNext(buf: array<byte>, k: nat, w: bv32, little: bool, ghost ws: seq<bv32>, ghost before: Bytes)
    requires k < |ws| && ws[k] == w && Filled(buf[..], ws, k, before)
    modifies buf
    ensures Filled(buf[..], ws, k + 1, before)
  {
    hide Split, Filled;
    FilledNext(buf[..], ws, k, before);
    PutXdr(buf, 4 * k, w, little);
  }

  /** Assign zero to word `k` plainly. */
  method PutZero(buf: array<byte>, k: nat, little: bool, ghost ws: seq<bv32>, ghost before: Bytes)
    requires k < |ws| && ws[k] == 0 && Filled(buf[..], ws, k, before)
    modifies buf
    ensures Filled(buf[..], ws, k + 1, before)
  {
    hide Split, Store, Filled;
    FilledNext(buf[..], ws, k, before);
    ZeroWord(little);
    PutWord(buf, 4 * k, 0, little);
  }

  lemma FilledNext(now: Bytes, ws: seq<bv32>, k: nat, before: Bytes)
    requires k < |ws| && Filled(now, ws, k, before)
    ensures 4 * k + 4 <= |now|
    ensures Filled(now[..4 * k] + Split(ws[k]) + now[4 * k + 4..], ws, k + 1, before)
  {
    hide Split, Words;
    WordsNext(ws[..k], ws[k]);
    assert ws[..k + 1] == ws[..k] + [ws[k]];
    Patch(Words(ws[..k]), before, Split(ws[k]));
  }

  lemma WordsNone()
    ensures Words([]) == []
  {
  }

  lemma WordsNext(ws: seq<bv32>, w: bv32)
    ensures Words(ws + [w]) == Words(ws) + Split(w)
  {
    assert (ws + [w])[..|ws|] == ws;
  }

  lemma {:induction false} WordsAt(ws: seq<bv32>, tail: Bytes, i: nat)
    requires i < |ws|
    ensures WordAt(Words(ws) + tail, 4 * i) == ws[i]
  {
    hide Split, Words;
    var n := |ws| - 1;
    WordsNext(ws[..n], ws[n]);
    assert ws[..n] + [ws[n]] == ws;
    if i == n {
      WordAtSplit(Words(ws[..n]), ws[n], tail);
    } else {
      assert Words(ws) + tail == Words(ws[..n]) + (Split(ws[n]) + tail);
      WordsAt(ws[..n], Split(ws[n]) + tail, i);
    }
  }

  /** `strcpy` */
  method CopyString(buf: array<byte>, at: nat, s: Bytes)
    requires at + |s| + 1 <= buf.Length
    modifies buf
    ensures buf[..] == old(buf[..at]) + (s + [0]) + old(buf[at + |s| + 1..])
  {
    forall i | 0 <= i < |s| {
      buf[at + i] := s[i];
    }
    buf[at + |s|] := 0;
  }

  /** `before` with its beginning replaced by `prefix`, and then by `more`. */
  lemma Patch(prefix: Bytes, before: Bytes, more: Bytes)
    requires |prefix| + |more| <= |before|
    ensures var b := prefix + before[|prefix|..];
            b[..|prefix|] + more + b[|prefix| + |more|..] == prefix + more + before[|prefix| + |more|..]
  {
  }

  lemma ZeroWord(little: bool)
    ensures Store(0, little) == Split(0)
  {
  }

  lemma {:induction false} CStringOf(s: Bytes, rest: Bytes)
    requires 0 !in s
    ensures CString(s + [0] + rest) == s
  {
    var d := s + [0] + rest;
    if s != [] {
      assert d[1..] == s[1..] + [0] + rest;
      CStringOf(s[1..], rest);
    }
  }

  lemma {:induction false} CStringWhole(s: Bytes)
    requires 0 !in s
    ensures CString(s) == s
  {
    if s != [] {
      CStringWhole(s[1..]);
    }
  }

  lemma WordAtSplit(a: Bytes, w: bv32, b: Bytes)
    ensures WordAt(a + Split(w) + b, |a|) == w
  {
    var d := a + Split(w) + b;
    assert d[|a|] == Split(w)[0] && d[|a| + 1] == Split(w)[1] && d[|a| + 2] == Split(w)[2] && d[|a| + 3] == Split(w)[3];
  }

  /** A fresh header decodes to what it was filled with, for every callsign that fits. */
  lemma HeaderRoundTrip(msgId: bv32, len: nat, callsign: Bytes, rest: Bytes)
    requires len < 0x1_0000_0000 && |callsign| < MAX_CALLSIGN_LEN && 0 !in callsign
    requires |rest| >= MAX_CALLSIGN_LEN - 1 - |callsign|
    ensures var f := Decode(FreshWords(msgId, len) + callsign + [0] + rest);
            && f == Fields(MSG_MAGIC, PROTO_VER, msgId, WordOf(LengthFor(msgId, len)), 0, callsign)
            && Value(f.msgLen) == LengthFor(msgId, len)
            && f.magic == 0x46474653 && f.version == 0x0001_0001
            && Value(f.msgLen) == if msgId == 1 then 288 else if msgId == 7 then len else 32
  {
    hide WordOf, Value, CString, Words, Join;
    var l := WordOf(LengthFor(msgId, len));
    var ws, tail := [MSG_MAGIC, PROTO_VER, msgId, l, 0, 0], callsign + [0] + rest;
    var d := Words(ws) + tail;
    assert FreshWords(msgId, len) + callsign + [0] + rest == d;
    WordsAt(ws, tail, 0);
    WordsAt(ws, tail, 1);
    WordsAt(ws, tail, 2);
    WordsAt(ws, tail, 3);
    WordsAt(ws, tail, 5);
    assert d[24..] == tail;
    assert d[24..HEADER_SIZE - 1] == tail[..HEADER_SIZE - 25];
    if |callsign| == MAX_CALLSIGN_LEN - 1 {
      assert tail[..HEADER_SIZE - 25] == callsign;
      CStringWhole(callsign);
    } else {
      var some := rest[..MAX_CALLSIGN_LEN - 2 - |callsign|];
      assert tail[..HEADER_SIZE - 25] == callsign + [0] + some;
      CStringOf(callsign, some);
    }
    ValueOfWord(LengthFor(msgId, len));
  }
}
