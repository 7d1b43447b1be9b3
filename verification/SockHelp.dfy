/**
 The transfer loops of `src/sockhelp.c` and `src/ebsocket.c`: keep calling the system until the whole
 buffer went through, and read a line one character at a time.

 `retry` tells the two families apart: `sock_read`/`sock_write` repeat a call interrupted by a signal
 and give up on a write of nothing; `tcp_readFully`/`tcp_write` do the opposite.
 */
module SockHelp {
  import opened Kernel

  // ---------------------------------------------------------------- specifications

  /** One `read`, repeated while it is interrupted. */
  function ReadOnce(inbox: seq<Item>, idle: Idle, n: nat, retry: bool): (r: (ReadReply, seq<Item>))
    requires n > 0
    ensures r.0.Bytes? ==> |r.0.bytes| <= n
    ensures r.0.Bytes? && r.0.bytes != [] ==> Size(r.1) < Size(inbox)
    decreases Size(inbox)
  {
    var (reply, rest) := NextRead(inbox, idle, n);
    if reply == NoBytes(EINTR) && retry then ReadOnce(rest, idle, n, retry) else (reply, rest)
  }

  /** One `write`, repeated while it is interrupted. */
  function WriteOnce(outcomes: seq<Outcome>, count: nat, retry: bool): (r: (WriteReply, seq<Outcome>))
    ensures r.0.Wrote? ==> r.0.n <= count
    ensures |r.1| <= |outcomes|
    ensures outcomes != [] ==> |r.1| < |outcomes|
    ensures outcomes == [] ==> r == (Wrote(count), [])
    decreases |outcomes|
  {
    var (reply, rest) := NextWrite(outcomes, count);
    if reply == NotWritten(EINTR) && retry then WriteOnce(rest, count, retry) else (reply, rest)
  }

  /** `code` is what the C function returns; `data` is what it stored in the caller's buffer. */
  datatype ReadResult = ReadResult(code: int, data: string, rest: seq<Item>)

  function ReadFully(inbox: seq<Item>, idle: Idle, count: nat, retry: bool): (r: ReadResult)
    ensures |r.data| <= count
    ensures r.code == |r.data| || r.code == -1
    decreases Size(inbox)
  {
    if count == 0 then ReadResult(0, [], inbox)
    else
      var (reply, rest) := ReadOnce(inbox, idle, count, retry);
      match reply
      case NoBytes(e) => ReadResult(-1, [], rest)
      case Bytes(b) =>
        if b == [] then ReadResult(0, [], rest)
        else Prepend(b, ReadFully(rest, idle, count - |b|, retry))
  }

  function Prepend(b: string, r: ReadResult): ReadResult
  {
    ReadResult(if r.code < 0 then r.code else |b| + r.code, b + r.data, r.rest)
  }

  /** `ReadFully` by its first read. */
  lemma FullyStep(inbox: seq<Item>, idle: Idle, count: nat, retry: bool)
    ensures var r := ReadFully(inbox, idle, count, retry);
            if count == 0 then r == ReadResult(0, [], inbox)
            else
              var (reply, rest) := ReadOnce(inbox, idle, count, retry);
              r == match reply
                   case NoBytes(_) => ReadResult(-1, [], rest)
                   case Bytes(b) =>
                     if b == [] then ReadResult(0, [], rest)
                     else Prepend(b, ReadFully(rest, idle, count - |b|, retry))
  {
    hide ReadOnce;
  }

  /** `accepted` bytes were taken; when that is not all of them, `code` is returned. */
  datatype WriteResult = WriteResult(code: int, accepted: nat, rest: seq<Outcome>)

  function WriteFully(outcomes: seq<Outcome>, count: nat, retry: bool): (r: WriteResult)
    ensures r.accepted <= count
    ensures r.accepted < count ==> r.code <= 0
    decreases |outcomes|, count
  {
    if count == 0 then WriteResult(0, 0, outcomes)
    else
      var (reply, rest) := WriteOnce(outcomes, count, retry);
      match reply
      case NotWritten(e) => WriteResult(-1, 0, rest)
      case Wrote(n) =>
        if n == 0 && retry then WriteResult(0, 0, rest)
        else
          var r := WriteFully(rest, count - n, retry);
          r.(accepted := n + r.accepted)
  }

  /** `WriteFully` by its first write, when `taken` bytes have gone before. */
  lemma WriteStep(outcomes: seq<Outcome>, taken: nat, count: nat, retry: bool)
    ensures var r := AlreadyTaken(taken, WriteFully(outcomes, count, retry));
            if count == 0 then r == WriteResult(0, taken, outcomes)
            else
              var (reply, rest) := WriteOnce(outcomes, count, retry);
              r == match reply
                   case NotWritten(_) => WriteResult(-1, taken, rest)
                   case Wrote(n) =>
                     if n == 0 && retry then WriteResult(0, taken, rest)
                     else AlreadyTaken(taken + n, WriteFully(rest, count - n, retry))
    ensures AlreadyTaken(0, WriteFully(outcomes, count, retry)) == WriteFully(outcomes, count, retry)
  {
    hide WriteOnce;
  }

  /** What `sock_write` and `tcp_write` return: the count asked for, or the code that stopped them. */
  function WriteCode(r: WriteResult, count: nat): int
  {
    if r.accepted == count then count else r.code
  }

  datatype LineResult = LineResult(code: int, line: string, rest: seq<Item>)

  /** `sock_gets`, with `have` already stored: up to the line feed, which is dropped, as is whatever exceeds `count`. */
  function Gets(inbox: seq<Item>, idle: Idle, count: nat, have: string): (r: LineResult)
    requires |have| <= count
    ensures |r.line| <= count
    ensures r.code == |r.line| || r.code == -1
    decreases Size(inbox)
  {
    var (reply, rest) := NextRead(inbox, idle, 1);
    match reply
    case NoBytes(e) => LineResult(if e == EAGAIN then |have| else -1, have, rest)
    case Bytes(b) =>
      if b == [] || b[0] == '\n' then LineResult(|have|, have, rest)
      else Gets(rest, idle, count, if |have| < count then have + b else have)
  }

  /** The peers after connection `fd` has been read down to `inbox`. */
  function WithInbox(peers: map<int, Peer>, fd: int, inbox: seq<Item>): map<int, Peer>
    requires fd in peers
  {
    peers[fd := peers[fd].(inbox := inbox)]
  }

  /** The peers after connection `fd` took `data`. */
  function WithSent(peers: map<int, Peer>, fd: int, data: string, outcomes: seq<Outcome>): map<int, Peer>
    requires fd in peers
  {
    peers[fd := peers[fd].(sent := peers[fd].sent + data, outcomes := outcomes)]
  }

  // ---------------------------------------------------------------- the loops

  method ReadRetrying(k: Kernel, fd: int, n: nat, retry: bool) returns (r: ReadReply)
    requires k.Valid() && fd in k.open && fd in k.peers && n > 0
    modifies k`log, k`peers
    ensures k.Valid() && Talked(old(k.log), k.log, fd)
    ensures fd in k.peers
    ensures (r, k.peers[fd].inbox) == ReadOnce(old(k.peers)[fd].inbox, old(k.peers)[fd].idle, n, retry)
    ensures k.peers == WithInbox(old(k.peers), fd, k.peers[fd].inbox)
  {
    hide Legal, OpenAfter, NextRead, Size;
    r := k.Recv(fd, n);
    while r == NoBytes(EINTR) && retry
      invariant k.Valid() && Talked(old(k.log), k.log, fd)
      invariant fd in k.peers && k.peers == WithInbox(old(k.peers), fd, k.peers[fd].inbox)
      invariant ReadOnce(old(k.peers)[fd].inbox, old(k.peers)[fd].idle, n, retry) ==
                if r == NoBytes(EINTR) && retry then ReadOnce(k.peers[fd].inbox, k.peers[fd].idle, n, retry)
                else (r, k.peers[fd].inbox)
      decreases Size(k.peers[fd].inbox), r == NoBytes(EINTR)
    {
      r := k.Recv(fd, n);
    }
  }

  /** The same, with the bytes stored in the caller's buffer from `at` on. */
  method ReadInto(k: Kernel, fd: int, buf: array<char>, at: nat, n: nat, retry: bool) returns (r: ReadReply)
    requires k.Valid() && fd in k.open && fd in k.peers && n > 0 && at + n <= buf.Length
    modifies k`log, k`peers, buf
    ensures k.Valid() && Talked(old(k.log), k.log, fd)
    ensures fd in k.peers
    ensures (r, k.peers[fd].inbox) == ReadOnce(old(k.peers)[fd].inbox, old(k.peers)[fd].idle, n, retry)
    ensures k.peers == WithInbox(old(k.peers), fd, k.peers[fd].inbox)
    ensures buf[..] == if r.Bytes? then Overwrite(old(buf[..]), at, r.bytes) else old(buf[..])
  {
    hide Legal, OpenAfter, ReadOnce, Traffic, WithInbox;
    r := ReadRetrying(k, fd, n, retry);
    if r.Bytes? {
      forall i | 0 <= i < |r.bytes| {
        buf[at + i] := r.bytes[i];
      }
    }
  }

  method SockRead(k: Kernel, fd: int, buf: array<char>, count: nat) returns (code: int)
    requires k.Valid() && fd in k.open && fd in k.peers && count <= buf.Length
    modifies k`log, k`peers, buf
    ensures k.Valid() && Talked(old(k.log), k.log, fd)
    ensures var r := ReadFully(old(k.peers)[fd].inbox, old(k.peers)[fd].idle, count, true);
            && code == r.code
            && k.peers == WithInbox(old(k.peers), fd, r.rest)
            && buf[..] == Overwrite(old(buf[..]), 0, r.data)
  {
    hide Legal, OpenAfter, ReadOnce, ReadFully, Traffic, Overwrite, WithInbox, Prepend;
    ghost var peers, before, inbox := k.peers, buf[..], k.peers[fd].inbox;
    ghost var idle, got := k.peers[fd].idle, [];
    ghost var goal := ReadFully(inbox, idle, count, true);
    InboxAsItIs(peers, fd);
    OverwriteNothing(before);
    PrependNothing(got, goal);
    var bytesRead := 0;
    while bytesRead < count
      invariant 0 <= bytesRead <= count && |got| == bytesRead
      invariant k.Valid() && Talked(old(k.log), k.log, fd)
      invariant fd in k.peers && k.peers == WithInbox(peers, fd, inbox)
      invariant goal == Prepend(got, ReadFully(inbox, idle, count - bytesRead, true))
      invariant buf[..] == Overwrite(before, 0, got)
      decreases count - bytesRead
    {
      InboxTwice(peers, fd, inbox);
      FullyStep(inbox, idle, count - bytesRead, true);
      var thisRead := ReadInto(k, fd, buf, bytesRead, count - bytesRead, true);
      inbox := k.peers[fd].inbox;
      if thisRead.NoBytes? {
        PrependEnd(got, -1, inbox);
        return -1;
      } else if thisRead.bytes == [] {
        PrependEnd(got, 0, inbox);
        OverwriteNext(before, got, []);
        return bytesRead;
      }
      PrependTwice(got, thisRead.bytes, ReadFully(inbox, idle, count - bytesRead - |thisRead.bytes|, true));
      OverwriteNext(before, got, thisRead.bytes);
      got := got + thisRead.bytes;
      bytesRead := bytesRead + |thisRead.bytes|;
    }
    FullyStep(inbox, idle, 0, true);
    PrependEnd(got, 0, inbox);
    return count;
  }

  method TcpReadFully(k: Kernel, fd: int, buf: array<char>, buflen: nat) returns (n: int)
    requires k.Valid() && fd in k.open && fd in k.peers && buflen <= buf.Length
    modifies k`log, k`peers, buf
    ensures k.Valid() && Talked(old(k.log), k.log, fd)
    ensures var r := ReadFully(old(k.peers)[fd].inbox, old(k.peers)[fd].idle, buflen, false);
            && n == r.code
            && k.peers == WithInbox(old(k.peers), fd, r.rest)
            && buf[..] == Overwrite(old(buf[..]), 0, r.data)
  {
    hide Legal, OpenAfter, ReadOnce, ReadFully, Traffic, Overwrite, WithInbox, Prepend;
    ghost var peers, before, inbox := k.peers, buf[..], k.peers[fd].inbox;
    ghost var idle, got := k.peers[fd].idle, [];
    ghost var goal := ReadFully(inbox, idle, buflen, false);
    InboxAsItIs(peers, fd);
    OverwriteNothing(before);
    PrependNothing(got, goal);
    var left := buflen;
    n := 0;
    while left > 0
      invariant 0 <= left <= buflen && n == buflen - left == |got|
      invariant k.Valid() && Talked(old(k.log), k.log, fd)
      invariant fd in k.peers && k.peers == WithInbox(peers, fd, inbox)
      invariant goal == Prepend(got, ReadFully(inbox, idle, left, false))
      invariant buf[..] == Overwrite(before, 0, got)
      decreases left
    {
      InboxTwice(peers, fd, inbox);
      FullyStep(inbox, idle, left, false);
      var rc := ReadInto(k, fd, buf, n, left, false);
      inbox := k.peers[fd].inbox;
      if rc.NoBytes? {
        PrependEnd(got, -1, inbox);
        return -1;
      }
      if rc.bytes == [] {
        PrependEnd(got, 0, inbox);
        OverwriteNext(before, got, []);
        return n;
      }
      PrependTwice(got, rc.bytes, ReadFully(inbox, idle, left - |rc.bytes|, false));
      OverwriteNext(before, got, rc.bytes);
      got := got + rc.bytes;
      n := n + |rc.bytes|;
      left := left - |rc.bytes|;
    }
    FullyStep(inbox, idle, 0, false);
    PrependEnd(got, 0, inbox);
  }

  method WriteRetrying(k: Kernel, fd: int, data: string, retry: bool) returns (r: WriteReply)
    requires k.Valid() && fd in k.open && fd in k.peers
    modifies k`log, k`peers
    ensures k.Valid() && Talked(old(k.log), k.log, fd)
    ensures fd in k.peers
    ensures (r, k.peers[fd].outcomes) == WriteOnce(old(k.peers)[fd].outcomes, |data|, retry)
    ensures k.peers == WithSent(old(k.peers), fd, if r.Wrote? then data[..r.n] else [], k.peers[fd].outcomes)
    ensures Tried(old(k.log), k.log, fd, data)
  {
    hide Legal, OpenAfter, NextWrite;
    r := k.Send(fd, data);
    while r == NotWritten(EINTR) && retry
      invariant k.Valid() && Talked(old(k.log), k.log, fd) && Tried(old(k.log), k.log, fd, data)
      invariant fd in k.peers
      invariant r.Wrote? ==> r.n <= |data|
      invariant k.peers == WithSent(old(k.peers), fd, if r.Wrote? then data[..r.n] else [], k.peers[fd].outcomes)
      invariant r.NotWritten? ==> k.peers[fd].sent == old(k.peers)[fd].sent
      invariant r == NotWritten(EINTR) ==> |k.peers[fd].outcomes| < |old(k.peers)[fd].outcomes|
      invariant WriteOnce(old(k.peers)[fd].outcomes, |data|, retry) ==
                if r == NotWritten(EINTR) && retry then WriteOnce(k.peers[fd].outcomes, |data|, retry)
                else (r, k.peers[fd].outcomes)
      decreases |k.peers[fd].outcomes|, r == NotWritten(EINTR)
    {
      r := k.Send(fd, data);
    }
  }

  /** The first thing that happened was an attempt to send all of `data`. */
  predicate Tried(before: seq<Event>, after: seq<Event>, fd: int, data: string)
  {
    && before < after
    && (after[|before|] == SendError(fd)
        || (after[|before|].Sent? && after[|before|].fd == fd && after[|before|].data == data))
  }

  /** Write what is left of the first `count` characters, of which `at` have gone before. */
  method WriteNext(k: Kernel, fd: int, buf: array<char>, at: nat, count: nat, retry: bool, ghost peers: map<int, Peer>)
    returns (r: WriteReply)
    requires k.Valid() && fd in k.open && fd in k.peers && fd in peers && at <= count <= buf.Length
    requires k.peers == WithSent(peers, fd, buf[..at], k.peers[fd].outcomes)
    modifies k`log, k`peers
    ensures k.Valid() && Talked(old(k.log), k.log, fd)
    ensures fd in k.peers
    ensures (r, k.peers[fd].outcomes) == WriteOnce(old(k.peers)[fd].outcomes, count - at, retry)
    ensures var now := if r.Wrote? then r.n else 0;
            now <= count - at && k.peers == WithSent(peers, fd, buf[..at + now], k.peers[fd].outcomes)
    ensures Tried(old(k.log), k.log, fd, buf[at..count])
  {
    hide Legal, OpenAfter, WriteOnce, Traffic, WithSent;
    ghost var sofar := k.peers[fd].outcomes;
    r := WriteRetrying(k, fd, buf[at..count], retry);
    ghost var now := if r.Wrote? then r.n else 0;
    SentTwice(peers, fd, buf[..at], sofar, buf[at..at + now], k.peers[fd].outcomes);
    assert buf[at..count][..now] == buf[at..at + now];
    assert buf[..at] + buf[at..at + now] == buf[..at + now];
  }

  method SockWrite(k: Kernel, fd: int, buf: array<char>, count: nat) returns (code: int)
    requires k.Valid() && fd in k.open && fd in k.peers && count <= buf.Length
    modifies k`log, k`peers
    ensures k.Valid() && Talked(old(k.log), k.log, fd)
    ensures var r := WriteFully(old(k.peers)[fd].outcomes, count, true);
            && code == WriteCode(r, count)
            && k.peers == WithSent(old(k.peers), fd, buf[..r.accepted], r.rest)
    ensures count > 0 ==> Tried(old(k.log), k.log, fd, buf[..count])
  {
    hide Legal, OpenAfter, WriteOnce, WriteFully, AlreadyTaken, Traffic, WithSent;
    ghost var peers, goal := k.peers, WriteFully(k.peers[fd].outcomes, count, true);
    SentNothing(peers, fd);
    WriteStep(peers[fd].outcomes, 0, count, true);
    var bytesSent := 0;
    while bytesSent < count
      invariant 0 <= bytesSent <= count
      invariant k.Valid() && Talked(old(k.log), k.log, fd)
      invariant fd in k.peers && k.peers == WithSent(peers, fd, buf[..bytesSent], k.peers[fd].outcomes)
      invariant goal == AlreadyTaken(bytesSent, WriteFully(k.peers[fd].outcomes, count - bytesSent, true))
      invariant if bytesSent > 0 then Tried(old(k.log), k.log, fd, buf[..count]) else k.log == old(k.log)
      decreases count - bytesSent
    {
      assert bytesSent == 0 ==> buf[bytesSent..count] == buf[..count];
      WriteStep(k.peers[fd].outcomes, bytesSent, count - bytesSent, true);
      var thisWrite := WriteNext(k, fd, buf, bytesSent, count, true, peers);
      if thisWrite.NotWritten? {
        return -1;
      }
      if thisWrite.n == 0 {
        return 0;
      }
      bytesSent := bytesSent + thisWrite.n;
    }
    WriteStep(k.peers[fd].outcomes, count, 0, true);
    return count;
  }

  method TcpWrite(k: Kernel, fd: int, buf: array<char>, buflen: nat) returns (code: int)
    requires k.Valid() && fd in k.open && fd in k.peers && buflen <= buf.Length
    modifies k`log, k`peers
    ensures k.Valid() && Talked(old(k.log), k.log, fd)
    ensures var r := WriteFully(old(k.peers)[fd].outcomes, buflen, false);
            && code == WriteCode(r, buflen)
            && k.peers == WithSent(old(k.peers), fd, buf[..r.accepted], r.rest)
  {
    hide Legal, OpenAfter, WriteOnce, WriteFully, AlreadyTaken, Traffic, WithSent;
    ghost var peers, goal := k.peers, WriteFully(k.peers[fd].outcomes, buflen, false);
    SentNothing(peers, fd);
    WriteStep(peers[fd].outcomes, 0, buflen, false);
    var left := buflen;
    while left > 0
      invariant 0 <= left <= buflen
      invariant k.Valid() && Talked(old(k.log), k.log, fd)
      invariant fd in k.peers && k.peers == WithSent(peers, fd, buf[..buflen - left], k.peers[fd].outcomes)
      invariant goal == AlreadyTaken(buflen - left, WriteFully(k.peers[fd].outcomes, left, false))
      decreases |k.peers[fd].outcomes|, left
    {
      WriteStep(k.peers[fd].outcomes, buflen - left, left, false);
      var n := WriteNext(k, fd, buf, buflen - left, buflen, false, peers);
      if n.NotWritten? {
        return -1;
      }
      left := left - n.n;
    }
    WriteStep(k.peers[fd].outcomes, buflen, 0, false);
    return buflen;
  }

  lemma SentNothing(peers: map<int, Peer>, fd: int)
    requires fd in peers
    ensures WithSent(peers, fd, [], peers[fd].outcomes) == peers
  {
    assert peers[fd].sent + [] == peers[fd].sent;
  }

  lemma SentTwice(peers: map<int, Peer>, fd: int, a: string, after: seq<Outcome>, b: string, rest: seq<Outcome>)
    requires fd in peers
    ensures WithSent(peers, fd, a, after)[fd].outcomes == after
    ensures WithSent(WithSent(peers, fd, a, after), fd, b, rest) == WithSent(peers, fd, a + b, rest)
  {
    assert (peers[fd].sent + a) + b == peers[fd].sent + (a + b);
  }

  function AlreadyTaken(n: nat, r: WriteResult): WriteResult
  {
    r.(accepted := n + r.accepted)
  }

  /** `last_read` starts out as no line feed; a line longer than `count` loses its end. */
  method SockGets(k: Kernel, fd: int, str: array<char>, count: nat) returns (code: int)
    requires k.Valid() && fd in k.open && fd in k.peers && count < str.Length
    modifies k`log, k`peers, str
    ensures k.Valid() && Talked(old(k.log), k.log, fd)
    ensures var r := Gets(old(k.peers)[fd].inbox, old(k.peers)[fd].idle, count, []);
            && code == r.code
            && k.peers == WithInbox(old(k.peers), fd, r.rest)
            && str[..|r.line|] == r.line
            && str[count + 1..] == old(str[count + 1..])
  {
    hide Legal, OpenAfter, NextRead, Size;
    ghost var peer := k.peers[fd];
    var totalCount := 0;
    var lastRead := '\0';
    while lastRead != '\n'
      invariant 0 <= totalCount <= count
      invariant k.Valid() && Talked(old(k.log), k.log, fd)
      invariant fd in k.peers && k.peers == WithInbox(old(k.peers), fd, k.peers[fd].inbox)
      invariant Gets(peer.inbox, peer.idle, count, []) ==
                if lastRead == '\n' then LineResult(totalCount, str[..totalCount], k.peers[fd].inbox)
                else Gets(k.peers[fd].inbox, peer.idle, count, str[..totalCount])
      invariant str[count + 1..] == old(str[count + 1..])
      decreases Size(k.peers[fd].inbox)
    {
      var reply := k.Recv(fd, 1);
      if reply.NoBytes? {
        if reply.errno == EAGAIN {
          return totalCount;
        } else {
          return -1;
        }
      } else if reply.bytes == [] {
        return totalCount;
      }
      lastRead := reply.bytes[0];
      if totalCount < count && lastRead != '\n' {
        str[totalCount] := lastRead;
        totalCount := totalCount + 1;
        assert str[..totalCount] == str[..totalCount - 1] + reply.bytes;
      }
    }
    if count > 0 {
      str[totalCount] := '\0';
    }
    return totalCount;
  }

  /** `s` with the characters from `at` on replaced by `data`. */
  function Overwrite(s: string, at: nat, data: string): (r: string)
    requires at + |data| <= |s|
    ensures |r| == |s|
  {
    s[..at] + data + s[at + |data|..]
  }

  lemma OverwriteNext(s: string, a: string, b: string)
    requires |a| + |b| <= |s|
    ensures Overwrite(Overwrite(s, 0, a), |a|, b) == Overwrite(s, 0, a + b)
  {
  }

  lemma OverwriteNothing(s: string)
    ensures Overwrite(s, 0, []) == s
  {
  }

  lemma PrependNothing(a: string, r: ReadResult)
    ensures a == [] ==> Prepend(a, r) == r
  {
  }

  lemma PrependEnd(a: string, code: int, rest: seq<Item>)
    requires code == 0 || code == -1
    ensures Prepend(a, ReadResult(code, [], rest)) == ReadResult(if code == 0 then |a| else -1, a, rest)
    ensures a + [] == a
  {
  }

  lemma InboxAsItIs(peers: map<int, Peer>, fd: int)
    requires fd in peers
    ensures WithInbox(peers, fd, peers[fd].inbox) == peers
  {
  }

  lemma InboxTwice(peers: map<int, Peer>, fd: int, inbox: seq<Item>)
    requires fd in peers
    ensures var now := WithInbox(peers, fd, inbox);
            && fd in now && now[fd].inbox == inbox && now[fd].idle == peers[fd].idle
            && forall later :: WithInbox(now, fd, later) == WithInbox(peers, fd, later)
  {
  }

  lemma PrependTwice(a: string, b: string, r: ReadResult)
    ensures Prepend(a, Prepend(b, r)) == Prepend(a + b, r)
  {
    assert a + (b + r.data) == (a + b) + r.data;
  }
}
