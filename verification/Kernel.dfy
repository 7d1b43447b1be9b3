/**
 The operating system as the socket programs see it: a table of open descriptors,
 a script of what each peer will deliver and accept, and a log of everything that happened.

 Every call a program makes is one method of `Kernel`. Where the system is free to choose,
 the method chooses arbitrarily, so a proof about a caller covers every choice. `fuel` bounds the
 number of times the outside world still has something new to say; it is only there to make a
 terminating run finite, and any terminating run is covered by some value of it.
 */
module Kernel {

  datatype Errno = EINTR | EAGAIN | OTHER

  /** One thing a reader will find on its connection. A read never crosses from one `Data` into the next. */
  datatype Item = Data(bytes: string) | EndOfStream | ReadError(errno: Errno)

  /** What one write call will do with the bytes it is offered. */
  datatype Outcome = Taken(n: nat) | Refused(errno: Errno)

  /** What a connection answers once its script is exhausted. */
  datatype Idle = Silent | HungUp

  datatype Peer = Peer(inbox: seq<Item>, idle: Idle, outcomes: seq<Outcome>, sent: string)

  datatype ReadReply = Bytes(bytes: string) | NoBytes(errno: Errno)
  datatype WriteReply = Wrote(n: nat) | NotWritten(errno: Errno)

  // ---------------------------------------------------------------- reads and writes as values

  /** The result of one `read`/`recv` of at most `n` bytes, and the inbox afterwards. */
  function NextRead(inbox: seq<Item>, idle: Idle, n: nat): (r: (ReadReply, seq<Item>))
    requires n > 0
    ensures r.0.Bytes? ==> |r.0.bytes| <= n
    ensures r.0.NoBytes? && r.0.errno != EAGAIN ==> Size(r.1) < Size(inbox)
    ensures r.0.Bytes? && r.0.bytes != [] ==> Size(r.1) < Size(inbox)
    ensures Size(r.1) <= Size(inbox)
  {
    if inbox == [] then
      (if idle.Silent? then NoBytes(EAGAIN) else Bytes([]), [])
    else match inbox[0]
      case Data(b) =>
        if |b| <= n then (Bytes(b), inbox[1..])
        else
          var rest := [Data(b[n..])] + inbox[1..];
          assert rest[1..] == inbox[1..];
          (Bytes(b[..n]), rest)
      case EndOfStream => (Bytes([]), inbox)
      case ReadError(e) => (NoBytes(e), inbox[1..])
  }

  /** The result of one `write`/`send` of `count` bytes, and the outcomes still to come. */
  function NextWrite(outcomes: seq<Outcome>, count: nat): (r: (WriteReply, seq<Outcome>))
    ensures r.0.Wrote? ==> r.0.n <= count
    ensures |r.1| <= |outcomes|
    ensures outcomes != [] ==> |r.1| < |outcomes|
    ensures outcomes == [] ==> r == (Wrote(count), [])
  {
    if outcomes == [] then (Wrote(count), [])
    else match outcomes[0]
      case Taken(n) => (Wrote(if n <= count then n else count), outcomes[1..])
      case Refused(e) => (NotWritten(e), outcomes[1..])
  }

  /** Items plus bytes still in the inbox. */
  function Size(inbox: seq<Item>): nat
  {
    if inbox == [] then 0
    else 1 + (if inbox[0].Data? then |inbox[0].bytes| else 0) + Size(inbox[1..])
  }

  // ---------------------------------------------------------------- the log

  datatype Event =
    | Opened(fd: int)
    | Closed(fd: int)
    | AcceptFailed(fd: int, wouldBlock: bool)
    | Selected(ready: set<int>)
    | NoneReady(failed: bool)
    | Serving(fd: int)
    | Received(fd: int, data: string)
    | EndSeen(fd: int)
    | RecvError(fd: int, errno: Errno)
    | Sent(fd: int, data: string, n: nat)
    | SendError(fd: int)

  function Apply(open: set<int>, e: Event): set<int>
  {
    match e
    case Opened(fd) => open + {fd}
    case Closed(fd) => open - {fd}
    case _ => open
  }

  /** The descriptors open after the events of `log`, starting from `init`. */
  function OpenAfter(init: set<int>, log: seq<Event>): set<int>
  {
    if log == [] then init
    else Apply(OpenAfter(init, log[..|log| - 1]), log[|log| - 1])
  }

  /** No descriptor number is issued while in use, and none is used or closed while not open. */
  predicate LegalEvent(open: set<int>, e: Event)
  {
    match e
    case Opened(fd) => 0 <= fd && fd !in open
    case Selected(ready) => ready <= open
    case NoneReady(_) => true
    case _ => e.fd in open
  }

  predicate Legal(init: set<int>, log: seq<Event>)
  {
    log == [] ||
    (Legal(init, log[..|log| - 1]) && LegalEvent(OpenAfter(init, log[..|log| - 1]), log[|log| - 1]))
  }

  lemma LegalAppend(init: set<int>, log: seq<Event>, e: Event)
    ensures Legal(init, log + [e]) <==> Legal(init, log) && LegalEvent(OpenAfter(init, log), e)
    ensures OpenAfter(init, log + [e]) == Apply(OpenAfter(init, log), e)
  {
    assert (log + [e])[..|log|] == log;
  }

  lemma {:induction false} LegalPrefix(init: set<int>, log: seq<Event>, i: nat)
    requires Legal(init, log) && i <= |log|
    ensures Legal(init, log[..i])
    ensures i < |log| ==> LegalEvent(OpenAfter(init, log[..i]), log[i])
  {
    if i < |log| - 1 {
      LegalPrefix(init, log[..|log| - 1], i);
      assert log[..|log| - 1][..i] == log[..i];
    } else if i == |log| {
      assert log[..i] == log;
    }
  }

  /** The close at `j` ends the life of the descriptor issued at `i`. */
  predicate Matched(log: seq<Event>, i: nat, j: nat)
  {
    && i < j < |log|
    && log[i].Opened?
    && log[j] == Closed(log[i].fd)
    && forall k :: i < k < j ==> log[k] != Closed(log[i].fd) && log[k] != Opened(log[i].fd)
  }

  ghost predicate ClosedOnce(log: seq<Event>, i: nat)
  {
    exists j: nat :: Matched(log, i, j) && forall j': nat :: Matched(log, i, j') ==> j' == j
  }

  ghost predicate OpenedOnce(log: seq<Event>, j: nat)
  {
    exists i: nat :: Matched(log, i, j) && forall i': nat :: Matched(log, i', j) ==> i' == i
  }

  lemma {:induction false} MatchedOrOpen(init: set<int>, log: seq<Event>, i: nat)
    requires Legal(init, log) && i < |log| && log[i].Opened?
    ensures || (exists j: nat :: Matched(log, i, j))
            || (log[i].fd in OpenAfter(init, log)
                && forall k :: i < k < |log| ==> log[k] != Closed(log[i].fd) && log[k] != Opened(log[i].fd))
  {
    var last := |log| - 1;
    if i < last {
      var before := log[..last];
      MatchedOrOpen(init, before, i);
      if j: nat :| Matched(before, i, j) {
        assert Matched(log, i, j);
      } else if log[last] == Closed(log[i].fd) {
        assert forall k :: i < k < last ==> before[k] == log[k];
        assert Matched(log, i, last);
      } else {
        assert forall k :: i < k < last ==> before[k] == log[k];
      }
    }
  }

  /** A descriptor that is not open at the end was closed, and closed once, after each time it was issued. */
  lemma EveryOpenIsClosedOnce(init: set<int>, log: seq<Event>, i: nat)
    requires Legal(init, log) && i < |log| && log[i].Opened?
    requires log[i].fd !in OpenAfter(init, log)
    ensures ClosedOnce(log, i)
  {
    MatchedOrOpen(init, log, i);
    var j: nat :| Matched(log, i, j);
    forall j': nat | Matched(log, i, j')
      ensures j' == j
    {
      if j' < j {
        assert false;
      } else if j < j' {
        assert false;
      }
    }
  }

  /** An open descriptor that was not there at the start has been issued, and not closed or re-issued since. */
  lemma {:induction false} OpenHasIssue(init: set<int>, log: seq<Event>, fd: int) returns (i: nat)
    requires Legal(init, log) && fd in OpenAfter(init, log) && fd !in init
    ensures i < |log| && log[i] == Opened(fd)
    ensures forall k :: i < k < |log| ==> log[k] != Closed(fd) && log[k] != Opened(fd)
  {
    var last := |log| - 1;
    if log[last] == Opened(fd) {
      i := last;
    } else {
      i := OpenHasIssue(init, log[..last], fd);
      assert forall k :: i < k < last ==> log[..last][k] == log[k];
    }
  }

  /** No close is ever repeated: each one belongs to exactly one earlier issue of that number. */
  lemma EveryCloseHasOneOpen(init: set<int>, log: seq<Event>, j: nat)
    requires Legal(init, log) && j < |log| && log[j].Closed? && log[j].fd !in init
    ensures OpenedOnce(log, j)
  {
    LegalPrefix(init, log, j);
    var fd := log[j].fd;
    var i := OpenHasIssue(init, log[..j], fd);
    assert forall k :: i < k < j ==> log[..j][k] == log[k];
    assert Matched(log, i, j);
    forall i': nat | Matched(log, i', j)
      ensures i' == i
    {
      if i' < i {
        assert false;
      } else if i < i' {
        assert false;
      }
    }
  }

  /** The close at `j` ends the life of a descriptor that was open after `s` events. */
  predicate EndsAt(log: seq<Event>, s: nat, fd: int, j: nat)
  {
    && s <= j < |log| && log[j] == Closed(fd)
    && forall k :: s <= k < j ==> log[k] != Closed(fd) && log[k] != Opened(fd)
  }

  ghost predicate EndsOnce(log: seq<Event>, s: nat, fd: int)
  {
    exists j: nat :: EndsAt(log, s, fd, j) && forall j': nat :: EndsAt(log, s, fd, j') ==> j' == j
  }

  lemma {:induction false} EndedOrOpen(init: set<int>, log: seq<Event>, s: nat, fd: int)
    requires Legal(init, log) && s <= |log| && fd in OpenAfter(init, log[..s])
    ensures || (exists j: nat :: EndsAt(log, s, fd, j))
            || (fd in OpenAfter(init, log) && forall k :: s <= k < |log| ==> log[k] != Closed(fd) && log[k] != Opened(fd))
  {
    var last := |log| - 1;
    if s == |log| {
      assert log[..s] == log;
    } else {
      var before := log[..last];
      assert before[..s] == log[..s];
      EndedOrOpen(init, before, s, fd);
      assert forall k :: s <= k < last ==> before[k] == log[k];
      if j: nat :| EndsAt(before, s, fd, j) {
        assert EndsAt(log, s, fd, j);
      } else if log[last] == Closed(fd) {
        assert EndsAt(log, s, fd, last);
      }
    }
  }

  /** A descriptor that was open at some time and is not at the end was closed, and that life of it ended once. */
  lemma EveryLifeEndsOnce(init: set<int>, log: seq<Event>, s: nat, fd: int)
    requires Legal(init, log) && s <= |log| && fd in OpenAfter(init, log[..s]) && fd !in OpenAfter(init, log)
    ensures EndsOnce(log, s, fd)
  {
    EndedOrOpen(init, log, s, fd);
    var j: nat :| EndsAt(log, s, fd, j);
    forall j': nat | EndsAt(log, s, fd, j')
      ensures j' == j
    {
      if j' < j {
        assert false;
      } else if j < j' {
        assert false;
      }
    }
  }

  /** An event that neither opens nor closes anything and concerns only `fd`. */
  predicate Traffic(e: Event, fd: int)
  {
    match e
    case Received(f, _) => f == fd
    case EndSeen(f) => f == fd
    case RecvError(f, _) => f == fd
    case Sent(f, _, _) => f == fd
    case SendError(f) => f == fd
    case _ => false
  }

  /** The log grew, and only by traffic on `fd`. */
  predicate Talked(before: seq<Event>, after: seq<Event>, fd: int)
  {
    before <= after && forall k :: |before| <= k < |after| ==> Traffic(after[k], fd)
  }

  /** Some number is above every member of a finite set. */
  lemma {:induction false} UpperBound(s: set<int>) returns (b: nat)
    ensures forall fd :: fd in s ==> fd < b
  {
    if s == {} {
      b := 0;
    } else {
      assert (forall y: int :: y !in s) ==> s == {};
      var x: int :| x in s;
      var c := UpperBound(s - {x});
      b := if x < c then c else x + 1;
      forall fd | fd in s
        ensures fd < b
      {
        assert fd == x || fd in s - {x};
      }
    }
  }

  /** Any number that is not in use, as the system pleases. */
  method UnusedNumber(open: set<int>) returns (fd: int)
    ensures 0 <= fd && fd !in open
  {
    ghost var unused := UpperBound(open);
    assert 0 <= unused && unused !in open;
    fd :| 0 <= fd && fd !in open;
  }

  // ---------------------------------------------------------------- the system calls

  class Kernel {
    ghost const init: set<int>
    ghost var log: seq<Event>
    var open: set<int>
    var peers: map<int, Peer>
    var fuel: nat

    ghost predicate Valid()
      reads this
    {
      && Legal(init, log)
      && open == OpenAfter(init, log)
      && (forall fd :: fd in init ==> 0 <= fd)
      && (forall fd :: fd in open ==> 0 <= fd)
      && (forall fd :: fd in open && fd !in init ==> fd in peers)
    }

    /** A process starts with some descriptors open, such as its standard input. */
    constructor (open: set<int>, fuel: nat)
      requires forall fd :: fd in open ==> 0 <= fd
      ensures Valid() && this.open == open && init == open && log == []
    {
      this.open, this.fuel := open, fuel;
      init, log, peers := open, [], map[];
    }

    /** A fresh descriptor: any number that is not in use, or a failure. */
    method Issue() returns (fd: int)
      requires Valid()
      modifies this
      ensures Valid()
      ensures fd == -1 ==> open == old(open) && log == old(log) && peers == old(peers)
      ensures fd != -1 ==>
                && 0 <= fd && fd !in old(open)
                && open == old(open) + {fd}
                && log == old(log) + [Opened(fd)]
                && peers.Keys == old(peers.Keys) + {fd}
                && (forall f :: f in old(peers) && f != fd ==> peers[f] == old(peers)[f])
                && fuel < old(fuel)
      ensures fuel <= old(fuel)
    {
      fd := -1;
      var available: bool := *;
      if fuel > 0 && available {
        fuel := fuel - 1;
        fd := UnusedNumber(open);
        LegalAppend(init, log, Opened(fd));
        var peer: Peer := *;
        open, peers, log := open + {fd}, peers[fd := peer], log + [Opened(fd)];
      }
    }

    /** `accept()`: a descriptor not in use, or -1 with or without EWOULDBLOCK. */
    method Accept(listener: int) returns (fd: int, wouldBlock: bool)
      requires Valid() && listener in open
      modifies this
      ensures Valid()
      ensures fd == -1 ==>
                open == old(open) && peers == old(peers) && log == old(log) + [AcceptFailed(listener, wouldBlock)]
      ensures fd != -1 ==>
                && 0 <= fd && fd !in old(open)
                && open == old(open) + {fd}
                && log == old(log) + [Opened(fd)]
                && peers.Keys == old(peers.Keys) + {fd}
                && (forall f :: f in old(peers) && f != fd ==> peers[f] == old(peers)[f])
                && fuel < old(fuel)
      ensures fuel <= old(fuel)
    {
      wouldBlock := *;
      fd := Issue();
      if fd == -1 {
        LegalAppend(init, log, AcceptFailed(listener, wouldBlock));
        log := log + [AcceptFailed(listener, wouldBlock)];
      }
    }

    method Close(fd: int)
      requires Valid() && fd in open
      modifies this
      ensures Valid()
      ensures open == old(open) - {fd} && log == old(log) + [Closed(fd)]
      ensures peers == old(peers) && fuel == old(fuel)
    {
      LegalAppend(init, log, Closed(fd));
      open, log := open - {fd}, log + [Closed(fd)];
    }

    /** `select(nfds, &s, ...)`, which may fail or time out: only descriptors below `nfds` are looked at; any of them may be ready. */
    method Select(s: set<int>, nfds: int) returns (rc: int, ready: set<int>)
      requires Valid() && s <= open
      modifies this
      ensures Valid()
      ensures ready <= s && (forall fd :: fd in ready ==> fd < nfds)
      ensures rc <= 0 ==> ready == {} && log == old(log) + [NoneReady(rc < 0)] && fuel <= old(fuel)
      ensures rc > 0 ==> rc == |ready| && log == old(log) + [Selected(ready)] && fuel < old(fuel)
      ensures open == old(open) && peers == old(peers)
    {
      hide Legal, OpenAfter;
      rc, ready := 0, {};
      var failed: bool := *;
      if failed {
        rc := -1;
      } else if fuel > 0 {
        fuel := fuel - 1;
        var watched := set fd | fd in s && fd < nfds;
        ready :| ready <= watched;
        rc := |ready|;
      }
      ghost var e := if rc > 0 then Selected(ready) else NoneReady(rc < 0);
      LegalAppend(init, log, e);
      log := log + [e];
    }

    /** A mark in the log: the program begins to serve a descriptor, which must be open. */
    ghost method Serve(fd: int)
      requires Valid() && fd in open
      modifies this`log
      ensures Valid() && log == old(log) + [Serving(fd)]
    {
      LegalAppend(init, log, Serving(fd));
      log := log + [Serving(fd)];
    }

    method Recv(fd: int, n: nat) returns (r: ReadReply)
      requires Valid() && fd in open && fd in peers && n > 0
      modifies this`log, this`peers
      ensures Valid() && fd in peers
      ensures (r, peers[fd].inbox) == NextRead(old(peers)[fd].inbox, old(peers)[fd].idle, n)
      ensures peers == old(peers)[fd := old(peers)[fd].(inbox := peers[fd].inbox)]
      ensures log == old(log) + [match r
                                 case Bytes(b) => if b == [] then EndSeen(fd) else Received(fd, b)
                                 case NoBytes(e) => RecvError(fd, e)]
    {
      hide Legal, OpenAfter, NextRead, Size;
      var (reply, rest) := NextRead(peers[fd].inbox, peers[fd].idle, n);
      r := reply;
      ghost var e := match r
                     case Bytes(b) => if b == [] then EndSeen(fd) else Received(fd, b)
                     case NoBytes(e) => RecvError(fd, e);
      LegalAppend(init, log, e);
      peers, log := peers[fd := peers[fd].(inbox := rest)], log + [e];
    }

    method Send(fd: int, data: string) returns (r: WriteReply)
      requires Valid() && fd in open && fd in peers
      modifies this`log, this`peers
      ensures Valid() && fd in peers
      ensures (r, peers[fd].outcomes) == NextWrite(old(peers)[fd].outcomes, |data|)
      ensures peers[fd].sent == old(peers)[fd].sent + (if r.Wrote? then data[..r.n] else [])
      ensures peers == old(peers)[fd := old(peers)[fd].(outcomes := peers[fd].outcomes, sent := peers[fd].sent)]
      ensures log == old(log) + [if r.Wrote? then Sent(fd, data, r.n) else SendError(fd)]
    {
      hide Legal, OpenAfter, Size;
      var (reply, rest) := NextWrite(peers[fd].outcomes, |data|);
      r := reply;
      var more := if r.Wrote? then data[..r.n] else [];
      ghost var e := if r.Wrote? then Sent(fd, data, r.n) else SendError(fd);
      LegalAppend(init, log, e);
      peers, log := peers[fd := peers[fd].(outcomes := rest, sent := peers[fd].sent + more)], log + [e];
    }
  }
}
