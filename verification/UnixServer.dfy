/**
 The `select()` echo server, `main` of `src/unix_server.cxx` from the initialisation of its descriptor
 set to the final cleanup.
 */
module UnixServer {
  import opened Kernel

  // ---------------------------------------------------------------- what a run has to look like

  /**
   A monitor of the log. `pending` are the descriptors the last `select` reported that have not been
   served, `last` the one served most recently, `owed` the data received and not yet echoed. `ok` turns
   false for good at the first event that breaks the server's discipline.
   */
  datatype Monitor = Monitor(ok: bool, pending: set<int>, last: int, owed: seq<Event>)

  function Observe(m: Monitor, e: Event): Monitor
  {
    match e
    case Selected(ready) => Monitor(m.ok && m.pending == {} && m.owed == [], ready, -1, [])
    case Serving(fd) => Monitor(m.ok && fd in m.pending && m.last < fd && m.owed == [], m.pending - {fd}, fd, [])
    case Opened(fd) => m.(ok := m.ok && fd !in m.pending && m.owed == [])
    case Closed(fd) => m.(ok := m.ok && fd !in m.pending && m.owed == [])
    case AcceptFailed(fd, _) => m.(ok := m.ok && fd == m.last && m.owed == [])
    case Received(fd, data) => m.(ok := m.ok && fd == m.last && data != [] && m.owed == [], owed := [e])
    case Sent(fd, data, n) => m.(ok := m.ok && n <= |data| && m.owed == [Received(fd, data)], owed := [])
    case SendError(fd) => m.(ok := m.ok && |m.owed| == 1 && m.owed[0].Received? && m.owed[0].fd == fd, owed := [])
    case EndSeen(fd) => m.(ok := m.ok && fd == m.last && m.owed == [])
    case RecvError(fd, _) => m.(ok := m.ok && fd == m.last && m.owed == [])
    case NoneReady(_) => m.(ok := m.ok && m.pending == {} && m.owed == [])
  }

  function Watch(log: seq<Event>): Monitor
  {
    if log == [] then Monitor(true, {}, -1, [])
    else Observe(Watch(log[..|log| - 1]), log[|log| - 1])
  }

  lemma WatchAppend(log: seq<Event>, e: Event)
    ensures Watch(log + [e]) == Observe(Watch(log), e)
  {
    assert (log + [e])[..|log|] == log;
  }

  lemma {:induction false} WatchPrefix(log: seq<Event>, i: nat)
    requires Watch(log).ok && i <= |log|
    ensures Watch(log[..i]).ok
    ensures i < |log| ==> Watch(log[..i + 1]) == Observe(Watch(log[..i]), log[i])
  {
    if i < |log| - 1 {
      WatchPrefix(log[..|log| - 1], i);
      assert log[..|log| - 1][..i] == log[..i] && log[..|log| - 1][..i + 1] == log[..i + 1];
    } else {
      assert log[..|log|] == log;
    }
  }

  predicate IsLook(e: Event)
  {
    e.Selected? || e.NoneReady?
  }

  /** No `select` between `j` and `m`: both belong to the round that starts at `j`. */
  predicate SameRound(log: seq<Event>, j: nat, m: nat)
  {
    j < m < |log| && forall k :: j < k < m ==> !log[k].Selected?
  }

  /** The event at `m` serves `fd`, the same open connection that was found ready at `j`. */
  predicate ServedAt(log: seq<Event>, j: nat, m: nat, fd: int)
  {
    && SameRound(log, j, m)
    && log[m] == Serving(fd)
    && forall k :: j < k < m ==> log[k] != Serving(fd) && log[k] != Opened(fd) && log[k] != Closed(fd)
  }

  ghost predicate ServedOnce(log: seq<Event>, j: nat, fd: int)
  {
    exists m: nat ::
      && ServedAt(log, j, m, fd)
      && forall m': nat :: SameRound(log, j, m') && log[m'] == Serving(fd) ==> m' == m
  }

  lemma {:induction false} ServedOrPending(log: seq<Event>, j: nat, fd: int)
    requires Watch(log).ok && j < |log| && log[j].Selected? && fd in log[j].ready
    ensures || (exists m: nat :: ServedAt(log, j, m, fd))
            || (&& fd in Watch(log).pending
                && forall k :: j < k < |log| ==>
                     !log[k].Selected? && log[k] != Serving(fd) && log[k] != Opened(fd) && log[k] != Closed(fd))
  {
    var last := |log| - 1;
    if j < last {
      var before := log[..last];
      ServedOrPending(before, j, fd);
      if m: nat :| ServedAt(before, j, m, fd) {
        assert ServedAt(log, j, m, fd);
      } else {
        assert forall k :: j < k < last ==> before[k] == log[k];
        if log[last] == Serving(fd) {
          assert ServedAt(log, j, last, fd);
        }
      }
    }
  }

  /** Within a round services go up, and serve only what was ready. */
  lemma {:induction false} ServicesAscend(log: seq<Event>, j: nat, m: nat)
    requires Watch(log).ok && SameRound(log, j, m) && log[j].Selected? && log[m].Serving?
    ensures log[m].fd in log[j].ready
    ensures forall m': nat :: j < m' < m && log[m'].Serving? ==> log[m'].fd < log[m].fd
  {
    hide Watch;
    WatchPrefix(log, m);
    WatchPrefix(log, m + 1);
    StateInRound(log, j, m);
  }

  lemma {:induction false} StateInRound(log: seq<Event>, j: nat, m: nat)
    requires Watch(log).ok && SameRound(log, j, m) && log[j].Selected?
    ensures Watch(log[..m]).pending <= log[j].ready
    ensures forall m': nat :: j < m' < m && log[m'].Serving? ==> log[m'].fd <= Watch(log[..m]).last
  {
    hide Watch;
    WatchPrefix(log, m - 1);
    WatchPrefix(log, m);
    if j < m - 1 {
      StateInRound(log, j, m - 1);
    }
  }

  /** Every descriptor `select` reports is served exactly once before the next `select`. */
  lemma EveryReadyServedOnce(log: seq<Event>, j: nat, fd: int)
    requires Watch(log).ok && Watch(log).pending == {}
    requires j < |log| && log[j].Selected? && fd in log[j].ready
    ensures ServedOnce(log, j, fd)
  {
    ServedOrPending(log, j, fd);
    var m: nat :| ServedAt(log, j, m, fd);
    forall m': nat | SameRound(log, j, m') && log[m'] == Serving(fd)
      ensures m' == m
    {
      ServicesAscend(log, j, m');
      ServicesAscend(log, j, m);
    }
  }

  // ---------------------------------------------------------------- the echo

  function Incoming(e: Event, fd: int): string
  {
    if e.Received? && e.fd == fd then e.data else []
  }

  function Outgoing(e: Event, fd: int): string
  {
    if e.Sent? && e.fd == fd && e.n <= |e.data| then e.data[..e.n] else []
  }

  function InBytes(log: seq<Event>, fd: int): string
  {
    if log == [] then []
    else
      InBytes(log[..|log| - 1], fd) + Incoming(log[|log| - 1], fd)
  }

  function OutBytes(log: seq<Event>, fd: int): string
  {
    if log == [] then []
    else
      OutBytes(log[..|log| - 1], fd) + Outgoing(log[|log| - 1], fd)
  }

  /** No send on `fd` failed or took only part of its data. */
  predicate WholeSends(log: seq<Event>, fd: int)
  {
    forall i :: 0 <= i < |log| ==> !Falls(log[i], fd)
  }

  predicate Falls(e: Event, fd: int)
  {
    e == SendError(fd) || (e.Sent? && e.fd == fd && e.n != |e.data|)
  }

  function Owed(m: Monitor, fd: int): string
  {
    if |m.owed| == 1 && m.owed[0].Received? && m.owed[0].fd == fd then m.owed[0].data else []
  }

  /** What came in on `fd` has gone out, but for what is owed; or, once a send fell short, less has gone out. */
  predicate Balanced(m: Monitor, incoming: string, outgoing: string, whole: bool, fd: int)
  {
    && (m.owed != [] ==> |m.owed| == 1 && m.owed[0].Received? && m.owed[0].data != [])
    && if whole then incoming == outgoing + Owed(m, fd) else |outgoing| + |Owed(m, fd)| < |incoming|
  }

  lemma BalanceStep(m: Monitor, e: Event, incoming: string, outgoing: string, whole: bool, fd: int)
    requires Observe(m, e).ok && Balanced(m, incoming, outgoing, whole, fd)
    ensures Balanced(Observe(m, e), incoming + Incoming(e, fd), outgoing + Outgoing(e, fd), whole && !Falls(e, fd), fd)
  {
    if e.Sent? && e.fd == fd {
      assert Owed(m, fd) == e.data == e.data[..e.n] + e.data[e.n..];
    }
  }

  lemma {:induction false} EchoBalance(log: seq<Event>, i: nat, fd: int)
    requires Watch(log).ok && i <= |log| && Watch(log[..i]).owed == []
    ensures var part := log[i..];
            Balanced(Watch(log), InBytes(part, fd), OutBytes(part, fd), WholeSends(part, fd), fd)
  {
    hide Watch, Observe, Balanced, InBytes, OutBytes, WholeSends, Falls, Incoming, Outgoing;
    if i == |log| {
      assert log[..i] == log && log[i..] == [];
      NothingOwed(Watch(log), fd);
    } else {
      var n := |log| - 1;
      var before, e := log[..n], log[n];
      assert before[..i] == log[..i] && log[..n + 1] == log;
      WatchPrefix(log, n);
      StaysOk(Watch(before), e);
      EchoBalance(before, i, fd);
      BytesNext(before[i..], e, fd);
      assert log[i..] == before[i..] + [e];
      BalanceStep(Watch(before), e, InBytes(before[i..], fd), OutBytes(before[i..], fd), WholeSends(before[i..], fd), fd);
    }
  }

  lemma StaysOk(m: Monitor, e: Event)
    ensures Observe(m, e).ok ==> m.ok
  {
  }

  lemma NothingOwed(m: Monitor, fd: int)
    requires m.owed == []
    ensures Balanced(m, InBytes([], fd), OutBytes([], fd), WholeSends([], fd), fd)
  {
  }

  lemma BytesNext(log: seq<Event>, e: Event, fd: int)
    ensures InBytes(log + [e], fd) == InBytes(log, fd) + Incoming(e, fd)
    ensures OutBytes(log + [e], fd) == OutBytes(log, fd) + Outgoing(e, fd)
    ensures WholeSends(log + [e], fd) <==> WholeSends(log, fd) && !Falls(e, fd)
  {
    var longer := log + [e];
    assert longer[..|log|] == log;
    assert forall i :: 0 <= i < |log| ==> longer[i] == log[i];
    assert longer[|log|] == e;
  }

  /** What goes back to `fd` during a stretch of the log is what comes from it exactly when no send there falls short. */
  predicate Faithful(part: seq<Event>, fd: int)
  {
    OutBytes(part, fd) == InBytes(part, fd) <==> WholeSends(part, fd)
  }

  /** So it is for every stretch that begins and ends with nothing owed. */
  lemma EchoIsFaithful(log: seq<Event>, i: nat, j: nat, fd: int)
    requires Watch(log).ok && i <= j <= |log|
    requires Watch(log[..i]).owed == [] && Watch(log[..j]).owed == []
    ensures Faithful(log[i..j], fd)
  {
    hide Watch;
    WatchPrefix(log, j);
    assert log[..j][..i] == log[..i] && log[..j][i..] == log[i..j];
    EchoBalance(log[..j], i, fd);
  }

  /** In particular for every connection, from its opening to its closing, whatever its number is used for besides. */
  lemma EchoOfOneConnection(log: seq<Event>, i: nat, j: nat)
    requires Watch(log).ok && Matched(log, i, j)
    ensures Faithful(log[i..j], log[i].fd)
  {
    hide Watch, Faithful;
    WatchPrefix(log, i);
    WatchPrefix(log, i + 1);
    WatchPrefix(log, j);
    WatchPrefix(log, j + 1);
    EchoIsFaithful(log, i, j, log[i].fd);
  }

  /** One short send is enough to lose part of the echo. */
  lemma ShortSendLosesEcho()
    ensures exists log :: Legal({3}, log) && Watch(log).ok && Watch(log).pending == {} && Watch(log).owed == []
                          && OutBytes(log, 5) != InBytes(log, 5)
  {
    hide Legal, OpenAfter, Watch, InBytes, OutBytes, WholeSends, Falls;
    NothingSeen();
    var a := Next([], Opened(5), 5);
    var b := Next(a, Selected({5}), 5);
    var c := Next(b, Serving(5), 5);
    var d := Next(c, Received(5, "ab"), 5);
    var e := Next(d, Sent(5, "ab", 1), 5);
  }

  lemma NothingSeen()
    ensures Legal({3}, []) && OpenAfter({3}, []) == {3} && Watch([]) == Monitor(true, {}, -1, [])
    ensures InBytes([], 5) == [] == OutBytes([], 5)
  {
  }

  lemma Next(log: seq<Event>, e: Event, fd: int) returns (longer: seq<Event>)
    requires Legal({3}, log) && LegalEvent(OpenAfter({3}, log), e)
    ensures longer == log + [e] && Legal({3}, longer) && OpenAfter({3}, longer) == Apply(OpenAfter({3}, log), e)
    ensures Watch(longer) == Observe(Watch(log), e)
    ensures InBytes(longer, fd) == InBytes(log, fd) + Incoming(e, fd)
    ensures OutBytes(longer, fd) == OutBytes(log, fd) + Outgoing(e, fd)
  {
    hide Legal, OpenAfter, Watch, InBytes, OutBytes, WholeSends;
    longer := log + [e];
    LegalAppend({3}, log, e);
    WatchAppend(log, e);
    BytesNext(log, e, fd);
  }

  // ---------------------------------------------------------------- when a connection is closed

  /** The connection is over: its end was seen, it failed, or the echo to it failed. */
  predicate Finished(e: Event)
  {
    e.EndSeen? || e.SendError? || (e.RecvError? && e.errno != EAGAIN)
  }

  /** A connection is closed at event `i` exactly when the event before it says that this connection is over. */
  predicate InPlace(log: seq<Event>, start: nat, i: nat)
    requires start <= i < |log|
  {
    if start < i && Finished(log[i - 1]) then log[i] == Closed(log[i - 1].fd) else !log[i].Closed?
  }

  predicate Tidy(log: seq<Event>, start: nat)
  {
    forall i :: start <= i < |log| ==> InPlace(log, start, i)
  }

  /** A connection that is over has not been closed yet. */
  predicate Due(log: seq<Event>, start: nat)
  {
    |log| > start && Finished(log[|log| - 1])
  }

  /** Events were added, none of which closes anything, and a connection was over at most with the last. */
  lemma TidyOn(before: seq<Event>, after: seq<Event>, start: nat)
    requires Tidy(before, start) && !Due(before, start) && before <= after
    requires forall i :: |before| <= i < |after| ==> !after[i].Closed?
    requires forall i :: |before| <= i < |after| - 1 ==> !Finished(after[i])
    ensures Tidy(after, start)
  {
    forall i | start <= i < |after|
      ensures InPlace(after, start, i)
    {
      if i < |before| {
        assert InPlace(before, start, i);
      }
    }
  }

  /** A connection that is over is closed. */
  lemma TidyClose(log: seq<Event>, start: nat, fd: int)
    requires Tidy(log, start) && Due(log, start) && log[|log| - 1].fd == fd
    ensures Tidy(log + [Closed(fd)], start) && !Due(log + [Closed(fd)], start)
  {
    var after := log + [Closed(fd)];
    forall i | start <= i < |after|
      ensures InPlace(after, start, i)
    {
      if i < |log| {
        assert InPlace(log, start, i);
      }
    }
  }

  /**
   In events: a connection is closed only right after its end, a failed receive or a failed echo, and always
   then; one that would merely block stays open.
   */
  lemma ClosedExactly(log: seq<Event>, start: nat, i: nat, fd: int)
    requires Tidy(log, start) && !Due(log, start) && start <= i < |log|
    ensures log[i] == Closed(fd) ==>
              && start < i
              && (log[i - 1] == EndSeen(fd) || log[i - 1] == SendError(fd)
                  || log[i - 1] == RecvError(fd, EINTR) || log[i - 1] == RecvError(fd, OTHER))
    ensures log[i] == EndSeen(fd) || log[i] == SendError(fd) || log[i] == RecvError(fd, EINTR) || log[i] == RecvError(fd, OTHER) ==>
              i + 1 < |log| && log[i + 1] == Closed(fd)
    ensures log[i] == RecvError(fd, EAGAIN) ==> i + 1 == |log| || log[i + 1] != Closed(fd)
  {
    assert InPlace(log, start, i) && (i + 1 < |log| ==> InPlace(log, start, i + 1));
  }

  // ---------------------------------------------------------------- the server

  const BUFFER_SIZE: nat := 80

  class Server {
    const k: Kernel
    const listenSd: int
    /** What the process had open besides its listening socket. */
    ghost const base: set<int>
    ghost const start: nat
    var masterSet: set<int>
    var maxSd: int

    ghost predicate Valid()
      reads this, k
    {
      && k.Valid()
      && listenSd in masterSet
      && base !! masterSet && k.open == base + masterSet
      && (forall fd :: fd in masterSet && fd != listenSd ==> fd in k.peers)
      && IsMax(maxSd, masterSet)
    }

    static predicate IsMax(m: int, s: set<int>)
    {
      m in s && forall fd :: fd in s ==> 0 <= fd <= m
    }

    /** Everything `select` reported has been served and everything received has been echoed. */
    ghost predicate Settled()
      reads k
    {
      var m := Watch(k.log);
      m.ok && m.pending == {} && m.owed == []
    }

    /** Every connection that is over has been closed, and no other. */
    ghost predicate InOrder()
      reads k
    {
      start <= |k.log| && Tidy(k.log, start) && !Due(k.log, start)
    }

    constructor (k: Kernel, listenSd: int)
      requires k.Valid() && listenSd in k.open
      ensures Valid() && InOrder() && this.k == k && this.listenSd == listenSd && start == |k.log|
      ensures masterSet == {listenSd} && base == k.open - {listenSd}
    {
      this.k, this.listenSd := k, listenSd;
      base, start := k.open - {listenSd}, |k.log|;
      maxSd, masterSet := listenSd, {listenSd};
    }

    /** Take every connection that is waiting; any failure but "would block" ends the server. */
    method AcceptAll() returns (endServer: bool)
      requires Valid() && Watch(k.log).pending <= masterSet
      requires Watch(k.log).ok && Watch(k.log).owed == [] && Watch(k.log).last == listenSd
      modifies this, k
      ensures Valid() && Watch(k.log) == old(Watch(k.log))
      ensures old(masterSet) <= masterSet && (masterSet - old(masterSet)) !! old(k.open)
      ensures k.fuel <= old(k.fuel)
      ensures old(k.log) < k.log && k.log[|k.log| - 1] == AcceptFailed(listenSd, !endServer)
      ensures forall j :: |old(k.log)| <= j < |k.log| - 1 ==> k.log[j].Opened?
    {
      hide Legal, OpenAfter, Watch;
      endServer := false;
      while true
        invariant old(k.log) <= k.log && forall j :: |old(k.log)| <= j < |k.log| ==> k.log[j].Opened?
        invariant !endServer
        invariant Valid() && Watch(k.log) == old(Watch(k.log))
        invariant old(masterSet) <= masterSet && (masterSet - old(masterSet)) !! old(k.open)
        invariant k.fuel <= old(k.fuel)
        decreases k.fuel
      {
        ghost var log := k.log;
        var newSd, wouldBlock := k.Accept(listenSd);
        WatchAppend(log, k.log[|log|]);
        if newSd == -1 {
          if !wouldBlock {
            endServer := true;
          }
          break;
        }
        masterSet := masterSet + {newSd};
        if newSd > maxSd {
          maxSd := newSd;
        }
      }
    }

    /** Read and echo until the connection would block; say whether it has to be closed. */
    method EchoUntilBlocked(i: int) returns (closeConn: bool)
      requires Valid() && i in masterSet && i != listenSd
      requires Watch(k.log).ok && Watch(k.log).last == i && Watch(k.log).owed == []
      modifies k`log, k`peers
      ensures Valid()
      ensures Watch(k.log).ok && Watch(k.log).owed == []
      ensures Watch(k.log).pending == old(Watch(k.log).pending) && Watch(k.log).last == i
      ensures old(k.log) < k.log
      ensures var e := k.log[|k.log| - 1];
              if closeConn then e == EndSeen(i) || e == SendError(i) || (e.RecvError? && e.errno != EAGAIN)
              else e == RecvError(i, EAGAIN)
      ensures forall j :: |old(k.log)| <= j < |k.log| ==> Traffic(k.log[j], i)
      ensures forall j :: |old(k.log)| <= j < |k.log| - 1 ==> !Finished(k.log[j])
    {
      hide Legal, OpenAfter, NextRead, NextWrite, Size, Watch;
      closeConn := false;
      while true
        invariant Valid() && Talked(old(k.log), k.log, i)
        invariant Watch(k.log).ok && Watch(k.log).owed == []
        invariant Watch(k.log).pending == old(Watch(k.log).pending) && Watch(k.log).last == i
        invariant forall j :: |old(k.log)| <= j < |k.log| ==> !Finished(k.log[j])
        decreases Size(k.peers[i].inbox)
      {
        ghost var log := k.log;
        var received := k.Recv(i, BUFFER_SIZE);
        WatchAppend(log, k.log[|log|]);
        if received.NoBytes? {
          if received.errno != EAGAIN {
            closeConn := true;
          }
          break;
        }
        if received.bytes == [] {
          closeConn := true;
          break;
        }
        log := k.log;
        var sent := k.Send(i, received.bytes);
        WatchAppend(log, k.log[|log|]);
        if sent.NotWritten? {
          closeConn := true;
          break;
        }
      }
    }

    /** Close `i`, forget it, and scan down to the new maximum. */
    method CloseConnection(i: int)
      requires Valid() && i in masterSet && i != listenSd
      requires Watch(k.log).ok && Watch(k.log).owed == [] && i !in Watch(k.log).pending
      modifies this, k
      ensures Valid() && Watch(k.log) == old(Watch(k.log))
      ensures masterSet == old(masterSet) - {i} && k.log == old(k.log) + [Closed(i)]
      ensures k.fuel == old(k.fuel)
    {
      hide Legal, OpenAfter, Watch;
      WatchAppend(k.log, Closed(i));
      k.Close(i);
      masterSet := masterSet - {i};
      if i == maxSd {
        while maxSd !in masterSet
          invariant 0 <= listenSd <= maxSd
          invariant forall fd :: fd in masterSet ==> fd <= maxSd
          modifies this`maxSd
          decreases maxSd
        {
          maxSd := maxSd - 1;
        }
      }
    }

    /** Serve one ready descriptor. A connection stays in the master set exactly when it would block in the end. */
    method ServeOne(i: int) returns (failed: bool)
      requires Valid() && InOrder() && Watch(k.log).pending <= masterSet
      requires Watch(k.log).ok && Watch(k.log).owed == [] && Watch(k.log).last < i && i in Watch(k.log).pending
      modifies this, k
      ensures Valid() && InOrder() && k.fuel <= old(k.fuel)
      ensures Watch(k.log).ok && Watch(k.log).owed == [] && Watch(k.log).last == i
      ensures Watch(k.log).pending == old(Watch(k.log).pending) - {i} && Watch(k.log).pending <= masterSet
      ensures old(k.log) < k.log && (failed <==> EndsServer(k.log[|old(k.log)|..]))
      ensures forall j :: |old(k.log)| <= j < |k.log| ==> !IsLook(k.log[j])
      ensures i != listenSd ==> (i in masterSet <==> k.log[|k.log| - 1] == RecvError(i, EAGAIN))
    {
      hide Legal, OpenAfter, Watch, Tidy;
      ghost var log := k.log;
      k.Serve(i);
      WatchAppend(log, Serving(i));
      failed := false;
      if i == listenSd {
        TidyOn(log, k.log, start);
        log := k.log;
        failed := AcceptAll();
        TidyOn(log, k.log, start);
      } else {
        TidyOn(log, k.log, start);
        ServeConnection(i);
      }
    }

    /** Echo until nothing more comes, and close the connection if it is over. */
    method ServeConnection(i: int)
      requires Valid() && InOrder() && i in masterSet && i != listenSd && i !in Watch(k.log).pending
      requires Watch(k.log).ok && Watch(k.log).owed == [] && Watch(k.log).last == i
      modifies this, k
      ensures Valid() && InOrder() && k.fuel == old(k.fuel)
      ensures Watch(k.log).ok && Watch(k.log).owed == [] && Watch(k.log).last == i
      ensures Watch(k.log).pending == old(Watch(k.log).pending)
      ensures old(k.log) < k.log && forall j :: |old(k.log)| <= j < |k.log| ==> Traffic(k.log[j], i) || k.log[j] == Closed(i)
      ensures masterSet == if k.log[|k.log| - 1] == RecvError(i, EAGAIN) then old(masterSet) else old(masterSet) - {i}
    {
      hide Legal, OpenAfter, Watch, Tidy;
      ghost var log := k.log;
      var closeConn := EchoUntilBlocked(i);
      TidyOn(log, k.log, start);
      if closeConn {
        TidyClose(k.log, start, i);
        CloseConnection(i);
      }
    }

    /** An `accept` failed for another reason than having nobody to accept. */
    predicate EndsServer(events: seq<Event>)
    {
      exists j :: 0 <= j < |events| && events[j] == AcceptFailed(listenSd, false)
    }

    lemma EndsServerOnce(before: seq<Event>, middle: seq<Event>, after: seq<Event>)
      requires before <= middle <= after
      ensures EndsServer(after[|before|..]) <==> EndsServer(middle[|before|..]) || EndsServer(after[|middle|..])
    {
      if j :| 0 <= j < |after[|middle|..]| && after[|middle|..][j] == AcceptFailed(listenSd, false) {
        assert after[|before|..][j + |middle| - |before|] == AcceptFailed(listenSd, false);
      }
      if j :| 0 <= j < |middle[|before|..]| && middle[|before|..][j] == AcceptFailed(listenSd, false) {
        assert after[|before|..][j] == AcceptFailed(listenSd, false);
      }
      if j :| 0 <= j < |after[|before|..]| && after[|before|..][j] == AcceptFailed(listenSd, false) {
        if |before| + j < |middle| {
          assert middle[|before|..][j] == AcceptFailed(listenSd, false);
        } else {
          assert after[|middle|..][j + |before| - |middle|] == AcceptFailed(listenSd, false);
        }
      }
    }

    /**
     One pass over the ready descriptors, in which accepts raise `maxSd` and closes lower it. It is safe
     to stop early because `descReady` is the number of ready descriptors not yet reached.
     */
    method Round(rc: int, workingSet: set<int>) returns (endServer: bool)
      requires Valid() && InOrder() && workingSet <= masterSet && rc == |workingSet|
      requires Watch(k.log) == Monitor(true, workingSet, -1, [])
      modifies this, k
      ensures Valid() && Settled() && InOrder()
      ensures k.fuel <= old(k.fuel)
      ensures old(k.log) <= k.log && (endServer <==> EndsServer(k.log[|old(k.log)|..]))
      ensures forall j :: |old(k.log)| <= j < |k.log| ==> !IsLook(k.log[j])
    {
      hide Legal, OpenAfter, Watch, EndsServer, Tidy;
      endServer := false;
      ghost var top := UpperBound(workingSet);
      NothingHappened();
      var descReady := rc;
      var i := 0;
      while i <= maxSd && descReady > 0
        invariant 0 <= i && Valid() && InOrder() && k.fuel <= old(k.fuel)
        invariant forall j :: |old(k.log)| <= j < |k.log| ==> !IsLook(k.log[j])
        invariant old(k.log) <= k.log && (endServer <==> EndsServer(k.log[|old(k.log)|..]))
        invariant Watch(k.log).ok && Watch(k.log).owed == [] && Watch(k.log).last < i
        invariant Watch(k.log).pending <= workingSet * masterSet
        invariant forall fd :: fd in workingSet ==> (fd in Watch(k.log).pending <==> i <= fd)
        invariant descReady == |Watch(k.log).pending|
        decreases top - i
      {
        SomeMemberAtOrAbove(Watch(k.log).pending, i, top);
        if i in workingSet {
          descReady := descReady - 1;
          ghost var log := k.log;
          var failed := ServeOne(i);
          EndsServerOnce(old(k.log), log, k.log);
          endServer := endServer || failed;
        }
        i := i + 1;
      }
      NoneLeft(Watch(k.log).pending, i, maxSd, descReady);
    }

    lemma NothingHappened()
      ensures !EndsServer([]) && k.log[|k.log|..] == []
    {
    }

    static lemma SomeMemberAtOrAbove(s: set<int>, i: int, top: int)
      requires |s| > 0 && forall fd :: fd in s ==> i <= fd < top
      ensures i < top
    {
      assert (forall fd: int :: fd !in s) ==> s == {};
    }

    static lemma NoneLeft(s: set<int>, i: int, max: int, n: int)
      requires n == |s| && (forall fd :: fd in s ==> i <= fd <= max)
      requires i > max || n <= 0
      ensures s == {}
    {
      assert (forall fd: int :: fd !in s) ==> s == {};
    }

    /** No reason to end the server has come up from event `from` on. */
    ghost predicate GoesOn(log: seq<Event>, from: nat)
    {
      forall j :: from <= j < |log| ==> !log[j].NoneReady? && log[j] != AcceptFailed(listenSd, false)
    }

    /** The log ends where it must: with a `select` that reports nothing, or with a round in which `accept` failed. */
    ghost predicate Ended(log: seq<Event>, from: nat, s: nat)
    {
      && from <= s < |log| && GoesOn(log[..s], from)
      && (if log[s].NoneReady? then s == |log| - 1 else log[s].Selected? && EndsServer(log[s + 1..]))
      && forall j :: s < j < |log| ==> !IsLook(log[j])
    }

    /** From `from` to `run` the server does its rounds, as long as it has to and no longer; the rest is cleanup. */
    ghost predicate RanUntil(log: seq<Event>, from: nat, run: nat)
    {
      && run <= |log| && Tidy(log[..run], start) && !Due(log[..run], start)
      && (exists s: nat :: Ended(log[..run], from, s))
      && forall j :: run <= j < |log| ==> log[j].Closed?
    }

    /** All rounds, until `select` fails or times out or `accept` fails. `s` is where the last one begins. */
    method Rounds() returns (ghost s: nat)
      requires Valid() && Settled() && InOrder()
      modifies this, k
      ensures Valid() && Settled() && InOrder() && old(k.log) <= k.log
      ensures Ended(k.log, old(|k.log|), s)
    {
      hide Legal, OpenAfter, Watch, Tidy, EndsServer;
      ghost var first := k.log;
      s := 0;
      var endServer := false;
      while !endServer
        invariant Valid() && Settled() && InOrder() && first <= k.log
        invariant if endServer then Ended(k.log, |first|, s) else GoesOn(k.log, |first|)
        decreases k.fuel
      {
        ghost var log := k.log;
        var rc, workingSet := k.Select(masterSet, maxSd + 1);
        s := |log|;
        WatchAppend(log, k.log[|log|]);
        TidyOn(log, k.log, start);
        if rc <= 0 {
          assert k.log[..s] == log;
          break;
        }
        ghost var selected := k.log;
        endServer := Round(rc, workingSet);
        assert k.log[..s] == log && k.log[s + 1..] == k.log[|selected|..];
        if !endServer {
          NoFailure(k.log, s + 1);
        }
      }
    }

    lemma NoFailure(log: seq<Event>, n: nat)
      requires n <= |log| && !EndsServer(log[n..])
      ensures forall j :: n <= j < |log| ==> log[j] != AcceptFailed(listenSd, false)
    {
      forall j | n <= j < |log|
        ensures log[j] != AcceptFailed(listenSd, false)
      {
        assert log[n..][j - n] == log[j];
      }
    }

    /** The server's life: its rounds, and then the closing of whatever is still in the master set. */
    method Run()
      requires Valid() && Settled() && InOrder()
      modifies this, k
      ensures k.Valid() && Settled()
      ensures k.open == base
      ensures forall i: nat :: i < |k.log| && k.log[i].Opened? && k.log[i].fd !in base ==>
                ClosedOnce(k.log, i)
      ensures forall i: nat, fd :: i < |k.log| && k.log[i].Selected? && fd in k.log[i].ready ==>
                ServedOnce(k.log, i, fd)
      ensures forall i: nat, j: nat :: Matched(k.log, i, j) ==> Faithful(k.log[i..j], k.log[i].fd)
      ensures forall fd :: Faithful(k.log, fd)
      ensures EndsOnce(k.log, old(|k.log|), listenSd)
      ensures exists run: nat :: RanUntil(k.log, old(|k.log|), run)
    {
      hide Legal, OpenAfter, Watch, Tidy, Ended, Due;
      ghost var first := k.log;
      ghost var s := Rounds();
      ghost var ran := k.log;
      for i := 0 to maxSd + 1
        invariant k.Valid() && Settled() && ran <= k.log
        invariant forall j :: |ran| <= j < |k.log| ==> k.log[j].Closed?
        invariant k.open == base + set fd | fd in masterSet && fd >= i
        modifies k
      {
        if i in masterSet {
          WatchAppend(k.log, Closed(i));
          k.Close(i);
        }
      }
      Epilogue();
      assert k.log[..|first|] == first && k.log[..|ran|] == ran;
      EveryLifeEndsOnce(k.init, k.log, |first|, listenSd);
      assert RanUntil(k.log, |first|, |ran|);
    }

    lemma Epilogue()
      requires k.Valid() && Settled() && k.open == base
      ensures forall i: nat :: i < |k.log| && k.log[i].Opened? && k.log[i].fd !in base ==>
                ClosedOnce(k.log, i)
      ensures forall i: nat, fd :: i < |k.log| && k.log[i].Selected? && fd in k.log[i].ready ==>
                ServedOnce(k.log, i, fd)
      ensures forall i: nat, j: nat :: Matched(k.log, i, j) ==> Faithful(k.log[i..j], k.log[i].fd)
      ensures forall fd :: Faithful(k.log, fd)
    {
      hide Legal, OpenAfter, Watch, Faithful;
      forall i: nat | i < |k.log| && k.log[i].Opened? && k.log[i].fd !in base
        ensures ClosedOnce(k.log, i)
      {
        EveryOpenIsClosedOnce(k.init, k.log, i);
      }
      forall i: nat, fd | i < |k.log| && k.log[i].Selected? && fd in k.log[i].ready
        ensures ServedOnce(k.log, i, fd)
      {
        EveryReadyServedOnce(k.log, i, fd);
      }
      forall i: nat, j: nat | Matched(k.log, i, j)
        ensures Faithful(k.log[i..j], k.log[i].fd)
      {
        EchoOfOneConnection(k.log, i, j);
      }
      forall fd
        ensures Faithful(k.log, fd)
      {
        NothingSeen();
        assert k.log[..0] == [] && k.log[..|k.log|] == k.log && k.log[0..|k.log|] == k.log;
        EchoIsFaithful(k.log, 0, |k.log|, fd);
      }
    }
  }
}
