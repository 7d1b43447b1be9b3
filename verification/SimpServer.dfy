/**
 The polling server of `src/simp_server.cxx`: a vector of clients, an error count for each, and the
 eviction of those with too many errors.
 */
module SimpServer {
  import opened Kernel
  import opened Statistics

  // ---------------------------------------------------------------- the client vector

  /** `sock` is 0 or negative for a client that has no connection; `freed` marks a record given back by `delete`. */
  datatype Client = Client(sock: int, hadRwError: nat, freed: bool) {
    predicate Live() {
      sock > 0
    }
  }

  predicate Over(c: Client, max: nat)
  {
    c.Live() && c.hadRwError > max
  }

  /** The clients that stay, in order. */
  function Kept(cs: seq<Client>, max: nat): (r: seq<Client>)
    ensures |r| + OverCount(cs, max) == |cs|
  {
    if cs == [] then []
    else (if Over(cs[0], max) then [] else [cs[0]]) + Kept(cs[1..], max)
  }

  function OverCount(cs: seq<Client>, max: nat): nat
  {
    if cs == [] then 0
    else (if Over(cs[0], max) then 1 else 0) + OverCount(cs[1..], max)
  }

  /** The position where the eviction scan stops. */
  function FirstOver(cs: seq<Client>, max: nat): (k: nat)
    ensures k <= |cs|
    ensures k < |cs| ==> Over(cs[k], max)
    ensures forall i :: 0 <= i < k ==> !Over(cs[i], max)
  {
    if cs == [] || Over(cs[0], max) then 0 else 1 + FirstOver(cs[1..], max)
  }

  function LiveCount(cs: seq<Client>): (n: nat)
    ensures n <= |cs|
    ensures n == |cs| <==> forall i :: 0 <= i < |cs| ==> cs[i].Live()
  {
    if cs == [] then 0
    else LiveCount(cs[..|cs| - 1]) + (if cs[|cs| - 1].Live() then 1 else 0)
  }

  /** One scan: free the first over-limit client, then erase the element whose index is the number of live ones passed. */
  function EvictOnce(cs: seq<Client>, max: nat): (r: seq<Client>)
  {
    var k := FirstOver(cs, max);
    if k == |cs| then cs
    else
      var freed := cs[k := Client(0, cs[k].hadRwError, true)];
      var offset := LiveCount(cs[..k]);
      freed[..offset] + freed[offset + 1..]
  }

  function EvictN(cs: seq<Client>, max: nat, n: nat): seq<Client>
    decreases n
  {
    if n == 0 then cs else EvictN(EvictOnce(cs, max), max, n - 1)
  }

  /** No client without a connection stands before one that has to go. */
  predicate NoDeadBeforeOver(cs: seq<Client>, max: nat)
  {
    forall i, j :: 0 <= i < j < |cs| && Over(cs[j], max) ==> cs[i].Live()
  }

  lemma {:induction false} CountSplit(a: seq<Client>, b: seq<Client>, max: nat)
    ensures OverCount(a + b, max) == OverCount(a, max) + OverCount(b, max)
    ensures Kept(a + b, max) == Kept(a, max) + Kept(b, max)
  {
    if a == [] {
      assert a + b == b;
    } else {
      assert (a + b)[1..] == a[1..] + b;
      CountSplit(a[1..], b, max);
    }
  }

  /** What one scan leaves: the clients after the first over-limit one are untouched, those before shift if the index is wrong. */
  lemma EvictOnceShape(cs: seq<Client>, max: nat) returns (k: nat, head: seq<Client>)
    requires OverCount(cs, max) > 0
    ensures k == FirstOver(cs, max) < |cs| && Over(cs[k], max)
    ensures EvictOnce(cs, max) == head + cs[k + 1..]
    ensures forall i :: 0 <= i < |head| ==> !Over(head[i], max)
    ensures if forall i :: 0 <= i < k ==> cs[i].Live() then head == cs[..k]
            else k > 0 && |head| == k && head[k - 1] == Client(0, cs[k].hadRwError, true)
  {
    hide OverCount, LiveCount, Kept;
    k := FirstOver(cs, max);
    if k == |cs| {
      NoneOver(cs, max);
    }
    var gone := Client(0, cs[k].hadRwError, true);
    var freed, offset := cs[k := gone], LiveCount(cs[..k]);
    head := Erased(cs, gone, k, offset);
    assert forall i :: 0 <= i < k ==> cs[..k][i] == cs[i];
    assert !Over(gone, max);
    forall i | 0 <= i < k
      ensures !Over(head[i], max)
    {
      assert !Over(cs[i], max) && (i + 1 < k ==> !Over(cs[i + 1], max));
    }
  }

  /** An element before `k` is erased from a vector whose element `k` has been replaced, or that element itself. */
  lemma Erased(cs: seq<Client>, gone: Client, k: nat, offset: nat) returns (head: seq<Client>)
    requires offset <= k < |cs|
    ensures var freed := cs[k := gone];
            freed[..offset] + freed[offset + 1..] == head + cs[k + 1..]
    ensures |head| == k
    ensures forall i :: 0 <= i < k ==> head[i] == if i < offset then cs[i] else if i < k - 1 then cs[i + 1] else gone
    ensures offset == k ==> head == cs[..k]
  {
    var freed := cs[k := gone];
    head := freed[..offset] + freed[offset + 1..k + 1];
    assert freed[offset + 1..] == freed[offset + 1..k + 1] + cs[k + 1..];
  }

  /** The scan takes out one over-limit client from the count, whichever element it erases. */
  lemma EvictOnceCounts(cs: seq<Client>, max: nat)
    requires OverCount(cs, max) > 0
    ensures OverCount(EvictOnce(cs, max), max) == OverCount(cs, max) - 1
  {
    hide EvictOnce, LiveCount, FirstOver, Kept;
    var k, head := EvictOnceShape(cs, max);
    SplitAtFirst(cs, max);
    NoneOver(head, max);
    CountSplit(head, cs[k + 1..], max);
  }

  lemma SplitAtFirst(cs: seq<Client>, max: nat)
    requires FirstOver(cs, max) < |cs|
    ensures var k := FirstOver(cs, max);
            && OverCount(cs, max) == 1 + OverCount(cs[k + 1..], max)
            && Kept(cs, max) == cs[..k] + Kept(cs[k + 1..], max)
  {
    hide FirstOver;
    var k := FirstOver(cs, max);
    assert cs == cs[..k] + cs[k..] && cs[k..][1..] == cs[k + 1..];
    NoneOver(cs[..k], max);
    CountSplit(cs[..k], cs[k..], max);
    assert cs[..k] + ([] + Kept(cs[k + 1..], max)) == cs[..k] + Kept(cs[k + 1..], max);
  }

  lemma {:induction false} NoneOver(cs: seq<Client>, max: nat)
    requires forall i :: 0 <= i < |cs| ==> !Over(cs[i], max)
    ensures OverCount(cs, max) == 0 && Kept(cs, max) == cs
  {
    if cs != [] {
      NoneOver(cs[1..], max);
      assert cs == [cs[0]] + cs[1..];
    }
  }

  /** With the index right, one scan erases just the first over-limit client. */
  lemma EvictOnceIsRight(cs: seq<Client>, max: nat)
    requires OverCount(cs, max) > 0 && NoDeadBeforeOver(cs, max)
    ensures var k := FirstOver(cs, max);
            k < |cs| && EvictOnce(cs, max) == cs[..k] + cs[k + 1..]
    ensures Kept(EvictOnce(cs, max), max) == Kept(cs, max)
    ensures NoDeadBeforeOver(EvictOnce(cs, max), max)
  {
    hide EvictOnce, LiveCount, FirstOver, Kept, OverCount;
    var k, head := EvictOnceShape(cs, max);
    SplitAtFirst(cs, max);
    NoneOver(head, max);
    CountSplit(head, cs[k + 1..], max);
    var r := EvictOnce(cs, max);
    forall i, j | 0 <= i < j < |r| && Over(r[j], max)
      ensures r[i].Live()
    {
      assert r[i] == cs[if i < k then i else i + 1] && r[j] == cs[if j < k then j else j + 1];
    }
  }

  /** Repeated scanning and erasing is an order-preserving filter, as long as every index comes out right. */
  lemma {:induction false} EvictionFilters(cs: seq<Client>, max: nat)
    requires NoDeadBeforeOver(cs, max)
    ensures EvictN(cs, max, OverCount(cs, max)) == Kept(cs, max)
    decreases OverCount(cs, max)
  {
    hide EvictOnce, LiveCount, FirstOver, Kept, OverCount;
    if OverCount(cs, max) == 0 {
      CountZero(cs, max);
      NoneOver(cs, max);
    } else {
      EvictOnceCounts(cs, max);
      EvictOnceIsRight(cs, max);
      EvictionFilters(EvictOnce(cs, max), max);
    }
  }

  lemma {:induction false} CountZero(cs: seq<Client>, max: nat)
    requires OverCount(cs, max) == 0
    ensures forall i :: 0 <= i < |cs| ==> !Over(cs[i], max)
  {
    if cs != [] {
      CountZero(cs[1..], max);
      assert forall i :: 1 <= i < |cs| ==> cs[i] == cs[1..][i - 1];
    }
  }

  /** A client without a connection before an over-limit one makes the scan erase the wrong element. */
  lemma {:induction false} EvictionLeavesFreed(cs: seq<Client>, max: nat)
    requires !NoDeadBeforeOver(cs, max)
    ensures exists c :: c in EvictN(cs, max, OverCount(cs, max)) && c.freed
    decreases OverCount(cs, max)
  {
    hide EvictOnce, LiveCount, FirstOver, Kept, OverCount;
    var i, j :| 0 <= i < j < |cs| && Over(cs[j], max) && !cs[i].Live();
    if OverCount(cs, max) == 0 {
      CountZero(cs, max);
    }
    EvictOnceCounts(cs, max);
    var k, head := EvictOnceShape(cs, max);
    var r := EvictOnce(cs, max);
    if forall x :: 0 <= x < k ==> cs[x].Live() {
      assert r[i - 1] == cs[i] && r[j - 1] == cs[j];
      EvictionLeavesFreed(r, max);
    } else {
      assert r[k - 1].freed && !r[k - 1].Live();
      if OverCount(r, max) == 0 {
        assert EvictN(cs, max, 1) == EvictN(r, max, 0) == r;
        assert r[k - 1] in r;
      } else {
        var m, _ := EvictOnceShape(r, max);
        assert forall x :: 0 <= x < k ==> r[x] == head[x];
        assert k - 1 < m;
        EvictionLeavesFreed(r, max);
      }
    }
  }

  lemma {:induction false} KeptMembers(cs: seq<Client>, max: nat)
    ensures forall c :: c in Kept(cs, max) <==> c in cs && !Over(c, max)
  {
    if cs != [] {
      KeptMembers(cs[1..], max);
      assert cs == [cs[0]] + cs[1..];
    }
  }

  /** Exactly when the eviction loop does what it is meant to do. */
  lemma EvictionExact(cs: seq<Client>, max: nat)
    requires forall c :: c in cs ==> !c.freed
    ensures EvictN(cs, max, OverCount(cs, max)) == Kept(cs, max) <==> NoDeadBeforeOver(cs, max)
  {
    hide EvictN, Kept, OverCount;
    if NoDeadBeforeOver(cs, max) {
      EvictionFilters(cs, max);
    } else {
      EvictionLeavesFreed(cs, max);
      KeptMembers(cs, max);
    }
  }

  /** What the condition keeps out, and no run of the server meets (see `Server.EvictionIsRight`). */
  lemma DeadClientMisleadsTheScan()
    ensures var cs := [Client(0, 0, false), Client(7, 4, false)];
            EvictN(cs, 3, OverCount(cs, 3)) == [Client(0, 4, true)] && Kept(cs, 3) == [Client(0, 0, false)]
  {
    var cs := [Client(0, 0, false), Client(7, 4, false)];
    assert cs[1..] == [Client(7, 4, false)];
    assert OverCount(cs, 3) == 1;
    assert FirstOver(cs, 3) == 1;
    assert cs[..1] == [Client(0, 0, false)];
    assert LiveCount(cs[..1]) == 0;
    assert EvictOnce(cs, 3) == [Client(0, 4, true)];
    assert EvictN(cs, 3, 1) == EvictN(EvictOnce(cs, 3), 3, 0);
  }

  // ---------------------------------------------------------------- what the log says

  /** The events for which `handle_receive` reports a failure. */
  predicate IsFailure(e: Event, fd: int)
  {
    e == EndSeen(fd) || e == SendError(fd) || (e.RecvError? && e.fd == fd && e.errno != EAGAIN)
  }

  /** Failures on `fd` since it was last closed, or since the log had `start` events. */
  function Failures(log: seq<Event>, start: nat, fd: int): nat
  {
    if |log| <= start || log[|log| - 1] == Closed(fd) then 0
    else Failures(log[..|log| - 1], start, fd) + if IsFailure(log[|log| - 1], fd) then 1 else 0
  }

  predicate IsRead(e: Event, fd: int)
  {
    match e
    case Received(f, _) => f == fd
    case EndSeen(f) => f == fd
    case RecvError(f, _) => f == fd
    case _ => false
  }

  function Reads(log: seq<Event>, fd: int): nat
  {
    if log == [] then 0
    else Reads(log[..|log| - 1], fd) + if IsRead(log[|log| - 1], fd) then 1 else 0
  }

  /**
   The true totals of a run. `justified` says that the server kept its rules: a connection was closed
   right at its (`max` + 1)-th failure, no `select` was made while one was past `max`, and each reply
   came right after what it answers. `looks` counts the calls of `select`.
   */
  datatype Book = Book(accepted: nat, closed: nat, looks: nat, stats: Stats, justified: bool)

  ghost function Books(log: seq<Event>, start: nat, max: nat): Book
  {
    if |log| <= start then Book(0, 0, 0, NO_STATS, true)
    else
      var before, e := log[..|log| - 1], log[|log| - 1];
      Entry(Books(before, start, max), e, InOrder(before, start, max, e))
  }

  function Entry(b: Book, e: Event, ok: bool): Book
  {
    var c := b.(justified := b.justified && ok);
    match e
    case Opened(_) => c.(accepted := b.accepted + 1)
    case Closed(_) => c.(closed := b.closed + 1)
    case Selected(_) => c.(looks := b.looks + 1)
    case NoneReady(_) => c.(looks := b.looks + 1)
    case Received(_, data) => c.(stats := Plus(b.stats, Stats(0, 0, 1, |data|)))
    case Sent(_, _, n) => c.(stats := Plus(b.stats, Stats(1, n, 0, 0)))
    case _ => c
  }

  ghost predicate InOrder(before: seq<Event>, start: nat, max: nat, e: Event)
  {
    match e
    case Closed(fd) => Failures(before, start, fd) == max + 1
    case Selected(_) => Within(before, start, max)
    case NoneReady(_) => Within(before, start, max)
    case Sent(fd, _, _) => JustHeard(before, start, fd)
    case SendError(fd) => JustHeard(before, start, fd)
    case _ => true
  }

  ghost predicate Within(log: seq<Event>, start: nat, max: nat)
  {
    forall fd :: Failures(log, start, fd) <= max
  }

  predicate JustHeard(log: seq<Event>, start: nat, fd: int)
  {
    |log| > start && log[|log| - 1].Received? && log[|log| - 1].fd == fd
  }

  /** Every event of the run was in order when it happened. */
  ghost predicate Orderly(log: seq<Event>, start: nat, max: nat)
  {
    forall i :: start <= i < |log| ==> InOrder(log[..i], start, max, log[i])
  }

  lemma {:induction false} JustifiedMeans(log: seq<Event>, start: nat, max: nat)
    ensures Books(log, start, max).justified <==> Orderly(log, start, max)
  {
    hide InOrder;
    if |log| > start {
      var before := log[..|log| - 1];
      JustifiedMeans(before, start, max);
      assert forall i :: start <= i < |before| ==> before[..i] == log[..i] && before[i] == log[i];
    }
  }

  lemma {:induction false} FailuresGrow(log: seq<Event>, start: nat, fd: int, i: nat)
    requires i <= |log| && forall k :: i <= k < |log| ==> log[k] != Closed(fd)
    ensures Failures(log, start, fd) >= Failures(log[..i], start, fd)
  {
    var last := |log| - 1;
    if i <= last {
      assert forall k :: i <= k < last ==> log[..last][k] == log[k];
      assert log[..last][..i] == log[..i];
      FailuresGrow(log[..last], start, fd, i);
    } else {
      assert log[..i] == log;
    }
  }

  /** The connection `fd`, past the limit after `i` events, is closed before event `j`. */
  ghost predicate ClosedBetween(log: seq<Event>, fd: int, i: nat, j: nat)
    requires j <= |log|
  {
    exists m :: i <= m < j && log[m] == Closed(fd)
  }

  /** A connection that goes past the limit is closed before the next `select`, and before the run ends within it. */
  lemma OverLimitIsEvicted(log: seq<Event>, start: nat, max: nat, fd: int, i: nat, j: nat)
    requires Orderly(log, start, max) && start <= i <= j <= |log|
    requires Failures(log[..i], start, fd) > max
    requires (j < |log| && (log[j].Selected? || log[j].NoneReady?)) || (j == |log| && Within(log, start, max))
    ensures ClosedBetween(log, fd, i, j)
  {
    hide Failures;
    if j < |log| {
      assert InOrder(log[..j], start, max, log[j]);
    } else {
      assert log[..j] == log;
    }
    if !ClosedBetween(log, fd, i, j) {
      assert forall k :: 0 <= k < j ==> log[..j][k] == log[k];
      assert log[..j][..i] == log[..i];
      FailuresGrow(log[..j], start, fd, i);
      assert false;
    }
  }

  function EndsSeen(events: seq<Event>, fd: int): nat
  {
    if events == [] then 0
    else EndsSeen(events[..|events| - 1], fd) + if events[|events| - 1] == EndSeen(fd) then 1 else 0
  }

  lemma {:induction false} EndsAreFailures(log: seq<Event>, start: nat, fd: int, i: nat)
    requires start <= i <= |log| && forall k :: i <= k < |log| ==> log[k] != Closed(fd)
    ensures EndsSeen(log[i..], fd) <= Failures(log, start, fd)
  {
    var last := |log| - 1;
    if i <= last {
      assert forall k :: i <= k < last ==> log[..last][k] == log[k];
      assert log[i..][..last - i] == log[..last][i..];
      EndsAreFailures(log[..last], start, fd, i);
    } else {
      assert log[i..] == [];
    }
  }

  /** A client that hung up is found so at most `max` + 1 times, and then its connection is closed. */
  lemma HangUpIsNoticed(log: seq<Event>, start: nat, max: nat, fd: int, i: nat, j: nat)
    requires Orderly(log, start, max) && start <= i <= j <= |log|
    requires forall k :: i <= k < j ==> log[k] != Closed(fd)
    requires (j < |log| && (log[j] == Closed(fd) || log[j].Selected? || log[j].NoneReady?)) || (j == |log| && Within(log, start, max))
    ensures EndsSeen(log[i..j], fd) <= max + 1
    ensures j == |log| || log[j] != Closed(fd) ==> EndsSeen(log[i..j], fd) <= max
  {
    hide Failures, EndsSeen;
    assert log[..j][i..] == log[i..j];
    EndsAreFailures(log[..j], start, fd, i);
    if j < |log| {
      assert InOrder(log[..j], start, max, log[j]);
    } else {
      assert log[..j] == log;
    }
  }

  lemma LogAppend(log: seq<Event>, e: Event, start: nat, max: nat)
    requires start <= |log|
    ensures Books(log + [e], start, max) == Entry(Books(log, start, max), e, InOrder(log, start, max, e))
    ensures forall fd :: Failures(log + [e], start, fd) ==
                         if e == Closed(fd) then 0 else Failures(log, start, fd) + if IsFailure(e, fd) then 1 else 0
    ensures forall fd :: Reads(log + [e], fd) == Reads(log, fd) + if IsRead(e, fd) then 1 else 0
  {
    assert (log + [e])[..|log|] == log;
  }

  /** The clients with the error counts the log gives them. */
  function Recounted(cs: seq<Client>, log: seq<Event>, start: nat): seq<Client>
  {
    seq(|cs|, i requires 0 <= i < |cs| => cs[i].(hadRwError := Failures(log, start, cs[i].sock)))
  }

  // ---------------------------------------------------------------- the server

  const MAX_STR: nat := 1024

  class Server {
    const k: Kernel
    const sockfd: int
    const maxRwErrors: nat
    /** What the process had open besides its listening socket. */
    ghost const base: set<int>
    ghost const start: nat
    var clients: seq<Client>
    var highest: int
    var totalClients: nat
    var doEcho: bool
    var isPaused: bool
    /** How often `select` has been called. */
    ghost var looks: nat
    var current: Stats
    var total: Stats

    ghost predicate Valid()
      reads this, k
    {
      Inv(maxRwErrors)
    }

    /** What holds throughout; `limit` bounds the error counts. */
    ghost predicate Inv(limit: nat)
      reads this, k
    {
      && k.Valid() && start <= |k.log|
      && 0 in base + {sockfd} && sockfd !in base && sockfd <= highest
      && Table(clients, k.log, limit, highest, k.open, k.peers.Keys)
      && Accounts()
    }

    /** The vector and the system agree: who is open, who is known, and who failed how often. */
    ghost predicate Table(cs: seq<Client>, log: seq<Event>, limit: nat, high: int, open: set<int>, known: set<int>)
    {
      && open == base + {sockfd} + Socks(cs)
      && Distinct(cs)
      && (forall i :: 0 <= i < |cs| ==> ClientOk(cs[i], log, limit, high, known))
      && (forall fd :: Failures(log, start, fd) > 0 ==> fd in Socks(cs))
    }

    ghost predicate ClientOk(c: Client, log: seq<Event>, limit: nat, high: int, known: set<int>)
    {
      && c.Live() && !c.freed && c.sock <= high
      && c.sock !in base && c.sock != sockfd && c.sock in known
      && c.hadRwError == Failures(log, start, c.sock) <= limit
    }

    lemma TableSays(cs: seq<Client>, log: seq<Event>, limit: nat, high: int, open: set<int>, known: set<int>, i: nat)
      requires Table(cs, log, limit, high, open, known) && i < |cs|
      ensures ClientOk(cs[i], log, limit, high, known) && cs[i].sock in open
    {
      hide Failures;
    }

    lemma TableSaysAll(cs: seq<Client>, log: seq<Event>, limit: nat, high: int, open: set<int>, known: set<int>)
      requires Table(cs, log, limit, high, open, known)
      ensures open == base + {sockfd} + Socks(cs) && Distinct(cs)
      ensures forall i :: 0 <= i < |cs| ==> ClientOk(cs[i], log, limit, high, known) && cs[i].sock in open
      ensures forall fd :: Failures(log, start, fd) > 0 ==> fd in Socks(cs)
    {
      hide Failures;
    }

    /** The system moved on, and nobody failed or was closed. */
    lemma TableStays(cs: seq<Client>, log: seq<Event>, after: seq<Event>, limit: nat, high: int, open: set<int>, known: set<int>)
      requires Table(cs, log, limit, high, open, known)
      requires forall fd :: Failures(after, start, fd) == Failures(log, start, fd)
      ensures Table(cs, after, limit, high, open, known)
    {
      hide Failures, Socks, Distinct;
    }

    /** Client `i` failed once more. */
    lemma TableFails(cs: seq<Client>, log: seq<Event>, after: seq<Event>, limit: nat, high: int, open: set<int>, known: set<int>, i: nat)
      requires Table(cs, log, limit, high, open, known) && i < |cs| && cs[i].hadRwError < limit
      requires forall fd :: Failures(after, start, fd) == Failures(log, start, fd) + if fd == cs[i].sock then 1 else 0
      ensures Table(cs[i := cs[i].(hadRwError := cs[i].hadRwError + 1)], after, limit, high, open, known)
    {
      hide Failures, Socks;
      var pic := cs[i].(hadRwError := cs[i].hadRwError + 1);
      SocksUpdate(cs, i, pic);
      InSocks(cs, pic.sock);
      assert forall j :: 0 <= j < |cs| && j != i ==> cs[j].sock != pic.sock;
    }

    /** A new client came. */
    lemma TableGrows(cs: seq<Client>, log: seq<Event>, limit: nat, high: int, open: set<int>, known: set<int>, fd: int)
      requires Table(cs, log, limit, high, open, known)
      requires 0 < fd && fd !in open && start <= |log|
      ensures fd !in Socks(cs)
      ensures Table(cs + [Client(fd, 0, false)], log + [Opened(fd)], limit, if fd > high then fd else high, open + {fd}, known + {fd})
    {
      hide Failures, Socks, Books;
      LogAppend(log, Opened(fd), start, limit);
      InSocks(cs, fd);
      SocksAppend(cs, Client(fd, 0, false));
      assert Failures(log, start, fd) == 0;
    }

    /** Client `i` was closed and erased. */
    lemma TableShrinks(cs: seq<Client>, log: seq<Event>, limit: nat, high: int, open: set<int>, known: set<int>, i: nat)
      requires Table(cs, log, limit, high, open, known) && i < |cs| && start <= |log|
      ensures Table(cs[..i] + cs[i + 1..], log + [Closed(cs[i].sock)], limit, high, open - {cs[i].sock}, known)
    {
      hide Failures, Socks, Books;
      LogAppend(log, Closed(cs[i].sock), start, limit);
      SocksErase(cs, i);
      assert ClientOk(cs[i], log, limit, high, known);
      var ds := cs[..i] + cs[i + 1..];
      assert forall j :: 0 <= j < |ds| ==> ds[j] == cs[if j < i then j else j + 1];
    }

    /** Nobody is over the limit. */
    lemma TableWithin(cs: seq<Client>, log: seq<Event>, limit: nat, max: nat, high: int, open: set<int>, known: set<int>)
      requires Table(cs, log, limit, high, open, known)
      requires forall i :: 0 <= i < |cs| ==> !Over(cs[i], max)
      ensures Table(cs, log, max, high, open, known)
    {
      hide Failures, Socks, Distinct;
    }

    lemma TableWiden(cs: seq<Client>, log: seq<Event>, limit: nat, max: nat, high: int, open: set<int>, known: set<int>)
      requires Table(cs, log, limit, high, open, known) && limit <= max
      ensures Table(cs, log, max, high, open, known)
    {
      hide Failures, Socks, Distinct;
    }

    /** Conservation: every client ever accepted is in the vector or was evicted, and no byte is lost to the statistics. */
    ghost predicate Accounts()
      reads this, k
    {
      var b := Books(k.log, start, maxRwErrors);
      && totalClients == b.accepted == |clients| + b.closed
      && Plus(total, current) == b.stats
      && looks == b.looks
      && b.justified
    }

    static function Socks(cs: seq<Client>): set<int>
    {
      set i | 0 <= i < |cs| :: cs[i].sock
    }

    static lemma SocksAppend(cs: seq<Client>, c: Client)
      ensures Socks(cs + [c]) == Socks(cs) + {c.sock}
    {
      forall x | x in Socks(cs) + {c.sock}
        ensures x in Socks(cs + [c])
      {
        if x == c.sock {
          assert (cs + [c])[|cs|].sock == x;
        } else {
          var i :| 0 <= i < |cs| && cs[i].sock == x;
          assert (cs + [c])[i].sock == x;
        }
      }
    }

    static predicate Distinct(cs: seq<Client>)
    {
      forall i, j :: 0 <= i < j < |cs| ==> cs[i].sock != cs[j].sock
    }

    /**
     Descriptor 0 is taken: by standard input or, if that was closed before, by the listening socket,
     since `socket()` returns the lowest number there is.
     */
    constructor (k: Kernel, sockfd: int, maxRwErrors: nat)
      requires k.Valid() && sockfd in k.open && 0 in k.open
      ensures Valid() && this.k == k && this.sockfd == sockfd && this.maxRwErrors == maxRwErrors
      ensures clients == [] && base == k.open - {sockfd} && start == |k.log|
    {
      this.k, this.sockfd, this.maxRwErrors := k, sockfd, maxRwErrors;
      base, start := k.open - {sockfd}, |k.log|;
      clients, highest, totalClients := [], sockfd, 0;
      doEcho, isPaused, looks, current, total := true, false, 0, NO_STATS, NO_STATS;
      new;
      NothingYet();
    }

    lemma NothingYet()
      requires k.Valid() && sockfd in k.open && 0 in k.open
      requires base == k.open - {sockfd} && start == |k.log| && clients == [] && highest == sockfd
      requires totalClients == 0 && looks == 0 && current == total == NO_STATS
      ensures Valid()
    {
      assert Socks(clients) == {};
    }

    /** The descriptors to select on: the listening socket and every client with a connection. */
    method SetupFdSet() returns (listenSocket: set<int>)
      requires Valid()
      ensures listenSocket == {sockfd} + Socks(clients)
    {
      hide Legal, OpenAfter, Books, Failures, Socks, Table;
      InSocksNone();
      assert clients[..0] == [];
      listenSocket := {sockfd};
      for i := 0 to |clients|
        invariant listenSocket == {sockfd} + Socks(clients[..i])
      {
        var pic := clients[i];
        TableSays(clients, k.log, maxRwErrors, highest, k.open, k.peers.Keys, i);
        if pic.sock != 0 && pic.sock >= 0 {
          listenSocket := listenSocket + {pic.sock};
        }
        assert clients[..i + 1] == clients[..i] + [pic];
        SocksAppend(clients[..i], pic);
      }
      assert clients[..|clients|] == clients;
    }

    /** Read once and, when echoing, send one reply; the result says whether the client failed. */
    method HandleReceive(fd: int, reply: string) returns (res: int)
      requires k.Valid() && fd in k.open && fd in k.peers
      requires start <= |k.log| && Accounts()
      modifies this`current, k`log, k`peers
      ensures k.Valid() && start <= |k.log| && Accounts()
      ensures k.peers.Keys == old(k.peers.Keys)
      ensures res == 0 || res == 1
      ensures forall f :: Failures(k.log, start, f) == old(Failures(k.log, start, f)) + if f == fd then res else 0
      ensures forall f :: Reads(k.log, f) == old(Reads(k.log, f)) + if f == fd then 1 else 0
      ensures old(k.log) < k.log
      ensures var last := k.log[|k.log| - 1];
              res == 1 <==>
              last == EndSeen(fd) || last == SendError(fd) || last == RecvError(fd, EINTR) || last == RecvError(fd, OTHER)
      ensures var first, last := k.log[|old(k.log)|], k.log[|k.log| - 1];
              && current.recvs == old(current.recvs) + (if first.Received? then 1 else 0)
              && current.recvBytes == old(current.recvBytes) + (if first.Received? then |first.data| else 0)
              && current.sends == old(current.sends) + (if last.Sent? then 1 else 0)
              && current.sentBytes == old(current.sentBytes) + (if last.Sent? then last.n else 0)
      ensures var first := k.log[|old(k.log)|];
              if first.Received? && doEcho then
                && |k.log| == |old(k.log)| + 2
                && (k.log[|old(k.log)| + 1] == SendError(fd) ||
                    (exists n :: k.log[|old(k.log)| + 1] == Sent(fd, reply, n)))
              else
                |k.log| == |old(k.log)| + 1
    {
      hide Legal, OpenAfter, NextRead, NextWrite, Books, Failures, Reads;
      ghost var log := k.log;
      var r := k.Recv(fd, MAX_STR);
      LogAppend(log, k.log[|log|], start, maxRwErrors);
      if r.NoBytes? {
        return if r.errno == EAGAIN then 0 else 1;
      }
      if r.bytes == [] {
        return 1;
      }
      current := current.(recvs := current.recvs + 1, recvBytes := current.recvBytes + |r.bytes|);
      res := 0;
      if doEcho {
        res := Answer(fd, reply);
      }
    }

    /** Send the reply to what has just been read. */
    method Answer(fd: int, reply: string) returns (res: int)
      requires k.Valid() && fd in k.open && fd in k.peers
      requires start <= |k.log| && Accounts() && JustHeard(k.log, start, fd)
      modifies this`current, k`log, k`peers
      ensures k.Valid() && start <= |k.log| && Accounts()
      ensures k.peers.Keys == old(k.peers.Keys)
      ensures res == 0 || res == 1
      ensures forall f :: Failures(k.log, start, f) == old(Failures(k.log, start, f)) + if f == fd then res else 0
      ensures forall f :: Reads(k.log, f) == old(Reads(k.log, f))
      ensures old(k.log) < k.log && |k.log| == |old(k.log)| + 1
      ensures var e := k.log[|old(k.log)|];
              if res == 0 then exists n :: e == Sent(fd, reply, n) else e == SendError(fd)
      ensures var e := k.log[|old(k.log)|];
              current == old(current).(sends := current.sends, sentBytes := current.sentBytes)
              && current.sends == old(current.sends) + (if e.Sent? then 1 else 0)
              && current.sentBytes == old(current.sentBytes) + (if e.Sent? then e.n else 0)
    {
      hide Legal, OpenAfter, NextRead, NextWrite, Books, Failures, Reads;
      ghost var log := k.log;
      var w := k.Send(fd, reply);
      LogAppend(log, k.log[|log|], start, maxRwErrors);
      if w.NotWritten? {
        return 1;
      }
      current := current.(sends := current.sends + 1, sentBytes := current.sentBytes + w.n);
      return 0;
    }

    /** Let client `i` have its receive if it is ready; the result says whether it is now over the limit. */
    method ReceiveOne(i: nat, ready: set<int>, reply: string) returns (over: bool)
      requires Inv(maxRwErrors + 1) && i < |clients| && clients[i].hadRwError <= maxRwErrors
      modifies this`clients, this`current, k`log, k`peers
      ensures Inv(maxRwErrors + 1) && old(k.log) <= k.log
      ensures clients == old(clients)[i := old(clients)[i].(hadRwError := Failures(k.log, start, old(clients)[i].sock))]
      ensures over <==> clients[i].hadRwError > maxRwErrors
      ensures forall f :: Reads(k.log, f) == old(Reads(k.log, f)) + if f == clients[i].sock && f in ready then 1 else 0
    {
      hide Legal, OpenAfter, Books, Failures, Reads, Socks, Table;
      over := false;
      var pic := clients[i];
      ghost var log, limit := k.log, maxRwErrors + 1;
      TableSays(clients, log, limit, highest, k.open, k.peers.Keys, i);
      if pic.sock == 0 || pic.sock < 0 {
        return;
      }
      if pic.sock in ready {
        var failed := HandleReceive(pic.sock, reply);
        if failed != 0 {
          TableFails(clients, log, k.log, limit, highest, k.open, k.peers.Keys, i);
          clients := clients[i := pic.(hadRwError := pic.hadRwError + 1)];
          over := clients[i].hadRwError > maxRwErrors;
        } else {
          TableStays(clients, log, k.log, limit, highest, k.open, k.peers.Keys);
        }
      }
    }

    static lemma SocksUpdate(cs: seq<Client>, i: nat, c: Client)
      requires i < |cs| && c.sock == cs[i].sock
      ensures Socks(cs[i := c]) == Socks(cs)
      ensures Distinct(cs) ==> Distinct(cs[i := c])
    {
      var ds := cs[i := c];
      assert forall j :: 0 <= j < |cs| ==> ds[j].sock == cs[j].sock;
      assert forall x :: x in Socks(cs) ==> x in Socks(ds) by {
        forall x | x in Socks(cs)
          ensures x in Socks(ds)
        {
          var j :| 0 <= j < |cs| && cs[j].sock == x;
          assert ds[j].sock == x;
        }
      }
      assert forall x :: x in Socks(ds) ==> x in Socks(cs) by {
        forall x | x in Socks(ds)
          ensures x in Socks(cs)
        {
          var j :| 0 <= j < |ds| && ds[j].sock == x;
          assert cs[j].sock == x;
        }
      }
    }

    /** Let every ready client have its receive; the result is the number of clients now over the limit. */
    method ReceiveAll(ready: set<int>, reply: string) returns (hadErrors: nat)
      requires Valid()
      modifies this`clients, this`current, k`log, k`peers
      ensures Inv(maxRwErrors + 1) && hadErrors == OverCount(clients, maxRwErrors)
      ensures clients == Recounted(old(clients), k.log, start)
      ensures forall i :: 0 <= i < |clients| ==>
                Reads(k.log, clients[i].sock) ==
                old(Reads(k.log, clients[i].sock)) + if clients[i].sock in ready then 1 else 0
      ensures old(k.log) <= k.log
    {
      hide Legal, OpenAfter, Books, Failures, Reads, OverCount, Kept, Socks, Table, Distinct;
      hadErrors := 0;
      TableSaysAll(clients, k.log, maxRwErrors, highest, k.open, k.peers.Keys);
      TableWiden(clients, k.log, maxRwErrors, maxRwErrors + 1, highest, k.open, k.peers.Keys);
      ghost var first := clients;
      NoneOver(clients, maxRwErrors);
      for i := 0 to |clients|
        invariant |clients| == |first|
        invariant Inv(maxRwErrors + 1) && old(k.log) <= k.log
        invariant forall j :: 0 <= j < i ==> clients[j].sock == first[j].sock
        invariant forall j :: i <= j < |clients| ==> clients[j] == first[j]
        invariant hadErrors == OverCount(clients, maxRwErrors)
        invariant forall j :: 0 <= j < |clients| ==>
                    Reads(k.log, clients[j].sock) ==
                    old(Reads(k.log, clients[j].sock)) + if j < i && clients[j].sock in ready then 1 else 0
      {
        ghost var before := clients;
        var over := ReceiveOne(i, ready, reply);
        OverCountUpdate(before, i, clients[i], maxRwErrors);
        if over {
          hadErrors := hadErrors + 1;
        }
        TableSaysAll(clients, k.log, maxRwErrors + 1, highest, k.open, k.peers.Keys);
        DistinctSocks(clients, i);
      }
      TableSaysAll(clients, k.log, maxRwErrors + 1, highest, k.open, k.peers.Keys);
    }

    /**
     One eviction scan: free the first over-limit client and erase the element whose index is the number
     of connected clients passed. Nothing is assumed about clients without a connection.
     */
    method EvictScan()
      requires k.Valid()
      requires forall i :: 0 <= i < |clients| && clients[i].Live() ==> clients[i].sock in k.open
      modifies this`clients, k
      ensures k.Valid() && k.peers == old(k.peers) && k.fuel == old(k.fuel)
      ensures clients == EvictOnce(old(clients), maxRwErrors)
      ensures var first := FirstOver(old(clients), maxRwErrors);
              if first == |old(clients)| then
                k.log == old(k.log) && k.open == old(k.open)
              else
                && k.log == old(k.log) + [Closed(old(clients)[first].sock)]
                && k.open == old(k.open) - {old(clients)[first].sock}
    {
      hide Legal, OpenAfter, FirstOver, LiveCount;
      var it, offset := FindOver();
      if it < |clients| {
        LiveCountBound(clients, it);
        var pic := clients[it];
        k.Close(pic.sock);
        clients := clients[it := Client(0, pic.hadRwError, true)];
        clients := clients[..offset] + clients[offset + 1..];
      }
    }

    /** The first client over the limit, and how many connected ones come before it. */
    method FindOver() returns (it: nat, offset: nat)
      ensures it == FirstOver(clients, maxRwErrors) && offset == LiveCount(clients[..it])
    {
      hide FirstOver, LiveCount;
      it, offset := 0, 0;
      LiveCountNone();
      while it < |clients|
        invariant 0 <= it <= |clients| && offset == LiveCount(clients[..it])
        invariant forall j :: 0 <= j < it ==> !Over(clients[j], maxRwErrors)
      {
        var pic := clients[it];
        LiveCountNext(clients, it);
        if pic.sock == 0 || pic.sock < 0 {
          it := it + 1;
          continue;
        }
        if pic.hadRwError > maxRwErrors {
          break;
        }
        offset := offset + 1;
        it := it + 1;
      }
    }

    static lemma LiveCountBound(cs: seq<Client>, i: nat)
      requires i < |cs|
      ensures LiveCount(cs[..i]) <= i
    {
    }

    static lemma LiveCountNone()
      ensures LiveCount([]) == 0
    {
    }

    static lemma LiveCountNext(cs: seq<Client>, i: nat)
      requires i < |cs|
      ensures LiveCount(cs[..i + 1]) == LiveCount(cs[..i]) + if cs[i].Live() then 1 else 0
    {
      assert cs[..i + 1][..i] == cs[..i];
    }

    /** Scan as often as there are over-limit clients. */
    method EvictAll(count: nat)
      requires Inv(maxRwErrors + 1) && count == OverCount(clients, maxRwErrors)
      modifies this`clients, k
      ensures Valid() && clients == Kept(old(clients), maxRwErrors)
      ensures old(k.log) <= k.log && forall j :: |old(k.log)| <= j < |k.log| ==> k.log[j].Closed?
      ensures k.fuel == old(k.fuel)
    {
      hide Legal, OpenAfter, Books, Failures, Reads, OverCount, Kept, EvictOnce, FirstOver, LiveCount, Socks, Table;
      ghost var limit := maxRwErrors + 1;
      var hadErrors := count;
      while hadErrors > 0
        invariant Inv(maxRwErrors + 1) && hadErrors == OverCount(clients, maxRwErrors)
        invariant Kept(clients, maxRwErrors) == Kept(old(clients), maxRwErrors)
        invariant old(k.log) <= k.log && forall j :: |old(k.log)| <= j < |k.log| ==> k.log[j].Closed?
        invariant k.fuel == old(k.fuel)
      {
        hadErrors := hadErrors - 1;
        ghost var before, log, first := clients, k.log, FirstOver(clients, maxRwErrors);
        TableSaysAll(before, log, limit, highest, k.open, k.peers.Keys);
        EvictOnceCounts(before, maxRwErrors);
        EvictOnceIsRight(before, maxRwErrors);
        TableShrinks(before, log, limit, highest, k.open, k.peers.Keys, first);
        EvictScan();
        LogAppend(log, Closed(before[first].sock), start, maxRwErrors);
      }
      CountZero(clients, maxRwErrors);
      NoneOver(clients, maxRwErrors);
      TableWithin(clients, k.log, limit, maxRwErrors, highest, k.open, k.peers.Keys);
    }

    static lemma SocksErase(cs: seq<Client>, i: nat)
      requires i < |cs| && Distinct(cs)
      ensures var ds := cs[..i] + cs[i + 1..];
              Distinct(ds) && Socks(ds) == Socks(cs) - {cs[i].sock} && cs[i].sock in Socks(cs)
    {
      var ds := cs[..i] + cs[i + 1..];
      assert forall j :: 0 <= j < |ds| ==> ds[j] == cs[if j < i then j else j + 1];
      forall x | x in Socks(cs) && x != cs[i].sock
        ensures x in Socks(ds)
      {
        var j :| 0 <= j < |cs| && cs[j].sock == x;
        assert ds[if j < i then j else j - 1].sock == x;
      }
    }

    /**
     Serve the ready clients, then drop those that failed too often, keeping the order of the others.
     `served` is the log when all had been served.
     */
    method ProcessClients(ready: set<int>, reply: string) returns (ghost served: seq<Event>)
      requires Valid()
      modifies this`clients, this`current, k
      ensures Valid() && old(k.log) <= served <= k.log && k.fuel == old(k.fuel)
      ensures forall j :: |served| <= j < |k.log| ==> k.log[j].Closed?
      ensures clients == Kept(Recounted(old(clients), served, start), maxRwErrors)
      ensures forall i :: 0 <= i < |old(clients)| ==>
                Reads(k.log, old(clients)[i].sock) ==
                old(Reads(k.log, clients[i].sock)) + if old(clients)[i].sock in ready then 1 else 0
    {
      hide Legal, OpenAfter, Books, Failures, Reads, OverCount, Kept, Socks, Table;
      var hadErrors := ReceiveAll(ready, reply);
      served := k.log;
      EvictAll(hadErrors);
      ClosingIsNoRead(served, k.log);
    }

    static lemma {:induction false} ClosingIsNoRead(before: seq<Event>, after: seq<Event>)
      requires before <= after && forall j :: |before| <= j < |after| ==> after[j].Closed?
      ensures forall fd :: Reads(after, fd) == Reads(before, fd)
    {
      if |before| < |after| {
        ClosingIsNoRead(before, after[..|after| - 1]);
      } else {
        assert before == after;
      }
    }

    /** No client is over the limit between the cycles, and what is no client has no failures. */
    lemma NobodyIsOver()
      requires Valid()
      ensures Within(k.log, start, maxRwErrors)
    {
      hide Failures, Books, Legal, OpenAfter, Socks, Table;
      TableSaysAll(clients, k.log, maxRwErrors, highest, k.open, k.peers.Keys);
      forall fd
        ensures Failures(k.log, start, fd) <= maxRwErrors
      {
        InSocks(clients, fd);
      }
    }

    /** So far every event was in order. */
    lemma KeepsOrder(limit: nat)
      requires Inv(limit)
      ensures Orderly(k.log, start, maxRwErrors)
    {
      hide Books, Orderly, Failures, Legal, OpenAfter, Socks, Table;
      JustifiedMeans(k.log, start, maxRwErrors);
    }

    /** Every client has a connection, so the eviction loop is the filter in every run. */
    lemma EvictionIsRight(limit: nat)
      requires Inv(limit)
      ensures NoDeadBeforeOver(clients, maxRwErrors)
      ensures EvictN(clients, maxRwErrors, OverCount(clients, maxRwErrors)) == Kept(clients, maxRwErrors)
    {
      hide EvictN, OverCount, Kept, Books, Legal, OpenAfter, Failures, Socks;
      TableSaysAll(clients, k.log, limit, highest, k.open, k.peers.Keys);
      EvictionFilters(clients, maxRwErrors);
    }

    /** Enter a new client, unless its descriptor is already in the vector. */
    method AddClient(newsockfd: int)
      modifies this`clients, this`highest, this`totalClients
      ensures if newsockfd in Socks(old(clients)) then
                clients == old(clients) && highest == old(highest) && totalClients == old(totalClients)
              else
                && clients == old(clients) + [Client(newsockfd, 0, false)]
                && highest == (if newsockfd > old(highest) then newsockfd else old(highest))
                && totalClients == old(totalClients) + 1
    {
      for i := 0 to |clients|
        invariant forall j :: 0 <= j < i ==> clients[j].sock != newsockfd
      {
        if clients[i].sock == newsockfd {
          return;
        }
      }
      if newsockfd > highest {
        highest := newsockfd;
      }
      totalClients := totalClients + 1;
      clients := clients + [Client(newsockfd, 0, false)];
    }

    /** One connection is taken, if there is one; its descriptor cannot be 0, which is in use. */
    method AcceptOne()
      requires Valid()
      modifies this, k
      ensures Valid() && k.fuel <= old(k.fuel) && current == old(current) && total == old(total)
      ensures isPaused == old(isPaused) && looks == old(looks)
      ensures old(k.log) <= k.log && |k.log| == |old(k.log)| + 1
      ensures var e := k.log[|old(k.log)|];
              if e.Opened? then clients == old(clients) + [Client(e.fd, 0, false)]
              else e.AcceptFailed? && clients == old(clients)
    {
      hide Legal, OpenAfter, Books, Failures, Reads, Socks, Table;
      ghost var log, open, known := k.log, k.open, k.peers.Keys;
      TableSaysAll(clients, log, maxRwErrors, highest, open, known);
      var newsockfd, wouldBlock := k.Accept(sockfd);
      LogAppend(log, k.log[|log|], start, maxRwErrors);
      if newsockfd >= 0 {
        TableGrows(clients, log, maxRwErrors, highest, open, known, newsockfd);
        AddClient(newsockfd);
      } else {
        TableStays(clients, log, k.log, maxRwErrors, highest, open, known);
      }
    }

    static lemma DistinctSocks(cs: seq<Client>, i: nat)
      requires Distinct(cs) && i < |cs|
      ensures forall j :: 0 <= j < |cs| && cs[j].sock == cs[i].sock ==> j == i
    {
    }

    static lemma InSocks(cs: seq<Client>, x: int)
      ensures x in Socks(cs) <==> exists i :: 0 <= i < |cs| && cs[i].sock == x
    {
    }

    method ShowStats()
      requires Accounts()
      modifies this`current, this`total
      ensures Accounts() && current == NO_STATS && total == Plus(old(total), old(current))
    {
      hide Books;
      total := Plus(total, current);
      current := NO_STATS;
    }

    /** `s` and `?` may flush the statistics, `e` and `p` toggle, escape asks to leave. */
    method CheckKey(chr: char) returns (leave: bool)
      requires Valid()
      modifies this`current, this`total, this`doEcho, this`isPaused
      ensures Valid() && Plus(total, current) == old(Plus(total, current))
      ensures leave <==> chr == 27 as char
      ensures doEcho == (if chr == 'e' then !old(doEcho) else old(doEcho))
      ensures isPaused == (if chr == 'p' then !old(isPaused) else old(isPaused))
      ensures current == if chr == 's' || (chr == '?' && old(current.sends != 0 || current.recvs != 0)) then NO_STATS else old(current)
    {
      hide Books, Legal, OpenAfter, Failures, Socks, Table;
      leave := false;
      match chr
      case '?' =>
        if current.sends != 0 || current.recvs != 0 {
          ShowStats();
        }
      case 'e' => doEcho := !doEcho;
      case 'p' => isPaused := !isPaused;
      case 's' => ShowStats();
      case _ => leave := chr == 27 as char;
    }

    /**
     One pass of the forever loop; `leave` when it is over. After the keyboard, and unless paused, `select` is
     called; a new connection comes before everything else.
     */
    method Cycle(chr: char, reply: string) returns (leave: bool)
      requires Valid()
      modifies this, k
      ensures Valid() && old(k.log) <= k.log
      ensures isPaused == if chr == 'p' then !old(isPaused) else old(isPaused)
      ensures if chr == 27 as char || isPaused then
                && k.log == old(k.log) && clients == old(clients) && looks == old(looks)
                && (leave <==> chr == 27 as char)
              else
                && |k.log| > |old(k.log)| && looks == old(looks) + 1
                && match k.log[|old(k.log)|]
                   case NoneReady(failed) =>
                     && leave == failed && |k.log| == |old(k.log)| + 1 && clients == old(clients)
                   case Selected(ready) =>
                     && !leave
                     && if sockfd in ready then
                          && |k.log| == |old(k.log)| + 2
                          && clients == match k.log[|old(k.log)| + 1]
                                        case Opened(fd) => old(clients) + [Client(fd, 0, false)]
                                        case _ => old(clients)
                        else
                          Filtered(old(clients), clients, old(k.log), k.log)
                   case _ => false
    {
      hide Legal, OpenAfter, Books, Failures, Reads, Socks, Kept, Table;
      leave := CheckKey(chr);
      if leave || isPaused {
        return;
      }
      var listenSocket := SetupFdSet();
      var status, ready := Look(listenSocket);
      if status < 0 {
        leave := true;
      } else if status > 0 {
        if sockfd in ready {
          AcceptOne();
        } else {
          ghost var served := ProcessClients(ready, reply);
        }
      }
    }

    /** `select` on the given descriptors. */
    method Look(listenSocket: set<int>) returns (status: int, ready: set<int>)
      requires Valid() && listenSocket == {sockfd} + Socks(clients)
      modifies this`looks, k
      ensures Valid() && looks == old(looks) + 1
      ensures k.log == old(k.log) + [if status > 0 then Selected(ready) else NoneReady(status < 0)]
    {
      hide Legal, OpenAfter, Books, Failures, Reads, Socks, Kept, Table;
      ghost var log := k.log;
      TableSaysAll(clients, log, maxRwErrors, highest, k.open, k.peers.Keys);
      NobodyIsOver();
      status, ready := k.Select(listenSocket, highest + 1);
      looks := looks + 1;
      LogAppend(log, k.log[|log|], start, maxRwErrors);
      TableStays(clients, log, k.log, maxRwErrors, highest, k.open, k.peers.Keys);
    }

    /** The clients were served from `before` on, and those over the limit then closed. */
    ghost predicate Filtered(was: seq<Client>, now: seq<Client>, before: seq<Event>, after: seq<Event>)
    {
      exists served ::
        && before < served <= after && now == Kept(Recounted(was, served, start), maxRwErrors)
        && forall j :: |served| <= j < |after| ==> after[j].Closed?
    }

    static function PausedAfter(keys: string, paused: bool): bool
    {
      if keys == [] then paused
      else PausedAfter(keys[..|keys| - 1], paused) != (keys[|keys| - 1] == 'p')
    }

    /** In how many cycles with these keys `select` is called. */
    static function Unpaused(keys: string, paused: bool): nat
    {
      if keys == [] then 0
      else
        Unpaused(keys[..|keys| - 1], paused) +
        if keys[|keys| - 1] == 27 as char || PausedAfter(keys, paused) then 0 else 1
    }

    static lemma NextKey(keys: string, n: nat, paused: bool)
      requires n < |keys|
      ensures PausedAfter(keys[..n + 1], paused) == (PausedAfter(keys[..n], paused) != (keys[n] == 'p'))
      ensures Unpaused(keys[..n + 1], paused) ==
              Unpaused(keys[..n], paused) + if keys[n] == 27 as char || PausedAfter(keys[..n + 1], paused) then 0 else 1
    {
      assert keys[..n + 1][..n] == keys[..n];
    }

    /**
     A cycle for each key, until escape or a failing `select`; `done` are the keys used. In every cycle that
     is not paused `select` is called.
     */
    method RunServer(keys: string) returns (ghost done: nat)
      requires Valid()
      modifies this, k
      ensures Valid() && old(k.log) <= k.log
      ensures done <= |keys| && looks == old(looks) + Unpaused(keys[..done], old(isPaused))
      ensures done < |keys| ==>
                done > 0 && (keys[done - 1] == 27 as char || (k.log != [] && k.log[|k.log| - 1] == NoneReady(true)))
    {
      hide Filtered, Inv, Unpaused, PausedAfter;
      done := 0;
      NoKeys(isPaused);
      assert keys[..0] == [];
      for n := 0 to |keys|
        invariant Valid() && old(k.log) <= k.log && done == n
        invariant isPaused == PausedAfter(keys[..n], old(isPaused))
        invariant looks == old(looks) + Unpaused(keys[..n], old(isPaused))
      {
        NextKey(keys, n, old(isPaused));
        var reply: string := *;
        var leave := Cycle(keys[n], reply);
        done := n + 1;
        if leave {
          return;
        }
      }
    }

    static lemma NoKeys(paused: bool)
      ensures PausedAfter([], paused) == paused && Unpaused([], paused) == 0
    {
    }

    /** Close every client that has a connection and forget them all. */
    method ClearClientList()
      requires Valid()
      modifies this`clients, k
      ensures k.Valid() && clients == [] && k.open == base + {sockfd}
      ensures old(k.log) <= k.log && forall j :: |old(k.log)| <= j < |k.log| ==> k.log[j].Closed?
    {
      hide Legal, OpenAfter, Books, Failures, Reads, Socks, Table;
      TableSaysAll(clients, k.log, maxRwErrors, highest, k.open, k.peers.Keys);
      assert clients[0..] == clients;
      for i := 0 to |clients|
        invariant k.Valid() && clients == old(clients)
        invariant old(k.log) <= k.log && forall j :: |old(k.log)| <= j < |k.log| ==> k.log[j].Closed?
        invariant k.open == base + {sockfd} + Socks(clients[i..])
        invariant Distinct(clients)
        invariant forall j :: i <= j < |clients| ==>
                    clients[j].Live() && clients[j].sock !in base && clients[j].sock != sockfd
      {
        SocksErase(clients[i..], 0);
        assert clients[i..][..0] + clients[i..][1..] == clients[i + 1..];
        if clients[i].sock != 0 && clients[i].sock >= 0 {
          k.Close(clients[i].sock);
        }
      }
      assert clients[|clients|..] == [];
      InSocksNone();
      clients := [];
    }

    static lemma InSocksNone()
      ensures Socks([]) == {}
    {
    }

    /** What stays open at the end: what was open before, and a listening socket 0, which is taken for none. */
    ghost function Remaining(): set<int>
    {
      base + if sockfd == 0 then {0} else {}
    }

    /** Flush the statistics, close the clients and the listening socket. */
    method Finish()
      requires Valid()
      modifies this, k
      ensures k.Valid() && k.open == Remaining() && clients == []
      ensures current == NO_STATS && total == Books(k.log, start, maxRwErrors).stats
      ensures totalClients == Books(k.log, start, maxRwErrors).accepted
      ensures RanJustly(k.log, |old(k.log)|)
      ensures old(k.log) <= k.log && looks == old(looks)
    {
      hide Legal, OpenAfter, Books, Failures, Reads, Socks, RanJustly, Distinct, Table;
      ghost var run := k.log;
      NobodyIsOver();
      ShowStats();
      ClearClientList();
      if sockfd != 0 && sockfd >= 0 {
        k.Close(sockfd);
      }
      ClosingKeepsBooks(run, k.log, start, maxRwErrors);
      ClosedAfter(run);
    }

    /**
     The server's life. Every connection and, unless its number is 0, the listening socket has been
     closed exactly once, evictions happened exactly at the limit, and the totals shown are the true ones.
     */
    method Serve(keys: string) returns (ghost done: nat)
      requires Valid()
      modifies this, k
      ensures k.Valid() && k.open == Remaining() && clients == []
      ensures forall i: nat :: i < |k.log| && k.log[i].Opened? && k.log[i].fd !in Remaining() ==> ClosedOnce(k.log, i)
      ensures sockfd != 0 ==> EndsOnce(k.log, old(|k.log|), sockfd)
      ensures current == NO_STATS && total == Books(k.log, start, maxRwErrors).stats
      ensures totalClients == Books(k.log, start, maxRwErrors).accepted
      ensures exists run: nat :: RanJustly(k.log, run)
      ensures done <= |keys| && looks == old(looks) + Unpaused(keys[..done], old(isPaused))
    {
      hide Legal, OpenAfter, Books, Failures, RanJustly, Socks, Table;
      TableSaysAll(clients, k.log, maxRwErrors, highest, k.open, k.peers.Keys);
      ghost var first := k.log;
      done := RunServer(keys);
      Finish();
      if sockfd != 0 {
        assert k.log[..|first|] == first;
        EveryLifeEndsOnce(k.init, k.log, |first|, sockfd);
      }
      forall i: nat | i < |k.log| && k.log[i].Opened? && k.log[i].fd !in Remaining()
        ensures ClosedOnce(k.log, i)
      {
        EveryOpenIsClosedOnce(k.init, k.log, i);
      }
    }

    /**
     Up to `run` a connection was closed only at the limit, and always once it was past it; what follows
     is the final cleanup.
     */
    ghost predicate RanJustly(log: seq<Event>, run: nat)
    {
      && start <= run <= |log|
      && (forall i: nat :: start <= i < run && log[i].Closed? ==>
            Failures(log[..i], start, log[i].fd) == maxRwErrors + 1)
      && (forall i: nat, j: nat, fd :: start <= i <= j <= run && (j == run || log[j].Selected?) ==>
            (Failures(log[..i], start, fd) > maxRwErrors ==> ClosedBetween(log, fd, i, j)))
      && (forall j :: run <= j < |log| ==> log[j].Closed?)
    }

    lemma ClosedAfter(run: seq<Event>)
      requires start <= |run| && run <= k.log && Books(run, start, maxRwErrors).justified
      requires Within(run, start, maxRwErrors)
      requires forall j :: |run| <= j < |k.log| ==> k.log[j].Closed?
      ensures RanJustly(k.log, |run|)
    {
      hide Books, Failures, Within, Orderly, InOrder, ClosedBetween, Legal, OpenAfter;
      JustifiedMeans(run, start, maxRwErrors);
      forall i: nat | start <= i < |run| && k.log[i].Closed?
        ensures Failures(k.log[..i], start, k.log[i].fd) == maxRwErrors + 1
      {
        CloseWasDue(run, k.log, start, maxRwErrors, i);
      }
      forall i: nat, j: nat, fd | start <= i <= j <= |run| && (j == |run| || k.log[j].Selected?)
        ensures Failures(k.log[..i], start, fd) > maxRwErrors ==> ClosedBetween(k.log, fd, i, j)
      {
        OverWasClosed(run, k.log, start, maxRwErrors, fd, i, j);
      }
    }

    static lemma CloseWasDue(run: seq<Event>, log: seq<Event>, start: nat, max: nat, i: nat)
      requires run <= log && Orderly(run, start, max) && start <= i < |run| && log[i].Closed?
      ensures Failures(log[..i], start, log[i].fd) == max + 1
    {
      hide Failures;
      assert log[..i] == run[..i] && InOrder(run[..i], start, max, run[i]);
    }

    static lemma OverWasClosed(run: seq<Event>, log: seq<Event>, start: nat, max: nat, fd: int, i: nat, j: nat)
      requires run <= log && Orderly(run, start, max) && Within(run, start, max)
      requires start <= i <= j <= |run| && (j == |run| || log[j].Selected?)
      ensures Failures(log[..i], start, fd) > max ==> ClosedBetween(log, fd, i, j)
    {
      hide Failures, Within, Orderly;
      if Failures(log[..i], start, fd) > max {
        assert log[..i] == run[..i];
        OverLimitIsEvicted(run, start, max, fd, i, j);
        assert forall m :: 0 <= m < |run| ==> run[m] == log[m];
      }
    }

    static lemma {:induction false} ClosingKeepsBooks(before: seq<Event>, after: seq<Event>, start: nat, max: nat)
      requires start <= |before| && before <= after && forall j :: |before| <= j < |after| ==> after[j].Closed?
      ensures Books(after, start, max).stats == Books(before, start, max).stats
      ensures Books(after, start, max).accepted == Books(before, start, max).accepted
    {
      if |before| < |after| {
        ClosingKeepsBooks(before, after[..|after| - 1], start, max);
      } else {
        assert before == after;
      }
    }
  }

  /** A process that starts with standard input closed gets 0 for its listening socket, and never closes it. */
  method ListeningZeroStaysOpen(fuel: nat, keys: string) returns (left: set<int>)
    ensures left == {0}
  {
    hide Books, Legal, OpenAfter, Failures;
    var k := new Kernel({0}, fuel);
    var server := new Server(k, 0, 3);
    ghost var done := server.Serve(keys);
    left := k.open;
  }

  lemma OverCountUpdate(cs: seq<Client>, i: nat, c: Client, max: nat)
    requires i < |cs|
    ensures OverCount(cs[i := c], max) ==
            OverCount(cs, max) - (if Over(cs[i], max) then 1 else 0) + (if Over(c, max) then 1 else 0)
  {
    assert cs == cs[..i] + ([cs[i]] + cs[i + 1..]) && cs[i := c] == cs[..i] + ([c] + cs[i + 1..]);
    CountSplit(cs[..i], [cs[i]] + cs[i + 1..], max);
    CountSplit([cs[i]], cs[i + 1..], max);
    CountSplit(cs[..i], [c] + cs[i + 1..], max);
    CountSplit([c], cs[i + 1..], max);
  }
}
