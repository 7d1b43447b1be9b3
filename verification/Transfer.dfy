/**
 What the transfer loops are for: whatever the sizes of the single reads and writes, and however often
 a signal interrupts them, the reader ends up with the bytes the writer's side took, in order.
 */
module Transfer {
  import opened Kernel
  import opened SockHelp

  /** The bytes still to be read, in order. */
  function Content(inbox: seq<Item>): string
  {
    if inbox == [] then []
    else (if inbox[0].Data? then inbox[0].bytes else []) + Content(inbox[1..])
  }

  /** Nothing but bytes, and interruptions where the reader copes with them. */
  predicate Clean(inbox: seq<Item>, retry: bool)
  {
    forall i :: 0 <= i < |inbox| ==>
      (inbox[i].Data? && inbox[i].bytes != []) || (retry && inbox[i] == ReadError(EINTR))
  }

  /** `reply` and `rest` are what a clean connection may give: its next bytes, or its idle answer when there are none. */
  predicate TakesNext(inbox: seq<Item>, idle: Idle, retry: bool, reply: ReadReply, rest: seq<Item>)
  {
    && Clean(rest, retry)
    && if Content(inbox) == [] then
         Content(rest) == [] && reply == if idle.Silent? then NoBytes(EAGAIN) else Bytes([])
       else
         reply.Bytes? && reply.bytes != [] && Content(inbox) == reply.bytes + Content(rest)
  }

  lemma NextReadTakesNext(inbox: seq<Item>, idle: Idle, n: nat, retry: bool)
    requires Clean(inbox, retry) && n > 0
    ensures var (reply, rest) := NextRead(inbox, idle, n);
            if inbox != [] && inbox[0].ReadError? then
              reply == NoBytes(EINTR) && retry && Clean(rest, retry) && Content(rest) == Content(inbox)
            else TakesNext(inbox, idle, retry, reply, rest)
  {
    hide Size, Content;
    ContentStep(inbox);
    var rest := NextRead(inbox, idle, n).1;
    if inbox != [] && inbox[0].Data? && n < |inbox[0].bytes| {
      var b := inbox[0].bytes;
      ContentStep(rest);
      assert rest == [Data(b[n..])] + inbox[1..];
      assert rest[1..] == inbox[1..];
      Reassemble(b, n, Content(inbox[1..]));
    }
  }

  lemma ContentStep(inbox: seq<Item>)
    ensures Content(inbox) ==
            if inbox == [] then []
            else (if inbox[0].Data? then inbox[0].bytes else []) + Content(inbox[1..])
    ensures inbox != [] && !inbox[0].Data? ==> Content(inbox) == Content(inbox[1..])
  {
  }

  lemma Reassemble(b: string, n: nat, more: string)
    requires n <= |b|
    ensures b + more == b[..n] + (b[n..] + more)
  {
  }

  lemma {:induction false} ReadOnceTakesNext(inbox: seq<Item>, idle: Idle, n: nat, retry: bool)
    requires Clean(inbox, retry) && n > 0
    ensures var (reply, rest) := ReadOnce(inbox, idle, n, retry);
            TakesNext(inbox, idle, retry, reply, rest)
    decreases Size(inbox)
  {
    hide NextRead, Content;
    NextReadTakesNext(inbox, idle, n, retry);
    if inbox != [] && inbox[0].ReadError? {
      ReadOnceTakesNext(NextRead(inbox, idle, n).1, idle, n, retry);
    }
  }

  /**
   The reader gets exactly the next `count` bytes and leaves the rest; if the stream ends early it gets
   all there was, and the length says so.
   */
  lemma {:induction false} ReadTakesPrefix(inbox: seq<Item>, idle: Idle, count: nat, retry: bool)
    requires Clean(inbox, retry)
    ensures var r := ReadFully(inbox, idle, count, retry);
            var all := Content(inbox);
            var got := if count <= |all| then count else |all|;
            && r.data == all[..got]
            && Content(r.rest) == all[got..] && Clean(r.rest, retry)
            && r.code == if count <= |all| || idle.HungUp? then got else -1
    decreases Size(inbox)
  {
    hide ReadOnce, Content, Clean, ReadFully;
    FullyStep(inbox, idle, count, retry);
    if count > 0 {
      ReadOnceTakesNext(inbox, idle, count, retry);
      if Content(inbox) != [] {
        var (reply, rest) := ReadOnce(inbox, idle, count, retry);
        ReadTakesPrefix(rest, idle, count - |reply.bytes|, retry);
        SplitAfter(reply.bytes, Content(rest), |ReadFully(rest, idle, count - |reply.bytes|, retry).data|);
      }
    }
  }

  lemma SplitAfter(b: string, s: string, n: nat)
    requires n <= |s|
    ensures (b + s)[..|b| + n] == b + s[..n] && (b + s)[|b| + n..] == s[n..]
  {
  }

  /**
   One end of a connection writes `data`; the other end, through which the accepted bytes arrive in any
   pieces and with any interruptions, asks for as many.
   */
  lemma TransferRoundTrip(data: string, outcomes: seq<Outcome>, inbox: seq<Item>, later: string,
                          writerRetries: bool, readerRetries: bool)
    requires Clean(inbox, readerRetries)
    requires var taken := data[..WriteFully(outcomes, |data|, writerRetries).accepted];
             Content(inbox) == taken + later
    ensures var w := WriteFully(outcomes, |data|, writerRetries);
            var r := ReadFully(inbox, HungUp, |data|, readerRetries);
            && (WriteCode(w, |data|) == |data| ==>
                  r.code == |data| && r.data == data && Content(r.rest) == later)
            && (WriteCode(w, |data|) != |data| && later == [] ==>
                  r.code == w.accepted < |data| && r.data == data[..w.accepted])
  {
    ReadTakesPrefix(inbox, HungUp, |data|, readerRetries);
    var w := WriteFully(outcomes, |data|, writerRetries);
    if w.accepted == |data| {
      assert Content(inbox)[..|data|] == data && Content(inbox)[|data|..] == later;
    } else if later == [] {
      assert Content(inbox) == data[..w.accepted];
    }
  }

  /** Every write takes something, or is interrupted. */
  predicate Willing(outcomes: seq<Outcome>)
  {
    forall i :: 0 <= i < |outcomes| ==>
      (outcomes[i].Taken? && outcomes[i].n > 0) || outcomes[i] == Refused(EINTR)
  }

  lemma {:induction false} WillingWriteOnce(outcomes: seq<Outcome>, count: nat)
    requires Willing(outcomes) && count > 0
    ensures var (reply, rest) := WriteOnce(outcomes, count, true);
            Willing(rest) && reply.Wrote? && reply.n > 0
    decreases |outcomes|
  {
    if outcomes != [] && outcomes[0].Refused? {
      WillingWriteOnce(outcomes[1..], count);
    }
  }

  /** However small the pieces, `sock_write` gets everything through. */
  lemma {:induction false} WillingTakesAll(outcomes: seq<Outcome>, count: nat)
    requires Willing(outcomes)
    ensures var w := WriteFully(outcomes, count, true);
            w.accepted == count && Willing(w.rest)
    decreases |outcomes|, count
  {
    if count > 0 {
      WillingWriteOnce(outcomes, count);
      var (reply, rest) := WriteOnce(outcomes, count, true);
      WillingTakesAll(rest, count - reply.n);
    }
  }

  // ---------------------------------------------------------------- what ends a transfer early

  /** A failure, or the end of the stream, behind clean input of which more was asked for. */
  lemma {:induction false} ReadStops(a: seq<Item>, e: Item, more: seq<Item>, idle: Idle, count: nat, retry: bool)
    requires Clean(a, retry) && count > |Content(a)|
    requires e.EndOfStream? || (e.ReadError? && !(retry && e.errno == EINTR))
    ensures var r := ReadFully(a + [e] + more, idle, count, retry);
            && r.data == Content(a)
            && r.code == (if e.EndOfStream? then |Content(a)| else -1)
            && r.rest == if e.EndOfStream? then [e] + more else more
    decreases |a|
  {
    hide ReadOnce, ReadFully, Content, Clean, Size;
    var inbox := a + [e] + more;
    FullyStep(inbox, idle, count, retry);
    ContentStep(a);
    CleanParts(a, retry);
    if a == [] {
      assert inbox == [e] + more && inbox[0] == e && inbox[1..] == more;
      ReadOnceEnds(inbox, idle, count, retry);
    } else {
      assert inbox[0] == a[0] && inbox[1..] == a[1..] + [e] + more;
      ReadOnceHead(inbox, idle, count, retry);
      if a[0].Data? {
        ReadStops(a[1..], e, more, idle, count - |a[0].bytes|, retry);
      } else {
        FullyStep(inbox[1..], idle, count, retry);
        ReadStops(a[1..], e, more, idle, count, retry);
      }
    }
  }

  lemma CleanParts(a: seq<Item>, retry: bool)
    requires Clean(a, retry)
    ensures a != [] ==> Clean(a[1..], retry)
    ensures a != [] ==> (a[0].Data? && a[0].bytes != []) || (retry && a[0] == ReadError(EINTR))
  {
  }

  lemma ReadOnceEnds(inbox: seq<Item>, idle: Idle, n: nat, retry: bool)
    requires n > 0 && inbox != []
    requires inbox[0].EndOfStream? || (inbox[0].ReadError? && !(retry && inbox[0].errno == EINTR))
    ensures ReadOnce(inbox, idle, n, retry) ==
            if inbox[0].EndOfStream? then (Bytes([]), inbox) else (NoBytes(inbox[0].errno), inbox[1..])
  {
    hide Size;
  }

  lemma ReadOnceHead(inbox: seq<Item>, idle: Idle, n: nat, retry: bool)
    requires n > 0 && inbox != []
    ensures inbox[0].Data? && |inbox[0].bytes| <= n ==> ReadOnce(inbox, idle, n, retry) == (Bytes(inbox[0].bytes), inbox[1..])
    ensures retry && inbox[0] == ReadError(EINTR) ==> ReadOnce(inbox, idle, n, retry) == ReadOnce(inbox[1..], idle, n, retry)
  {
    hide Size;
  }

  /** What some outcomes take. */
  function TakenBy(outcomes: seq<Outcome>): nat
  {
    if outcomes == [] then 0 else (if outcomes[0].Taken? then outcomes[0].n else 0) + TakenBy(outcomes[1..])
  }

  /** A failure behind willing outcomes that do not take everything; `sock_write` also gives up on a write of nothing. */
  lemma {:induction false} WriteStops(a: seq<Outcome>, e: Outcome, more: seq<Outcome>, count: nat, retry: bool)
    requires forall i :: 0 <= i < |a| ==> (a[i].Taken? && a[i].n > 0) || (retry && a[i] == Refused(EINTR))
    requires TakenBy(a) < count
    requires (e.Refused? && !(retry && e.errno == EINTR)) || (e == Taken(0) && retry)
    ensures WriteFully(a + [e] + more, count, retry) == WriteResult(if e.Refused? then -1 else 0, TakenBy(a), more)
    decreases |a|
  {
    hide WriteFully, WriteOnce;
    var outcomes := a + [e] + more;
    WriteStep(outcomes, 0, count, retry);
    WriteOnceHead(outcomes, count, retry);
    if a == [] {
      assert outcomes[0] == e && outcomes[1..] == more;
    } else {
      assert outcomes[0] == a[0] && outcomes[1..] == a[1..] + [e] + more;
      if a[0].Taken? {
        WriteStops(a[1..], e, more, count - a[0].n, retry);
      } else {
        WriteStep(outcomes[1..], 0, count, retry);
        WriteStops(a[1..], e, more, count, retry);
      }
    }
  }

  lemma WriteOnceHead(outcomes: seq<Outcome>, count: nat, retry: bool)
    requires outcomes != []
    ensures outcomes[0].Taken? && outcomes[0].n <= count ==> WriteOnce(outcomes, count, retry) == (Wrote(outcomes[0].n), outcomes[1..])
    ensures outcomes[0].Refused? && !(retry && outcomes[0].errno == EINTR) ==>
              WriteOnce(outcomes, count, retry) == (NotWritten(outcomes[0].errno), outcomes[1..])
    ensures retry && outcomes[0] == Refused(EINTR) ==> WriteOnce(outcomes, count, retry) == WriteOnce(outcomes[1..], count, retry)
  {
  }
}
