/**
 The client of `src/simp_client.cxx` talking to the server of `src/simp_server.cxx`, over connections
 that deliver each short message whole: how much can be under way at once?

 A trace interleaves what the client does with what the server does on the client's connection; the
 server's part is taken from a log of `SimpServer`.
 */
module Conversation {
  import Kernel
  import LockStep
  import SimpServer

  datatype Step = Client(e: LockStep.Event) | Server(does: Kernel.Event)

  /**
   Messages under way, messages read and not yet answered, answers under way, and messages that found no
   answer because the server does not echo or its send failed.
   */
  datatype Wire = Wire(messages: int, heard: nat, answers: int, unanswered: nat)

  function Carry(w: Wire, step: Step): Wire
  {
    match step
    case Client(Sent(_)) => w.(messages := w.messages + 1)
    case Client(Got(_)) => w.(answers := w.answers - 1)
    case Client(GaveUp) => Wire(0, 0, 0, w.unanswered)
    case Client(_) => w
    case Server(Received(_, _)) => w.(messages := w.messages - 1, heard := 1, unanswered := w.unanswered + w.heard)
    case Server(Sent(_, _, _)) => w.(heard := 0, answers := w.answers + 1)
    case Server(SendError(_)) => w.(heard := 0, unanswered := w.unanswered + w.heard)
    case Server(_) => w
  }

  function Carried(trace: seq<Step>): Wire
  {
    if trace == [] then Wire(0, 0, 0, 0) else Carry(Carried(trace[..|trace| - 1]), trace[|trace| - 1])
  }

  /** The connection makes nothing up: what is received was under way. Nothing sent is empty. */
  predicate CanHappen(w: Wire, step: Step)
  {
    match step
    case Client(Got(_)) => w.answers > 0
    case Client(Sent(n)) => n > 0
    case Server(Received(_, _)) => w.messages > 0
    case Server(Sent(_, _, n)) => n > 0
    case _ => true
  }

  predicate Whole(trace: seq<Step>)
  {
    trace == [] || (Whole(trace[..|trace| - 1]) && CanHappen(Carried(trace[..|trace| - 1]), trace[|trace| - 1]))
  }

  function ClientLog(trace: seq<Step>): seq<LockStep.Event>
  {
    if trace == [] then []
    else
      ClientLog(trace[..|trace| - 1]) +
      match trace[|trace| - 1]
      case Client(e) => [e]
      case Server(_) => []
  }

  /** What the server has done on the present connection. */
  function ServerLog(trace: seq<Step>): seq<Kernel.Event>
  {
    if trace == [] then []
    else
      match trace[|trace| - 1]
      case Client(GaveUp) => []
      case Client(_) => ServerLog(trace[..|trace| - 1])
      case Server(e) => ServerLog(trace[..|trace| - 1]) + [e]
  }

  lemma LogStep(trace: seq<Step>)
    requires trace != []
    ensures var before, log := trace[..|trace| - 1], ClientLog(trace);
            match trace[|trace| - 1]
            case Client(e) => log != [] && log[|log| - 1] == e && log[..|log| - 1] == ClientLog(before)
            case Server(e) => log == ClientLog(before)
  {
  }

  // ---------------------------------------------------------------- the server's part

  /** A reply comes right after what it answers. */
  predicate InReply(log: seq<Kernel.Event>, e: Kernel.Event)
  {
    e.Sent? || e.SendError? ==> log != [] && log[|log| - 1].Received?
  }

  predicate Replying(log: seq<Kernel.Event>)
  {
    log == [] || (Replying(log[..|log| - 1]) && InReply(log[..|log| - 1], log[|log| - 1]))
  }

  lemma ReplyingAppend(log: seq<Kernel.Event>, e: Kernel.Event)
    ensures Replying(log + [e]) <==> Replying(log) && InReply(log, e)
  {
    assert (log + [e])[..|log|] == log;
  }

  /** The same on each connection of a trace. */
  predicate ServerReplies(trace: seq<Step>)
  {
    trace == [] ||
    var before := trace[..|trace| - 1];
    ServerReplies(before) && (trace[|trace| - 1].Server? ==> InReply(ServerLog(before), trace[|trace| - 1].does))
  }

  /** The reads and writes on `fd`. */
  function OnConnection(log: seq<Kernel.Event>, fd: int): seq<Kernel.Event>
  {
    if log == [] then []
    else OnConnection(log[..|log| - 1], fd) + if Kernel.Traffic(log[|log| - 1], fd) then [log[|log| - 1]] else []
  }

  /** On every connection the server only replies: here from its opening at `i` up to event `j`. */
  lemma {:induction false} ServerOnlyReplies(log: seq<Kernel.Event>, start: nat, max: nat, fd: int, i: nat, j: nat)
    requires SimpServer.Orderly(log, start, max) && start <= i < j <= |log| && log[i] == Kernel.Opened(fd)
    ensures Replying(OnConnection(log[i + 1..j], fd))
    ensures log[j - 1].Received? && log[j - 1].fd == fd ==> EndsWith(OnConnection(log[i + 1..j], fd), log[j - 1])
  {
    hide SimpServer.Orderly, Replying, OnConnection;
    if i + 1 == j {
      assert log[i + 1..j] == [];
      Silence(fd);
    } else {
      ServerOnlyReplies(log, start, max, fd, i, j - 1);
      var before, e := log[i + 1..j - 1], log[j - 1];
      assert log[i + 1..j] == before + [e];
      OnConnectionAppend(before, e, fd);
      if Kernel.Traffic(e, fd) {
        ReplyingAppend(OnConnection(before, fd), e);
        if e.Sent? || e.SendError? {
          RepliesAtOnce(log, start, max, fd, j - 1);
        }
      }
    }
  }

  predicate EndsWith(log: seq<Kernel.Event>, e: Kernel.Event)
  {
    log != [] && log[|log| - 1] == e
  }

  lemma Silence(fd: int)
    ensures OnConnection([], fd) == [] && Replying([])
  {
  }

  lemma OnConnectionAppend(log: seq<Kernel.Event>, e: Kernel.Event, fd: int)
    ensures OnConnection(log + [e], fd) == if Kernel.Traffic(e, fd) then OnConnection(log, fd) + [e] else OnConnection(log, fd)
  {
    assert (log + [e])[..|log|] == log;
    assert OnConnection(log, fd) + [] == OnConnection(log, fd);
  }

  lemma RepliesAtOnce(log: seq<Kernel.Event>, start: nat, max: nat, fd: int, k: nat)
    requires SimpServer.Orderly(log, start, max) && start <= k < |log|
    requires (log[k].Sent? || log[k].SendError?) && log[k].fd == fd
    ensures k > start && log[k - 1].Received? && log[k - 1].fd == fd
  {
    hide SimpServer.Within, SimpServer.Failures;
    assert SimpServer.InOrder(log[..k], start, max, log[k]);
    assert SimpServer.JustHeard(log[..k], start, fd);
  }

  // ---------------------------------------------------------------- how much is under way

  ghost predicate NeverGaveUp(log: seq<LockStep.Event>)
  {
    forall i :: 0 <= i < |log| ==> !log[i].GaveUp?
  }

  /** A server that is about to reply has heard something. */
  lemma {:induction false} HeardLast(trace: seq<Step>)
    ensures var log := ServerLog(trace);
            Carried(trace).heard <= 1 && (log != [] && log[|log| - 1].Received? ==> Carried(trace).heard == 1)
  {
    if trace != [] {
      HeardLast(trace[..|trace| - 1]);
    }
  }

  /**
   Whatever the interleaving, messages and answers under way never exceed the resets plus the one that is
   awaited; while no socket is given up, and with the unanswered messages, this is an equation.
   */
  lemma {:induction false} InFlight(trace: seq<Step>, max: nat)
    requires Whole(trace) && ServerReplies(trace) && LockStep.Disciplined(ClientLog(trace), max)
    ensures var w, log := Carried(trace), ClientLog(trace);
            var used := w.messages + w.heard + w.answers + LockStep.Count(log).unasked;
            var due := LockStep.Count(log).resets + if LockStep.Waiting(log) then 1 else 0;
            && w.messages >= 0 && w.answers >= 0 && used <= due
            && LockStep.Count(log).unasked <= LockStep.Count(log).resets
            && (NeverGaveUp(log) ==> used + w.unanswered == due)
  {
    hide ServerLog, ClientLog, Carried, LockStep.Disciplined, LockStep.Count, LockStep.Waiting;
    if trace != [] {
      var before := trace[..|trace| - 1];
      LogStep(trace);
      CarriedStep(trace);
      if trace[|trace| - 1].Client? {
        SaidStep(ClientLog(trace), max);
      }
      HeardLast(before);
      InFlight(before, max);
    } else {
      NothingYet();
      LockStep.Nothing(max);
    }
  }

  lemma SaidStep(log: seq<LockStep.Event>, max: nat)
    requires log != [] && LockStep.Disciplined(log, max)
    ensures var before, e := log[..|log| - 1], log[|log| - 1];
            var t, u := LockStep.Count(log), LockStep.Count(before);
            && LockStep.Disciplined(before, max) && LockStep.Allowed(before, e, max)
            && LockStep.Waiting(log) == (e.Sent? || (!e.Got? && !e.Reset? && LockStep.Waiting(before)))
            && t.resets == u.resets + (if e.Reset? then 1 else 0)
            && t.unasked == u.unasked + (if e.Got? && !LockStep.Waiting(before) then 1 else 0)
            && (NeverGaveUp(log) ==> NeverGaveUp(before) && !e.GaveUp?)
  {
    hide LockStep.Failures, LockStep.Linked, LockStep.Exhausted;
    assert forall i :: 0 <= i < |log| - 1 ==> log[..|log| - 1][i] == log[i];
  }

  lemma CarriedStep(trace: seq<Step>)
    requires trace != []
    ensures Carried(trace) == Carry(Carried(trace[..|trace| - 1]), trace[|trace| - 1])
  {
  }

  lemma NothingYet()
    ensures Carried([]) == Wire(0, 0, 0, 0) && ClientLog([]) == [] && ServerLog([]) == [] && Whole([])
  {
  }

  lemma {:induction false} OneConnection(trace: seq<Step>)
    requires NeverGaveUp(ClientLog(trace)) && Replying(ServerLog(trace))
    ensures ServerReplies(trace)
  {
    if trace != [] {
      var before := trace[..|trace| - 1];
      LogStep(trace);
      assert forall i :: 0 <= i < |ClientLog(before)| ==> ClientLog(before)[i] == ClientLog(trace)[i];
      if trace[|trace| - 1].Server? {
        var log := ServerLog(trace);
        assert log[..|log| - 1] == ServerLog(before);
      }
      OneConnection(before);
    }
  }

  /**
   The two programs together. The server's part of the trace is what the log of a run of the server holds
   about one of its connections. With no reset and no reconnection one message or answer at most is under
   way, and none unless the client waits.
   */
  lemma OneInFlight(trace: seq<Step>, max: nat, log: seq<Kernel.Event>, start: nat, maxRw: nat, fd: int, i: nat, j: nat)
    requires SimpServer.Orderly(log, start, maxRw) && start <= i < j <= |log| && log[i] == Kernel.Opened(fd)
    requires ServerLog(trace) == OnConnection(log[i + 1..j], fd)
    requires Whole(trace) && LockStep.Disciplined(ClientLog(trace), max)
    requires NeverGaveUp(ClientLog(trace)) && LockStep.Count(ClientLog(trace)).resets == 0
    ensures var w, said := Carried(trace), ClientLog(trace);
            && w.messages >= 0 && w.answers >= 0 && LockStep.Count(said).unasked == 0
            && w.messages + w.heard + w.answers + w.unanswered == if LockStep.Waiting(said) then 1 else 0
  {
    ServerOnlyReplies(log, start, maxRw, fd, i, j);
    OneConnection(trace);
    InFlight(trace, max);
  }

  /** A reset is enough for two messages to be under way at once. */
  lemma ResetLetsTwoFly()
    ensures exists trace ::
              && Whole(trace) && ServerReplies(trace) && LockStep.Disciplined(ClientLog(trace), 2)
              && Carried(trace).messages == 2
  {
    hide Whole, Carried, ClientLog, ServerLog, ServerReplies;
    hide LockStep.Disciplined, LockStep.Waiting, LockStep.Linked, LockStep.Exhausted, LockStep.Failures, LockStep.Count, LockStep.Moved;
    LockStep.Nothing(2);
    NothingYet();
    NobodyReplied();
    var t1, l1 := OneMore([], LockStep.Connected, 2);
    var t2, l2 := OneMore(t1, LockStep.Sent(9), 2);
    var t3, l3 := OneMore(t2, LockStep.Reset, 2);
    var t4, l4 := OneMore(t3, LockStep.Sent(9), 2);
  }

  lemma NobodyReplied()
    ensures ServerReplies([])
  {
  }

  lemma OneMore(trace: seq<Step>, e: LockStep.Event, max: nat) returns (longer: seq<Step>, log: seq<LockStep.Event>)
    requires Whole(trace) && ServerReplies(trace) && CanHappen(Carried(trace), Client(e))
    requires LockStep.Disciplined(ClientLog(trace), max) && LockStep.Allowed(ClientLog(trace), e, max)
    ensures Whole(longer) && ServerReplies(longer) && Carried(longer) == Carry(Carried(trace), Client(e))
    ensures log == ClientLog(longer) == ClientLog(trace) + [e]
    ensures LockStep.Disciplined(log, max) && LockStep.After(ClientLog(trace), e, log, max)
  {
    hide LockStep.Disciplined, LockStep.Allowed, LockStep.After;
    longer, log := trace + [Client(e)], ClientLog(trace) + [e];
    assert longer[..|trace|] == trace;
    LockStep.Append(ClientLog(trace), e, max);
  }
}
