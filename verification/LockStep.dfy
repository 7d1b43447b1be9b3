/**
 The lock-step client of `src/simp_client.cxx`: it sends one message and sends the next only after an
 answer to it, or after its user asked not to wait any longer.

 What the client does with its connection is recorded in a ghost log; the properties are about logs.
 A `Turn` says what the outside world does during one pass of the forever loop.
 */
module LockStep {
  import opened Statistics

  // ---------------------------------------------------------------- the log

  /** `Failed` is a receive that failed or found the end of the stream; `GaveUp` closes the socket. */
  datatype Event = Connected | Sent(n: nat) | Got(n: nat) | Reset | Failed | GaveUp

  function Waiting(log: seq<Event>): bool
  {
    if log == [] then false
    else
      match log[|log| - 1]
      case Sent(_) => true
      case Got(_) => false
      case Reset => false
      case _ => Waiting(log[..|log| - 1])
  }

  function Linked(log: seq<Event>): bool
  {
    if log == [] then false
    else
      match log[|log| - 1]
      case Connected => true
      case GaveUp => false
      case _ => Linked(log[..|log| - 1])
  }

  /** Failures since data last arrived. A new connection does not clear them. */
  function Failures(log: seq<Event>): nat
  {
    if log == [] then 0
    else
      var before := Failures(log[..|log| - 1]);
      match log[|log| - 1]
      case Got(_) => 0
      case Failed => before + 1
      case _ => before
  }

  datatype Tally = Tally(sends: nat, gets: nat, unasked: nat, resets: nat, stats: Stats)

  /** `unasked` counts what arrived while the client was not waiting. */
  function Count(log: seq<Event>): Tally
  {
    if log == [] then Tally(0, 0, 0, 0, NO_STATS)
    else
      var before := log[..|log| - 1];
      var t := Count(before);
      match log[|log| - 1]
      case Sent(n) =>
        t.(sends := t.sends + 1, stats := Plus(t.stats, Stats(1, n, 0, 0)))
      case Got(n) =>
        t.(gets := t.gets + 1, unasked := t.unasked + (if Waiting(before) then 0 else 1),
           stats := Plus(t.stats, Stats(0, 0, 1, n)))
      case Reset => t.(resets := t.resets + 1)
      case _ => t
  }

  /** One failure too many has just happened. */
  predicate Exhausted(log: seq<Event>, max: nat)
  {
    log != [] && log[|log| - 1].Failed? && Failures(log) > max
  }

  /** What may come next: a send only when nothing is awaited, and a socket is given up exactly when due. */
  predicate Allowed(log: seq<Event>, e: Event, max: nat)
  {
    && (e.Connected? ==> !Linked(log))
    && (!Linked(log) ==> e.Connected? || e.Reset?)
    && (e.Sent? ==> !Waiting(log))
    && (e.Reset? ==> Waiting(log))
    && (e.GaveUp? <==> Exhausted(log, max))
  }

  predicate Disciplined(log: seq<Event>, max: nat)
  {
    log == [] ||
    (Disciplined(log[..|log| - 1], max) && Allowed(log[..|log| - 1], log[|log| - 1], max))
  }

  // ---------------------------------------------------------------- what discipline gives

  lemma {:induction false} DisciplinedPrefix(log: seq<Event>, max: nat, i: nat)
    requires Disciplined(log, max) && i <= |log|
    ensures Disciplined(log[..i], max)
    ensures i < |log| ==> Allowed(log[..i], log[i], max)
  {
    if i < |log| - 1 {
      DisciplinedPrefix(log[..|log| - 1], max, i);
      assert log[..|log| - 1][..i] == log[..i];
    } else if i == |log| {
      assert log[..i] == log;
    }
  }

  /** Sends never run ahead of answers and resets by more than one, and by one only while waiting. */
  lemma {:induction false} SendsKeepStep(log: seq<Event>, max: nat)
    requires Disciplined(log, max)
    ensures var t := Count(log);
            t.sends + t.unasked == t.gets + t.resets + if Waiting(log) then 1 else 0
    ensures Count(log).sends <= Count(log).gets + Count(log).resets + 1
  {
    if log != [] {
      SendsKeepStep(log[..|log| - 1], max);
    }
  }

  lemma {:induction false} StillWaiting(log: seq<Event>, i: nat)
    requires i < |log| && log[i].Sent?
    requires forall k :: i < k < |log| ==> !log[k].Got? && !log[k].Reset?
    ensures Waiting(log)
  {
    var last := |log| - 1;
    if i < last {
      assert forall k :: i < k < last ==> log[..last][k] == log[k];
      StillWaiting(log[..last], i);
    }
  }

  /** Only an answer or a reset lets the client send again; connecting anew does not. */
  lemma OnlyAnswerOrResetResumes(log: seq<Event>, max: nat, i: nat, j: nat)
    requires Disciplined(log, max) && i < j < |log| && log[i].Sent? && log[j].Sent?
    ensures exists k :: i < k < j && (log[k].Got? || log[k].Reset?)
  {
    DisciplinedPrefix(log, max, j);
    if !exists k :: i < k < j && (log[k].Got? || log[k].Reset?) {
      assert forall k :: 0 <= k < j ==> log[..j][k] == log[k];
      StillWaiting(log[..j], i);
      assert false;
    }
  }

  lemma {:induction false} FailuresLast(log: seq<Event>, max: nat, i: nat)
    requires i <= |log| && forall k :: i <= k < |log| ==> !log[k].Got?
    ensures Failures(log) >= Failures(log[..i])
  {
    var last := |log| - 1;
    if i <= last {
      assert forall k :: i <= k < last ==> log[..last][k] == log[k];
      assert log[..last][..i] == log[..i];
      FailuresLast(log[..last], max, i);
    } else {
      assert log[..i] == log;
    }
  }

  /** Once a socket has been given up, the first failure of a later one ends it too, until data arrives. */
  lemma PatienceIsSpent(log: seq<Event>, max: nat, i: nat, j: nat)
    requires Disciplined(log, max) && i < j < |log| - 1
    requires log[i].GaveUp? && log[j].Failed? && forall k :: i < k < j ==> !log[k].Got?
    ensures log[j + 1].GaveUp?
  {
    DisciplinedPrefix(log, max, i);
    DisciplinedPrefix(log, max, j + 1);
    assert log[..j + 1][..i] == log[..i];
    FailuresLast(log[..j + 1], max, i);
  }

  // ---------------------------------------------------------------- one event more

  /** How the meaning of a log changes by one event. */
  predicate After(log: seq<Event>, e: Event, longer: seq<Event>, max: nat)
  {
    && Waiting(longer) == (e.Sent? || (!e.Got? && !e.Reset? && Waiting(log)))
    && Linked(longer) == (e.Connected? || (!e.GaveUp? && Linked(log)))
    && Failures(longer) == (if e.Got? then 0 else Failures(log) + if e.Failed? then 1 else 0)
    && Exhausted(longer, max) == (e.Failed? && Failures(longer) > max)
    && Count(longer).sends == Count(log).sends + (if e.Sent? then 1 else 0)
    && Count(longer).gets == Count(log).gets + (if e.Got? then 1 else 0)
    && Count(longer).stats == Plus(Count(log).stats, Moved(e))
  }

  function Moved(e: Event): Stats
  {
    match e
    case Sent(n) => Stats(1, n, 0, 0)
    case Got(n) => Stats(0, 0, 1, n)
    case _ => NO_STATS
  }

  lemma Append(log: seq<Event>, e: Event, max: nat)
    ensures After(log, e, log + [e], max)
    ensures Disciplined(log + [e], max) <==> Disciplined(log, max) && Allowed(log, e, max)
  {
    hide Allowed;
    assert (log + [e])[..|log|] == log;
  }

  lemma Nothing(max: nat)
    ensures Disciplined([], max) && !Waiting([]) && !Linked([]) && Failures([]) == 0 && !Exhausted([], max)
    ensures Count([]) == Tally(0, 0, 0, 0, NO_STATS)
  {
  }

  // ---------------------------------------------------------------- the client

  const ESC: char := 27 as char

  /** Whether the client is paused after these keys; each `p` toggles. */
  function Toggled(on: bool, keys: string): bool
  {
    if keys == [] then on
    else
      var before := Toggled(on, keys[..|keys| - 1]);
      if keys[|keys| - 1] == 'p' then !before else before
  }

  function Flatten(parts: seq<string>): string
  {
    if parts == [] then [] else Flatten(parts[..|parts| - 1]) + parts[|parts| - 1]
  }

  datatype WriteReply = NotWritten | Wrote(n: nat)
  datatype Reply = Again | RecvFailed | EndOfStream | Data(n: nat)

  /**
   One pass of the loop as the world has it. `attempts` holds what is typed after each attempt to connect
   that fails; `keys` is what the first look at the keyboard finds, `afterWrite` and `beforeSelect` what
   the looks after a write find.
   */
  datatype Turn = Turn(
    socketOk: bool, attempts: seq<string>, throttled: bool, keys: string, written: WriteReply,
    afterWrite: string, beforeSelect: string, selectFails: bool, ready: bool, reply: Reply)

  /** What is typed before the client decides whether to send; `down` when it must connect first. */
  function Typed(down: bool, t: Turn): string
  {
    (if down then Flatten(t.attempts) else []) + t.keys
  }

  /** The client gets as far as deciding whether to send. */
  predicate Active(down: bool, paused: bool, t: Turn)
  {
    && (down ==> t.socketOk) && ESC !in Typed(down, t)
    && !t.throttled && !Toggled(paused, Typed(down, t))
  }

  predicate Sends(down: bool, paused: bool, silent: bool, t: Turn)
  {
    Active(down, paused, t) && !silent && t.written.Wrote?
  }

  /** It gets as far as `select`. `silent` when it has no business sending. */
  predicate Selects(down: bool, paused: bool, silent: bool, t: Turn)
  {
    && Active(down, paused, t)
    && (silent || (t.written.Wrote? && ESC !in t.afterWrite && ESC !in t.beforeSelect))
  }

  predicate Receives(down: bool, paused: bool, silent: bool, t: Turn)
  {
    Selects(down, paused, silent, t) && !t.selectFails && t.ready
  }

  /** A turn in which nothing can be sent or received. */
  lemma QuietTurn(down: bool, paused: bool, silent: bool, t: Turn)
    requires t.throttled || ESC in t.keys || (down && !t.socketOk) || (!down && paused && 'p' !in t.keys)
    ensures !Sends(down, paused, silent, t) && !Receives(down, paused, silent, t)
  {
    if !down {
      assert Typed(down, t) == t.keys;
      if 'p' !in t.keys {
        KeysWithoutPause(paused, t.keys);
      }
    } else {
      assert ESC in t.keys ==> ESC in Typed(down, t);
    }
  }

  /** An undisturbed turn, in which the client sends if it does not wait, and receives what is there. */
  lemma BusyTurn(silent: bool, t: Turn)
    requires !t.throttled && ESC !in t.keys && 'p' !in t.keys && t.written.Wrote?
    requires ESC !in t.afterWrite && ESC !in t.beforeSelect && !t.selectFails && t.ready
    ensures Sends(false, false, silent, t) == !silent && Receives(false, false, silent, t)
  {
    assert Typed(false, t) == t.keys;
    KeysWithoutPause(false, t.keys);
  }

  lemma {:induction false} KeysWithoutPause(on: bool, keys: string)
    requires 'p' !in keys
    ensures Toggled(on, keys) == on
  {
    if keys != [] {
      KeysWithoutPause(on, keys[..|keys| - 1]);
    }
  }

  /** It does not get a connection. */
  predicate Disappointed(down: bool, t: Turn)
  {
    down && (!t.socketOk || ESC in Flatten(t.attempts))
  }

  /** The user asks to leave where the client looks. */
  predicate Dismissed(down: bool, paused: bool, silent: bool, t: Turn)
  {
    || ESC in t.keys
    || (Active(down, paused, t) && !silent && (ESC in t.afterWrite || (t.written.Wrote? && ESC in t.beforeSelect)))
  }

  class SimpClient {
    const receiveOnly: bool
    const onceOnly: bool
    const maxRecvErrors: nat
    var wait4Reply: bool
    var notConnected: bool
    var isPaused: bool
    var recvErrors: nat
    var current: Stats
    var total: Stats
    ghost var log: seq<Event>

    /** The client's variables say what its log says, all but `wait4Reply`. */
    ghost predicate Agrees()
      reads this
    {
      && Disciplined(log, maxRecvErrors)
      && notConnected == !Linked(log)
      && recvErrors == Failures(log)
      && Plus(total, current) == Count(log).stats
      && (wait4Reply ==> Waiting(log))
      && (receiveOnly ==> Count(log).sends == 0)
    }

    /** So it is at the head of the loop. */
    ghost predicate Valid()
      reads this
    {
      Agrees() && wait4Reply == Waiting(log) && !Exhausted(log, maxRecvErrors)
    }

    constructor (receiveOnly: bool, onceOnly: bool, maxRecvErrors: nat)
      ensures Valid() && log == []
      ensures this.receiveOnly == receiveOnly && this.onceOnly == onceOnly && this.maxRecvErrors == maxRecvErrors
    {
      this.receiveOnly, this.onceOnly, this.maxRecvErrors := receiveOnly, onceOnly, maxRecvErrors;
      wait4Reply, notConnected, isPaused, recvErrors := false, true, false, 0;
      current, total, log := NO_STATS, NO_STATS, [];
      new;
      Fresh();
    }

    lemma Fresh()
      requires log == [] && notConnected && !wait4Reply && recvErrors == 0
      requires current == total == NO_STATS
      ensures Valid()
    {
      hide Disciplined, Linked, Failures, Count, Waiting, Exhausted;
      Nothing(maxRecvErrors);
    }

    ghost method Note(e: Event)
      requires Disciplined(log, maxRecvErrors) && Allowed(log, e, maxRecvErrors)
      modifies this`log
      ensures log == old(log) + [e] && Disciplined(log, maxRecvErrors)
      ensures After(old(log), e, log, maxRecvErrors)
    {
      hide *;
      Append(log, e, maxRecvErrors);
      log := log + [e];
    }

    method ShowStats()
      modifies this`current, this`total
      ensures current == NO_STATS && total == Plus(old(total), old(current))
    {
      total := Plus(total, current);
      current := NO_STATS;
    }

    /** Take all that was typed, up to an escape, which asks to leave. A reset counts only while waiting. */
    method CheckKey(keys: string) returns (leave: bool)
      requires Agrees() && !Exhausted(log, maxRecvErrors)
      modifies this`wait4Reply, this`isPaused, this`current, this`total, this`log
      ensures Agrees() && !Exhausted(log, maxRecvErrors) && old(log) <= log
      ensures leave <==> ESC in keys
      ensures !leave ==> wait4Reply == (old(wait4Reply) && 'r' !in keys) && isPaused == Toggled(old(isPaused), keys)
      ensures wait4Reply ==> old(wait4Reply)
      ensures Waiting(log) == (Waiting(old(log)) && wait4Reply == old(wait4Reply))
      ensures Linked(log) == Linked(old(log)) && recvErrors == old(recvErrors)
      ensures SameTraffic(Count(old(log)), Count(log))
    {
      hide Disciplined, Linked, Failures, Count, Waiting, Exhausted, Toggled, Plus, SameTraffic, Agrees;
      NothingToggled(isPaused);
      SameAs(Count(log));
      for i := 0 to |keys|
        invariant Agrees() && !Exhausted(log, maxRecvErrors) && old(log) <= log && ESC !in keys[..i]
        invariant wait4Reply == (old(wait4Reply) && 'r' !in keys[..i])
        invariant isPaused == Toggled(old(isPaused), keys[..i])
        invariant Waiting(log) == (Waiting(old(log)) && wait4Reply == old(wait4Reply))
        invariant Linked(log) == Linked(old(log)) && SameTraffic(Count(old(log)), Count(log))
      {
        OneMoreKey(old(isPaused), keys[..i], keys[i]);
        assert keys[..i + 1] == keys[..i] + [keys[i]];
        ghost var before := log;
        leave := TakeKey(keys[i]);
        SameTwice(Count(old(log)), Count(before), Count(log));
        if leave {
          return;
        }
      }
      assert keys[..|keys|] == keys;
      return false;
    }

    method TakeKey(key: char) returns (leave: bool)
      requires Agrees() && !Exhausted(log, maxRecvErrors)
      modifies this`wait4Reply, this`isPaused, this`current, this`total, this`log
      ensures Agrees() && !Exhausted(log, maxRecvErrors) && old(log) <= log
      ensures leave <==> key == ESC
      ensures wait4Reply == (old(wait4Reply) && key != 'r')
      ensures isPaused == if key == 'p' then !old(isPaused) else old(isPaused)
      ensures current == if key == 's' || (key == '?' && old(current.sends != 0 || current.recvs != 0)) then NO_STATS else old(current)
      ensures Waiting(log) == (Waiting(old(log)) && wait4Reply == old(wait4Reply))
      ensures Linked(log) == Linked(old(log)) && SameTraffic(Count(old(log)), Count(log))
    {
      hide Disciplined, Linked, Failures, Count, Waiting, Exhausted, Toggled;
      leave := false;
      match key
      case '?' =>
        if current.sends != 0 || current.recvs != 0 {
          ShowStats();
        }
      case 'p' => isPaused := !isPaused;
      case 'r' =>
        if wait4Reply {
          wait4Reply := false;
          Note(Reset);
        }
      case 's' => ShowStats();
      case _ => leave := key == ESC;
    }

    /** Connect, trying until it works or the user wants to leave. */
    method DoClientConnect(t: Turn) returns (iret: int)
      requires Valid() && notConnected
      modifies this
      ensures Agrees() && old(log) <= log && SameTraffic(Count(old(log)), Count(log))
      ensures (iret == 0 || iret == 1) && recvErrors == old(recvErrors)
      ensures iret == 0 <==> t.socketOk && ESC !in Flatten(t.attempts)
      ensures iret == 0 ==>
                && Valid() && !notConnected
                && wait4Reply == (old(wait4Reply) && 'r' !in Flatten(t.attempts))
                && isPaused == Toggled(old(isPaused), Flatten(t.attempts))
    {
      hide Disciplined, Linked, Failures, Count, Waiting, Exhausted, Toggled;
      if !t.socketOk {
        return 1;
      }
      NothingTyped(isPaused);
      var cycleCount := 0;
      while notConnected
        invariant 0 <= cycleCount <= |t.attempts| && Agrees() && !Exhausted(log, maxRecvErrors)
        invariant wait4Reply == Waiting(log) && old(log) <= log && SameTraffic(Count(old(log)), Count(log))
        invariant ESC !in Flatten(t.attempts[..cycleCount])
        invariant wait4Reply == (old(wait4Reply) && 'r' !in Flatten(t.attempts[..cycleCount]))
        invariant isPaused == Toggled(old(isPaused), Flatten(t.attempts[..cycleCount]))
        invariant !notConnected ==> cycleCount == |t.attempts|
        invariant recvErrors == old(recvErrors)
        decreases |t.attempts| - cycleCount, notConnected
      {
        if cycleCount < |t.attempts| {
          Typing(old(isPaused), t.attempts, cycleCount);
          var leave := CheckKey(t.attempts[cycleCount]);
          if leave {
            return 1;
          }
          cycleCount := cycleCount + 1;
        } else {
          notConnected := false;
          Note(Connected);
        }
      }
      assert t.attempts[..|t.attempts|] == t.attempts;
      ShowStats();
      return 0;
    }

    /** One pass of the forever loop; `leave` when it is over. */
    method Cycle(t: Turn) returns (leave: bool, iret: int)
      requires Valid()
      modifies this
      ensures Agrees() && old(log) <= log
      ensures !leave ==> Valid()
      ensures iret == 0 || (iret == 1 && leave)
      ensures var down, paused, silent := old(notConnected), old(isPaused), old(Silent(t));
              var received := Receives(down, paused, silent, t);
              && (iret == 1 <==>
                    || Disappointed(down, t)
                    || (Selects(down, paused, silent, t) && t.selectFails)
                    || (received && t.reply.EndOfStream? && old(recvErrors) >= maxRecvErrors))
              && (leave <==>
                    || iret == 1
                    || Dismissed(down, paused, silent, t)
                    || (received && t.reply.Data? && onceOnly))
              && (!leave ==> (notConnected <==> received && t.reply.RecvFailed? && old(recvErrors) >= maxRecvErrors))
      ensures Count(log).sends ==
              Count(old(log)).sends + if Sends(old(notConnected), old(isPaused), old(Silent(t)), t) then 1 else 0
      ensures Count(log).gets ==
              Count(old(log)).gets +
              if Receives(old(notConnected), old(isPaused), old(Silent(t)), t) && t.reply.Data? then 1 else 0
    {
      hide Disciplined, Linked, Failures, Count, Waiting, Exhausted, Toggled, Flatten, Plus, Agrees;
      leave, iret := true, 0;
      ghost var silent := Silent(t);
      ghost var down := notConnected;
      NothingToggled(isPaused);
      TogglesAppend(isPaused, if down then Flatten(t.attempts) else [], t.keys);
      if notConnected {
        iret := DoClientConnect(t);
        if iret != 0 {
          return;
        }
      }
      leave := CheckKey(t.keys);
      if leave || t.throttled || isPaused {
        return;
      }
      if !receiveOnly && !wait4Reply {
        leave := SendNext(t);
        if leave || t.written.NotWritten? {
          return;
        }
      }
      if t.selectFails {
        return true, 1;
      }
      if !t.ready {
        return;
      }
      leave, iret := ReceiveNext(t);
    }

    /** Send a message; from then on an answer is awaited, unless the user leaves first. */
    method SendNext(t: Turn) returns (leave: bool)
      requires Valid() && !notConnected && !receiveOnly && !wait4Reply
      modifies this
      ensures Agrees() && old(log) <= log
      ensures leave <==> ESC in t.afterWrite || (t.written.Wrote? && ESC in t.beforeSelect)
      ensures !leave ==> Valid() && !notConnected && wait4Reply == t.written.Wrote? && recvErrors == old(recvErrors)
      ensures Count(log).sends == Count(old(log)).sends + if t.written.Wrote? then 1 else 0
      ensures Count(log).gets == Count(old(log)).gets
      ensures total.sends + current.sends == old(total.sends + current.sends) + if t.written.Wrote? then 1 else 0
      ensures total.sentBytes + current.sentBytes ==
              old(total.sentBytes + current.sentBytes) + if t.written.Wrote? then t.written.n else 0
    {
      hide Disciplined, Linked, Failures, Count, Waiting, Exhausted, Toggled;
      if t.written.NotWritten? {
        leave := CheckKey(t.afterWrite);
        return;
      }
      current := current.(sends := current.sends + 1, sentBytes := current.sentBytes + t.written.n);
      Note(Sent(t.written.n));
      leave := CheckKey(t.afterWrite);
      if leave {
        return;
      }
      leave := CheckKey(t.beforeSelect);
      if leave {
        return;
      }
      wait4Reply := true;
    }

    /** Receive once; too many failures in a row end the connection, or the run. */
    method ReceiveNext(t: Turn) returns (leave: bool, iret: int)
      requires Valid() && !notConnected
      modifies this
      ensures Agrees() && old(log) <= log && (!leave ==> Valid())
      ensures iret == if t.reply.EndOfStream? && old(recvErrors) >= maxRecvErrors then 1 else 0
      ensures leave <==> iret == 1 || (t.reply.Data? && onceOnly)
      ensures notConnected <==> t.reply.RecvFailed? && old(recvErrors) >= maxRecvErrors
      ensures recvErrors == match t.reply
                            case Again => old(recvErrors)
                            case Data(_) => 0
                            case _ => old(recvErrors) + 1
      ensures wait4Reply == (old(wait4Reply) && !t.reply.Data?)
      ensures total == old(total)
      ensures current == match t.reply
                         case Data(n) => Stats(old(current.sends), old(current.sentBytes), old(current.recvs) + 1, old(current.recvBytes) + n)
                         case _ => old(current)
      ensures Count(log).sends == Count(old(log)).sends
      ensures Count(log).gets == Count(old(log)).gets + if t.reply.Data? then 1 else 0
    {
      hide Disciplined, Linked, Failures, Count, Waiting, Exhausted;
      leave, iret := false, 0;
      match t.reply
      case Again =>
      case RecvFailed =>
        Note(Failed);
        recvErrors := recvErrors + 1;
        if recvErrors > maxRecvErrors {
          notConnected := true;
          Note(GaveUp);
        }
      case EndOfStream =>
        Note(Failed);
        recvErrors := recvErrors + 1;
        if recvErrors > maxRecvErrors {
          return true, 1;
        }
      case Data(n) =>
        Note(Got(n));
        current := current.(recvs := current.recvs + 1, recvBytes := current.recvBytes + n);
        recvErrors := 0;
        wait4Reply := false;
        leave := onceOnly;
    }

    /** The client will not send in this turn: it only receives, or waits and is not told otherwise. */
    predicate Silent(t: Turn)
      reads this
    {
      receiveOnly || (wait4Reply && 'r' !in Typed(notConnected, t))
    }

    /** Any run: the log keeps the discipline and the statistics shown add up to what happened. */
    method Run(turns: seq<Turn>) returns (iret: int)
      requires Valid()
      modifies this
      ensures Disciplined(log, maxRecvErrors) && Plus(total, current) == Count(log).stats
      ensures receiveOnly ==> Count(log).sends == 0
      ensures wait4Reply ==> Waiting(log)
    {
      hide Disciplined, Linked, Failures, Count, Waiting, Exhausted;
      for n := 0 to |turns|
        invariant Valid()
      {
        var leave;
        leave, iret := Cycle(turns[n]);
        if leave {
          return;
        }
      }
      iret := 0;
    }
  }

  /** Keys change nothing about what was sent and received. */
  predicate SameTraffic(a: Tally, b: Tally)
  {
    a.sends == b.sends && a.gets == b.gets && a.stats == b.stats
  }

  lemma SameAs(a: Tally)
    ensures SameTraffic(a, a)
  {
  }

  lemma SameTwice(a: Tally, b: Tally, c: Tally)
    requires SameTraffic(a, b) && SameTraffic(b, c)
    ensures SameTraffic(a, c)
  {
  }

  lemma NothingToggled(on: bool)
    ensures Toggled(on, []) == on
  {
  }

  lemma NothingTyped(on: bool)
    ensures Flatten([]) == [] && Toggled(on, []) == on
  {
  }

  lemma OneMoreKey(on: bool, keys: string, key: char)
    ensures Toggled(on, keys + [key]) == if key == 'p' then !Toggled(on, keys) else Toggled(on, keys)
  {
    assert (keys + [key])[..|keys|] == keys;
  }

  lemma {:induction false} TogglesAppend(on: bool, a: string, b: string)
    ensures Toggled(on, a + b) == Toggled(Toggled(on, a), b)
  {
    if b == [] {
      assert a + b == a;
    } else {
      TogglesAppend(on, a, b[..|b| - 1]);
      assert (a + b)[..|a + b| - 1] == a + b[..|b| - 1];
    }
  }

  lemma {:induction false} FlattenHas(parts: seq<string>, i: nat, c: char)
    requires i < |parts| && c in parts[i]
    ensures c in Flatten(parts)
  {
    var last := |parts| - 1;
    if i < last {
      FlattenHas(parts[..last], i, c);
    }
  }

  lemma Typing(on: bool, parts: seq<string>, i: nat)
    requires i < |parts|
    ensures Flatten(parts[..i + 1]) == Flatten(parts[..i]) + parts[i]
    ensures Toggled(on, Flatten(parts[..i + 1])) == Toggled(Toggled(on, Flatten(parts[..i])), parts[i])
    ensures ESC in parts[i] ==> ESC in Flatten(parts)
  {
    assert parts[..i + 1][..i] == parts[..i];
    TogglesAppend(on, Flatten(parts[..i]), parts[i]);
    if ESC in parts[i] {
      FlattenHas(parts, i, ESC);
    }
  }
}
