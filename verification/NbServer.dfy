/**
 The line server of `src/nbserver.cxx`: a table of at most N connections, each of which sends lines and
 gets them back in upper case.
 */
module NbServer {
  import opened Kernel
  import opened SockHelp
  import opened Transfer

  const MX_RCV: nat := 128
  const BUSY := "Sorry, this server is too busy. Try again later!\r\n"

  // ---------------------------------------------------------------- one line, one reply

  function ToUpper(c: char): char
  {
    if 'a' <= c <= 'z' then (c as int - 32) as char else c
  }

  /** Small letters become the capitals at the same place of the alphabet, and nothing else changes. */
  function Upper(s: string): (r: string)
    ensures |r| == |s|
    ensures forall i :: 0 <= i < |s| ==> r[i] == ToUpper(s[i])
    ensures forall i :: 0 <= i < |s| && 'a' <= s[i] <= 'z' ==> 'A' <= r[i] <= 'Z' && r[i] - 'A' == s[i] - 'a'
    ensures forall i :: 0 <= i < |s| && !('a' <= s[i] <= 'z') ==> r[i] == s[i]
  {
    if s == [] then [] else Upper(s[..|s| - 1]) + [ToUpper(s[|s| - 1])]
  }

  /** What `deal_with_data` makes of a connection; true when the slot is freed. */
  function Deal(p: Peer): (bool, Peer)
  {
    var g := Gets(p.inbox, p.idle, MX_RCV, []);
    var q := p.(inbox := g.rest);
    if g.code <= 0 then (true, q)
    else
      var reply := Upper(g.line) + "\n";
      var w := WriteFully(p.outcomes, |reply|, true);
      (false, q.(sent := p.sent + reply[..w.accepted], outcomes := w.rest))
  }

  /** What a reader of single characters comes across. A pause is a read that finds nothing yet. */
  datatype Mark = Char(c: char) | Pause | Broken

  function Chars(s: string): (m: seq<Mark>)
    ensures |m| == |s| && forall i :: 0 <= i < |s| ==> m[i] == Char(s[i])
  {
    seq(|s|, i requires 0 <= i < |s| => Char(s[i]))
  }

  /** All that is to come on a connection. Behind the end of the stream there is nothing more. */
  function Marks(inbox: seq<Item>): seq<Mark>
  {
    if inbox == [] then []
    else
      match inbox[0]
      case Data(b) => (if b == [] then [Pause] else Chars(b)) + Marks(inbox[1..])
      case EndOfStream => []
      case ReadError(e) => [if e == EAGAIN then Pause else Broken] + Marks(inbox[1..])
  }

  /** The characters before the first line feed, pause or error. */
  function Fragment(m: seq<Mark>): (s: string)
    ensures |s| <= |m| && '\n' !in s
  {
    if m == [] || !m[0].Char? || m[0].c == '\n' then [] else [m[0].c] + Fragment(m[1..])
  }

  /** What follows the fragment and the mark that ends it. */
  function AfterFragment(m: seq<Mark>): seq<Mark>
  {
    var n := |Fragment(m)|;
    if n < |m| then m[n + 1..] else []
  }

  /** An error ends the fragment. */
  predicate Breaks(m: seq<Mark>)
  {
    var n := |Fragment(m)|;
    n < |m| && m[n].Broken?
  }

  function Truncated(s: string, n: nat): string
  {
    if |s| <= n then s else s[..n]
  }

  lemma NextMark(inbox: seq<Item>, idle: Idle)
    ensures var (reply, rest) := NextRead(inbox, idle, 1);
            var m := Marks(inbox);
            if m == [] then
              Marks(rest) == [] && (reply == NoBytes(EAGAIN) || reply == Bytes([]))
            else
              && Marks(rest) == m[1..]
              && match m[0]
                 case Char(c) => reply == Bytes([c])
                 case Pause => reply == NoBytes(EAGAIN) || reply == Bytes([])
                 case Broken => reply.NoBytes? && reply.errno != EAGAIN
  {
    hide Size, Marks, Chars;
    if inbox != [] {
      MarksStep(inbox);
    } else {
      NoMarks();
    }
    if inbox != [] && inbox[0].Data? && inbox[0].bytes != [] {
      var b, tail := inbox[0].bytes, inbox[1..];
      FirstChar(b, Marks(tail));
      if |b| > 1 {
        var rest := [Data(b[1..])] + tail;
        assert NextRead(inbox, idle, 1) == (Bytes(b[..1]), rest);
        assert rest[0] == Data(b[1..]) && rest[1..] == tail;
        MarksStep(rest);
      }
    }
  }

  lemma MarksStep(inbox: seq<Item>)
    requires inbox != []
    ensures Marks(inbox) ==
            match inbox[0]
            case Data(b) => (if b == [] then [Pause] else Chars(b)) + Marks(inbox[1..])
            case EndOfStream => []
            case ReadError(e) => [if e == EAGAIN then Pause else Broken] + Marks(inbox[1..])
  {
  }

  lemma NoMarks()
    ensures Marks([]) == []
  {
  }

  lemma FirstChar(b: string, tail: seq<Mark>)
    requires b != []
    ensures b[..1] == [b[0]]
    ensures var m := Chars(b) + tail;
            m != [] && m[0] == Char(b[0]) && m[1..] == Chars(b[1..]) + tail && (|b| == 1 ==> m[1..] == tail)
  {
    assert Chars(b) == [Char(b[0])] + Chars(b[1..]);
  }

  lemma FragmentStep(m: seq<Mark>)
    ensures m == [] || !m[0].Char? || m[0].c == '\n' ==>
              Fragment(m) == [] && AfterFragment(m) == (if m == [] then [] else m[1..]) && (Breaks(m) <==> m != [] && m[0].Broken?)
    ensures m != [] && m[0].Char? && m[0].c != '\n' ==>
              && Fragment(m) == [m[0].c] + Fragment(m[1..])
              && AfterFragment(m) == AfterFragment(m[1..]) && (Breaks(m) <==> Breaks(m[1..]))
  {
  }

  /** From any input `sock_gets` takes one fragment, keeps what fits of it, and drops the mark that ends it. */
  lemma {:induction false} GetsTakesLine(inbox: seq<Item>, idle: Idle, count: nat, have: string)
    requires |have| <= count
    ensures var g, m := Gets(inbox, idle, count, have), Marks(inbox);
            && g.line == Truncated(have + Fragment(m), count)
            && g.code == (if Breaks(m) then -1 else |g.line|)
            && Marks(g.rest) == AfterFragment(m)
    decreases Size(inbox)
  {
    hide NextRead, Marks, Fragment, AfterFragment, Breaks, Truncated, Size;
    var m := Marks(inbox);
    NextMark(inbox, idle);
    FragmentStep(m);
    TruncatedShort(have, count);
    if m != [] && m[0].Char? && m[0].c != '\n' {
      var (reply, rest) := NextRead(inbox, idle, 1);
      TruncatedStep(have, m[0].c, Fragment(m[1..]), count);
      GetsTakesLine(rest, idle, count, if |have| < count then have + reply.bytes else have);
    }
  }

  lemma TruncatedShort(have: string, count: nat)
    requires |have| <= count
    ensures Truncated(have + [], count) == have
  {
    assert have + [] == have;
  }

  lemma TruncatedStep(have: string, c: char, tail: string, count: nat)
    requires |have| <= count
    ensures Truncated(have + ([c] + tail), count) == Truncated((if |have| < count then have + [c] else have) + tail, count)
  {
    assert have + ([c] + tail) == (have + [c]) + tail;
  }

  lemma {:induction false} NoLineFeed(inbox: seq<Item>, idle: Idle, count: nat, have: string)
    requires |have| <= count && '\n' !in have
    ensures '\n' !in Gets(inbox, idle, count, have).line
    decreases Size(inbox)
  {
    var (reply, rest) := NextRead(inbox, idle, 1);
    if reply.Bytes? && reply.bytes != [] && reply.bytes[0] != '\n' {
      NoLineFeed(rest, idle, count, if |have| < count then have + reply.bytes else have);
    }
  }

  /** On any input a slot is freed exactly when there is nothing before the next line feed or pause, or an error comes first. */
  lemma FreedExactly(p: Peer)
    ensures Deal(p).0 <==> Fragment(Marks(p.inbox)) == [] || Breaks(Marks(p.inbox))
    ensures Marks(Deal(p).1.inbox) == AfterFragment(Marks(p.inbox))
  {
    hide Gets, WriteFully, Marks, Fragment, AfterFragment, Breaks, Upper;
    GetsTakesLine(p.inbox, p.idle, MX_RCV, []);
    var f := Fragment(Marks(p.inbox));
    assert [] + f == f;
  }

  /**
   Any other round sends the fragment back, cut to 128 characters and with a line feed of its own; small
   letters come back as capitals.
   */
  lemma OneRound(p: Peer) returns (text: string, reply: string)
    requires Willing(p.outcomes) && Fragment(Marks(p.inbox)) != [] && !Breaks(Marks(p.inbox))
    ensures text == Truncated(Fragment(Marks(p.inbox)), MX_RCV) && reply == Upper(text) + "\n"
    ensures var (closed, q) := Deal(p);
            && !closed && Willing(q.outcomes)
            && q.sent == p.sent + reply
            && Marks(q.inbox) == AfterFragment(Marks(p.inbox))
    ensures |text| <= 128 && text <= Fragment(Marks(p.inbox)) && (|text| < 128 ==> text == Fragment(Marks(p.inbox)))
    ensures |reply| == |text| + 1 && reply[|text|] == '\n'
    ensures forall i :: 0 <= i < |text| ==>
              if 'a' <= text[i] <= 'z' then 'A' <= reply[i] <= 'Z' && reply[i] - 'A' == text[i] - 'a' else reply[i] == text[i]
  {
    hide Gets, WriteFully, Marks, Fragment, AfterFragment, Breaks, Willing, Upper;
    GetsTakesLine(p.inbox, p.idle, MX_RCV, []);
    var f := Fragment(Marks(p.inbox));
    assert [] + f == f;
    text := Truncated(f, MX_RCV);
    reply := Upper(text) + "\n";
    WillingTakesAll(p.outcomes, |reply|);
    assert reply[..|reply|] == reply;
  }

  /** A run of `n` rounds on one connection. */
  function Rounds(p: Peer, n: nat): (bool, Peer)
    decreases n
  {
    if n == 0 then (false, p)
    else if Deal(p).0 then Deal(p)
    else Rounds(Deal(p).1, n - 1)
  }

  /** A piece of input: a whole line, or what there is of one when the sender pauses. */
  datatype Piece = Piece(text: string, paused: bool)

  function Arriving(pieces: seq<Piece>): seq<Mark>
  {
    if pieces == [] then []
    else Chars(pieces[0].text) + [if pieces[0].paused then Pause else Char('\n')] + Arriving(pieces[1..])
  }

  function Replies(pieces: seq<Piece>): string
  {
    if pieces == [] then [] else Upper(Truncated(pieces[0].text, MX_RCV)) + "\n" + Replies(pieces[1..])
  }

  /**
   The service end to end: non-empty pieces come back one by one, upper-cased, cut to 128 characters and
   each with a line feed, however the bytes arrive and however small the pieces in which the replies are
   taken. Without pauses the pieces are the lines.
   */
  lemma {:induction false} LineService(p: Peer, pieces: seq<Piece>, more: seq<Mark>)
    requires Willing(p.outcomes)
    requires Marks(p.inbox) == Arriving(pieces) + more
    requires forall i :: 0 <= i < |pieces| ==> pieces[i].text != [] && '\n' !in pieces[i].text
    ensures var (closed, q) := Rounds(p, |pieces|);
            && !closed
            && q.sent == p.sent + Replies(pieces)
            && Marks(q.inbox) == more && Willing(q.outcomes)
    decreases |pieces|
  {
    hide Willing, Deal, Truncated, Upper, Fragment, AfterFragment, Breaks, Marks, Chars;
    if pieces == [] {
      assert p.sent + Replies(pieces) == p.sent && Arriving(pieces) + more == more;
    } else {
      var text, end, tail := pieces[0].text, if pieces[0].paused then Pause else Char('\n'), Arriving(pieces[1..]) + more;
      assert Chars(text) + [end] + Arriving(pieces[1..]) + more == Chars(text) + [end] + tail;
      FragmentIs(text, end, tail);
      var _, reply := OneRound(p);
      LineService(Deal(p).1, pieces[1..], more);
      assert (p.sent + reply) + Replies(pieces[1..]) == p.sent + (reply + Replies(pieces[1..]));
    }
  }

  /** The replies one by one and character by character: `reply` answers piece `i`. */
  lemma {:induction false} RepliesByCharacter(pieces: seq<Piece>, i: nat) returns (text: string, reply: string)
    requires i < |pieces|
    ensures Replies(pieces) == Replies(pieces[..i]) + (reply + Replies(pieces[i + 1..]))
    ensures |text| <= 128 && text <= pieces[i].text && (|text| < 128 ==> text == pieces[i].text)
    ensures |reply| == |text| + 1 && reply[|text|] == '\n'
    ensures forall j :: 0 <= j < |text| ==>
              if 'a' <= text[j] <= 'z' then 'A' <= reply[j] <= 'Z' && reply[j] - 'A' == text[j] - 'a' else reply[j] == text[j]
  {
    hide Upper, Replies, Truncated;
    RepliesFirst(pieces);
    if i == 0 {
      text := Truncated(pieces[0].text, MX_RCV);
      reply := Upper(text) + "\n";
      TruncatedIs(pieces[0].text);
      assert pieces[..0] == [] && [] + (reply + Replies(pieces[1..])) == reply + Replies(pieces[1..]);
    } else {
      var tail, first := pieces[1..], Upper(Truncated(pieces[0].text, MX_RCV)) + "\n";
      text, reply := RepliesByCharacter(tail, i - 1);
      assert pieces[..i][1..] == tail[..i - 1] && pieces[..i][0] == pieces[0] && tail[i..] == pieces[i + 1..];
      RepliesFirst(pieces[..i]);
      var before, after := Replies(tail[..i - 1]), reply + Replies(pieces[i + 1..]);
      assert first + (before + after) == (first + before) + after;
    }
  }

  lemma RepliesFirst(pieces: seq<Piece>)
    ensures Replies([]) == []
    ensures pieces != [] ==> Replies(pieces) == Upper(Truncated(pieces[0].text, MX_RCV)) + "\n" + Replies(pieces[1..])
  {
  }

  lemma TruncatedIs(s: string)
    ensures var t := Truncated(s, MX_RCV);
            |t| <= 128 && t <= s && (|t| < 128 ==> t == s)
  {
  }

  lemma {:induction false} FragmentIs(text: string, end: Mark, tail: seq<Mark>)
    requires '\n' !in text && (end == Pause || end == Char('\n'))
    ensures var m := Chars(text) + [end] + tail;
            Fragment(m) == text && AfterFragment(m) == tail && !Breaks(m)
  {
    hide AfterFragment, Breaks, Fragment;
    var m := Chars(text) + [end] + tail;
    FragmentStep(m);
    if text != [] {
      assert m[0] == Char(text[0]);
      assert m[1..] == Chars(text[1..]) + [end] + tail;
      FragmentIs(text[1..], end, tail);
    } else {
      assert m[0] == end && m[1..] == tail;
    }
  }

  // ---------------------------------------------------------------- the connection table

  /** The connections in a table, whose free slots hold 0. */
  function Live(slots: seq<int>): set<int>
  {
    set i | 0 <= i < |slots| && slots[i] != 0 :: slots[i]
  }

  predicate NonZeroDistinct(slots: seq<int>)
  {
    forall i, j :: 0 <= i < j < |slots| && slots[i] != 0 ==> slots[i] != slots[j]
  }

  function FirstFree(slots: seq<int>): (n: nat)
    ensures n <= |slots| && (n < |slots| ==> slots[n] == 0)
    ensures forall i :: 0 <= i < n ==> slots[i] != 0
  {
    if slots == [] || slots[0] == 0 then 0 else 1 + FirstFree(slots[1..])
  }

  lemma InLive(slots: seq<int>, fd: int)
    ensures fd in Live(slots) <==> fd != 0 && exists i :: 0 <= i < |slots| && slots[i] == fd
  {
  }

  lemma LiveUpdate(slots: seq<int>, i: nat, fd: int)
    requires i < |slots| && NonZeroDistinct(slots)
    requires slots[i] == 0 || fd == 0
    requires fd != 0 ==> fd !in slots
    ensures NonZeroDistinct(slots[i := fd])
    ensures Live(slots[i := fd]) == (if fd == 0 then Live(slots) - {slots[i]} else Live(slots) + {fd})
  {
    var after := slots[i := fd];
    forall x
      ensures x in Live(after) <==> x in if fd == 0 then Live(slots) - {slots[i]} else Live(slots) + {fd}
    {
      InLive(slots, x);
      InLive(after, x);
      if j :| 0 <= j < |slots| && slots[j] == x && j != i {
        assert after[j] == x;
      }
      if x == fd {
        assert after[i] == x;
      }
      if j :| 0 <= j < |slots| && after[j] == x && j != i {
        assert slots[j] == x;
      }
    }
  }

  predicate IsLook(e: Event)
  {
    e.Selected? || e.NoneReady?
  }

  /** How often `select` was called. */
  function Looks(log: seq<Event>): nat
  {
    if log == [] then 0 else Looks(log[..|log| - 1]) + if IsLook(log[|log| - 1]) then 1 else 0
  }

  predicate NoLook(before: seq<Event>, after: seq<Event>)
  {
    before <= after && forall j :: |before| <= j < |after| ==> !IsLook(after[j])
  }

  lemma LooksNext(log: seq<Event>, e: Event)
    ensures Looks(log + [e]) == Looks(log) + if IsLook(e) then 1 else 0
  {
    assert (log + [e])[..|log|] == log;
  }

  lemma {:induction false} LooksSame(before: seq<Event>, after: seq<Event>)
    requires NoLook(before, after)
    ensures Looks(after) == Looks(before)
  {
    if |before| < |after| {
      LooksSame(before, after[..|after| - 1]);
    } else {
      assert before == after;
    }
  }

  lemma NoLookIn(before: seq<Event>, after: seq<Event>, fd: int)
    requires before <= after
    requires forall j :: |before| <= j < |after| ==> Traffic(after[j], fd) || after[j] == Closed(fd)
    ensures NoLook(before, after)
  {
  }

  class Server {
    const k: Kernel
    const sock: int
    /** What the process had open besides its listening socket. */
    ghost const base: set<int>
    /** `connectlist`: the descriptor in each slot. */
    const slots: array<int>
    var highsock: int
    var socks: set<int>

    ghost predicate Valid()
      reads this, k, slots
    {
      Table() && k.open == base + {sock} + Live(slots[..])
    }

    ghost predicate Table()
      reads this, k, slots
    {
      && k.Valid()
      && 0 in base + {sock} && sock in k.open && sock !in base && sock <= highsock
      && NonZeroDistinct(slots[..])
      && forall i :: 0 <= i < slots.Length && slots[i] != 0 ==> SlotOk(slots[i])
    }

    ghost predicate SlotOk(fd: int)
      reads this, k
    {
      fd in k.open && fd in k.peers && fd !in base && fd != sock
    }

    /**
     Descriptor 0 is taken: by standard input or, if that was closed before, by the listening socket,
     since `socket()` returns the lowest number there is. So no connection gets it, and 0 can mark a free slot.
     */
    constructor (k: Kernel, sock: int, n: nat)
      requires k.Valid() && sock in k.open && 0 in k.open
      ensures Valid() && this.k == k && this.sock == sock && base == k.open - {sock}
      ensures fresh(slots) && slots.Length == n && forall i :: 0 <= i < n ==> slots[i] == 0
    {
      this.k, this.sock, base := k, sock, k.open - {sock};
      slots := new int[n](_ => 0);
      highsock, socks := sock, {};
      new;
      hide Legal, OpenAfter;
      assert Live(slots[..]) == {};
    }

    /** Everything that should wake the server up; `highsock` is raised to cover it. */
    method BuildSelectList()
      requires Valid()
      modifies this`socks, this`highsock
      ensures Valid() && socks == {sock} + Live(slots[..])
      ensures forall fd :: fd in socks ==> fd <= highsock
    {
      hide Legal, OpenAfter;
      socks := {sock};
      for i := 0 to slots.Length
        invariant Valid()
        invariant socks == {sock} + Live(slots[..i])
        invariant forall fd :: fd in socks ==> fd <= highsock
      {
        assert Live(slots[..i + 1]) == Live(slots[..i]) + (if slots[i] == 0 then {} else {slots[i]}) by {
          LiveAppend(slots[..i], slots[i]);
          assert slots[..i + 1] == slots[..i] + [slots[i]];
        }
        assert slots[i] != 0 ==> SlotOk(slots[i]);
        if slots[i] != 0 && slots[i] != -1 {
          socks := socks + {slots[i]};
          if slots[i] > highsock {
            highsock := slots[i];
          }
        }
      }
      assert slots[..slots.Length] == slots[..];
    }

    static lemma LiveAppend(s: seq<int>, fd: int)
      ensures Live(s + [fd]) == Live(s) + if fd == 0 then {} else {fd}
    {
      forall x
        ensures x in Live(s + [fd]) <==> x in Live(s) || (x == fd && fd != 0)
      {
        InLive(s, x);
        InLive(s + [fd], x);
        if i :| 0 <= i < |s| && s[i] == x {
          assert (s + [fd])[i] == x;
        }
        if x == fd {
          assert (s + [fd])[|s|] == x;
        }
      }
    }

    /**
     Take a new connection. It gets the lowest free slot; when there is none it is told so and closed.
     When `accept` fails the program closes its listening socket and exits.
     */
    method HandleNewConnection() returns (running: bool)
      requires Valid()
      modifies k, slots
      ensures k.fuel <= old(k.fuel) && old(k.log) <= k.log
      ensures running ==> Valid() && |k.log| > |old(k.log)| && k.log[|old(k.log)|].Opened?
      ensures running ==>
                var free := FirstFree(old(slots[..]));
                var fd := k.log[|old(k.log)|].fd;
                && fd !in old(k.open)
                && (if free == slots.Length then
                      && slots[..] == old(slots[..])
                      && k.open == old(k.open) && k.log[|k.log| - 1] == Closed(fd)
                      && Tried(old(k.log) + [Opened(fd)], k.log, fd, BUSY)
                    else
                      && slots[..] == old(slots[..])[free := fd]
                      && k.open == old(k.open) + {fd} && k.log == old(k.log) + [Opened(fd)])
                && forall f :: f in old(k.peers) && f != fd ==> f in k.peers && k.peers[f] == old(k.peers)[f]
      ensures !running ==> k.Valid() && k.open == old(k.open) - {sock} && slots[..] == old(slots[..])
      ensures NoLook(old(k.log), k.log)
    {
      hide Legal, OpenAfter, FirstFree, Live, NextWrite, Tried;
      assert forall i :: 0 <= i < slots.Length && slots[i] != 0 ==> SlotOk(slots[i]);
      var connection, wouldBlock := k.Accept(sock);
      if connection < 0 {
        k.Close(sock);
        return false;
      }
      running := true;
      Admit(connection);
    }

    /** Give a connection that has just been accepted a slot, or turn it away. */
    method Admit(connection: int)
      requires Table() && connection in k.open && connection in k.peers && connection !in base && connection != sock
      requires connection > 0 && connection !in slots[..]
      requires k.open == base + {sock} + Live(slots[..]) + {connection}
      modifies k, slots
      ensures Valid() && k.fuel == old(k.fuel) && old(k.log) <= k.log
      ensures var free := FirstFree(old(slots[..]));
              if free == slots.Length then
                && slots[..] == old(slots[..])
                && k.open == old(k.open) - {connection} && k.log[|k.log| - 1] == Closed(connection)
                && Tried(old(k.log), k.log, connection, BUSY)
              else
                slots[..] == old(slots[..])[free := connection] && k.open == old(k.open) && k.log == old(k.log)
      ensures forall f :: f in old(k.peers) && f != connection ==> f in k.peers && k.peers[f] == old(k.peers)[f]
      ensures NoLook(old(k.log), k.log)
    {
      hide Legal, OpenAfter, FirstFree, Live, NextWrite, Tried;
      ghost var before := slots[..];
      assert forall i :: 0 <= i < |before| && before[i] != 0 ==> SlotOk(before[i]);
      InLive(before, connection);
      var rest := Place(connection);
      if rest != -1 {
        Refuse(rest);
      } else {
        LiveUpdate(before, FirstFree(before), connection);
      }
    }

    /** Put a connection into the lowest free slot; -1 marks it as done. */
    method Place(connection: int) returns (rest: int)
      requires connection > 0
      modifies slots
      ensures var free := FirstFree(old(slots[..]));
              if free == slots.Length then rest == connection && slots[..] == old(slots[..])
              else rest == -1 && slots[..] == old(slots[..])[free := connection]
    {
      hide FirstFree;
      rest := connection;
      var listnum := 0;
      while listnum < slots.Length && rest != -1
        invariant 0 <= listnum <= slots.Length
        invariant rest != -1 ==>
                    rest == connection && slots[..] == old(slots[..]) && forall i :: 0 <= i < listnum ==> slots[i] != 0
        invariant rest == -1 ==>
                    FirstFree(old(slots[..])) < slots.Length
                    && slots[..] == old(slots[..])[FirstFree(old(slots[..])) := connection]
      {
        if slots[listnum] == 0 {
          slots[listnum] := rest;
          rest := -1;
        }
        listnum := listnum + 1;
      }
    }

    /** Tell a client that there is no room, as far as it listens, and hang up. */
    method Refuse(connection: int)
      requires k.Valid() && connection in k.open && connection in k.peers
      modifies k
      ensures k.Valid() && k.open == old(k.open) - {connection} && k.fuel == old(k.fuel)
      ensures old(k.log) < k.log && k.log[|k.log| - 1] == Closed(connection)
      ensures Tried(old(k.log), k.log, connection, BUSY)
      ensures forall j :: |old(k.log)| <= j < |k.log| ==> Traffic(k.log[j], connection) || k.log[j] == Closed(connection)
      ensures k.peers.Keys == old(k.peers.Keys)
      ensures forall f :: f in old(k.peers) && f != connection ==> k.peers[f] == old(k.peers)[f]
    {
      hide Legal, OpenAfter, WriteFully;
      var message := new char[|BUSY|](i requires 0 <= i < |BUSY| => BUSY[i]);
      assert message[..|BUSY|] == BUSY;
      var _ := SockWrite(k, connection, message, |BUSY|);
      k.Close(connection);
    }

    /** Upper-case the first `n` characters where they are. */
    static method UpperInPlace(buffer: array<char>, n: nat)
      requires n <= buffer.Length
      modifies buffer
      ensures buffer[..n] == Upper(old(buffer[..n])) && buffer[n..] == old(buffer[n..])
      ensures forall i :: 0 <= i < n ==>
                if 'a' <= old(buffer[i]) <= 'z' then 'A' <= buffer[i] <= 'Z' && buffer[i] - 'A' == old(buffer[i]) - 'a'
                else buffer[i] == old(buffer[i])
    {
      var i := 0;
      while i < n
        invariant 0 <= i <= n
        invariant forall j :: 0 <= j < i ==> buffer[j] == ToUpper(old(buffer[j]))
        invariant forall j :: i <= j < buffer.Length ==> buffer[j] == old(buffer[j])
      {
        buffer[i] := ToUpper(buffer[i]);
        i := i + 1;
      }
    }

    /** Read a line from the connection in a slot and answer it, or free the slot. */
    method DealWithData(listnum: nat)
      requires Valid() && listnum < slots.Length && slots[listnum] != 0
      modifies k, slots
      ensures Valid() && k.fuel == old(k.fuel)
      ensures var fd := old(slots[listnum]);
              var (closed, peer) := Deal(old(k.peers)[fd]);
              && slots[..] == (if closed then old(slots[..])[listnum := 0] else old(slots[..]))
              && k.peers == old(k.peers)[fd := peer]
              && k.open == old(k.open) - (if closed then {fd} else {})
              && old(k.log) <= k.log
              && forall j :: |old(k.log)| <= j < |k.log| ==> Traffic(k.log[j], fd) || k.log[j] == Closed(fd)
    {
      hide Legal, OpenAfter, Gets, WriteFully, Upper, Live;
      var fd := slots[listnum];
      assert SlotOk(fd);
      ghost var before, p := slots[..], k.peers[fd];
      var buffer := new char[MX_RCV + 16](_ => '\0');
      var rlen := SockGets(k, fd, buffer, MX_RCV);
      if rlen <= 0 {
        LiveUpdate(before, listnum, 0);
        k.Close(fd);
        slots[listnum] := 0;
      } else {
        NoLineFeed(p.inbox, p.idle, MX_RCV, []);
        Answer(fd, buffer, rlen);
      }
    }

    /** Upper-case what was read, end it with a line feed, and send it back. */
    method Answer(fd: int, buffer: array<char>, rlen: nat)
      requires k.Valid() && fd in k.open && fd in k.peers
      requires 0 < rlen < buffer.Length && '\n' !in buffer[..rlen]
      modifies k`log, k`peers, buffer
      ensures k.Valid() && Talked(old(k.log), k.log, fd)
      ensures var reply := Upper(old(buffer[..rlen])) + "\n";
              var w := WriteFully(old(k.peers)[fd].outcomes, |reply|, true);
              k.peers == WithSent(old(k.peers), fd, reply[..w.accepted], w.rest)
    {
      hide Legal, OpenAfter, WriteFully;
      ghost var reply := Upper(buffer[..rlen]) + "\n";
      UpperInPlace(buffer, rlen);
      var slen := rlen;
      if buffer[slen - 1] != '\n' {
        buffer[slen] := '\n';
        slen := slen + 1;
      }
      assert buffer[..rlen][rlen - 1] == ToUpper(old(buffer[..rlen])[rlen - 1]);
      assert old(buffer[..rlen])[rlen - 1] in old(buffer[..rlen]);
      assert buffer[..slen] == reply;
      var code := SockWrite(k, fd, buffer, slen);
      assert forall n :: 0 <= n <= slen ==> buffer[..n] == reply[..n];
    }

    /** Whether slot `i` holds a connection that was there, and ready, when `select` returned. */
    static predicate Due(mid: seq<int>, ready: set<int>, i: nat)
      requires i < |mid|
    {
      mid[i] != 0 && mid[i] in ready
    }

    /** The table after the accept part of a round, and after the whole round. */
    static ghost predicate RoundDone(mid: seq<int>, after: seq<int>, upto: nat, ready: set<int>,
                                     before: map<int, Peer>, now: map<int, Peer>)
    {
      && |after| == |mid|
      && (forall i :: 0 <= i < |mid| && Due(mid, ready, i) ==> mid[i] in before && mid[i] in now)
      && (forall i :: 0 <= i < |mid| && Due(mid, ready, i) && i < upto ==>
            after[i] == (if Deal(before[mid[i]]).0 then 0 else mid[i]) && now[mid[i]] == Deal(before[mid[i]]).1)
      && (forall i :: 0 <= i < |mid| && Due(mid, ready, i) && upto <= i ==>
            after[i] == mid[i] && now[mid[i]] == before[mid[i]])
      && (forall i :: 0 <= i < |mid| && !Due(mid, ready, i) ==> after[i] == mid[i])
    }

    /** A descriptor that was not open got the lowest free slot, or there was none. */
    static ghost predicate Placed(first: seq<int>, mid: seq<int>, open: set<int>)
    {
      var free := FirstFree(first);
      if free == |first| then mid == first
      else exists fd :: fd != 0 && fd !in open && mid == first[free := fd]
    }

    /**
     One round: take at most one new connection, then serve each connection that was ready, in the order
     of the slots. A connection taken in this round is not read in it.
     */
    method ReadSocks() returns (running: bool, ghost mid: seq<int>)
      requires Valid() && socks <= {sock} + Live(slots[..])
      modifies k, slots
      ensures k.fuel <= old(k.fuel) && old(k.log) <= k.log
      ensures !running ==> k.Valid() && k.open == old(k.open) - {sock} && slots[..] == old(slots[..])
      ensures running ==> Valid() && RoundDone(mid, slots[..], slots.Length, socks, old(k.peers), k.peers)
      ensures running ==>
                |mid| == slots.Length && forall i :: 0 <= i < |mid| ==>
                  if mid[i] != 0 && mid[i] in socks then
                    && mid[i] in old(k.peers) && mid[i] in k.peers
                    && slots[i] == (if Deal(old(k.peers)[mid[i]]).0 then 0 else mid[i])
                    && k.peers[mid[i]] == Deal(old(k.peers)[mid[i]]).1
                  else
                    slots[i] == mid[i]
      ensures NoLook(old(k.log), k.log)
      ensures running && sock !in socks ==> mid == old(slots[..])
      ensures running && sock in socks ==> Placed(old(slots[..]), mid, old(k.open))
      ensures running ==> forall i :: 0 <= i < |mid| && mid[i] != old(slots[..])[i] ==>
                mid[i] !in socks
                && forall j :: |old(k.log)| <= j < |k.log| ==> !Traffic(k.log[j], mid[i])
    {
      hide Legal, OpenAfter, Deal, FirstFree, Live, RoundDone, Traffic, Tried;
      ghost var peers, first, log := k.peers, slots[..], k.log;
      ReadyIsOpen();
      running := true;
      if sock in socks {
        running := HandleNewConnection();
        if !running {
          mid := first;
          return;
        }
      }
      mid := slots[..];
      ghost var accepted := k.log;
      RoundBegins(mid, socks, peers, k.peers);
      var listnum := 0;
      while listnum < slots.Length
        invariant 0 <= listnum <= slots.Length && k.fuel <= old(k.fuel)
        invariant Valid() && RoundDone(mid, slots[..], listnum, socks, peers, k.peers)
        invariant accepted <= k.log && NoLook(log, k.log)
        invariant forall j, f :: |accepted| <= j < |k.log| && Traffic(k.log[j], f) ==> f in socks
        modifies k, slots
      {
        ghost var s, now := slots[..], k.peers;
        RoundStep(mid, s, listnum, socks, peers, now);
        if slots[listnum] != 0 && slots[listnum] != -1 {
          if slots[listnum] in socks {
            ghost var fd, before := slots[listnum], k.log;
            DealWithData(listnum);
            TrafficOfOne(before, k.log, fd);
            NoLookIn(before, k.log, fd);
          }
        }
        listnum := listnum + 1;
      }
      OpenedIsNoTraffic();
      AllServed(mid, slots[..], socks, peers, k.peers);
    }

    static lemma AllServed(mid: seq<int>, s: seq<int>, ready: set<int>, before: map<int, Peer>, now: map<int, Peer>)
      requires RoundDone(mid, s, |mid|, ready, before, now)
      ensures |s| == |mid| && forall i :: 0 <= i < |mid| ==>
                if mid[i] != 0 && mid[i] in ready then
                  && mid[i] in before && mid[i] in now
                  && s[i] == (if Deal(before[mid[i]]).0 then 0 else mid[i])
                  && now[mid[i]] == Deal(before[mid[i]]).1
                else
                  s[i] == mid[i]
    {
      hide Deal;
      assert forall i :: 0 <= i < |mid| ==> (Due(mid, ready, i) <==> mid[i] != 0 && mid[i] in ready);
    }

    lemma ReadyIsOpen()
      requires Valid() && socks <= {sock} + Live(slots[..])
      ensures socks <= k.open
      ensures forall i :: 0 <= i < slots.Length && slots[i] != 0 ==> slots[i] in k.peers && slots[i] in k.open
    {
      assert forall i :: 0 <= i < slots.Length && slots[i] != 0 ==> SlotOk(slots[i]);
    }

    static lemma RoundBegins(mid: seq<int>, ready: set<int>, before: map<int, Peer>, now: map<int, Peer>)
      requires forall i :: 0 <= i < |mid| && Due(mid, ready, i) ==>
                 mid[i] in before && mid[i] in now && now[mid[i]] == before[mid[i]]
      ensures RoundDone(mid, mid, 0, ready, before, now)
    {
    }

    static lemma RoundStep(mid: seq<int>, s: seq<int>, i: nat, ready: set<int>, before: map<int, Peer>, now: map<int, Peer>)
      requires RoundDone(mid, s, i, ready, before, now) && NonZeroDistinct(mid) && i < |mid|
      ensures s[i] == mid[i]
      ensures Due(mid, ready, i) ==>
                && s[i] in now
                && var (closed, peer) := Deal(now[s[i]]);
                   RoundDone(mid, if closed then s[i := 0] else s, i + 1, ready, before, now[s[i] := peer])
      ensures !Due(mid, ready, i) ==> RoundDone(mid, s, i + 1, ready, before, now)
    {
      hide Deal;
    }

    static lemma TrafficOfOne(before: seq<Event>, after: seq<Event>, fd: int)
      requires before <= after
      requires forall j :: |before| <= j < |after| ==> Traffic(after[j], fd) || after[j] == Closed(fd)
      ensures forall j, f :: |before| <= j < |after| && Traffic(after[j], f) ==> f == fd
    {
    }

    static lemma OpenedIsNoTraffic()
      ensures forall fd, f :: !Traffic(Opened(fd), f)
    {
    }

    /**
     The main loop, for a round after each of which escape is or is not pressed. However it ends, the
     connections still open are the non-zero slots, each in one slot, and every other one has been closed
     exactly once.
     */
    method Run(escapes: seq<bool>) returns (ghost done: nat)
      requires Valid()
      modifies this, k, slots
      ensures k.Valid() && NonZeroDistinct(slots[..])
      ensures k.open == base + Live(slots[..])
      ensures forall i: nat :: i < |k.log| && k.log[i].Opened? && k.log[i].fd !in base + Live(slots[..]) ==>
                ClosedOnce(k.log, i)
      ensures EndsOnce(k.log, old(|k.log|), sock)
      ensures done <= |escapes| && Looks(k.log) == Looks(old(k.log)) + done
    {
      hide Legal, OpenAfter, Deal, FirstFree, Live, RoundDone, Traffic, Matched, Looks;
      ghost var first := k.log;
      SockNotLive();
      var running;
      running, done := Loop(escapes);
      if running {
        assert forall i :: 0 <= i < slots.Length && slots[i] != 0 ==> SlotOk(slots[i]);
        SockNotLive();
        LooksNext(k.log, Closed(sock));
        k.Close(sock);
      }
      assert k.log[..|first|] == first;
      EveryLifeEndsOnce(k.init, k.log, |first|, sock);
      forall i: nat | i < |k.log| && k.log[i].Opened? && k.log[i].fd !in base + Live(slots[..])
        ensures ClosedOnce(k.log, i)
      {
        EveryOpenIsClosedOnce(k.init, k.log, i);
      }
    }

    /**
     Round after round, until escape, a failing `select` or a failing `accept`; there are `done`. When
     `accept` failed the listening socket has been closed already, and `running` is false.
     */
    method Loop(escapes: seq<bool>) returns (running: bool, ghost done: nat)
      requires Valid()
      modifies this, k, slots
      ensures old(k.log) <= k.log
      ensures running ==> Valid()
      ensures !running ==>
                k.Valid() && NonZeroDistinct(slots[..]) && k.open == base + Live(slots[..]) && sock !in k.open
      ensures done <= |escapes| && Looks(k.log) == Looks(old(k.log)) + done
      ensures done < |escapes| && running ==>
                done > 0 && (escapes[done - 1] || (k.log != [] && k.log[|k.log| - 1] == NoneReady(true)))
    {
      hide Legal, OpenAfter, Deal, FirstFree, Live, RoundDone, Traffic, Looks, Placed;
      running, done := true, 0;
      for n := 0 to |escapes|
        invariant Valid() && old(k.log) <= k.log && running
        invariant done == n && Looks(k.log) == Looks(old(k.log)) + n
      {
        BuildSelectList();
        ghost var log := k.log;
        var readsocks, ready := k.Select(socks, highsock + 1);
        LooksNext(log, k.log[|log|]);
        done := n + 1;
        if readsocks < 0 {
          return;
        }
        if readsocks > 0 {
          socks := ready;
          SockNotLive();
          ghost var mid;
          log := k.log;
          running, mid := ReadSocks();
          LooksSame(log, k.log);
          if !running {
            return;
          }
        }
        if escapes[n] {
          return;
        }
      }
    }

    lemma SockNotLive()
      requires Valid()
      ensures sock !in Live(slots[..])
    {
      InLive(slots[..], sock);
      assert forall i :: 0 <= i < slots.Length && slots[i] != 0 ==> SlotOk(slots[i]);
    }
  }
}
