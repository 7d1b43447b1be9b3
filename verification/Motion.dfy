/**
 The motion history of `src/simgear/fgmp_msg.cxx`: packets by time stamp, in which late packets are
 dropped and a very old one starts a new history. Times are exact here.
 */
module Motion {
  import opened Wire
  import opened Properties

  /** `pose` are the bytes of a position message that tell everything but the time. */
  datatype Packet = Packet(time: real, pose: Bytes, properties: seq<Property>)

  const RESET_AGE: real := 10.0

  // ---------------------------------------------------------------- what the history should be

  datatype Fate = Accepted | Dropped | Restarts

  /** What becomes of a packet when those accepted since the last restart are `kept`. */
  function FateOf(kept: seq<Packet>, m: Packet): Fate
  {
    if kept == [] then Accepted
    else
      var age := kept[|kept| - 1].time - m.time;
      if age > RESET_AGE then Restarts else if age > 0.0 then Dropped else Accepted
  }

  function KeptAfter(kept: seq<Packet>, m: Packet): seq<Packet>
  {
    match FateOf(kept, m)
    case Accepted => kept + [m]
    case Dropped => kept
    case Restarts => [m]
  }

  /** The packets accepted since the last restart, after all of `arrivals`. */
  function Kept(arrivals: seq<Packet>): seq<Packet>
  {
    if arrivals == [] then []
    else KeptAfter(Kept(arrivals[..|arrivals| - 1]), arrivals[|arrivals| - 1])
  }

  /** For each time stamp the last packet that has it. */
  function LastWins(kept: seq<Packet>): map<real, Packet>
  {
    if kept == [] then map[]
    else
      var m := kept[|kept| - 1];
      LastWins(kept[..|kept| - 1])[m.time := m]
  }

  predicate InOrder(kept: seq<Packet>)
  {
    forall i, j :: 0 <= i < j < |kept| ==> kept[i].time <= kept[j].time
  }

  lemma KeptAppend(arrivals: seq<Packet>, m: Packet)
    ensures Kept(arrivals + [m]) == KeptAfter(Kept(arrivals), m)
  {
    assert (arrivals + [m])[..|arrivals|] == arrivals;
  }

  lemma LastWinsAppend(kept: seq<Packet>, m: Packet)
    ensures LastWins(kept + [m]) == LastWins(kept)[m.time := m]
  {
    assert (kept + [m])[..|kept|] == kept;
  }

  /** Whatever arrives, the packets kept are in order of time. */
  lemma {:induction false} KeptInOrder(arrivals: seq<Packet>)
    ensures InOrder(Kept(arrivals))
  {
    if arrivals != [] {
      KeptInOrder(arrivals[..|arrivals| - 1]);
    }
  }

  /** The index of the arrival that last restarted the history, or 0. */
  function LastRestart(arrivals: seq<Packet>): (start: nat)
    ensures start <= |arrivals|
  {
    if arrivals == [] then 0
    else
      var n := |arrivals| - 1;
      if FateOf(Kept(arrivals[..n]), arrivals[n]).Restarts? then n else LastRestart(arrivals[..n])
  }

  /** Arrivals of which those older than the newest so far are left out. */
  function WithoutLate(arrivals: seq<Packet>): seq<Packet>
  {
    if arrivals == [] then []
    else
      var kept, m := WithoutLate(arrivals[..|arrivals| - 1]), arrivals[|arrivals| - 1];
      if kept != [] && m.time < kept[|kept| - 1].time then kept else kept + [m]
  }

  lemma WithoutLateAppend(arrivals: seq<Packet>, m: Packet)
    ensures var kept := WithoutLate(arrivals);
            WithoutLate(arrivals + [m]) == if kept != [] && m.time < kept[|kept| - 1].time then kept else kept + [m]
  {
    assert (arrivals + [m])[..|arrivals|] == arrivals;
  }

  /** A restart forgets everything before it: what is kept are the arrivals since, without the late ones. */
  lemma {:induction false} KeptSinceRestart(arrivals: seq<Packet>)
    ensures Kept(arrivals) == WithoutLate(arrivals[LastRestart(arrivals)..])
  {
    hide WithoutLate;
    if arrivals == [] {
      WithoutLateNone();
    } else {
      var n := |arrivals| - 1;
      var before, m := arrivals[..n], arrivals[n];
      KeptSinceRestart(before);
      var start := LastRestart(before);
      if FateOf(Kept(before), m).Restarts? {
        assert arrivals[n..] == [] + [m];
        WithoutLateNone();
        WithoutLateAppend([], m);
        assert [] + [m] == [m];
      } else {
        assert arrivals[start..] == before[start..] + [m];
        WithoutLateAppend(before[start..], m);
      }
    }
  }

  lemma WithoutLateNone()
    ensures WithoutLate([]) == []
  {
  }

  /** The map has exactly the times kept. */
  lemma {:induction false} TimesKept(kept: seq<Packet>)
    ensures forall t :: t in LastWins(kept) <==> exists i :: 0 <= i < |kept| && kept[i].time == t
  {
    if kept != [] {
      var n := |kept| - 1;
      TimesKept(kept[..n]);
      assert forall i :: 0 <= i < n ==> kept[..n][i] == kept[i];
    }
  }

  /** The packet under a time is the last one kept that has it. */
  lemma {:induction false} LastPacketWins(kept: seq<Packet>, i: nat)
    requires i < |kept| && forall j :: i < j < |kept| ==> kept[j].time != kept[i].time
    ensures kept[i].time in LastWins(kept) && LastWins(kept)[kept[i].time] == kept[i]
  {
    var n := |kept| - 1;
    if i < n {
      assert forall j :: 0 <= j < n ==> kept[..n][j] == kept[j];
      LastPacketWins(kept[..n], i);
    }
  }

  /** The largest key is the time of the packet accepted last. */
  lemma NewestIsLast(kept: seq<Packet>)
    requires InOrder(kept) && kept != []
    ensures IsNewest(LastWins(kept), kept[|kept| - 1].time)
  {
    hide LastWins;
    TimesKept(kept);
  }

  predicate IsNewest(history: map<real, Packet>, t: real)
  {
    t in history && forall u :: u in history ==> u <= t
  }

  // ---------------------------------------------------------------- the history

  class History {
    var motionInfo: map<real, Packet>
    var lastTimestamp: real
    ghost var arrivals: seq<Packet>

    ghost predicate Valid()
      reads this
    {
      motionInfo == LastWins(Kept(arrivals))
    }

    constructor ()
      ensures Valid() && arrivals == []
    {
      motionInfo, lastTimestamp, arrivals := map[], 0.0, [];
    }

    /** The properties of an accepted packet move into the history. */
    method AddMotionInfo(m: Packet, stamp: real) returns (iret: int, left: Packet)
      requires Valid()
      modifies this
      ensures Valid() && arrivals == old(arrivals) + [m] && lastTimestamp == stamp
      ensures iret == 1 || iret == 0
      ensures iret == 1 <==> exists newest :: IsNewest(old(motionInfo), newest) && 0.0 < newest - m.time <= 10.0
      ensures iret == 1 <==> FateOf(Kept(old(arrivals)), m).Dropped?
      ensures iret == 1 ==> motionInfo == old(motionInfo) && left == m
      ensures iret == 0 ==>
                motionInfo ==
                if exists newest :: IsNewest(old(motionInfo), newest) && newest - m.time > 10.0 then map[m.time := m]
                else old(motionInfo)[m.time := m]
      ensures iret == 0 ==> IsNewest(motionInfo, m.time) && motionInfo[m.time] == m && left == m.(properties := [])
    {
      hide Kept, LastWins, InOrder, IsNewest;
      ghost var kept := Kept(arrivals);
      KeptAppend(arrivals, m);
      KeptInOrder(arrivals);
      KeptInOrder(arrivals + [m]);
      EmptyHistory(kept);
      arrivals := arrivals + [m];
      lastTimestamp := stamp;
      NewestOnly(motionInfo);
      LastAfter(kept, m);
      if motionInfo != map[] {
        NewestIsLast(kept);
        var newest :| IsNewest(motionInfo, newest);
        var diff := m.time - newest;
        if diff < -RESET_AGE {
          motionInfo := map[];
        } else if diff < 0.0 {
          return 1, m;
        }
      }
      motionInfo := motionInfo[m.time := m];
      return 0, m.(properties := []);
    }
  }

  lemma EmptyHistory(kept: seq<Packet>)
    ensures LastWins(kept) == map[] <==> kept == []
    ensures !exists t :: IsNewest(map[], t)
  {
    if kept != [] {
      assert kept[|kept| - 1].time in LastWins(kept);
    }
  }

  lemma NewestOnly(history: map<real, Packet>)
    ensures forall t, u :: IsNewest(history, t) && IsNewest(history, u) ==> t == u
  {
  }

  /** An accepted packet is the newest afterwards. */
  lemma LastAfter(kept: seq<Packet>, m: Packet)
    requires InOrder(KeptAfter(kept, m))
    ensures match FateOf(kept, m)
            case Dropped => true
            case Accepted =>
              && LastWins(KeptAfter(kept, m)) == LastWins(kept)[m.time := m]
              && IsNewest(LastWins(kept)[m.time := m], m.time)
            case Restarts =>
              && LastWins(KeptAfter(kept, m)) == map[m.time := m]
              && IsNewest(map[m.time := m], m.time)
  {
    hide LastWins, InOrder;
    LastWinsAppend(kept, m);
    LastWinsAppend([], m);
    assert [] + [m] == [m] && LastWins([]) == map[] by {
      EmptyHistory([]);
    }
    if !FateOf(kept, m).Dropped? {
      NewestIsLast(KeptAfter(kept, m));
    }
  }

  /** In terms of the map: who is late is dropped, and anyone else is the newest afterwards, under its own time. */
  lemma FateByMap(kept: seq<Packet>, m: Packet)
    requires InOrder(kept) && InOrder(KeptAfter(kept, m))
    ensures FateOf(kept, m).Dropped? <==>
            exists newest :: IsNewest(LastWins(kept), newest) && 0.0 < newest - m.time <= 10.0
    ensures FateOf(kept, m).Dropped? ==> KeptAfter(kept, m) == kept
    ensures !FateOf(kept, m).Dropped? ==>
              var history := LastWins(KeptAfter(kept, m));
              IsNewest(history, m.time) && history[m.time] == m
  {
    hide LastWins, InOrder, IsNewest;
    EmptyHistory(kept);
    NewestOnly(LastWins(kept));
    LastAfter(kept, m);
    if kept != [] {
      NewestIsLast(kept);
    }
  }
}
