/**
 The UDP accumulator of `src/udpserver2.cxx`: each datagram carries a 32-bit increment in network
 order, and is answered with the running total.
 */
module Accumulator {
  import opened Wire

  const SIZE: nat := 4

  /** A datagram, with whether the answer to it can be sent; or a receive that fails. */
  datatype Arrival = Datagram(bytes: Bytes, canReply: bool) | Failure

  // ---------------------------------------------------------------- what the service should do

  /** `recvfrom` cuts a datagram to the size of the buffer, so a longer one looks like four bytes. */
  predicate Counts(a: Arrival)
  {
    a.Datagram? && |a.bytes| >= SIZE
  }

  predicate Fatal(a: Arrival)
  {
    a.Failure? || (Counts(a) && !a.canReply)
  }

  /** How many arrivals are dealt with before one ends the service. */
  function Handled(arrivals: seq<Arrival>): (n: nat)
    ensures n <= |arrivals| && (forall i :: 0 <= i < n ==> !Fatal(arrivals[i]))
    ensures n < |arrivals| ==> Fatal(arrivals[n])
  {
    if arrivals == [] || Fatal(arrivals[0]) then 0 else 1 + Handled(arrivals[1..])
  }

  /** The increments asked for, read as big-endian numbers. */
  function Increments(arrivals: seq<Arrival>): seq<bv32>
  {
    if arrivals == [] then []
    else
      var a := arrivals[|arrivals| - 1];
      Increments(arrivals[..|arrivals| - 1]) +
      if Counts(a) then [Join(a.bytes[0], a.bytes[1], a.bytes[2], a.bytes[3])] else []
  }

  /** The sum in 32 bits. */
  function Sum(incs: seq<bv32>): bv32
  {
    if incs == [] then 0 else Plus(Sum(incs[..|incs| - 1]), incs[|incs| - 1])
  }

  /** The numbers asked for, most significant byte first. */
  function Asked(arrivals: seq<Arrival>): seq<nat>
  {
    if arrivals == [] then []
    else
      var a := arrivals[|arrivals| - 1];
      Asked(arrivals[..|arrivals| - 1]) + if Counts(a) then [NumberIn(a.bytes)] else []
  }

  function NumberIn(bytes: Bytes): nat
    requires |bytes| >= SIZE
  {
    Number(ByteValue(bytes[0]), ByteValue(bytes[1]), ByteValue(bytes[2]), ByteValue(bytes[3]))
  }

  /** The sum of numbers, without bound. */
  function Added(ns: seq<nat>): nat
  {
    if ns == [] then 0 else Added(ns[..|ns| - 1]) + ns[|ns| - 1]
  }

  /** The answers as numbers: the sums of what was asked for so far, modulo 2 to the 32. */
  predicate AnswersAdd(replies: seq<Bytes>, asked: seq<nat>)
  {
    |replies| == |asked| &&
    forall k :: 0 <= k < |asked| ==> |replies[k]| == SIZE && NumberIn(replies[k]) == Added(asked[..k + 1]) % 0x1_0000_0000
  }

  /** Words and numbers agree. */
  lemma {:induction false} SumIsSum(arrivals: seq<Arrival>)
    ensures |Asked(arrivals)| == |Increments(arrivals)|
    ensures forall k :: 0 <= k < |Asked(arrivals)| ==> Asked(arrivals)[k] == Value(Increments(arrivals)[k])
  {
    hide Join, Value, Number, ByteValue;
    if arrivals != [] {
      var a := arrivals[|arrivals| - 1];
      SumIsSum(arrivals[..|arrivals| - 1]);
      if Counts(a) {
        ValueOfJoin(a.bytes[0], a.bytes[1], a.bytes[2], a.bytes[3]);
      }
    }
  }

  /** The running total stands for the sum of the numbers, modulo 2 to the 32. */
  lemma {:induction false} ValueOfTotal(incs: seq<bv32>, asked: seq<nat>)
    requires |incs| == |asked| && forall k :: 0 <= k < |incs| ==> asked[k] == Value(incs[k])
    ensures Value(Sum(incs)) == Added(asked) % 0x1_0000_0000
  {
    hide Value, Plus;
    if incs == [] {
      ZeroWordValue(0);
    } else {
      var n := |incs| - 1;
      ValueOfTotal(incs[..n], asked[..n]);
      ValueOfSum(Sum(incs[..n]), incs[n]);
      Reduce(Added(asked[..n]), asked[n]);
    }
  }

  lemma Reduce(a: nat, b: nat)
    ensures (a % 0x1_0000_0000 + b) % 0x1_0000_0000 == (a + b) % 0x1_0000_0000
  {
  }

  lemma AnswersAreSums(replies: seq<Bytes>, arrivals: seq<Arrival>)
    requires Totals(replies, Increments(arrivals))
    ensures AnswersAdd(replies, Asked(arrivals))
  {
    hide Value, Sum, Added, Asked, Increments, Split, Number, ByteValue;
    var incs, asked := Increments(arrivals), Asked(arrivals);
    SumIsSum(arrivals);
    forall k | 0 <= k < |asked|
      ensures |replies[k]| == SIZE && NumberIn(replies[k]) == Added(asked[..k + 1]) % 0x1_0000_0000
    {
      ValueOfTotal(incs[..k + 1], asked[..k + 1]);
      ValueOfSplit(Sum(incs[..k + 1]));
    }
  }

  lemma ValueOfSplit(w: bv32)
    ensures NumberIn(Split(w)) == Value(w)
  {
  }

  /** The answers: after each increment the total so far, in network order. */
  predicate Totals(replies: seq<Bytes>, incs: seq<bv32>)
  {
    |replies| == |incs| && forall k :: 0 <= k < |incs| ==> replies[k] == Split(Sum(incs[..k + 1]))
  }

  /** The increments that the program's message about ignored sizes promises to honour. */
  function Announced(arrivals: seq<Arrival>): seq<bv32>
  {
    if arrivals == [] then []
    else
      var a := arrivals[|arrivals| - 1];
      Announced(arrivals[..|arrivals| - 1]) +
      if a.Datagram? && |a.bytes| == SIZE then [Join(a.bytes[0], a.bytes[1], a.bytes[2], a.bytes[3])] else []
  }

  predicate Oversize(a: Arrival)
  {
    a.Datagram? && |a.bytes| > SIZE
  }

  lemma {:induction false} FewerAnnounced(arrivals: seq<Arrival>)
    ensures |Announced(arrivals)| <= |Increments(arrivals)|
    ensures |Announced(arrivals)| == |Increments(arrivals)| ==> forall i :: 0 <= i < |arrivals| ==> !Oversize(arrivals[i])
  {
    if arrivals != [] {
      var before := arrivals[..|arrivals| - 1];
      FewerAnnounced(before);
      assert forall i :: 0 <= i < |before| ==> before[i] == arrivals[i];
    }
  }

  /** Sizes other than four are ignored, as announced, exactly when no datagram is longer than four bytes. */
  lemma {:induction false} OtherSizesIgnored(arrivals: seq<Arrival>)
    ensures Increments(arrivals) == Announced(arrivals) <==> forall i :: 0 <= i < |arrivals| ==> !Oversize(arrivals[i])
  {
    FewerAnnounced(arrivals);
    if arrivals != [] {
      var before := arrivals[..|arrivals| - 1];
      OtherSizesIgnored(before);
      assert forall i :: 0 <= i < |before| ==> before[i] == arrivals[i];
    }
  }

  /** Any longer datagram is counted by its first four bytes, although its size is not the announced one. */
  lemma LongDatagramIsCounted(bytes: Bytes, canReply: bool)
    requires |bytes| > SIZE
    ensures Increments([Datagram(bytes, canReply)]) == [Join(bytes[0], bytes[1], bytes[2], bytes[3])]
    ensures Announced([Datagram(bytes, canReply)]) == []
  {
    hide Join;
    var a := Datagram(bytes, canReply);
    assert [a][..|[a]| - 1] == [] && [a][|[a]| - 1] == a;
    assert Increments([]) == [] && Announced([]) == [];
  }

  /** Whatever machine the asker runs on, it decodes the k-th answer to the sum of the first increments. */
  lemma AnswerDecodes(replies: seq<Bytes>, incs: seq<bv32>, k: nat, little: bool)
    requires Totals(replies, incs) && k < |incs|
    ensures Xdr(Load(replies[k], little), little) == Sum(incs[..k + 1])
  {
    hide Xdr, Load, Split, Join, Sum;
    XdrIsBigEndian(0, replies[k], little);
  }

  /** Totals do not depend on where one starts counting. */
  lemma {:induction false} SumAppend(a: seq<bv32>, b: seq<bv32>)
    ensures Sum(a + b) == Plus(Sum(a), Sum(b))
  {
    hide Plus;
    PlusIsAssociative(Sum(a), if b == [] then 0 else Sum(b[..|b| - 1]), if b == [] then 0 else b[|b| - 1]);
    if b == [] {
      assert a + b == a;
    } else {
      SumAppend(a, b[..|b| - 1]);
      assert (a + b)[..|a + b| - 1] == a + b[..|b| - 1];
    }
  }

  // ---------------------------------------------------------------- the service

  /** What `recvfrom` leaves in the four bytes of a variable. */
  function Overwritten(m: Bytes, bytes: Bytes): (r: Bytes)
    requires |m| == SIZE
    ensures |r| == SIZE
  {
    if |bytes| >= SIZE then bytes[..SIZE] else bytes + m[|bytes|..]
  }

  lemma NetworkToHost(bytes: Bytes, m: Bytes, little: bool)
    requires |m| == SIZE && |bytes| >= SIZE
    ensures Xdr(Load(Overwritten(m, bytes), little), little) == Join(bytes[0], bytes[1], bytes[2], bytes[3])
  {
    hide Xdr, Load, Split, Join;
    XdrIsBigEndian(0, bytes[..SIZE], little);
  }

  lemma HostToNetwork(w: bv32, little: bool)
    ensures Store(Xdr(w, little), little) == Split(w) && Xdr(Xdr(w, little), little) == w
  {
    hide Xdr, Load, Split, Join;
    XdrIsBigEndian(w, Store(w, little), little);
  }

  lemma OneMoreArrival(arrivals: seq<Arrival>, i: nat, replies: seq<Bytes>)
    requires i < |arrivals| && Totals(replies, Increments(arrivals[..i]))
    ensures var incs, a := Increments(arrivals[..i]), arrivals[i];
            if Counts(a) then
              var inc := Join(a.bytes[0], a.bytes[1], a.bytes[2], a.bytes[3]);
              && Increments(arrivals[..i + 1]) == incs + [inc]
              && Sum(incs + [inc]) == Plus(Sum(incs), inc)
              && Totals(replies + [Split(Plus(Sum(incs), inc))], incs + [inc])
            else
              Increments(arrivals[..i + 1]) == incs
  {
    hide Join, Split, Plus, Sum, Totals;
    assert arrivals[..i + 1][..i] == arrivals[..i];
    var incs, a := Increments(arrivals[..i]), arrivals[i];
    if Counts(a) {
      TotalsNext(replies, incs, Join(a.bytes[0], a.bytes[1], a.bytes[2], a.bytes[3]));
    }
  }

  lemma TotalsNext(replies: seq<Bytes>, incs: seq<bv32>, inc: bv32)
    requires Totals(replies, incs)
    ensures Sum(incs + [inc]) == Plus(Sum(incs), inc)
    ensures Totals(replies + [Split(Plus(Sum(incs), inc))], incs + [inc])
  {
    hide Split, Plus, Sum;
    SumNext(incs, inc);
    var longer, more := incs + [inc], replies + [Split(Plus(Sum(incs), inc))];
    assert longer[..|incs| + 1] == longer;
    forall k | 0 <= k < |incs|
      ensures more[k] == Split(Sum(longer[..k + 1]))
    {
      assert longer[..k + 1] == incs[..k + 1];
    }
  }

  lemma SumNext(incs: seq<bv32>, inc: bv32)
    ensures Sum(incs + [inc]) == Plus(Sum(incs), inc)
  {
    hide Plus;
    assert (incs + [inc])[..|incs|] == incs;
  }

  /** Serve until an arrival is fatal. `count` is in host order whenever the loop is at its head. */
  method Serve(arrivals: seq<Arrival>, little: bool) returns (iret: int, count: bv32, replies: seq<Bytes>)
    ensures Totals(replies, Increments(arrivals[..Handled(arrivals)]))
    ensures iret == if Handled(arrivals) < |arrivals| then 1 else 0
    ensures iret == 0 ==> count == Sum(Increments(arrivals))
    ensures AnswersAdd(replies, Asked(arrivals[..Handled(arrivals)]))
    ensures iret == 0 ==> Value(count) == Added(Asked(arrivals)) % 0x1_0000_0000
    ensures iret == 1 <==> exists i :: 0 <= i < |arrivals| && match arrivals[i]
                                                              case Failure => true
                                                              case Datagram(bytes, canReply) => |bytes| >= 4 && !canReply
  {
    hide Xdr, Join, Split, Load, Sum, Increments, Totals, Plus, Value, Added, Asked, AnswersAdd;
    var thisinc: bv32 := 0;
    count, replies, iret := 0, [], 0;
    NoneYet();
    assert arrivals[..0] == [];
    for i := 0 to |arrivals|
      invariant Totals(replies, Increments(arrivals[..i]))
      invariant count == Sum(Increments(arrivals[..i]))
      invariant forall j :: 0 <= j < i ==> !Fatal(arrivals[j])
    {
      ghost var a := arrivals[i];
      OneMoreArrival(arrivals, i, replies);
      HandledIs(arrivals, i);
      AnswersAreSums(replies, arrivals[..i]);
      if arrivals[i].Failure? {
        iret := 1;
        return;
      }
      var bytes := arrivals[i].bytes;
      var recvd := if |bytes| < SIZE then |bytes| else SIZE;
      ghost var m := Store(thisinc, little);
      thisinc := Load(Overwritten(Store(thisinc, little), bytes), little);
      if recvd == SIZE {
        NetworkToHost(bytes, m, little);
        thisinc := Xdr(thisinc, little);
        count := Plus(count, thisinc);
        HostToNetwork(count, little);
        count := Xdr(count, little);
        if !arrivals[i].canReply {
          iret := 1;
          return;
        }
        replies := replies + [Store(count, little)];
        count := Xdr(count, little);
      }
    }
    assert arrivals[..|arrivals|] == arrivals;
    AllHandled(arrivals);
    AnswersAreSums(replies, arrivals);
    SumIsSum(arrivals);
    ValueOfTotal(Increments(arrivals), Asked(arrivals));
  }

  lemma NoneYet()
    ensures Increments([]) == [] && Sum([]) == 0 && Totals([], [])
  {
  }

  lemma HandledIs(arrivals: seq<Arrival>, n: nat)
    requires n < |arrivals| && forall j :: 0 <= j < n ==> !Fatal(arrivals[j])
    ensures Fatal(arrivals[n]) ==> Handled(arrivals) == n
  {
  }

  lemma AllHandled(arrivals: seq<Arrival>)
    requires forall j :: 0 <= j < |arrivals| ==> !Fatal(arrivals[j])
    ensures Handled(arrivals) == |arrivals|
  {
  }
}
