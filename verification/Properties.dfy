/**
 Property lists, as `_verifyProperties` and the decode loop of `ProcessPosMsg` in
 `src/simgear/mpserver.cxx` (and their twins in `src/simgear/fgmp_msg.cxx`) walk them.

 The message buffer is seen as a function from word index to the decoded big-endian word, so that nothing
 here depends on where the buffer ends: both walkers look one entry past the bound they are given. The
 table of known properties is a parameter; the results hold for every table.
 */
module Properties {
  import opened Wire
  import Header

  const MAX_TEXT_SIZE: nat := 128

  datatype Kind = NONE | ALIAS | BOOL | INT | LONG | FLOAT | DOUBLE | STRING | UNSPECIFIED | EXTENDED | VEC3D | VEC4D

  datatype Entry = Entry(id: bv32, kind: Kind)
  datatype Lookup = Unknown | Known(kind: Kind)

  type Memory = nat -> bv32

  /** The words of a buffer; `outside` is what lies behind it. */
  function MemoryOf(b: Bytes, outside: Memory): Memory
  {
    (i: nat) => if 4 * i + 4 <= |b| then Header.WordAt(b, 4 * i) else outside(i)
  }

  /** The kind of the first entry with that id. */
  function Find(table: seq<Entry>, id: bv32): Lookup
  {
    if table == [] then Unknown
    else if table[0].id == id then Known(table[0].kind)
    else Find(table[1..], id)
  }

  /** Entry `i` is the first with that id. */
  predicate FirstWith(table: seq<Entry>, id: bv32, i: nat)
  {
    i < |table| && table[i].id == id && forall j :: 0 <= j < i ==> table[j].id != id
  }

  lemma {:induction false} FindIsFirst(table: seq<Entry>, id: bv32)
    ensures Find(table, id).Unknown? <==> forall i :: 0 <= i < |table| ==> table[i].id != id
    ensures Find(table, id).Known? ==> exists i: nat :: FirstWith(table, id, i) && Find(table, id).kind == table[i].kind
  {
    if table != [] && table[0].id != id {
      FindIsFirst(table[1..], id);
      assert forall i :: 1 <= i < |table| ==> table[i] == table[1..][i - 1];
      if Find(table[1..], id).Known? {
        var i: nat :| FirstWith(table[1..], id, i) && Find(table[1..], id).kind == table[1..][i].kind;
        assert FirstWith(table, id, i + 1);
      }
    } else if table != [] {
      assert FirstWith(table, id, 0);
    }
  }

  /** Linear search. */
  method FindProperty(table: seq<Entry>, id: bv32) returns (r: Lookup)
    ensures r == Find(table, id)
    ensures r.Unknown? <==> forall i :: 0 <= i < |table| ==> table[i].id != id
    ensures r.Known? ==> exists i: nat :: FirstWith(table, id, i) && r.kind == table[i].kind
  {
    FindIsFirst(table, id);
    for i := 0 to |table|
      invariant Find(table, id) == Find(table[i..], id)
    {
      if table[i].id == id {
        return Known(table[i].kind);
      }
    }
    return Unknown;
  }

  predicate IsNumber(k: Kind) { k.BOOL? || k.INT? || k.LONG? }
  predicate IsFloat(k: Kind) { k.FLOAT? || k.DOUBLE? }
  predicate IsText(k: Kind) { k.STRING? || k.UNSPECIFIED? }

  /** Not a number, in IEEE 754 single precision. */
  predicate IsNaN(w: bv32)
  {
    w & 0x7F80_0000 == 0x7F80_0000 && w & 0x007F_FFFF != 0
  }

  function RoundUp4(n: nat): (r: nat)
    ensures n <= r < n + 4 && r % 4 == 0
  {
    n + (4 - n % 4) % 4
  }

  /** Old senders cut a text but sent its full length. */
  function TextLength(w: bv32): (n: nat)
    ensures n <= MAX_TEXT_SIZE
  {
    if Value(w) > MAX_TEXT_SIZE then MAX_TEXT_SIZE else Value(w)
  }

  // ---------------------------------------------------------------- the two walks

  datatype Property = Word(id: bv32, kind: Kind, bits: bv32) | Text(id: bv32, kind: Kind, text: Bytes)

  /** One character per word: its low byte. */
  function Char(w: bv32): byte
  {
    (w & 0xFF) as byte
  }

  function Chars(mem: Memory, w: nat, n: nat): (s: Bytes)
    ensures |s| == n
  {
    seq(n, i requires 0 <= i < n => Char(mem(w + i)))
  }

  /** What the verifier demands of a property beyond its id being known. */
  predicate Acceptable(p: Property)
  {
    IsText(p.kind) || IsNumber(p.kind) || (IsFloat(p.kind) && p.Word? && !IsNaN(p.bits))
  }

  /** In so many words: numbers and texts always pass, floats unless they are not a number, and nothing else does. */
  lemma AcceptableExactly(p: Property)
    ensures Acceptable(p) <==>
            match p.kind
            case BOOL | INT | LONG | STRING | UNSPECIFIED => true
            case FLOAT | DOUBLE => p.Word? && !((p.bits & 0x7FFF_FFFF) > 0x7F80_0000)
            case _ => false
  {
    if p.Word? {
      NaNIsAboveInfinity(p.bits);
    }
  }

  /** Not a number is what lies, but for the sign, above infinity. */
  lemma NaNIsAboveInfinity(w: bv32)
    ensures IsNaN(w) <==> (w & 0x7FFF_FFFF) > 0x7F80_0000
  {
  }

  /** How the verifier gets over the entry at `w`. */
  datatype Check = Bad | Good(next: nat)

  function CheckEntry(mem: Memory, table: seq<Entry>, w: nat): (c: Check)
    ensures c.Good? ==> c.next >= w + 2
  {
    match Find(table, mem(w))
    case Unknown => Bad
    case Known(kind) =>
      if IsNumber(kind) then Good(w + 2)
      else if IsFloat(kind) then (if IsNaN(mem(w + 1)) then Bad else Good(w + 2))
      else if IsText(kind) then Good(w + 2 + RoundUp4(TextLength(mem(w + 1))))
      else Bad
  }

  /** How the decoder does. */
  datatype Take = NoSuchId | Took(p: Property, next: nat)

  function TakeEntry(mem: Memory, table: seq<Entry>, w: nat): (t: Take)
    ensures t.Took? ==> t.next >= w + 2 && t.p.id == mem(w)
  {
    match Find(table, mem(w))
    case Unknown => NoSuchId
    case Known(kind) =>
      if IsText(kind) then
        var n := TextLength(mem(w + 1));
        Took(Text(mem(w), kind, Chars(mem, w + 2, n)), w + 2 + RoundUp4(n))
      else
        Took(Word(mem(w), kind, mem(w + 1)), w + 2)
  }

  lemma EntryAgrees(mem: Memory, table: seq<Entry>, w: nat)
    ensures var c, t := CheckEntry(mem, table, w), TakeEntry(mem, table, w);
            && (c.Good? <==> t.Took? && Acceptable(t.p))
            && (c.Good? ==> c.next == t.next)
  {
    hide IsNaN, TextLength, Chars, Find, RoundUp4;
  }

  /** A list is malformed, or its ids are these and the walk stops at that word. */
  datatype Verdict = Malformed | Fine(ids: seq<bv32>, stop: nat)

  /** `_verifyProperties` from word `w` up to byte `end`. */
  function VerifyWalk(mem: Memory, table: seq<Entry>, w: nat, end: nat): Verdict
    decreases end - w
  {
    if 4 * w >= end then Fine([], w)
    else
      match CheckEntry(mem, table, w)
      case Bad => Malformed
      case Good(next) => VisitedThen(mem(w), VerifyWalk(mem, table, next, end))
  }

  function VisitedThen(id: bv32, v: Verdict): Verdict
  {
    match v
    case Malformed => Malformed
    case Fine(ids, stop) => Fine([id] + ids, stop)
  }

  /** The properties read, where the walk stops, and whether an unknown id stopped it. */
  datatype Decoded = Decoded(props: seq<Property>, stop: nat, unknown: bool)

  /** The decode loop from word `w` up to byte `end`. */
  function DecodeWalk(mem: Memory, table: seq<Entry>, w: nat, end: nat): Decoded
    decreases end - w
  {
    if 4 * w >= end then Decoded([], w, false)
    else
      match TakeEntry(mem, table, w)
      case NoSuchId => Decoded([], w + 1, true)
      case Took(p, next) => Then([p], DecodeWalk(mem, table, next, end))
  }

  function Then(props: seq<Property>, d: Decoded): Decoded
  {
    d.(props := props + d.props)
  }

  lemma ThenTwice(a: seq<Property>, b: seq<Property>, d: Decoded)
    ensures Then(a, Then(b, d)) == Then(a + b, d)
    ensures Then([], d) == d
  {
    assert a + (b + d.props) == (a + b) + d.props;
  }

  function Ids(props: seq<Property>): (ids: seq<bv32>)
    ensures |ids| == |props|
  {
    if props == [] then [] else [props[0].id] + Ids(props[1..])
  }

  predicate AllAcceptable(props: seq<Property>)
  {
    props == [] || (Acceptable(props[0]) && AllAcceptable(props[1..]))
  }

  lemma FirstProperty(p: Property, rest: seq<Property>)
    ensures Ids([p] + rest) == [p.id] + Ids(rest)
    ensures AllAcceptable([p] + rest) <==> Acceptable(p) && AllAcceptable(rest)
  {
    assert ([p] + rest)[1..] == rest;
  }

  /**
   The walkers agree: the verifier accepts a list exactly when the decoder meets no unknown id and every
   property it reads is acceptable, and then both visit the same ids and stop at the same word.
   */
  lemma {:induction false} WalkersAgree(mem: Memory, table: seq<Entry>, w: nat, end: nat)
    ensures var v, d := VerifyWalk(mem, table, w, end), DecodeWalk(mem, table, w, end);
            && (v.Fine? <==> !d.unknown && AllAcceptable(d.props))
            && (v.Fine? ==> v.ids == Ids(d.props) && v.stop == d.stop)
    decreases end - w
  {
    hide CheckEntry, TakeEntry, Acceptable;
    if 4 * w < end {
      EntryAgrees(mem, table, w);
      match TakeEntry(mem, table, w) {
        case NoSuchId =>
        case Took(p, next) =>
          WalkersAgree(mem, table, next, end);
          FirstProperty(p, DecodeWalk(mem, table, next, end).props);
      }
    }
  }

  // ---------------------------------------------------------------- the loops

  /** Skip the words after a text, one by one, to a multiple of four. */
  method SkipPadding(w: nat, length: nat) returns (next: nat)
    ensures next == w + RoundUp4(length) - length
  {
    next := w;
    var n := length;
    while n % 4 != 0
      invariant length <= n <= RoundUp4(length) && next == w + n - length
      decreases RoundUp4(length) - n
    {
      next := next + 1;
      n := n + 1;
    }
  }

  /** The body of the verifier's loop. */
  method CheckOne(mem: Memory, table: seq<Entry>, data: nat) returns (c: Check)
    ensures c == CheckEntry(mem, table, data)
  {
    hide IsNaN, Value, RoundUp4;
    var xdr := data;
    var id := mem(xdr);
    var plist := FindProperty(table, id);
    if plist.Unknown? {
      return Bad;
    }
    xdr := xdr + 1;
    match plist.kind {
      case INT | BOOL | LONG =>
        xdr := xdr + 1;
      case FLOAT | DOUBLE =>
        if IsNaN(mem(xdr)) {
          return Bad;
        }
        xdr := xdr + 1;
      case STRING | UNSPECIFIED =>
        var length := Value(mem(xdr));
        xdr := xdr + 1;
        if length > MAX_TEXT_SIZE {
          length := MAX_TEXT_SIZE;
        }
        xdr := xdr + length;
        xdr := SkipPadding(xdr, length);
      case _ =>
        return Bad;
    }
    return Good(xdr);
  }

  method VerifyProperties(mem: Memory, table: seq<Entry>, data: nat, end: nat) returns (ok: bool)
    ensures ok == VerifyWalk(mem, table, data, end).Fine?
  {
    hide CheckEntry;
    var xdr := data;
    while 4 * xdr < end
      invariant VerifyWalk(mem, table, data, end).Fine? <==> VerifyWalk(mem, table, xdr, end).Fine?
      decreases end - xdr
    {
      var c := CheckOne(mem, table, xdr);
      if c.Bad? {
        return false;
      }
      xdr := c.next;
    }
    return true;
  }

  /** The body of the decode loop. */
  method TakeOne(mem: Memory, table: seq<Entry>, data: nat) returns (t: Take)
    ensures t == TakeEntry(mem, table, data)
  {
    hide Value, RoundUp4, Chars;
    var xdr := data;
    var id := mem(xdr);
    xdr := xdr + 1;
    var plist := FindProperty(table, id);
    if plist.Unknown? {
      return NoSuchId;
    }
    match plist.kind {
      case INT | BOOL | LONG =>
        return Took(Word(id, plist.kind, mem(xdr)), xdr + 1);
      case FLOAT | DOUBLE =>
        return Took(Word(id, plist.kind, mem(xdr)), xdr + 1);
      case STRING | UNSPECIFIED =>
        var length := Value(mem(xdr));
        xdr := xdr + 1;
        if length > MAX_TEXT_SIZE {
          length := MAX_TEXT_SIZE;
        }
        var text := ReadChars(mem, xdr, length);
        xdr := xdr + length;
        xdr := SkipPadding(xdr, length);
        return Took(Text(id, plist.kind, text), xdr);
      case _ =>
        return Took(Word(id, plist.kind, mem(xdr)), xdr + 1);
    }
  }

  method ReadChars(mem: Memory, w: nat, n: nat) returns (text: Bytes)
    ensures text == Chars(mem, w, n)
  {
    text := [];
    for i := 0 to n
      invariant |text| == i && forall j :: 0 <= j < i ==> text[j] == Char(mem(w + j))
    {
      text := text + [Char(mem(w + i))];
    }
  }

  /** The decode loop; `iret` is 1 when an unknown id was met. */
  method DecodeProperties(mem: Memory, table: seq<Entry>, data: nat, end: nat)
    returns (iret: int, props: seq<Property>, stop: nat)
    ensures DecodeWalk(mem, table, data, end) == Decoded(props, stop, iret == 1) && 0 <= iret <= 1
  {
    hide TakeEntry;
    iret, props, stop := 0, [], data;
    ghost var goal := DecodeWalk(mem, table, data, end);
    ThenTwice([], [], goal);
    while 4 * stop < end
      invariant goal == Then(props, DecodeWalk(mem, table, stop, end))
      decreases end - stop
    {
      var t := TakeOne(mem, table, stop);
      assert props + [] == props;
      if t.NoSuchId? {
        return 1, props, stop + 1;
      }
      ThenTwice(props, [t.p], DecodeWalk(mem, table, t.next, end));
      props, stop := props + [t.p], t.next;
    }
    assert props + [] == props;
  }

  // ---------------------------------------------------------------- the list in a position message

  /** Old senders start the list in the padding word of the position, at byte 228; others right after it. */
  const PAD_WORD: nat := 57
  const PROPS_WORD: nat := 58

  datatype Start = NoProperties | At(w: nat)

  function ListStart(mem: Memory, table: seq<Entry>, end: nat): Start
  {
    if mem(PAD_WORD) == 0 then At(PROPS_WORD)
    else if VerifyWalk(mem, table, PAD_WORD, end).Fine? then At(PAD_WORD)
    else if VerifyWalk(mem, table, PROPS_WORD, end).Fine? then At(PROPS_WORD)
    else NoProperties
  }

  /** What a position message that ends at byte `end` yields; `unknown` makes it invalid. */
  function PositionProperties(mem: Memory, table: seq<Entry>, end: nat): Decoded
  {
    match ListStart(mem, table, end)
    case NoProperties => Decoded([], PROPS_WORD, false)
    case At(w) => DecodeWalk(mem, table, w, end)
  }

  method ProcessPosMsg(mem: Memory, table: seq<Entry>, end: nat) returns (iret: int, props: seq<Property>)
    ensures var d := PositionProperties(mem, table, end);
            props == d.props && iret == if d.unknown then 1 else 0
    ensures forall items :: ListAt(mem, table, 57, end, items) && mem(57) != 0 && AllAcceptable(PropertiesOf(items)) ==>
              iret == 0 && props == PropertiesOf(items)
    ensures forall items :: ListAt(mem, table, 58, end, items) && mem(57) == 0 ==>
              iret == 0 && props == PropertiesOf(items)
    ensures forall items :: ListAt(mem, table, 58, end, items) && mem(57) != 0 && AllAcceptable(PropertiesOf(items))
                            && VerifyWalk(mem, table, 57, end).Malformed? ==>
              iret == 0 && props == PropertiesOf(items)
    ensures mem(57) != 0 && VerifyWalk(mem, table, 57, end).Malformed? && VerifyWalk(mem, table, 58, end).Malformed? ==>
              iret == 0 && props == []
  {
    hide VerifyWalk, DecodeWalk, ListAt, AllAcceptable;
    forall items
      ensures ListAt(mem, table, 57, end, items) && mem(57) != 0 && AllAcceptable(PropertiesOf(items)) ==>
                PositionProperties(mem, table, end).props == PropertiesOf(items) && !PositionProperties(mem, table, end).unknown
      ensures ListAt(mem, table, 58, end, items)
              && (mem(57) == 0 || (AllAcceptable(PropertiesOf(items)) && VerifyWalk(mem, table, 57, end).Malformed?)) ==>
                PositionProperties(mem, table, end).props == PropertiesOf(items) && !PositionProperties(mem, table, end).unknown
    {
      ListIsFound(mem, table, end, items);
    }
    var xdr := PROPS_WORD;
    if mem(PAD_WORD) != 0 {
      var padOk := VerifyProperties(mem, table, PAD_WORD, end);
      if padOk {
        xdr := PAD_WORD;
      } else {
        var propsOk := VerifyProperties(mem, table, xdr, end);
        if !propsOk {
          return 0, [];
        }
      }
    }
    var stop;
    iret, props, stop := DecodeProperties(mem, table, xdr, end);
  }

  /** A message can be refused only when its padding word is zero, and then just when an id is unknown. */
  lemma RefusedExactly(mem: Memory, table: seq<Entry>, end: nat)
    ensures PositionProperties(mem, table, end).unknown <==>
            mem(PAD_WORD) == 0 && DecodeWalk(mem, table, PROPS_WORD, end).unknown
    ensures mem(PAD_WORD) != 0 ==> AllAcceptable(PositionProperties(mem, table, end).props)
  {
    hide VerifyWalk, DecodeWalk;
    WalkersAgree(mem, table, PAD_WORD, end);
    WalkersAgree(mem, table, PROPS_WORD, end);
  }

  /** The words from `w` to byte `end` are a list of known, type-correct properties. */
  ghost predicate ListAt(mem: Memory, table: seq<Entry>, w: nat, end: nat, items: seq<Item>)
  {
    && (forall i :: 0 <= i < |items| ==> Writable(items[i], table))
    && Holds(mem, w, LayoutAll(items))
    && 4 * (w + |LayoutAll(items)|) - 4 < end <= 4 * (w + |LayoutAll(items)|)
  }

  /** The list is found where old senders put it, and where the others do. */
  lemma ListIsFound(mem: Memory, table: seq<Entry>, end: nat, items: seq<Item>)
    ensures ListAt(mem, table, 57, end, items) && mem(57) != 0 && AllAcceptable(PropertiesOf(items)) ==>
              PositionProperties(mem, table, end).props == PropertiesOf(items) && !PositionProperties(mem, table, end).unknown
    ensures ListAt(mem, table, 58, end, items)
            && (mem(57) == 0 || (AllAcceptable(PropertiesOf(items)) && VerifyWalk(mem, table, 57, end).Malformed?)) ==>
              PositionProperties(mem, table, end).props == PropertiesOf(items) && !PositionProperties(mem, table, end).unknown
  {
    hide VerifyWalk, DecodeWalk, AllAcceptable, Holds, LayoutAll, Writable, PropertiesOf;
    if ListAt(mem, table, 57, end, items) {
      PropertyRoundTrip(mem, table, 57, end, items);
    }
    if ListAt(mem, table, 58, end, items) {
      PropertyRoundTrip(mem, table, 58, end, items);
    }
  }

  /** The walks depend on nothing before the word they start at. */
  lemma {:induction false} WalksAreLocal(m: Memory, m': Memory, table: seq<Entry>, w: nat, end: nat)
    requires forall i: nat :: w <= i ==> m(i) == m'(i)
    ensures VerifyWalk(m, table, w, end) == VerifyWalk(m', table, w, end)
    ensures DecodeWalk(m, table, w, end) == DecodeWalk(m', table, w, end)
    decreases end - w
  {
    hide CheckEntry, TakeEntry;
    if 4 * w < end {
      EntryIsLocal(m, m', table, w);
      EntryAgrees(m, table, w);
      match TakeEntry(m, table, w) {
        case NoSuchId =>
        case Took(_, next) => WalksAreLocal(m, m', table, next, end);
      }
    }
  }

  lemma EntryIsLocal(m: Memory, m': Memory, table: seq<Entry>, w: nat)
    requires forall i: nat :: w <= i ==> m(i) == m'(i)
    ensures CheckEntry(m, table, w) == CheckEntry(m', table, w)
    ensures TakeEntry(m, table, w) == TakeEntry(m', table, w)
  {
    hide Find, IsNaN, RoundUp4, TextLength;
    assert Chars(m, w + 2, TextLength(m(w + 1))) == Chars(m', w + 2, TextLength(m'(w + 1)));
  }

  lemma PropertiesAreLocal(m: Memory, m': Memory, table: seq<Entry>, end: nat)
    requires forall i: nat :: PAD_WORD <= i ==> m(i) == m'(i)
    ensures PositionProperties(m, table, end) == PositionProperties(m', table, end)
  {
    hide VerifyWalk, DecodeWalk;
    WalksAreLocal(m, m', table, PAD_WORD, end);
    WalksAreLocal(m, m', table, PROPS_WORD, end);
  }

  /** A list the verifier rejects and the decoder reads: one property whose value is not a number. */
  lemma NaNDividesTheWalkers()
    ensures exists mem, table ::
              && VerifyWalk(mem, table, 0, 8).Malformed?
              && DecodeWalk(mem, table, 0, 8) == Decoded([Word(100, FLOAT, 0x7FC0_0000)], 2, false)
  {
    var mem: Memory, table := i => if i == 0 then 100 else 0x7FC0_0000, [Entry(100, FLOAT)];
    assert IsNaN(mem(1));
    assert CheckEntry(mem, table, 0) == Bad;
    assert TakeEntry(mem, table, 0) == Took(Word(100, FLOAT, 0x7FC0_0000), 2);
    var p := Word(100, FLOAT, 0x7FC0_0000);
    assert DecodeWalk(mem, table, 2, 8) == Decoded([], 2, false);
    assert [p] + [] == [p];
    assert DecodeWalk(mem, table, 0, 8) == Decoded([p], 2, false) && VerifyWalk(mem, table, 0, 8) == Malformed;
  }

  /** A message that is refused: no padding word, and an id that nobody knows. */
  lemma UnknownIdIsRefused()
    ensures PositionProperties(_ => 0, [], 236).unknown
  {
    assert DecodeWalk(_ => 0, [], PROPS_WORD, 236) == Decoded([], PROPS_WORD + 1, true);
  }

  // ---------------------------------------------------------------- writing a list

  /** A property with the text length it announces, which old senders did not cut along with the text. */
  datatype Item = Item(p: Property, announced: bv32)

  predicate Writable(i: Item, table: seq<Entry>)
  {
    && Find(table, i.p.id) == Known(i.p.kind)
    && (i.p.Text? <==> i.p.kind == STRING || i.p.kind == UNSPECIFIED)
    && (i.p.Text? ==> |i.p.text| == if Value(i.announced) > 128 then 128 else Value(i.announced))
  }

  function CharWord(b: byte): bv32
  {
    b as bv32
  }

  function CharWords(s: Bytes): (ws: seq<bv32>)
    ensures |ws| == |s|
  {
    seq(|s|, i requires 0 <= i < |s| => CharWord(s[i]))
  }

  /** An id word, then a value word; or a length word, a word per character and padding. */
  function Layout(i: Item): (ws: seq<bv32>)
    ensures |ws| >= 2
  {
    match i.p
    case Word(id, _, bits) => [id, bits]
    case Text(id, _, text) =>
      [id, i.announced] + CharWords(text) + seq(RoundUp4(|text|) - |text|, _ => 0)
  }

  function LayoutAll(items: seq<Item>): seq<bv32>
  {
    if items == [] then [] else Layout(items[0]) + LayoutAll(items[1..])
  }

  function PropertiesOf(items: seq<Item>): seq<Property>
  {
    if items == [] then [] else [items[0].p] + PropertiesOf(items[1..])
  }

  /** The memory holds these words from `w` on. */
  predicate Holds(mem: Memory, w: nat, ws: seq<bv32>)
  {
    forall i :: 0 <= i < |ws| ==> mem(w + i) == ws[i]
  }

  lemma HoldsParts(mem: Memory, w: nat, a: seq<bv32>, b: seq<bv32>)
    requires Holds(mem, w, a + b)
    ensures Holds(mem, w, a) && Holds(mem, w + |a|, b)
  {
    assert forall i :: 0 <= i < |a| ==> a[i] == (a + b)[i];
    forall i | 0 <= i < |b|
      ensures mem(w + |a| + i) == b[i]
    {
      assert b[i] == (a + b)[|a| + i];
    }
  }

  lemma CharOfByte(b: byte)
    ensures Char(CharWord(b)) == b
  {
  }

  lemma TextLengthIs(w: bv32)
    ensures TextLength(w) == if Value(w) > 128 then 128 else Value(w)
  {
  }

  lemma TakesItem(mem: Memory, table: seq<Entry>, w: nat, i: Item)
    requires Writable(i, table) && Holds(mem, w, Layout(i))
    ensures TakeEntry(mem, table, w) == Took(i.p, w + |Layout(i)|)
    ensures |Layout(i)| == if i.p.Text? then 2 + RoundUp4(TextLength(i.announced)) else 2
  {
    hide TextLength, RoundUp4, Char, CharWord, Value;
    TextLengthIs(i.announced);
    assert Layout(i)[0] == i.p.id && mem(w + 0) == Layout(i)[0];
    assert mem(w + 1) == Layout(i)[1];
    if i.p.Text? {
      var text := i.p.text;
      HoldsParts(mem, w, [i.p.id, i.announced] + CharWords(text), seq(RoundUp4(|text|) - |text|, _ => 0));
      HoldsParts(mem, w, [i.p.id, i.announced], CharWords(text));
      assert Layout(i)[1] == i.announced;
      forall j | 0 <= j < |text|
        ensures Char(mem(w + 2 + j)) == text[j]
      {
        assert mem(w + 2 + j) == CharWords(text)[j];
        CharOfByte(text[j]);
      }
      assert Chars(mem, w + 2, |text|) == text;
    }
  }

  /** Any list of known, type-correct properties decodes to exactly that list. */
  lemma {:induction false} PropertyRoundTrip(mem: Memory, table: seq<Entry>, w: nat, end: nat, items: seq<Item>)
    requires forall i :: 0 <= i < |items| ==> Writable(items[i], table)
    requires Holds(mem, w, LayoutAll(items))
    requires 4 * (w + |LayoutAll(items)|) - 4 < end <= 4 * (w + |LayoutAll(items)|)
    ensures DecodeWalk(mem, table, w, end) == Decoded(PropertiesOf(items), w + |LayoutAll(items)|, false)
    ensures VerifyWalk(mem, table, w, end).Fine? <==> AllAcceptable(PropertiesOf(items))
    decreases |items|
  {
    hide Layout, TakeEntry, CheckEntry, VerifyWalk, Writable;
    if items != [] {
      var first, rest := Layout(items[0]), LayoutAll(items[1..]);
      HoldsParts(mem, w, first, rest);
      TakesItem(mem, table, w, items[0]);
      if items[1..] == [] {
        assert LayoutAll(items[1..]) == [];
      }
      PropertyRoundTrip(mem, table, w + |first|, end, items[1..]);
    }
    WalkersAgree(mem, table, w, end);
  }
}
