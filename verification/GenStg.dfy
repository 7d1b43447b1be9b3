/**
 The growable string of `src/GenStg.cxx` and `src/GenStg.hxx`, as compiled outside Windows: text is formatted into what room
 there is, and when that was too little the buffer grows and the text is formatted again.
 */
module GenStg {

  const INCREMENT: nat := 64
  const NUL: char := 0 as char
  const INT_MAX: nat := 0x7FFF_FFFF
  /** `size_t` has 64 bits, and no object has more bytes than `ptrdiff_t` can count. */
  const WORD: nat := 0x1_0000_0000_0000_0000
  const MAX_OBJECT: nat := 0x7FFF_FFFF_FFFF_FFFF

  /** What a format string and its arguments amount to; a failing one may leave part of its text. */
  datatype Format = Text(text: string) | Fails(text: string)

  predicate Succeeds(f: Format)
  {
    f.Text? && |f.text| <= INT_MAX
  }

  /** The value `vsnprintf` returns. */
  function Returned(f: Format): int
  {
    if Succeeds(f) then |f.text| else -1
  }

  // ---------------------------------------------------------------- what the string should be

  datatype Op = Clear | Print(f: Format) | Append(f: Format)

  /** `Wild` is a length that lies outside the buffer. */
  datatype Meaning = Known(text: string) | Wild

  function Appended(text: string, f: Format): Meaning
  {
    if Succeeds(f) then Known(text + f.text)
    else if text == "" then Wild
    else Known(text[..|text| - 1])
  }

  /** What a sequence of operations leaves. A failing append takes a character away. */
  function After(ops: seq<Op>): Meaning
  {
    if ops == [] then Known("")
    else
      match ops[|ops| - 1]
      case Clear => Known("")
      case Print(f) => Appended("", f)
      case Append(f) =>
        match After(ops[..|ops| - 1])
        case Known(text) => Appended(text, f)
        case Wild => Wild
  }

  /** No append is attempted on a string whose length lies outside its buffer. */
  predicate Defined(ops: seq<Op>)
  {
    forall i :: 0 <= i < |ops| && ops[i].Append? ==> After(ops[..i]).Known?
  }

  function Start(ops: seq<Op>): (start: nat)
    ensures start <= |ops|
    ensures forall i :: start < i < |ops| ==> ops[i].Append?
    ensures start < |ops| ==> !ops[start].Clear?
    ensures start == 0 || ops[start - 1].Clear? || (start < |ops| && ops[start].Print?)
  {
    if ops == [] then 0
    else
      match ops[|ops| - 1]
      case Clear => |ops|
      case Print(_) => |ops| - 1
      case Append(_) => Start(ops[..|ops| - 1])
  }

  predicate Good(op: Op)
  {
    op.Clear? || Succeeds(op.f)
  }

  function Failures(ops: seq<Op>): nat
  {
    if ops == [] then 0 else Failures(ops[..|ops| - 1]) + if Good(ops[|ops| - 1]) then 0 else 1
  }

  /** The texts of the operations, put together. */
  function Concatenation(ops: seq<Op>): string
  {
    if ops == [] then ""
    else
      var op := ops[|ops| - 1];
      Concatenation(ops[..|ops| - 1]) + if op.Clear? || !Good(op) then "" else op.f.text
  }

  /** The operations since the string was last emptied, the printing one included. */
  function Recent(ops: seq<Op>): seq<Op>
  {
    ops[Start(ops)..]
  }

  lemma RecentStep(ops: seq<Op>)
    requires ops != []
    ensures var before, op := ops[..|ops| - 1], ops[|ops| - 1];
            Recent(ops) == if op.Clear? then [] else if op.Print? then [op] else Recent(before) + [op]
  {
  }

  lemma OneMore(ops: seq<Op>, op: Op)
    ensures Failures(ops + [op]) == Failures(ops) + if Good(op) then 0 else 1
    ensures Concatenation(ops + [op]) == Concatenation(ops) + if op.Clear? || !Good(op) then "" else op.f.text
  {
    assert (ops + [op])[..|ops|] == ops;
  }

  /** Each failure since the string was emptied costs it one character, or its place in the buffer. */
  lemma {:induction false} FailuresCost(ops: seq<Op>)
    ensures match After(ops)
            case Known(text) => |text| + Failures(Recent(ops)) == |Concatenation(Recent(ops))|
            case Wild => Failures(Recent(ops)) > 0
    ensures Failures(Recent(ops)) == 0 ==> After(ops) == Known(Concatenation(Recent(ops)))
  {
    if ops != [] {
      var before, op := ops[..|ops| - 1], ops[|ops| - 1];
      RecentStep(ops);
      if op.Append? {
        FailuresCost(before);
        OneMore(Recent(before), op);
      } else if op.Print? {
        OneMore([], op);
        assert [] + [op] == [op];
      }
    }
  }

  /** The string is the concatenation since it was emptied exactly when nothing has failed since then. */
  lemma ConcatenationExactly(ops: seq<Op>)
    ensures After(ops) == Known(Concatenation(Recent(ops))) <==> Failures(Recent(ops)) == 0
  {
    FailuresCost(ops);
  }

  /** What a reader of the buffer as a C string finds. */
  function CString(s: string): string
  {
    if s == "" || s[0] == NUL then "" else [s[0]] + CString(s[1..])
  }

  lemma {:induction false} CStringIs(s: string, n: nat)
    requires n < |s| && s[n] == NUL && NUL !in s[..n]
    ensures CString(s) == s[..n]
  {
    if n > 0 {
      assert s[..n][0] == s[0];
      assert s[1..][..n - 1] == s[..n][1..];
      CStringIs(s[1..], n - 1);
    }
  }

  // ---------------------------------------------------------------- the class

  function Least(a: int, b: int): int
  {
    if a < b then a else b
  }

  /** `vsnprintf(m + at, n, ...)`: as much as fits, a terminator, and the length there would have been. */
  method Vsnprintf(m: array<char>, at: nat, n: nat, f: Format) returns (ret: int)
    requires 0 < n && at + n <= m.Length
    modifies m
    ensures ret == Returned(f)
    ensures m[..at] == old(m[..at])
    ensures var k := Least(|f.text|, n - 1);
            m[at..at + k] == f.text[..k] && m[at + k] == NUL && m[at + k + 1..] == old(m[at + k + 1..])
  {
    var k := Least(|f.text|, n - 1);
    for i := 0 to k
      invariant forall j :: 0 <= j < at ==> m[j] == old(m[j])
      invariant forall j :: at <= j < at + i ==> m[j] == f.text[j - at]
      invariant forall j :: at + i <= j < m.Length ==> m[j] == old(m[j])
    {
      m[at + i] := f.text[i];
    }
    m[at + k] := NUL;
    ret := Returned(f);
  }

  /** The size the source computes has room for `n` characters and one more, in whole increments. */
  function Rounded(n: nat): (size: nat)
    ensures n < size <= n + INCREMENT && size % INCREMENT == 0
  {
    (n + INCREMENT) / INCREMENT * INCREMENT
  }

  /** The bytes a text of the returned length needs; none when the format failed. */
  function Needed(ret: int): (r: nat)
    requires -1 <= ret <= INT_MAX
    ensures r == ret + 1
  {
    (ret % WORD + 1) % WORD
  }

  /** What adding a returned length to a `size_t` gives. */
  function Added(strlen: nat, ret: int): (r: nat)
    requires strlen <= MAX_OBJECT && -1 <= ret <= INT_MAX
    ensures r == if ret >= 0 then strlen + ret else if strlen == 0 then WORD - 1 else strlen - 1
  {
    (strlen + ret % WORD) % WORD
  }

  lemma AppendedIs(text: string, f: Format)
    ensures Succeeds(f) ==> Appended(text, f) == Known(text + f.text)
    ensures !Succeeds(f) ==> Appended(text, f) == if |text| == 0 then Wild else Known(text[..|text| - 1])
  {
  }

  lemma Halves(m: array<char>, at: nat, text: string)
    requires at <= m.Length
    ensures at + |text| < m.Length && m[at..at + |text|] == text ==> m[..at + |text|] == m[..at] + text
    ensures at > 0 ==> m[..at - 1] == m[..at][..at - 1]
  {
  }

  /** How an operation ends. When it writes outside the buffer, what happens then is not defined. */
  datatype Outcome = Done | OutOfMemory | OutOfBounds

  class GenStg {
    var buf: array<char>
    var size: nat
    var strlen: nat

    ghost predicate Valid()
      reads this, buf
    {
      Sound() && strlen < size && buf[strlen] == NUL
    }

    /** The size is as it should be, whatever the length. */
    ghost predicate Sound()
      reads this
    {
      buf.Length == size <= MAX_OBJECT && size > 0 && size % INCREMENT == 0 && strlen < WORD
    }

    ghost predicate Holds(v: Meaning)
      reads this, buf
    {
      match v
      case Known(text) => strlen == |text| < size && buf.Length == size && buf[..strlen] == text
      case Wild => strlen >= size
    }

    constructor ()
      ensures Valid() && Holds(Known("")) && fresh(buf)
    {
      strlen, size := 0, INCREMENT;
      buf := new char[INCREMENT](_ => NUL);
    }

    method Sclear()
      requires Sound()
      modifies this, buf
      ensures Valid() && Holds(Known("")) && buf == old(buf)
    {
      strlen := 0;
      buf[0] := NUL;
    }

    /** `realloc`: false when there is no memory, in which case the program ends. */
    method Realloc(wanted: nat) returns (ok: bool)
      requires buf.Length <= wanted
      modifies this`buf
      ensures ok ==> wanted <= MAX_OBJECT && fresh(buf) && buf.Length == wanted
      ensures ok ==> buf[..old(buf.Length)] == old(buf[..])
      ensures !ok ==> buf == old(buf)
    {
      ok := *;
      ok := ok && wanted <= MAX_OBJECT;
      if ok {
        var smaller, bigger := buf, new char[wanted];
        for i := 0 to smaller.Length
          invariant bigger[..i] == smaller[..i]
        {
          bigger[i] := smaller[i];
          assert bigger[..i + 1] == bigger[..i] + [bigger[i]] && smaller[..i + 1] == smaller[..i] + [smaller[i]];
        }
        assert smaller[..smaller.Length] == smaller[..];
        buf := bigger;
      }
    }

    /** Make room for a text of which the first formatting was cut short, and format it again. */
    method GrowAndFormat(f: Format) returns (alive: bool)
      requires Sound() && strlen < size && Succeeds(f) && |f.text| + 1 > size - strlen
      modifies this`buf, this`size, buf
      ensures alive ==>
                && Sound() && strlen + |f.text| < size && fresh(buf)
                && buf[..strlen] == old(buf[..strlen])
                && buf[strlen..strlen + |f.text|] == f.text && buf[strlen + |f.text|] == NUL
    {
      hide Rounded;
      var wanted := Rounded(strlen + |f.text| + 1);
      alive := Realloc(wanted);
      if alive {
        size := wanted;
        var ret := Vsnprintf(buf, strlen, size - strlen, f);
      }
    }

    /**
     Append a formatted text. A failing format leaves the length one less; a length that lies outside the
     buffer makes the text go there too.
     */
    method MAppendf(f: Format) returns (outcome: Outcome)
      requires Sound()
      modifies this, buf
      ensures outcome.OutOfBounds? <==> old(strlen >= size)
      ensures outcome.OutOfMemory? ==> |f.text| + 1 > old(size - strlen)
      ensures outcome.Done? ==> Sound() && Holds(Appended(old(Content()), f))
      ensures outcome.Done? ==> old(strlen) <= buf.Length && buf[..old(strlen)] == old(Content())
      ensures outcome.Done? && Succeeds(f) ==> Valid()
      ensures outcome.Done? && buf != old(buf) ==> fresh(buf)
    {
      hide Added, Appended;
      if strlen >= size {
        return OutOfBounds;
      }
      ghost var text := buf[..strlen];
      var ret, alive := FormatAtEnd(f);
      if !alive {
        return OutOfMemory;
      }
      Halves(buf, strlen, f.text);
      AppendedIs(text, f);
      strlen := Added(strlen, ret);
      return Done;
    }

    /** Put the text behind what is there, with more room if it needs any. */
    method FormatAtEnd(f: Format) returns (ret: int, alive: bool)
      requires Sound() && strlen < size
      modifies this`buf, this`size, buf
      ensures ret == Returned(f)
      ensures !alive ==> |f.text| + 1 > old(size - strlen)
      ensures alive ==> Sound() && strlen < size && buf[..strlen] == old(buf[..strlen])
      ensures alive && Succeeds(f) ==>
                && strlen + |f.text| < size
                && buf[strlen..strlen + |f.text|] == f.text && buf[strlen + |f.text|] == NUL
      ensures alive && buf != old(buf) ==> fresh(buf)
    {
      hide Rounded, Needed;
      alive := true;
      ret := Vsnprintf(buf, strlen, size - strlen, f);
      if Needed(ret) > size - strlen {
        alive := GrowAndFormat(f);
      }
    }

    method Sprintf(f: Format) returns (outcome: Outcome)
      requires Sound()
      modifies this, buf
      ensures !outcome.OutOfBounds?
      ensures outcome.OutOfMemory? ==> |f.text| + 1 > old(size)
      ensures outcome.Done? ==> Sound() && Holds(Appended("", f))
      ensures outcome.Done? ==> (Valid() <==> Succeeds(f))
      ensures outcome.Done? && buf != old(buf) ==> fresh(buf)
    {
      Sclear();
      assert Content() == "";
      outcome := MAppendf(f);
    }

    method Appendf(f: Format) returns (outcome: Outcome)
      requires Sound()
      modifies this, buf
      ensures outcome.OutOfBounds? <==> old(strlen >= size)
      ensures outcome.OutOfMemory? ==> |f.text| + 1 > old(size - strlen)
      ensures outcome.Done? ==> Sound() && Holds(Appended(old(Content()), f))
      ensures outcome.Done? && NUL !in old(Content()) ==> (Valid() <==> Succeeds(f))
      ensures outcome.Done? && Succeeds(f) ==> Valid()
      ensures outcome.Done? && buf != old(buf) ==> fresh(buf)
    {
      ghost var text, n := Content(), strlen;
      outcome := MAppendf(f);
      if outcome.Done? && !Succeeds(f) && n > 0 {
        assert buf[n - 1] == buf[..n][n - 1] == text[n - 1];
      }
    }

    /** The characters up to the length, if that lies inside the buffer. */
    ghost function Content(): string
      reads this, buf
    {
      if strlen <= buf.Length then buf[..strlen] else ""
    }
  }

  /**
   Any run, up to where it ends: it writes outside the buffer if and only if it appends to a wild string,
   unless memory runs out before; otherwise the buffer holds what it should.
   */
  method Run(ops: seq<Op>) returns (s: GenStg, outcome: Outcome)
    ensures outcome.OutOfBounds? ==> !Defined(ops)
    ensures outcome.Done? ==> Defined(ops) && s.Sound() && s.Holds(After(ops))
    ensures var text := Concatenation(Recent(ops));
            outcome.Done? && Failures(Recent(ops)) == 0 ==>
              s.Valid() && s.buf[..s.strlen] == text && (NUL !in text ==> CString(s.buf[..]) == text)
  {
    hide CString, After, Start, Recent, Concatenation, Failures, Appended;
    s := new GenStg();
    outcome := Done;
    AfterNothing();
    for i := 0 to |ops|
      invariant fresh(s) && fresh(s.buf)
      invariant s.Sound() && s.Holds(After(ops[..i]))
      invariant (i == 0 || Good(ops[i - 1])) && After(ops[..i]).Known? ==> s.Valid()
      invariant outcome.Done? && forall j :: 0 <= j < i && ops[j].Append? ==> After(ops[..j]).Known?
    {
      AfterNext(ops, i);
      match ops[i] {
        case Clear => s.Sclear();
        case Print(f) => outcome := s.Sprintf(f);
        case Append(f) => outcome := s.Appendf(f);
      }
      if !outcome.Done? {
        return;
      }
    }
    assert ops[..|ops|] == ops;
    ConcatenationExactly(ops);
    if ops != [] && Failures(Recent(ops)) == 0 {
      LastIsGood(ops);
    }
    if Failures(Recent(ops)) == 0 && NUL !in Concatenation(Recent(ops)) {
      assert s.buf[..][..s.strlen] == s.buf[..s.strlen];
      CStringIs(s.buf[..], s.strlen);
    }
  }

  lemma AfterNothing()
    ensures After([]) == Known("") && Recent([]) == [] && Failures([]) == 0 && Concatenation([]) == ""
  {
  }

  lemma AfterNext(ops: seq<Op>, i: nat)
    requires i < |ops|
    ensures After(ops[..i + 1]) ==
            match ops[i]
            case Clear => Known("")
            case Print(f) => Appended("", f)
            case Append(f) =>
              match After(ops[..i])
              case Known(text) => Appended(text, f)
              case Wild => Wild
  {
    assert ops[..i + 1][..i] == ops[..i];
  }

  lemma LastIsGood(ops: seq<Op>)
    requires ops != [] && Failures(Recent(ops)) == 0
    ensures Good(ops[|ops| - 1])
  {
    hide Start, Recent, Failures;
    RecentStep(ops);
    AfterNothing();
    var op := ops[|ops| - 1];
    if op.Append? {
      OneMore(Recent(ops[..|ops| - 1]), op);
    } else if op.Print? {
      OneMore([], op);
      assert [] + [op] == [op];
    }
  }

  /** A failed append takes away what an earlier one put there. */
  lemma FailureTakesACharacter()
    ensures var ops := [Append(Text("a")), Append(Fails(""))];
            After(ops) == Known("") && Concatenation(Recent(ops)) == "a"
  {
    hide After, Recent, Concatenation, Failures;
    var a, b := Append(Text("a")), Append(Fails(""));
    var ops := [a, b];
    AfterNothing();
    assert ops[..0] == [] && ops[..1] == [a] && ops[..2] == ops;
    AfterNext(ops, 0);
    AfterNext(ops, 1);
    RecentStep([a]);
    RecentStep(ops);
    assert [a][..0] == [] && [] + [a] == [a] && [a] + [b] == ops;
    OneMore([], a);
    OneMore([a], b);
  }

  /** And on an empty string the length leaves the buffer, so that the next append writes outside it. */
  lemma FailureOnEmptyIsWild()
    ensures !Defined([Append(Fails("")), Append(Text("a"))])
  {
    hide After;
    var ops := [Append(Fails("")), Append(Text("a"))];
    AfterNothing();
    assert ops[..0] == [];
    AfterNext(ops, 0);
    assert ops[1].Append?;
  }
}
