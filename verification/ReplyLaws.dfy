/** What the reply parser makes of the replies a server sends, from their bytes. */
module ReplyLaws {
  import opened Arith
  import opened Decimal
  import opened Response
  import opened Sequences
  import opened Tokenizer
  import opened ZigInt
  import RespRoundTrip

  const MAX_LENGTH := 0x7FFF_FFFF

  /** An element of an array: absent, a line that is no length, or a length and a line. */
  datatype Item = Absent | Junk(line: string) | Text(n: nat, line: string)
  {
    /** As the server sends it. */
    function Sent(): string {
      match this
      case Absent => "$-1" + CRLF
      case Junk(line) => line + CRLF
      case Text(n, line) => "$" + Print(n) + CRLF + (line + CRLF)
    }

    predicate Valid() {
      match this
      case Absent => true
      case Junk(line) => line != [] && Free(line, CRLF) && (line[0] != '$' || NotNumeric(line[1..]))
      case Text(n, line) => line != [] && Free(line, CRLF) && n <= |line| && n <= MAX_LENGTH
    }

    /** As the client shows it: a line is cut to the length in front of it. */
    function Shown(): string
      requires Valid()
    {
      match this
      case Absent => "nil"
      case Junk(_) => "nil"
      case Text(n, line) => line[..n]
    }
  }

  /** It starts with neither a digit nor a sign. */
  predicate NotNumeric(s: string) { s == [] || (!IsDigit(s[0]) && s[0] != '+' && s[0] != '-') }

  lemma NotNumericParses(s: string, lo: int, hi: int)
    requires NotNumeric(s) && lo <= 0 <= hi
    ensures ParseInt(s, lo, hi) == InvalidCharacter
  {
    if s != [] && s[0] != '_' {
      var none: string := [];
      assert [s[0]] == none + [s[0]] && [s[0]] + s[1..] == s;
      OneMore(none, s[0], 1, lo, hi);
      PrefixDecides([s[0]], s[1..], 1, lo, hi);
    }
  }

  predicate AllValid(items: seq<Item>) { forall i :: 0 <= i < |items| ==> items[i].Valid() }

  function SentAll(items: seq<Item>): string {
    if items == [] then [] else items[0].Sent() + SentAll(items[1..])
  }

  function Shown(items: seq<Item>): (r: seq<string>)
    requires AllValid(items)
    ensures |r| == |items|
  {
    seq(|items|, i requires 0 <= i < |items| => items[i].Shown())
  }

  function Header(mark: char, n: nat): string { [mark] + Print(n) + CRLF }

  /** The lines of one element. */
  function LinesOf(it: Item): seq<string> {
    match it
    case Absent => ["$-1"]
    case Junk(line) => [line]
    case Text(n, line) => ["$" + Print(n), line]
  }

  lemma ItemTokens(it: Item, tail: string)
    requires it.Valid()
    ensures Tokens(it.Sent() + tail, CRLF) == LinesOf(it) + Tokens(tail, CRLF)
  {
    hide Tokens, Free, Print;
    match it {
      case Absent => NilIsFree(); LineIsToken("$-1", tail);
      case Junk(line) => LineIsToken(line, tail);
      case Text(n, line) =>
        var h := "$" + Print(n);
        RespRoundTrip.PrintedIsFree('$', n);
        Regroup(h + CRLF, line + CRLF, tail);
        LineIsToken(h, line + CRLF + tail);
        LineIsToken(line, tail);
        Regroup([h], [line], Tokens(tail, CRLF));
    }
  }

  lemma NilIsFree()
    ensures Free("$-1", CRLF)
  {
    RespRoundTrip.NoCrIsFree("$-1");
  }

  lemma ItemElement(it: Item, rest: seq<string>)
    requires it.Valid()
    ensures Element(LinesOf(it) + rest) == Some((it.Shown(), |LinesOf(it)|))
  {
    var lines := LinesOf(it) + rest;
    match it {
      case Absent =>
        assert lines[0] == "$-1" && "$-1"[1..] == "-" + "1";
        SignedDigits("1", I32_MIN, I32_MAX);
        assert "1"[..0] == [] && Value("1") == 1;
        assert Length("$-1") == -1;
      case Junk(line) =>
        assert lines[0] == line;
        if line[0] == '$' { NotNumericParses(line[1..], I32_MIN, I32_MAX); }
        hide ParseInt;
        assert Length(line) == -1;
      case Text(n, line) =>
        var h := "$" + Print(n);
        assert h[1..] == Print(n);
        ParsePrinted(n, I32_MIN, I32_MAX);
        assert Length(h) == n by { hide ParseInt, Print; }
        hide Length, Print;
        assert lines[0] == h && lines[1] == line;
    }
  }

  function ElementsOf(s: string, n: nat): Option<seq<string>> { Elements(Tokens(s, CRLF), n) }

  lemma ItemRead(it: Item, tail: string, n: nat, more: seq<string>, end: Option<seq<string>>)
    requires it.Valid() && n > 0 && ElementsOf(tail, n - 1) == Append(more, end)
    ensures ElementsOf(it.Sent() + tail, n) == Append([it.Shown()] + more, end)
  {
    ItemTokens(it, tail);
    ItemElement(it, Tokens(tail, CRLF));
    hide Tokens, Element, Elements, LinesOf, Item.Sent, Item.Shown, Append;
    ElementsStep(LinesOf(it), Tokens(tail, CRLF), it.Shown(), n, more, end);
  }

  lemma NoItems(tail: string, m: nat)
    ensures SentAll([]) + tail == tail && Append(Shown([]), ElementsOf(tail, m)) == ElementsOf(tail, m)
  {
    AppendNone(ElementsOf(tail, m));
    assert Shown([]) == [];
  }

  /** The elements are read one by one, and then those of the tail. */
  lemma {:induction false} ItemsRead(items: seq<Item>, tail: string, m: nat)
    requires AllValid(items)
    ensures ElementsOf(SentAll(items) + tail, |items| + m) == Append(Shown(items), ElementsOf(tail, m))
  {
    if items == [] {
      hide *;
      NoItems(tail, m);
    } else {
      var it, rest := items[0], items[1..];
      assert it.Valid() && AllValid(rest) && |rest| + m == |items| + m - 1;
      hide Item.Valid, Item.Sent, Item.Shown, SentAll, ElementsOf, Append, Shown;
      ItemsRead(rest, tail, m);
      SentFirst(items, tail);
      ItemRead(it, SentAll(rest) + tail, |items| + m, Shown(rest), ElementsOf(tail, m));
    }
  }

  lemma SentFirst(items: seq<Item>, tail: string)
    requires items != [] && AllValid(items)
    ensures SentAll(items) + tail == items[0].Sent() + (SentAll(items[1..]) + tail)
    ensures Shown(items) == [items[0].Shown()] + Shown(items[1..])
  {
    ShownFirst(items);
    assert SentAll(items) == items[0].Sent() + SentAll(items[1..]);
    hide *;
    Regroup(items[0].Sent(), SentAll(items[1..]), tail);
  }

  lemma ShownFirst(items: seq<Item>)
    requires items != [] && AllValid(items)
    ensures Shown(items) == [items[0].Shown()] + Shown(items[1..])
  {
    hide Item.Shown, Item.Valid;
  }

  lemma ElementsStep(head: seq<string>, rest: seq<string>, s: string, n: nat,
                     more: seq<string>, end: Option<seq<string>>)
    requires n > 0 && Element(head + rest) == Some((s, |head|)) && Elements(rest, n - 1) == Append(more, end)
    ensures Elements(head + rest, n) == Append([s] + more, end)
  {
    hide Element, Append;
    assert (head + rest)[|head|..] == rest;
    ConsAppends(s, more, end);
  }

  lemma ElementsStop(lines: seq<string>, n: nat)
    requires n > 0 && Element(lines) == None
    ensures Elements(lines, n) == None
  {
    hide Element;
  }

  lemma ConsAppends(s: string, a: seq<string>, rest: Option<seq<string>>)
    ensures Cons(s, Append(a, rest)) == Append([s] + a, rest)
  {
    if rest.Some? { Regroup([s], a, rest.value); }
  }

  lemma HeaderTokens(mark: char, n: nat, tail: string)
    requires mark != '\r'
    ensures Tokens(Header(mark, n) + tail, CRLF) == [[mark] + Print(n)] + Tokens(tail, CRLF)
  {
    RespRoundTrip.PrintedIsFree(mark, n);
    hide Tokens, Free, Print;
    LineIsToken([mark] + Print(n), tail);
  }

  lemma ArrayOf(n: nat, tail: string)
    requires n <= MAX_LENGTH
    ensures ReplyOf(Tokens(Header('*', n) + tail, CRLF)) ==
            var es := ElementsOf(tail, n);
            if es.Some? then Array(es.value) else InvalidResp
  {
    HeaderTokens('*', n, tail);
    ParsePrinted(n, I32_MIN, I32_MAX);
    var h, rest := "*" + Print(n), Tokens(tail, CRLF);
    assert h[1..] == Print(n) && h[0] == '*';
    hide Tokens, ParseInt, Elements, Print;
    assert ([h] + rest)[0] == h && ([h] + rest)[1..] == rest;
  }

  /** An array comes out as its elements in order, `nil` for each one that is absent. */
  lemma ArrayReads(items: seq<Item>)
    requires AllValid(items) && |items| <= MAX_LENGTH
    ensures ReplyOf(Tokens(Header('*', |items|) + SentAll(items), CRLF)) == Array(Shown(items))
  {
    hide *;
    ArrayOf(|items|, SentAll(items));
    ItemsRead(items, [], 0);
    NothingMore(SentAll(items), Shown(items));
  }

  lemma NothingMore(s: string, a: seq<string>)
    ensures s + [] == s && Append(a, ElementsOf([], 0)) == Some(a)
  {
    assert a + [] == a;
  }

  // ---- Arrays that break off ----

  /** What an array cannot go on with: nothing, a length without its line, a line shorter
      than its length, a length below -1. */
  datatype Break = Nothing | NoLine(n: nat) | ShortLine(n: nat, line: string, more: string)
                 | Negative(n: nat, more: string)
  {
    function Sent(): string {
      match this
      case Nothing => []
      case NoLine(n) => "$" + Print(n) + CRLF
      case ShortLine(n, line, more) => "$" + Print(n) + CRLF + (line + CRLF + more)
      case Negative(n, more) => "$-" + Print(n) + CRLF + more
    }

    predicate Valid() {
      match this
      case Nothing => true
      case NoLine(n) => n <= MAX_LENGTH
      case ShortLine(n, line, _) => |line| < n <= MAX_LENGTH && line != [] && Free(line, CRLF)
      case Negative(n, _) => 1 < n <= MAX_LENGTH
    }
  }

  lemma BreakStops(b: Break)
    requires b.Valid()
    ensures Element(Tokens(b.Sent(), CRLF)) == None
  {
    hide Tokens, Free, Print;
    match b {
      case Nothing => LastIsToken([], CRLF);
      case NoLine(n) =>
        RespRoundTrip.PrintedIsFree('$', n);
        LineIsToken("$" + Print(n), []);
        assert b.Sent() == "$" + Print(n) + CRLF + [];
        LastIsToken([], CRLF);
        LengthOf(n);
      case ShortLine(n, line, more) =>
        RespRoundTrip.PrintedIsFree('$', n);
        LineIsToken("$" + Print(n), line + CRLF + more);
        LineIsToken(line, more);
        LengthOf(n);
      case Negative(n, more) =>
        var h := "$-" + Print(n);
        NegativeLength(n);
        LineIsToken(h, more);
    }
  }

  lemma LengthOf(n: nat)
    requires n <= MAX_LENGTH
    ensures Length("$" + Print(n)) == n
  {
    ParsePrinted(n, I32_MIN, I32_MAX);
    assert ("$" + Print(n))[1..] == Print(n);
  }

  lemma NegativeLength(n: nat)
    requires n <= MAX_LENGTH
    ensures Length("$-" + Print(n)) == 0 - n && Free("$-" + Print(n), CRLF)
  {
    var h := "$-" + Print(n);
    SignedDigits(Print(n), I32_MIN, I32_MAX);
    ValuePrint(n);
    assert h[1..] == "-" + Print(n);
    assert '\r' !in h by { assert h == "$-" + Print(n); }
    RespRoundTrip.NoCrIsFree(h);
  }

  /** An array that breaks off before its last element is no reply. */
  lemma BrokenArray(items: seq<Item>, n: nat, b: Break)
    requires AllValid(items) && |items| < n <= MAX_LENGTH && b.Valid()
    ensures ReplyOf(Tokens(Header('*', n) + (SentAll(items) + b.Sent()), CRLF)) == InvalidResp
  {
    var m := n - |items|;
    hide *;
    BreakEnds(b, m);
    ItemsRead(items, b.Sent(), m);
    AppendNothing(Shown(items));
    ArrayOf(n, SentAll(items) + b.Sent());
  }

  lemma BreakEnds(b: Break, m: nat)
    requires b.Valid() && m > 0
    ensures ElementsOf(b.Sent(), m) == None
  {
    hide Tokens, Break.Sent, Break.Valid, Elements;
    BreakStops(b);
    ElementsStop(Tokens(b.Sent(), CRLF), m);
  }

  lemma AppendNothing(a: seq<string>)
    ensures Append(a, None) == None
  {
  }

  // ---- The other kinds ----

  /** A line of text: a mark and what it says. */
  lemma LineReplies(s: string, rest: string)
    requires Free(s, CRLF)
    ensures ReplyOf(Tokens("+" + s + CRLF + rest, CRLF)) == SimpleString("\"" + s + "\"")
    ensures ReplyOf(Tokens("-" + s + CRLF + rest, CRLF)) == SimpleError(s)
    ensures ReplyOf(Tokens(":" + s + CRLF + rest, CRLF)) == Integer(s)
    ensures ReplyOf(Tokens("," + s + CRLF + rest, CRLF)) == Double(s)
  {
    MarkedReply('+', s, rest);
    MarkedReply('-', s, rest);
    MarkedReply(':', s, rest);
    MarkedReply(',', s, rest);
  }

  lemma MarkedReply(mark: char, s: string, rest: string)
    requires Free(s, CRLF) && mark in "+-:,"
    ensures ReplyOf(Tokens([mark] + s + CRLF + rest, CRLF)) ==
            if mark == '+' then SimpleString("\"" + s + "\"") else if mark == '-' then SimpleError(s)
            else if mark == ':' then Integer(s) else Double(s)
  {
    MarkedLine(mark, s, rest);
    hide Tokens;
    var lines := [[mark] + s] + Tokens(rest, CRLF);
    assert lines[0] == [mark] + s;
  }

  lemma DollarLine(body: string, rest: seq<string>)
    ensures ReplyOf([['$'] + body] + rest) == BulkReply(body, rest)
    ensures ReplyOf([['*'] + body] + rest) == ArrayReply(body, rest)
  {
    hide BulkReply, ArrayReply;
    var a, b := [['$'] + body] + rest, [['*'] + body] + rest;
    assert a[0] == ['$'] + body && a[1..] == rest && a[0][1..] == body;
    assert b[0] == ['*'] + body && b[1..] == rest && b[0][1..] == body;
  }

  lemma MarkedLine(mark: char, s: string, rest: string)
    requires Free(s, CRLF) && mark != '\r'
    ensures Tokens([mark] + s + CRLF + rest, CRLF) == [[mark] + s] + Tokens(rest, CRLF)
    ensures ([mark] + s)[1..] == s
  {
    var l := [mark] + s;
    forall i | 0 <= i < |l|
      ensures !(CRLF <= l[i..])
    {
      if i == 0 { assert l[0] == mark; } else { assert l[i..] == s[i - 1..]; }
    }
    LineIsToken(l, rest);
  }

  /** A line with no mark of a reply is skipped. */
  lemma UnmarkedSkipped(line: string, rest: string)
    requires line != [] && Free(line, CRLF) && line[0] !in "+-:,$*"
    ensures ReplyOf(Tokens(line + CRLF + rest, CRLF)) == ReplyOf(Tokens(rest, CRLF))
  {
    LineIsToken(line, rest);
    hide Tokens;
    var lines := [line] + Tokens(rest, CRLF);
    assert lines[0] == line && lines[1..] == Tokens(rest, CRLF);
    var marks := "+-:,$*";
    assert '+' in marks && '-' in marks && ':' in marks && ',' in marks && '$' in marks && '*' in marks;
  }

  /** A bulk string comes out whole, and only when it is as long as it says. */
  lemma BulkReads(n: nat, s: string, rest: string)
    requires s != [] && Free(s, CRLF) && n <= 0xFFFF_FFFF
    ensures ReplyOf(Tokens(Header('$', n) + (s + CRLF + rest), CRLF))
         == if |s| == n then BulkString(s) else InvalidResp
    ensures ReplyOf(Tokens(Header('$', n), CRLF)) == InvalidResp
  {
    HeaderTokens('$', n, s + CRLF + rest);
    HeaderTokens('$', n, []);
    assert Header('$', n) + [] == Header('$', n);
    LineIsToken(s, rest);
    LastIsToken([], CRLF);
    hide Tokens, ReplyOf, BulkReply, Header, Print;
    DollarLine(Print(n), [s] + Tokens(rest, CRLF));
    DollarLine(Print(n), []);
    BulkOf(n, [s] + Tokens(rest, CRLF));
    BulkOf(n, []);
  }

  lemma BulkOf(n: nat, rest: seq<string>)
    requires n <= 0xFFFF_FFFF
    ensures BulkReply(Print(n), rest) ==
            if rest == [] || |rest[0]| != n then InvalidResp else BulkString(rest[0])
  {
    ParsePrinted(n, 0, U32_MAX);
    var d := Print(n);
    assert IsDigit(d[0]);
    hide ParseInt, Print;
    if |d| > 1 { assert d[..2][0] == d[0]; }
  }

  /** The two absent replies. */
  lemma AbsentReplies(rest: string)
    ensures ReplyOf(Tokens("$-1" + CRLF + rest, CRLF)) == BulkString("(nil)")
    ensures ReplyOf(Tokens("*-1" + CRLF + rest, CRLF)) == NilArray
    ensures ReplyOf([]) == InvalidResp
  {
    NilIsFree();
    RespRoundTrip.NoCrIsFree("*-1");
    LineIsToken("$-1", rest);
    LineIsToken("*-1", rest);
    assert "$-1" == ['$'] + "-1" && "*-1" == ['*'] + "-1";
    hide Tokens;
    DollarLine("-1", Tokens(rest, CRLF));
    AbsentBodies(Tokens(rest, CRLF));
  }

  lemma AbsentBodies(rest: seq<string>)
    ensures BulkReply("-1", rest) == BulkString("(nil)") && ArrayReply("-1", rest) == NilArray
  {
    SignedDigits("1", I32_MIN, I32_MAX);
    assert "1"[..0] == [] && Value("1") == 1 && "-" + "1" == "-1" && "-1"[..2] == "-1";
    hide ParseInt, Elements;
  }

  /** Headers that count nothing: what is not a number, and numbers out of range. */
  lemma OddHeaders(s: string, n: nat, rest: string)
    requires Free(s, CRLF) && NotNumeric(s) && 1 < n
    ensures ReplyOf(Tokens(['*'] + s + CRLF + rest, CRLF))
         == if s == [] then InvalidResp else NumberError(InvalidCharacter)
    ensures ReplyOf(Tokens(['$'] + s + CRLF + rest, CRLF))
         == if s == [] then InvalidResp else NumberError(InvalidCharacter)
    ensures ReplyOf(Tokens(['*'] + ("-" + Print(n)) + CRLF + rest, CRLF))
         == if n <= 0x8000_0000 then Trap else NumberError(Overflow)
  {
    MinusIsFree(n);
    var lines := Tokens(rest, CRLF);
    hide *;
    MarkedLine('*', s, rest);
    MarkedLine('$', s, rest);
    MarkedLine('*', "-" + Print(n), rest);
    DollarLine(s, lines);
    DollarLine("-" + Print(n), lines);
    OddBodies(s, n, lines);
  }

  lemma MinusIsFree(n: nat)
    ensures Free("-" + Print(n), CRLF)
  {
    assert '\r' !in "-" + Print(n);
    RespRoundTrip.NoCrIsFree("-" + Print(n));
  }

  lemma OddBodies(s: string, n: nat, rest: seq<string>)
    requires NotNumeric(s) && 1 < n
    ensures ArrayReply(s, rest) == BulkReply(s, rest)
         == if s == [] then InvalidResp else NumberError(InvalidCharacter)
    ensures ArrayReply("-" + Print(n), rest) == if n <= 0x8000_0000 then Trap else NumberError(Overflow)
  {
    NotNumericParses(s, I32_MIN, I32_MAX);
    NotNumericParses(s, 0, U32_MAX);
    SignedDigits(Print(n), I32_MIN, I32_MAX);
    ValuePrint(n);
    hide ParseInt, Print, Elements;
    if |s| > 1 { assert s[..2][0] == s[0]; }
  }
}
