/** Requests against the RESP2 grammar, and against the reply parser. */
module RespRoundTrip {
  import opened Tokenizer
  import opened Decimal
  import opened Arith
  import opened Sequences
  import opened ZigInt
  import opened Request
  import Response

  // ---- What the request parser builds ----

  /** No string is empty. */
  predicate NonEmpty(ss: seq<string>) { forall i :: 0 <= i < |ss| ==> ss[i] != [] }

  /** No string holds a CR LF. */
  predicate OneLiners(ss: seq<string>) { forall i :: 0 <= i < |ss| ==> Free(ss[i], CRLF) }

  /** What every command the parser accepts satisfies. */
  predicate WellCounted(kv: KV) {
    && kv.argsNum + 1 == |Strings(kv)| <= 128 && NonEmpty(Strings(kv))
    && '\r' !in kv.commandStr
  }

  lemma TagNames(tag: CommandType)
    ensures TagName(tag) != [] && '\r' !in TagName(tag)
  {
    match tag { case _ => }
  }

  lemma ArgumentsCounted(tokens: seq<string>, tag: CommandType, argNum: int)
    requires NonEmpty(tokens)
    ensures var r := Arguments(tokens, tag, argNum);
            r.Ok? ==> WellCounted(r.value) && (argNum >= 0 ==> r.value.argsNum == argNum)
  {
    TagNames(tag);
    hide TagName;
    assert forall i :: 0 <= i < |tokens| - 1 ==> tokens[1..][i] == tokens[i + 1];
  }

  lemma DispatchCounted(tag: CommandType, argNum: int, rest: seq<string>)
    requires NonEmpty(rest)
    ensures var r := Dispatch(tag, argNum, rest);
            r.Ok? && r.value.Command? ==> WellCounted(r.value.kv)
  {
    if tag == Ping {
      assert Args(KV("PING", None, None, 0)) == [];
    } else {
      ArgumentsCounted(rest, tag, argNum);
      hide Arguments, Placed, WellCounted;
    }
  }

  /** The header counts the strings that follow, for every arity, and none is empty. */
  lemma {:induction false} ParsedCounted(tokens: seq<string>)
    requires NonEmpty(tokens)
    ensures ParsedCommand(tokens).Ok? && ParsedCommand(tokens).value.Command? ==>
              WellCounted(ParsedCommand(tokens).value.kv)
  {
    if tokens != [] {
      hide Dispatch, WellCounted, LookUp;
      match LookUp(tokens[0], 0)
      case None => ParsedCounted(tokens[1..]);
      case Some((tag, argNum)) => DispatchCounted(tag, argNum, tokens[1..]);
    }
  }

  lemma CommandCounted(line: string)
    ensures var r := ParsedCommand(Tokens(line, BLANK));
            r.Ok? && r.value.Command? ==> WellCounted(r.value.kv)
  {
    TokensAreFree(line, BLANK);
    var tokens := Tokens(line, BLANK);
    assert forall i :: 0 <= i < |tokens| ==> tokens[i] in tokens;
    ParsedCounted(tokens);
  }

  /** The words typed are one command's name and as many arguments as it sends on. */
  predicate WholeLine(tokens: seq<string>) {
    tokens != [] && LookUp(tokens[0], 0).Some?
    && var (tag, argNum) := LookUp(tokens[0], 0).value;
       argNum == -1 || |tokens| - 1 == argNum
  }

  /** The commands with a fixed small arity take their first tokens and drop the rest. */
  lemma ArgumentsKeptIff(tokens: seq<string>, tag: CommandType, argNum: int)
    requires Arguments(tokens, tag, argNum).Ok?
    ensures var args := Args(Arguments(tokens, tag, argNum).value);
            (args == tokens <==> argNum == -1 || |tokens| == argNum) && args <= tokens
  {
    hide TagName;
    if |tokens| > 1 {
      assert tokens == [tokens[0]] + tokens[1..];
      assert [tokens[0]] + [tokens[1]] <= tokens;
    }
  }

  /** What is sent is what was typed, word for word, exactly when the first word names a
      command and the others are as many as it takes: any further words, and any words
      before the command, are dropped silently. */
  lemma {:induction false} SentIsTypedIff(tokens: seq<string>)
    requires var r := ParsedCommand(tokens); r.Ok? && r.value.Command?
    ensures tokens != [] && |Args(ParsedCommand(tokens).value.kv)| < |tokens|
    ensures Args(ParsedCommand(tokens).value.kv) == tokens[1..] <==> WholeLine(tokens)
  {
    PingTakesNone(tokens[0], 0);
    hide LookUp, Arguments, Args, Placed;
    match LookUp(tokens[0], 0)
    case None => SentIsTypedIff(tokens[1..]);
    case Some((tag, argNum)) => DispatchKeptIff(tag, argNum, tokens[1..]);
  }

  /** A value with a blank in it is cut at the blank. */
  lemma SetDropsRest()
    ensures var r := ParsedCommand(["set", "k", "hello", "world"]);
            r.Ok? && r.value.Command? && Args(r.value.kv) == ["k", "hello"]
  {
    var tokens := ["set", "k", "hello", "world"];
    SetLooksUp();
    hide LookUp;
    assert tokens[1..] == ["k", "hello", "world"];
    assert ["k"] + ["hello"] == ["k", "hello"];
  }

  lemma SetLooksUp()
    ensures LookUp("set", 0) == Some((Set, 2))
  {
    SetSpells();
    hide Spells;
    assert LookUp("set", 4) == LookUp("set", 5);
    assert LookUp("set", 2) == LookUp("set", 3);
    assert LookUp("set", 0) == LookUp("set", 1);
  }

  lemma SetSpells()
    ensures forall i :: 0 <= i < 5 ==> !Spells("set", i)
    ensures Spells("set", 5)
  {
    assert LowerChar("set"[0]) != LowerChar(TagName(Get)[0]);
  }

  lemma DispatchKeptIff(tag: CommandType, argNum: int, rest: seq<string>)
    requires var r := Dispatch(tag, argNum, rest); r.Ok? && r.value.Command?
    requires tag == Ping ==> argNum == 0
    ensures var args := Args(Dispatch(tag, argNum, rest).value.kv);
            (args == rest <==> argNum == -1 || |rest| == argNum) && |args| <= |rest|
  {
    if tag == Ping {
      assert Args(KV("PING", None, None, 0)) == [];
    } else {
      ArgumentsKeptIff(rest, tag, argNum);
      hide Arguments, Args, Placed;
    }
  }

  lemma {:induction false} AllWritten(ss: seq<string>)
    requires NonEmpty(ss)
    ensures Written(ss) == ss
  {
    if ss != [] { AllWritten(ss[..|ss| - 1]); }
  }

  /** Front to back, as a reader meets it. */
  function Body(ss: seq<string>): string {
    if ss == [] then [] else Bulk(ss[0]) + Body(ss[1..])
  }

  lemma {:induction false} BulksAreBody(ss: seq<string>, rest: seq<string>)
    ensures Bulks(ss) + Body(rest) == Body(ss + rest)
  {
    if ss == [] {
      assert ss + rest == rest;
    } else {
      var k := |ss| - 1;
      BulksAreBody(ss[..k], [ss[k]] + rest);
      hide Bulk;
      assert ss[..k] + ([ss[k]] + rest) == ss + rest;
      assert ([ss[k]] + rest)[1..] == rest;
      Regroup(Bulks(ss[..k]), Bulk(ss[k]), Body(rest));
    }
  }

  lemma WireShape(kv: KV)
    requires WellCounted(kv)
    ensures Wire(kv) == "*" + Print(|Strings(kv)|) + CRLF + Body(Strings(kv))
  {
    var args := Args(kv);
    assert forall i :: 0 <= i < |args| ==> args[i] == Strings(kv)[i + 1];
    AllWritten(args);
    BulksAreBody(args, []);
    assert args + [] == args && Body([]) == [];
    assert Strings(kv)[1..] == args;
    hide Bulk, Bulks, Print, Args;
  }

  // ---- The length-prefixed grammar ----

  /** A mark, a number, CR LF. */
  function ReadHeader(mark: char, s: string): (r: Option<(nat, string)>)
    ensures r.Some? ==> |r.value.1| < |s|
  {
    if s == [] || s[0] != mark then None
    else
      var t := s[1..];
      var n := Leading(t);
      if n > 0 && CRLF <= t[n..] then Some((Value(t[..n]), t[n + 2..])) else None
  }

  /** A bulk string: its length says where it ends, whatever bytes it holds. */
  function ReadBulk(s: string): (r: Option<(string, string)>)
    ensures r.Some? ==> |r.value.1| < |s|
  {
    match ReadHeader('$', s)
    case None => None
    case Some((n, t)) =>
      if n + 2 <= |t| && t[n..n + 2] == CRLF then Some((t[..n], t[n + 2..])) else None
  }

  function ReadBulks(n: nat, s: string): Option<(seq<string>, string)> {
    if n == 0 then Some(([], s))
    else
      match ReadBulk(s)
      case None => None
      case Some((b, t)) =>
        match ReadBulks(n - 1, t)
        case None => None
        case Some((bs, u)) => Some(([b] + bs, u))
  }

  function ReadArray(s: string): Option<(seq<string>, string)> {
    match ReadHeader('*', s)
    case None => None
    case Some((n, t)) => ReadBulks(n, t)
  }

  lemma HeaderReads(mark: char, n: nat, rest: string)
    ensures ReadHeader(mark, [mark] + Print(n) + CRLF + rest) == Some((n, rest))
  {
    var d := Print(n);
    var s := [mark] + d + CRLF + rest;
    var t := d + (CRLF + rest);
    assert s[1..] == t;
    LeadingOf(d, CRLF + rest);
    assert t[..|d|] == d && t[|d|..] == CRLF + rest && t[|d| + 2..] == rest;
    ValuePrint(n);
  }

  lemma BulkReads(b: string, rest: string)
    ensures ReadBulk(Bulk(b) + rest) == Some((b, rest))
  {
    hide ReadHeader, Print;
    var t := b + CRLF + rest;
    assert Bulk(b) + rest == "$" + Print(|b|) + CRLF + t;
    HeaderReads('$', |b|, t);
    assert t[..|b|] == b && t[|b|..|b| + 2] == CRLF && t[|b| + 2..] == rest;
  }

  lemma BodyStep(ss: seq<string>, rest: string)
    ensures ss == [] ==> Body(ss) + rest == rest && ReadBulks(0, rest) == Some(([], rest))
    ensures ss != [] ==> Body(ss) + rest == Bulk(ss[0]) + (Body(ss[1..]) + rest)
  {
    hide Bulk;
  }

  lemma {:induction false} BodyReads(ss: seq<string>, rest: string)
    ensures ReadBulks(|ss|, Body(ss) + rest) == Some((ss, rest))
  {
    hide *;
    BodyStep(ss, rest);
    if ss != [] {
      var u := Body(ss[1..]) + rest;
      BulkReads(ss[0], u);
      BodyReads(ss[1..], rest);
      ReadStep(|ss|, Body(ss) + rest, ss[0], u, ss[1..], rest);
      assert [ss[0]] + ss[1..] == ss;
    }
  }

  lemma ReadStep(n: nat, s: string, b: string, t: string, bs: seq<string>, u: string)
    requires n > 0 && ReadBulk(s) == Some((b, t)) && ReadBulks(n - 1, t) == Some((bs, u))
    ensures ReadBulks(n, s) == Some(([b] + bs, u))
  {
    hide ReadBulk;
  }

  /** What is serialized is an array of bulk strings of the grammar, whatever bytes the
      strings hold, and reading stops exactly where it ends. */
  lemma WireReads(kv: KV, rest: string)
    requires WellCounted(kv)
    ensures ReadArray(Wire(kv) + rest) == Some((Strings(kv), rest))
  {
    WireShape(kv);
    hide ReadHeader, ReadBulks, Print, Body, Wire, Strings;
    var ss := Strings(kv);
    assert Wire(kv) + rest == "*" + Print(|ss|) + CRLF + (Body(ss) + rest);
    HeaderReads('*', |ss|, Body(ss) + rest);
    BodyReads(ss, rest);
  }

  function WireAll(kvs: seq<KV>): string {
    if kvs == [] then [] else Wire(kvs[0]) + WireAll(kvs[1..])
  }

  predicate AllCounted(kvs: seq<KV>) { forall i :: 0 <= i < |kvs| ==> WellCounted(kvs[i]) }

  /** Commands sent one after the other can be told apart in one way only. */
  lemma {:induction false} StreamsDecodeUniquely(a: seq<KV>, b: seq<KV>)
    requires AllCounted(a) && AllCounted(b)
    requires WireAll(a) == WireAll(b)
    ensures |a| == |b| && forall i :: 0 <= i < |a| ==> Strings(a[i]) == Strings(b[i])
  {
    WireAllEmpty(a);
    WireAllEmpty(b);
    if a != [] {
      WireReads(a[0], WireAll(a[1..]));
      WireReads(b[0], WireAll(b[1..]));
      hide Wire, Strings, ReadArray, WellCounted;
      StreamsDecodeUniquely(a[1..], b[1..]);
    }
  }

  lemma WireAllEmpty(kvs: seq<KV>)
    ensures WireAll(kvs) == [] <==> kvs == []
  {
    if kvs != [] { assert Wire(kvs[0])[0] == '*'; }
  }

  // ---- Through the reply parser ----

  /** The lines of the body: a length and a string for each. */
  function Lines(ss: seq<string>): seq<string> {
    if ss == [] then [] else ["$" + Print(|ss[0]|), ss[0]] + Lines(ss[1..])
  }

  lemma PrintedIsFree(mark: char, n: nat)
    requires mark != '\r'
    ensures Free([mark] + Print(n), CRLF)
  {
    var s := [mark] + Print(n);
    forall i | 0 <= i < |s|
      ensures !(CRLF <= s[i..])
    {
      assert s[i..][0] == s[i];
      if i > 0 { assert s[i] == Print(n)[i - 1]; }
    }
  }

  lemma {:induction false} BodyTokens(ss: seq<string>)
    requires NonEmpty(ss) && OneLiners(ss)
    ensures Tokens(Body(ss), CRLF) == Lines(ss)
  {
    if ss == [] {
      assert Body(ss) == [];
    } else {
      BulkTokens(ss[0], Body(ss[1..]));
      hide Tokens, Bulk, Free;
      BodyTokens(ss[1..]);
    }
  }

  lemma BulkSplits(s: string, rest: string)
    ensures Bulk(s) + rest == "$" + Print(|s|) + CRLF + (s + CRLF + rest)
  {
    var h := "$" + Print(|s|) + CRLF;
    assert Bulk(s) == (h + s) + CRLF;
    hide Print, Bulk;
    Regroup(h, s, CRLF);
    Regroup(h, s + CRLF, rest);
  }

  lemma BulkTokens(s: string, rest: string)
    requires s != [] && Free(s, CRLF)
    ensures Tokens(Bulk(s) + rest, CRLF) == ["$" + Print(|s|), s] + Tokens(rest, CRLF)
  {
    var l := "$" + Print(|s|);
    PrintedIsFree('$', |s|);
    BulkSplits(s, rest);
    hide Tokens, Print, Free, Bulk;
    LineIsToken(l, s + CRLF + rest);
    LineIsToken(s, rest);
    assert [l] + ([s] + Tokens(rest, CRLF)) == [l, s] + Tokens(rest, CRLF);
  }

  lemma {:induction false} LinesAreElements(ss: seq<string>)
    requires forall i :: 0 <= i < |ss| ==> |ss[i]| <= I32_MAX
    ensures Response.Elements(Lines(ss), |ss|) == Some(ss)
  {
    if ss != [] {
      PairIsElement(ss[0], Lines(ss[1..]));
      hide Response.Element;
      assert Lines(ss)[2..] == Lines(ss[1..]);
      LinesAreElements(ss[1..]);
      assert [ss[0]] + ss[1..] == ss;
    }
  }

  lemma PairIsElement(s: string, rest: seq<string>)
    requires |s| <= I32_MAX
    ensures Response.Element(["$" + Print(|s|), s] + rest) == Some((s, 2))
  {
    var l := "$" + Print(|s|);
    ParsePrinted(|s|, I32_MIN, I32_MAX);
    hide ParseInt, Print;
    assert l[1..] == Print(|s|) && l[0] == '$';
    assert Response.Length(l) == |s|;
    hide Response.Length;
    var lines := [l, s] + rest;
    assert lines[0] == l && lines[1] == s && s[..|s|] == s;
  }

  // The parser cuts lines at each CR LF, so no element of a reply holds one.

  lemma ElementIsFree(lines: seq<string>)
    requires OneLiners(lines) && Response.Element(lines).Some?
    ensures Free(Response.Element(lines).value.0, CRLF)
  {
    var (s, used) := Response.Element(lines).value;
    if used == 1 {
      assert s == "nil";
      NoCrIsFree(s);
    } else {
      PrefixIsFree(lines[1], |s|);
    }
  }

  lemma NoCrIsFree(s: string)
    requires '\r' !in s
    ensures Free(s, CRLF)
  {
    forall i | 0 <= i < |s|
      ensures !(CRLF <= s[i..])
    {
      assert s[i..][0] == s[i];
    }
  }

  lemma PrefixIsFree(l: string, n: nat)
    requires Free(l, CRLF) && n <= |l|
    ensures Free(l[..n], CRLF)
  {
    forall i | 0 <= i < n
      ensures !(CRLF <= l[..n][i..])
    {
      assert l[..n][i..] <= l[i..];
    }
  }

  lemma {:induction false} ElementsAreFree(lines: seq<string>, n: nat)
    requires OneLiners(lines)
    ensures var r := Response.Elements(lines, n);
            r.Some? ==> OneLiners(r.value)
  {
    hide Response.Element, Free;
    if n > 0 && Response.Element(lines).Some? {
      var (s, used) := Response.Element(lines).value;
      ElementIsFree(lines);
      ElementsAreFree(lines[used..], n - 1);
    }
  }

  lemma {:induction false} ArrayRepliesAreFree(lines: seq<string>)
    requires OneLiners(lines)
    ensures var r := Response.ReplyOf(lines);
            r.Array? ==> OneLiners(r.elements)
  {
    if lines != [] {
      hide Response.Elements, ParseInt, Free;
      ArrayRepliesAreFree(lines[1..]);
      if lines[0] != [] && lines[0][0] == '*' {
        match ParseInt(lines[0][1..], I32_MIN, I32_MAX)
        case Number(n) => if n >= 0 { ElementsAreFree(lines[1..], n); }
        case _ =>
      }
    }
  }

  /** A command that fits the buffer comes back from the reply parser as its own
      strings, in order, exactly when none of them holds a CR LF. */
  lemma RoundTripIff(kv: KV)
    requires WellCounted(kv) && |Wire(kv)| <= BUFFER
    ensures Response.ReplyOf(Tokens(Wire(kv), CRLF)) == Response.Array(Strings(kv))
            <==> OneLiners(Strings(kv))
  {
    var ss := Strings(kv);
    WireShape(kv);
    hide Wire, Strings;
    if OneLiners(ss) {
      ShortStrings(ss);
      HeaderTokens(ss);
    }
    TokensAreFree(Wire(kv), CRLF);
    ArrayRepliesAreFree(Tokens(Wire(kv), CRLF));
  }

  /** The same from the line that was typed. */
  lemma TypedRoundTripIff(line: string)
    ensures var r := ParsedCommand(Tokens(line, BLANK));
            r.Ok? && r.value.Command? && |Wire(r.value.kv)| <= BUFFER ==>
              (Response.ReplyOf(Tokens(Wire(r.value.kv), CRLF)) == Response.Array(Strings(r.value.kv))
               <==> OneLiners(Strings(r.value.kv)))
  {
    CommandCounted(line);
    var r := ParsedCommand(Tokens(line, BLANK));
    hide *;
    if r.Ok? && r.value.Command? && |Wire(r.value.kv)| <= BUFFER { RoundTripIff(r.value.kv); }
  }

  lemma HeaderTokens(ss: seq<string>)
    requires NonEmpty(ss) && OneLiners(ss) && |ss| <= I32_MAX
    requires forall i :: 0 <= i < |ss| ==> |ss[i]| <= I32_MAX
    ensures Response.ReplyOf(Tokens("*" + Print(|ss|) + CRLF + Body(ss), CRLF)) == Response.Array(ss)
  {
    var h := "*" + Print(|ss|);
    PrintedIsFree('*', |ss|);
    hide Tokens, Free, Body, Lines, Print;
    LineIsToken(h, Body(ss));
    BodyTokens(ss);
    LinesAreElements(ss);
    ParsePrinted(|ss|, I32_MIN, I32_MAX);
    HeaderIsArray(h, Lines(ss), ss);
  }

  lemma HeaderIsArray(h: string, rest: seq<string>, ss: seq<string>)
    requires h != [] && h[0] == '*' && h[1..] != []
    requires ParseInt(h[1..], I32_MIN, I32_MAX) == Number(|ss|) && Response.Elements(rest, |ss|) == Some(ss)
    ensures Response.ReplyOf([h] + rest) == Response.Array(ss)
  {
    hide ParseInt, Response.Elements;
    var lines := [h] + rest;
    assert lines[0] == h && lines[1..] == rest;
  }

  lemma {:induction false} ShortStrings(ss: seq<string>)
    ensures forall i :: 0 <= i < |ss| ==> |ss[i]| <= |Body(ss)|
  {
    if ss != [] {
      ShortStrings(ss[1..]);
      assert forall i :: 0 < i < |ss| ==> ss[i] == ss[1..][i - 1];
    }
  }

  /** The bytes of one command. */
  lemma SetOnTheWire()
    ensures Wire(KV("Set", Some("k"), Some(["value"]), 2)) 
         == "*3\r\n" + ("$3\r\nSet\r\n" + ("$1\r\nk\r\n" + "$5\r\nvalue\r\n"))
  {
    var kv := KV("Set", Some("k"), Some(["value"]), 2);
    var ss, a, b := ["Set", "k", "value"], ["k", "value"], ["value"];
    assert Args(kv) == a && Strings(kv) == ss;
    WireShape(kv);
    assert ss[1..] == a && a[1..] == b && b[1..] == [];
    BulkTexts();
    hide Wire, Print, Bulk, Strings;
    assert Body([]) == [] && Bulk("value") + [] == Bulk("value");
    assert Body(b) == Bulk("value");
    assert Body(a) == Bulk("k") + Body(b);
    assert Body(ss) == Bulk("Set") + Body(a);
  }

  lemma BulkTexts()
    ensures Bulk("value") == "$5\r\nvalue\r\n" && Bulk("k") == "$1\r\nk\r\n" && Bulk("Set") == "$3\r\nSet\r\n"
    ensures "*" + Print(3) + CRLF == "*3\r\n"
  {
    assert Print(3) == "3" && Print(1) == "1" && Print(5) == "5";
  }
}
