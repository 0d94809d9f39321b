/** The reply parser of the Redis client, which splits on CR LF. */
module Response {
  import opened Tokenizer
  import opened Arith
  import opened ZigInt

  /** `Trap` is a conversion of a negative length that the source's safety check stops. */
  datatype Reply =
    | SimpleString(s: string) | SimpleError(s: string) | Integer(s: string) | Double(s: string)
    | BulkString(s: string) | NilArray | Array(elements: seq<string>)
    | InvalidResp | NumberError(error: Parsed) | Trap

  const NIL := "nil"

  /** parseLength; a line that is no length reads as -1, as its caller has it. */
  function Length(line: string): int {
    if line == [] || line[0] != '$' then -1
    else
      match ParseInt(line[1..], I32_MIN, I32_MAX)
      case Number(n) => n
      case _ => -1
  }

  /** One element and the lines it takes: a length that is no length counts as nil. */
  function Element(lines: seq<string>): (r: Option<(string, nat)>)
    ensures r.Some? ==> 0 < r.value.1 <= |lines|
  {
    if lines == [] then None
    else
      var length := Length(lines[0]);
      if length == -1 then Some((NIL, 1))
      else if length < 0 || |lines| == 1 || |lines[1]| < length then None
      else Some((lines[1][..length], 2))
  }

  /** The elements of an array of `n`, from the lines after its header. */
  function Elements(lines: seq<string>, n: nat): Option<seq<string>> {
    if n == 0 then Some([])
    else
      match Element(lines)
      case None => None
      case Some((s, used)) => Cons(s, Elements(lines[used..], n - 1))
  }

  function Cons(s: string, rest: Option<seq<string>>): Option<seq<string>> {
    if rest.Some? then Some([s] + rest.value) else None
  }

  function BulkReply(body: string, rest: seq<string>): Reply {
    if body == [] || body == "-" then InvalidResp
    else if |body| > 1 && body[..2] == "-1" then BulkString("(nil)")
    else
      match ParseInt(body, 0, U32_MAX)
      case Number(n) =>
        if rest == [] || |rest[0]| != n then InvalidResp else BulkString(rest[0])
      case e => NumberError(e)
  }

  function ArrayReply(body: string, rest: seq<string>): Reply {
    if body == [] then InvalidResp
    else
      match ParseInt(body, I32_MIN, I32_MAX)
      case Number(n) =>
        if n == -1 then NilArray
        else if n < 0 then Trap
        else
          var es := Elements(rest, n);
          if es.Some? then Array(es.value) else InvalidResp
      case e => NumberError(e)
  }

  /** The first line with a known mark is the reply; lines before it are skipped. */
  function ReplyOf(lines: seq<string>): Reply {
    if lines == [] then InvalidResp
    else
      var line, rest := lines[0], lines[1..];
      if line == [] then InvalidResp
      else match line[0]
        case '+' => SimpleString("\"" + line[1..] + "\"")
        case '-' => SimpleError(line[1..])
        case ':' => Integer(line[1..])
        case ',' => Double(line[1..])
        case '$' => BulkReply(line[1..], rest)
        case '*' => ArrayReply(line[1..], rest)
        case _ => ReplyOf(rest)
  }

  method NextElement(lines: TokenIterator) returns (element: Option<string>)
    requires lines.Valid()
    modifies lines
    ensures lines.Valid()
    ensures var r := Element(old(lines.Rest()));
            && (r.None? ==> element == None)
            && (r.Some? ==> element == Some(r.value.0) && lines.Rest() == old(lines.Rest())[r.value.1..])
  {
    hide Tokens, Length;
    ghost var rest := lines.Rest();
    var header := lines.Next();
    var length := if header.Some? then Length(header.value) else -2;
    if length == -1 { return Some(NIL); }
    if length < 0 { return None; }
    var line := lines.Next();
    if line == None { return None; }
    if |line.value| < length { return None; }
    assert rest != [] ==> rest[1..][1..] == rest[2..];
    return Some(line.value[..length]);
  }

  method PutAt(res: array<string>, i: nat, s: string)
    requires i < res.Length
    modifies res
    ensures res[..i + 1] == old(res[..i]) + [s]
  {
    res[i] := s;
  }

  /** The loop that fills the array element by element. */
  method FillArray(lines: TokenIterator, n: nat) returns (ok: bool, elements: seq<string>)
    requires lines.Valid()
    modifies lines
    ensures (if ok then Some(elements) else None) == Elements(old(lines.Rest()), n)
  {
    ghost var whole := Elements(lines.Rest(), n);
    hide Tokens, Element, Elements, Append;
    var res := new string[n];
    var i := 0;
    AppendNone(whole);
    assert res[..0] == [];
    while i < n
      invariant 0 <= i <= n == res.Length && lines.Valid() && fresh(res)
      invariant whole == Append(res[..i], Elements(lines.Rest(), n - i))
    {
      var more := FillNext(lines, res, i);
      if !more { return false, []; }
      i := i + 1;
    }
    AppendStep(res[..i], lines.Rest(), 0);
    return true, res[..i];
  }

  /** One round of the loop; an element that is missing ends it. */
  method FillNext(lines: TokenIterator, res: array<string>, i: nat) returns (ok: bool)
    requires lines.Valid() && i < res.Length
    modifies lines, res
    ensures lines.Valid()
    ensures old(Append(res[..i], Elements(lines.Rest(), res.Length - i)))
         == if ok then Append(res[..i + 1], Elements(lines.Rest(), res.Length - i - 1)) else None
  {
    AppendStep(res[..i], lines.Rest(), res.Length - i);
    hide Tokens, Element, Elements, Append;
    var element := NextElement(lines);
    if element == None { return false; }
    PutAt(res, i, element.value);
    return true;
  }

  ghost function Append(a: seq<string>, rest: Option<seq<string>>): Option<seq<string>> {
    if rest.Some? then Some(a + rest.value) else None
  }

  lemma AppendNone(rest: Option<seq<string>>)
    ensures Append([], rest) == rest
  {
    if rest.Some? { assert [] + rest.value == rest.value; }
  }

  lemma AppendStep(a: seq<string>, lines: seq<string>, n: nat)
    ensures Append(a, Elements(lines, n)) ==
            if n == 0 then Some(a)
            else
              match Element(lines)
              case None => None
              case Some((s, used)) => Append(a + [s], Elements(lines[used..], n - 1))
  {
    hide Element;
    if n == 0 {
      assert a + [] == a;
    } else if Element(lines).Some? {
      var (s, used) := Element(lines).value;
      var rest := Elements(lines[used..], n - 1);
      if rest.Some? { assert a + ([s] + rest.value) == a + [s] + rest.value; }
    }
  }

  method Parse(raw: string) returns (reply: Reply)
    ensures reply == ReplyOf(Tokens(raw, CRLF))
  {
    var lines := new TokenIterator(raw, CRLF);
    hide Tokens, ParseInt;
    while true
      invariant fresh(lines) && lines.Valid() && ReplyOf(lines.Rest()) == ReplyOf(Tokens(raw, CRLF))
      decreases |lines.Rest()|
    {
      var next := lines.Next();
      if next == None { return InvalidResp; }
      var line := next.value;
      if line == [] { return InvalidResp; }
      if line[0] == '+' { return SimpleString("\"" + line[1..] + "\""); }
      if line[0] == '-' { return SimpleError(line[1..]); }
      if line[0] == ':' { return Integer(line[1..]); }
      if line[0] == ',' { return Double(line[1..]); }
      if line[0] == '$' {
        reply := ParseBulk(lines, line[1..]);
        return;
      }
      if line[0] == '*' {
        reply := ParseArray(lines, line[1..]);
        return;
      }
    }
  }

  method ParseBulk(lines: TokenIterator, body: string) returns (reply: Reply)
    requires lines.Valid()
    modifies lines
    ensures reply == BulkReply(body, old(lines.Rest()))
  {
    hide Tokens, ParseInt;
    if body == [] { return InvalidResp; }
    if body[0] == '-' {
      if |body| < 2 { return InvalidResp; }
      if body[1] == '1' { return BulkString("(nil)"); }
    }
    var n := ParseInt(body, 0, U32_MAX);
    if !n.Number? { return NumberError(n); }
    var line := lines.Next();
    if line == None || |line.value| != n.n { return InvalidResp; }
    return BulkString(line.value);
  }

  method ParseArray(lines: TokenIterator, body: string) returns (reply: Reply)
    requires lines.Valid()
    modifies lines
    ensures reply == ArrayReply(body, old(lines.Rest()))
  {
    hide Tokens, ParseInt, Elements;
    if body == [] { return InvalidResp; }
    var n := ParseInt(body, I32_MIN, I32_MAX);
    if !n.Number? { return NumberError(n); }
    if n.n == -1 { return NilArray; }
    if n.n < 0 { return Trap; }
    var ok, elements := FillArray(lines, n.n);
    return if ok then Array(elements) else InvalidResp;
  }
}
