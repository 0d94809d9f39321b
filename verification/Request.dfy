/** The command line of the Redis client: parsing it and writing it in RESP. */
module Request {
  import opened Tokenizer
  import opened Decimal

  datatype CommandType =
    | Get | Incr | Set | Auth | Exit | Ping | DEL | LPUSH | LPOP | Select | LTrim | LRem
    | LLEN | RPOP | RPUSH | LINSERT | LRANGE | EXISTS | GETSET | MGET

  function TagName(t: CommandType): string {
    match t
    case Get => "Get" case Incr => "Incr" case Set => "Set" case Auth => "Auth"
    case Exit => "Exit" case Ping => "Ping" case DEL => "DEL" case LPUSH => "LPUSH"
    case LPOP => "LPOP" case Select => "Select" case LTrim => "LTrim" case LRem => "LRem"
    case LLEN => "LLEN" case RPOP => "RPOP" case RPUSH => "RPUSH" case LINSERT => "LINSERT"
    case LRANGE => "LRANGE" case EXISTS => "EXISTS" case GETSET => "GETSET" case MGET => "MGET"
  }

  /** How many arguments each command takes, in the order the parser tries them; -1 is
      any number from two up. */
  const TABLE: seq<(CommandType, int)> := [
    (Get, 1), (GETSET, 2), (MGET, -1), (Incr, 1), (Ping, 0), (Set, 2), (Select, 1), (Auth, 1),
    (DEL, 1), (LPOP, 2), (LPUSH, -1), (LTrim, 3), (Exit, 0), (EXISTS, 1), (LLEN, 1), (RPOP, 2),
    (RPUSH, -1), (LRANGE, 3), (LRem, 3), (LINSERT, 4)]

  datatype KV = KV(commandStr: string, key: Option<string>, values: Option<seq<string>>, argsNum: nat)

  datatype Command = ExitCommand | Command(tag: CommandType, kv: KV)

  datatype Error = InvalidCommandParam | UnknownCommand | CountOverflow

  datatype Result<T> = Ok(value: T) | Err(error: Error)

  function LowerChar(c: char): char {
    if 'A' <= c <= 'Z' then (c as int + 32) as char else c
  }

  predicate EqlIgnoreCase(a: string, b: string) {
    |a| == |b| && forall i :: 0 <= i < |a| ==> LowerChar(a[i]) == LowerChar(b[i])
  }

  const I8_MAX := 127

  /** parseHelper on the tokens after the command. The count is an i8, so is one more
      than it. */
  function Arguments(tokens: seq<string>, tag: CommandType, argNum: int): Result<KV> {
    if argNum == 0 then Ok(KV(TagName(tag), None, None, 0))
    else if tokens == [] then Err(InvalidCommandParam)
    else if argNum == 1 then Ok(KV(TagName(tag), Some(tokens[0]), None, 1))
    else if |tokens| == 1 then Err(InvalidCommandParam)
    else if argNum == 2 then Ok(KV(TagName(tag), Some(tokens[0]), Some([tokens[1]]), 2))
    else
      var values := tokens[1..];
      if |values| >= I8_MAX then Err(CountOverflow)
      else if argNum != -1 && argNum != |values| + 1 then Err(InvalidCommandParam)
      else Ok(KV(TagName(tag), Some(tokens[0]), Some(values), |values| + 1))
  }

  predicate Spells(line: string, i: nat)
    requires i < |TABLE|
  {
    EqlIgnoreCase(line, TagName(TABLE[i].0))
  }

  function LookUp(line: string, from: nat): Option<(CommandType, int)>
    requires from <= |TABLE|
    decreases |TABLE| - from
  {
    if from == |TABLE| then None
    else if Spells(line, from) then Some(TABLE[from])
    else LookUp(line, from + 1)
  }

  /** The first command of the table whose name the line spells, in any mix of cases;
      none exactly when it spells no name. */
  lemma {:induction false} LookUpFirst(line: string, from: nat)
    requires from <= |TABLE|
    ensures LookUp(line, from).Some? ==>
              exists i :: from <= i < |TABLE| && Spells(line, i) && LookUp(line, from) == Some(TABLE[i])
                && forall j :: from <= j < i ==> !Spells(line, j)
    ensures LookUp(line, from) == None <==> forall i :: from <= i < |TABLE| ==> !Spells(line, i)
    decreases |TABLE| - from
  {
    hide Spells;
    if from < |TABLE| { LookUpFirst(line, from + 1); }
  }

  lemma {:induction false} PingTakesNone(line: string, from: nat)
    requires from <= |TABLE|
    ensures var e := LookUp(line, from); e.Some? && e.value.0 == Ping ==> e.value.1 == 0
    decreases |TABLE| - from
  {
    hide Spells;
    if from < |TABLE| { PingTakesNone(line, from + 1); }
  }

  function Dispatch(tag: CommandType, argNum: int, rest: seq<string>): Result<Command> {
    match tag
    case Ping => Ok(Command(Ping, KV("PING", None, None, 0)))
    case Exit => Ok(ExitCommand)
    case _ =>
      match Arguments(rest, tag, argNum)
      case Err(e) => Err(e)
      case Ok(kv) =>
        if tag == LINSERT && !Placed(kv) then Err(UnknownCommand) else Ok(Command(tag, kv))
  }

  predicate Placed(kv: KV) {
    && kv.values.Some? && kv.values.value != []
    && (EqlIgnoreCase(kv.values.value[0], "BEFORE") || EqlIgnoreCase(kv.values.value[0], "AFTER"))
  }

  /** The first token that names a command decides; those before it are skipped. */
  function ParsedCommand(tokens: seq<string>): Result<Command> {
    if tokens == [] then Err(UnknownCommand)
    else
      match LookUp(tokens[0], 0)
      case None => ParsedCommand(tokens[1..])
      case Some((tag, argNum)) => Dispatch(tag, argNum, tokens[1..])
  }

  method ParseHelper(lines: TokenIterator, tag: CommandType, argNum: int) returns (r: Result<KV>)
    requires lines.Valid()
    modifies lines
    ensures r == Arguments(old(lines.Rest()), tag, argNum)
  {
    ghost var tokens := lines.Rest();
    hide Tokens;
    if argNum == 0 { return Ok(KV(TagName(tag), None, None, 0)); }
    var it := lines.Next();
    if it == None { return Err(InvalidCommandParam); }
    var key := it.value;
    if argNum == 1 { return Ok(KV(TagName(tag), Some(key), None, 1)); }
    it := lines.Next();
    if it == None { return Err(InvalidCommandParam); }
    if argNum == 2 { return Ok(KV(TagName(tag), Some(key), Some([it.value]), 2)); }
    var values, overflow := CollectValues(lines, it.value);
    if overflow { return Err(CountOverflow); }
    var cnt := |values|;
    if cnt == I8_MAX { return Err(CountOverflow); }
    if argNum != -1 && argNum != cnt + 1 { return Err(InvalidCommandParam); }
    return Ok(KV(TagName(tag), Some(key), Some(values), cnt + 1));
  }

  /** The remaining tokens as values, counted in an i8. */
  method CollectValues(lines: TokenIterator, first: string) returns (values: seq<string>, overflow: bool)
    requires lines.Valid()
    modifies lines
    ensures overflow == (1 + |old(lines.Rest())| > I8_MAX)
    ensures !overflow ==> values == [first] + old(lines.Rest())
  {
    ghost var rest := lines.Rest();
    hide Tokens;
    var cnt := 1;
    values := [first];
    var it := lines.Next();
    while it != None
      invariant lines.Valid() && cnt == |values| <= I8_MAX
      invariant [first] + rest == values + (if it == None then [] else [it.value]) + lines.Rest()
      invariant it == None ==> lines.Rest() == []
      decreases |lines.Rest()|, it.Some?
    {
      if cnt == I8_MAX { return values, true; }
      cnt := cnt + 1;
      values := values + [it.value];
      it := lines.Next();
    }
    overflow := false;
  }

  method Parse(content: string) returns (r: Result<Command>)
    ensures r == ParsedCommand(Tokens(content, BLANK))
  {
    TrimKeepsTokens(content);
    var lines := new TokenIterator(Trim(content), BLANK);
    hide Tokens, LookUp, Arguments, Placed;
    while true
      invariant fresh(lines) && lines.Valid() && ParsedCommand(lines.Rest()) == ParsedCommand(Tokens(content, BLANK))
      decreases |lines.Rest()|
    {
      var line := lines.Next();
      if line == None { return Err(UnknownCommand); }
      var entry := LookUp(line.value, 0);
      if entry.Some? {
        var (tag, argNum) := entry.value;
        if tag == Ping || tag == Exit { return Dispatch(tag, argNum, []); }
        var kv := ParseHelper(lines, tag, argNum);
        if kv.Err? { return Err(kv.error); }
        if tag == LINSERT && !Placed(kv.value) { return Err(UnknownCommand); }
        return Ok(Command(tag, kv.value));
      }
    }
  }

  // ---- Serialization ----

  const BUFFER := 2048

  function Bulk(s: string): string { "$" + Print(|s|) + CRLF + s + CRLF }

  function Bulks(ss: seq<string>): string {
    if ss == [] then [] else Bulks(ss[..|ss| - 1]) + Bulk(ss[|ss| - 1])
  }

  /** Empty strings are not written. */
  function Written(ss: seq<string>): seq<string> {
    if ss == [] then []
    else Written(ss[..|ss| - 1]) + if ss[|ss| - 1] == [] then [] else [ss[|ss| - 1]]
  }

  function Args(kv: KV): seq<string> {
    (if kv.key.Some? then [kv.key.value] else []) + if kv.values.Some? then kv.values.value else []
  }

  /** The strings of the command: itself, its key, its values. */
  function Strings(kv: KV): seq<string> { [kv.commandStr] + Args(kv) }

  function Header(kv: KV): string { "*" + Print(kv.argsNum + 1) + CRLF + Bulk(kv.commandStr) }

  function Wire(kv: KV): string { Header(kv) + Bulks(Written(Args(kv))) }

  /** bufPrint into what is left of the buffer. */
  method BufPrint(buf: array<char>, at: nat, s: string) returns (ok: bool)
    requires at <= buf.Length
    modifies buf
    ensures ok == (at + |s| <= buf.Length)
    ensures ok ==> buf[..at + |s|] == old(buf[..at]) + s
  {
    if at + |s| > buf.Length { return false; }
    forall i | at <= i < at + |s| {
      buf[i] := s[i - at];
    }
    return true;
  }

  lemma WrittenStep(ss: seq<string>, k: nat)
    requires k < |ss|
    ensures Written(ss[..k + 1]) == Written(ss[..k]) + (if ss[k] == [] then [] else [ss[k]])
    ensures Bulks(Written(ss[..k + 1])) == Bulks(Written(ss[..k])) + (if ss[k] == [] then [] else Bulk(ss[k]))
  {
    assert ss[..k + 1][..k] == ss[..k];
    var w := Written(ss[..k]);
    assert (w + [ss[k]])[..|w|] == w;
    assert w + [] == w;
  }

  lemma {:induction false} WrittenGrows(ss: seq<string>, k: nat)
    requires k <= |ss|
    ensures |Bulks(Written(ss[..k]))| <= |Bulks(Written(ss))|
    decreases |ss| - k
  {
    if k == |ss| {
      assert ss[..k] == ss;
    } else {
      WrittenStep(ss, k);
      WrittenGrows(ss, k + 1);
    }
  }

  /** serializeHelper; `len` bytes of the buffer are the command, if it fits. */
  method Serialize(kv: KV) returns (buf: array<char>, len: nat, ok: bool)
    ensures fresh(buf) && buf.Length == 2048 && ok == (|Wire(kv)| <= 2048)
    ensures ok ==> len == |Wire(kv)| && buf[..len] == Wire(kv)
  {
    hide Bulk, Print, Bulks, Written;
    buf := new char[BUFFER](_ => ' ');
    var args := Args(kv);
    assert args[..|args|] == args;
    WrittenGrows(args, 0);
    len := 0;
    ok := BufPrint(buf, 0, Header(kv));
    if !ok { return; }
    len := |Header(kv)|;
    EmptyArgs();
    assert args[..0] == [];
    var i := 0;
    while i < |args|
      invariant 0 <= i <= |args| && ok && fresh(buf) && buf.Length == BUFFER
      invariant len == |Header(kv)| + |Bulks(Written(args[..i]))| <= BUFFER
      invariant buf[..len] == Header(kv) + Bulks(Written(args[..i]))
    {
      WrittenStep(args, i);
      WrittenGrows(args, i + 1);
      if args[i] != [] {
        ok := BufPrint(buf, len, Bulk(args[i]));
        if !ok { return; }
        len := len + |Bulk(args[i])|;
      }
      i := i + 1;
    }
  }

  lemma EmptyArgs()
    ensures Bulks(Written([])) == []
  {
  }
}
