/** What each command of the Redis client takes and sends, from the words typed. */
module RequestLaws {
  import opened Request
  import opened RespRoundTrip
  import opened Tokenizer

  // ---- The names, by the number of words that follow them ----

  const ONE: seq<string> := ["Get", "Incr", "Select", "Auth", "DEL", "EXISTS", "LLEN"]
  const TWO: seq<string> := ["GETSET", "Set", "LPOP", "RPOP"]
  const THREE: seq<string> := ["LTrim", "LRANGE", "LRem"]
  const MANY: seq<string> := ["MGET", "LPUSH", "RPUSH"]

  // ---- Case ----

  predicate Upper(c: char) { 'A' <= c <= 'Z' }

  /** Two words are the same but for the case of ASCII letters. */
  lemma EqlIff(a: string, b: string)
    ensures EqlIgnoreCase(a, b) <==>
            |a| == |b| && forall i :: 0 <= i < |a| ==>
              || a[i] == b[i]
              || (Upper(a[i]) && b[i] as int == a[i] as int + 32)
              || (Upper(b[i]) && a[i] as int == b[i] as int + 32)
  {
    if |a| == |b| {
      forall i | 0 <= i < |a|
        ensures LowerChar(a[i]) == LowerChar(b[i]) <==>
                a[i] == b[i] || (Upper(a[i]) && b[i] as int == a[i] as int + 32)
                || (Upper(b[i]) && a[i] as int == b[i] as int + 32)
      {
        LowerIff(a[i], b[i]);
      }
    }
  }

  lemma LowerIff(a: char, b: char)
    ensures LowerChar(a) == LowerChar(b) <==>
            a == b || (Upper(a) && b as int == a as int + 32) || (Upper(b) && a as int == b as int + 32)
  {
  }

  // ---- No word spells two names ----

  /** Length, first and last letter tell the names apart. */
  function Code(s: string): int
    requires s != []
  {
    |s| * 1_000_000 + LowerChar(s[0]) as int * 1000 + LowerChar(s[|s| - 1]) as int
  }

  function TagCode(t: CommandType): int {
    match t
    case Get => 3103116 case GETSET => 6103116 case MGET => 4109116 case Incr => 4105114
    case Ping => 4112103 case Set => 3115116 case Select => 6115116 case Auth => 4097104
    case DEL => 3100108 case LPOP => 4108112 case LPUSH => 5108104 case LTrim => 5108109
    case Exit => 4101116 case EXISTS => 6101115 case LLEN => 4108110 case RPOP => 4114112
    case RPUSH => 5114104 case LRANGE => 6108101 case LRem => 4108109 case LINSERT => 7108116
  }

  lemma TagCodes(t: CommandType)
    ensures TagName(t) != [] && Code(TagName(t)) == TagCode(t)
  {
    if TagCode(t) < 4108112 { LowTagCodes(t); } else { HighTagCodes(t); }
  }

  lemma LowTagCodes(t: CommandType)
    requires TagCode(t) < 4108112
    ensures TagName(t) != [] && Code(TagName(t)) == TagCode(t)
  {
    match t { case Get => case MGET => case Incr => case Set => case Auth => case DEL => case Exit =>
              case LLEN => case LRem => case _ => }
  }

  lemma HighTagCodes(t: CommandType)
    requires TagCode(t) >= 4108112
    ensures TagName(t) != [] && Code(TagName(t)) == TagCode(t)
  {
    match t { case GETSET => case Ping => case Select => case LPOP => case LPUSH => case LTrim => case EXISTS =>
              case RPOP => case RPUSH => case LRANGE => case LINSERT => case _ => }
  }

  lemma CodesDiffer(t: CommandType, u: CommandType)
    requires TagCode(t) == TagCode(u)
    ensures t == u
  {
  }

  function Place(t: CommandType): nat {
    match t
    case Get => 0 case GETSET => 1 case MGET => 2 case Incr => 3 case Ping => 4 case Set => 5
    case Select => 6 case Auth => 7 case DEL => 8 case LPOP => 9 case LPUSH => 10 case LTrim => 11
    case Exit => 12 case EXISTS => 13 case LLEN => 14 case RPOP => 15 case RPUSH => 16
    case LRANGE => 17 case LRem => 18 case LINSERT => 19
  }

  lemma Places(i: nat)
    requires i < |TABLE|
    ensures Place(TABLE[i].0) == i
  {
  }

  lemma SameCode(a: string, b: string)
    requires EqlIgnoreCase(a, b) && b != []
    ensures a != [] && Code(a) == Code(b)
  {
  }

  lemma SpelledOnce(word: string, i: nat, j: nat)
    requires i < |TABLE| && j < |TABLE| && Spells(word, i) && Spells(word, j)
    ensures i == j
  {
    var t, u := TABLE[i].0, TABLE[j].0;
    TagCodes(t);
    TagCodes(u);
    SameCode(word, TagName(t));
    SameCode(word, TagName(u));
    hide TagName, Code, TagCode;
    CodesDiffer(t, u);
    hide TABLE;
    Places(i);
    Places(j);
  }

  lemma Chosen(word: string, i: nat)
    requires i < |TABLE| && Spells(word, i)
    ensures LookUp(word, 0) == Some(TABLE[i])
  {
    LookUpFirst(word, 0);
    hide Spells, LookUp;
    var j :| 0 <= j < |TABLE| && Spells(word, j) && LookUp(word, 0) == Some(TABLE[j]);
    SpelledOnce(word, i, j);
  }

  // ---- What is sent ----

  /** The command is accepted and these strings are sent, counted right. */
  predicate Sends(r: Result<Command>, ss: seq<string>) {
    r.Ok? && r.value.Command? && Strings(r.value.kv) == ss && r.value.kv.argsNum + 1 == |ss|
  }

  /** The name stands in the table with this arity. */
  predicate Listed(name: string, argNum: int, i: nat) {
    && i < |TABLE| && TagName(TABLE[i].0) == name && TABLE[i].1 == argNum
    && TABLE[i].0 != Ping && TABLE[i].0 != Exit && TABLE[i].0 != LINSERT
  }

  lemma FindOne(name: string) returns (i: nat)
    requires name in ONE
    ensures Listed(name, 1, i)
  {
    i := if name == "Get" then 0 else if name == "Incr" then 3 else if name == "Select" then 6
         else if name == "Auth" then 7 else if name == "DEL" then 8 else if name == "EXISTS" then 13 else 14;
  }

  lemma FindTwo(name: string) returns (i: nat)
    requires name in TWO
    ensures Listed(name, 2, i)
  {
    i := if name == "GETSET" then 1 else if name == "Set" then 5 else if name == "LPOP" then 9 else 15;
  }

  lemma FindThree(name: string) returns (i: nat)
    requires name in THREE
    ensures Listed(name, 3, i)
  {
    i := if name == "LTrim" then 11 else if name == "LRANGE" then 17 else 18;
  }

  lemma FindMany(name: string) returns (i: nat)
    requires name in MANY
    ensures Listed(name, -1, i)
  {
    i := if name == "MGET" then 2 else if name == "LPUSH" then 10 else 16;
  }

  lemma Dispatched(word: string, i: nat, rest: seq<string>)
    requires i < |TABLE| && Spells(word, i)
    ensures ParsedCommand([word] + rest) == Dispatch(TABLE[i].0, TABLE[i].1, rest)
  {
    Chosen(word, i);
    assert ([word] + rest)[1..] == rest;
    hide LookUp, Dispatch;
  }

  lemma Accepts(tag: CommandType, rest: seq<string>, argNum: int)
    ensures argNum == 1 && |rest| >= 1 ==>
              Arguments(rest, tag, 1) == Ok(KV(TagName(tag), Some(rest[0]), None, 1))
    ensures argNum == 2 && |rest| >= 2 ==>
              Arguments(rest, tag, 2) == Ok(KV(TagName(tag), Some(rest[0]), Some([rest[1]]), 2))
    ensures (argNum == -1 && 2 <= |rest| < 128) || 3 <= argNum == |rest| < 128 ==>
              Arguments(rest, tag, argNum) == Ok(KV(TagName(tag), Some(rest[0]), Some(rest[1..]), |rest[1..]| + 1))
    ensures argNum == 1 && |rest| < 1 ==> Arguments(rest, tag, 1) == Err(InvalidCommandParam)
    ensures argNum == 2 && |rest| < 2 ==> Arguments(rest, tag, 2) == Err(InvalidCommandParam)
    ensures argNum == -1 && |rest| < 2 ==> Arguments(rest, tag, -1) == Err(InvalidCommandParam)
    ensures 3 <= argNum && argNum != |rest| < 128 ==> Arguments(rest, tag, argNum) == Err(InvalidCommandParam)
    ensures (argNum == -1 || 3 <= argNum) && |rest| >= 128 ==> Arguments(rest, tag, argNum) == Err(CountOverflow)
  {
    hide TagName;
  }

  /** What the parser makes of the arguments. */
  function Finished(tag: CommandType, kv: Result<KV>): Result<Command> {
    match kv
    case Err(e) => Err(e)
    case Ok(kv) => Ok(Command(tag, kv))
  }

  lemma Answered(word: string, name: string, argNum: int, i: nat, rest: seq<string>)
    requires Listed(name, argNum, i) && EqlIgnoreCase(word, name)
    ensures ParsedCommand([word] + rest) == Finished(TABLE[i].0, Arguments(rest, TABLE[i].0, argNum))
  {
    Dispatched(word, i, rest);
    hide Arguments, ParsedCommand, EqlIgnoreCase;
  }

  lemma FinishedSends(tag: CommandType, kv: KV, ss: seq<string>)
    requires Strings(kv) == ss && kv.argsNum + 1 == |ss|
    ensures Sends(Finished(tag, Ok(kv)), ss)
  {
    hide Strings;
  }

  lemma FinishedErr(tag: CommandType, e: Error)
    ensures Finished(tag, Err(e)) == Err(e)
  {
  }

  lemma StringsOf(name: string, key: string, values: seq<string>, n: nat)
    ensures Strings(KV(name, Some(key), None, n)) == [name, key]
    ensures Strings(KV(name, Some(key), Some(values), n)) == [name] + ([key] + values)
  {
    var none: seq<string> := [];
    assert [key] + none == [key] && [name] + [key] == [name, key];
  }

  lemma OneString(name: string, rest: seq<string>)
    requires |rest| >= 1
    ensures Strings(KV(name, Some(rest[0]), None, 1)) == [name] + rest[..1] && |[name] + rest[..1]| == 2
  {
    StringsOf(name, rest[0], [], 1);
    hide Strings;
    assert [name] + rest[..1] == [name, rest[0]];
  }

  lemma TwoStrings(name: string, rest: seq<string>)
    requires |rest| >= 2
    ensures Strings(KV(name, Some(rest[0]), Some([rest[1]]), 2)) == [name] + rest[..2] && |[name] + rest[..2]| == 3
  {
    StringsOf(name, rest[0], [rest[1]], 2);
    hide Strings;
    assert rest[..2] == [rest[0]] + [rest[1]];
  }

  lemma ListedTag(name: string, argNum: int, i: nat)
    requires Listed(name, argNum, i)
    ensures i < |TABLE| && TagName(TABLE[i].0) == name
  {
  }

  /** A word is taken and the rest dropped. */
  lemma TakesOne(word: string, name: string, rest: seq<string>)
    requires name in ONE && EqlIgnoreCase(word, name)
    ensures if |rest| < 1 then ParsedCommand([word] + rest) == Err(InvalidCommandParam)
            else Sends(ParsedCommand([word] + rest), [name] + rest[..1])
  {
    var i := FindOne(name);
    hide *;
    ListedTag(name, 1, i);
    Answered(word, name, 1, i, rest);
    var tag := TABLE[i].0;
    Accepts(tag, rest, 1);
    if rest == [] {
      FinishedErr(tag, InvalidCommandParam);
    } else {
      OneString(name, rest);
      FinishedSends(tag, KV(name, Some(rest[0]), None, 1), [name] + rest[..1]);
    }
  }

  /** Two words are taken and the rest dropped. */
  lemma TakesTwo(word: string, name: string, rest: seq<string>)
    requires name in TWO && EqlIgnoreCase(word, name)
    ensures if |rest| < 2 then ParsedCommand([word] + rest) == Err(InvalidCommandParam)
            else Sends(ParsedCommand([word] + rest), [name] + rest[..2])
  {
    var i := FindTwo(name);
    hide *;
    ListedTag(name, 2, i);
    Answered(word, name, 2, i, rest);
    var tag := TABLE[i].0;
    Accepts(tag, rest, 2);
    if |rest| < 2 {
      FinishedErr(tag, InvalidCommandParam);
    } else {
      TwoStrings(name, rest);
      FinishedSends(tag, KV(name, Some(rest[0]), Some([rest[1]]), 2), [name] + rest[..2]);
    }
  }

  /** Exactly three words are wanted; a count that leaves the i8 traps first. */
  lemma TakesThree(word: string, name: string, rest: seq<string>)
    requires name in THREE && EqlIgnoreCase(word, name)
    ensures if |rest| == 3 then Sends(ParsedCommand([word] + rest), [name] + rest)
            else ParsedCommand([word] + rest) == Err(if |rest| < 128 then InvalidCommandParam else CountOverflow)
  {
    var i := FindThree(name);
    hide *;
    ListedTag(name, 3, i);
    Answered(word, name, 3, i, rest);
    FinishesAll(TABLE[i].0, name, rest, 3);
  }

  /** Two words at least, and no more than the i8 can count. */
  lemma TakesMany(word: string, name: string, rest: seq<string>)
    requires name in MANY && EqlIgnoreCase(word, name)
    ensures if 2 <= |rest| < 128 then Sends(ParsedCommand([word] + rest), [name] + rest)
            else ParsedCommand([word] + rest) == Err(if |rest| < 2 then InvalidCommandParam else CountOverflow)
  {
    var i := FindMany(name);
    hide *;
    ListedTag(name, -1, i);
    Answered(word, name, -1, i, rest);
    FinishesAll(TABLE[i].0, name, rest, -1);
  }

  /** All words are taken, if their number is right. */
  lemma FinishesAll(tag: CommandType, name: string, rest: seq<string>, argNum: int)
    requires TagName(tag) == name && (argNum == -1 || argNum >= 3)
    ensures var r := Finished(tag, Arguments(rest, tag, argNum));
            if |rest| >= 128 then r == Err(CountOverflow)
            else if argNum == |rest| || (argNum == -1 && |rest| >= 2) then Sends(r, [name] + rest)
            else r == Err(InvalidCommandParam)
  {
    hide *;
    Accepts(tag, rest, argNum);
    FinishedErr(tag, InvalidCommandParam);
    FinishedErr(tag, CountOverflow);
    if |rest| >= 2 {
      KeyAndValues(name, rest);
      FinishedSends(tag, KV(name, Some(rest[0]), Some(rest[1..]), |rest[1..]| + 1), [name] + rest);
    }
  }

  lemma KeyAndValues(name: string, rest: seq<string>)
    requires rest != []
    ensures Strings(KV(name, Some(rest[0]), Some(rest[1..]), |rest[1..]| + 1)) == [name] + rest
  {
    StringsOf(name, rest[0], rest[1..], |rest|);
    assert [rest[0]] + rest[1..] == rest;
  }

  /** Four words, the second of them BEFORE or AFTER. */
  lemma TakesFour(word: string, rest: seq<string>)
    requires EqlIgnoreCase(word, "LINSERT")
    ensures if |rest| == 4 then
              if EqlIgnoreCase(rest[1], "BEFORE") || EqlIgnoreCase(rest[1], "AFTER")
              then Sends(ParsedCommand([word] + rest), ["LINSERT"] + rest)
              else ParsedCommand([word] + rest) == Err(UnknownCommand)
            else ParsedCommand([word] + rest) == Err(if |rest| < 128 then InvalidCommandParam else CountOverflow)
  {
    InsertSpelled(word);
    Dispatched(word, 19, rest);
    InsertDispatched(rest);
    hide *;
    FinishesAll(LINSERT, "LINSERT", rest, 4);
  }

  lemma InsertSpelled(word: string)
    requires EqlIgnoreCase(word, "LINSERT")
    ensures Spells(word, 19) && TABLE[19] == (LINSERT, 4) && TagName(LINSERT) == "LINSERT"
  {
    assert TABLE[19] == (LINSERT, 4) && TagName(LINSERT) == "LINSERT";
  }

  lemma InsertDispatched(rest: seq<string>)
    ensures Dispatch(LINSERT, 4, rest) ==
            if |rest| == 4 && !EqlIgnoreCase(rest[1], "BEFORE") && !EqlIgnoreCase(rest[1], "AFTER")
            then Err(UnknownCommand) else Finished(LINSERT, Arguments(rest, LINSERT, 4))
  {
    Accepts(LINSERT, rest, 4);
    hide Arguments, EqlIgnoreCase, Placed;
    if |rest| == 4 { PlacedIff(rest); }
  }

  lemma PlacedIff(rest: seq<string>)
    requires |rest| > 1
    ensures Placed(KV("LINSERT", Some(rest[0]), Some(rest[1..]), |rest[1..]| + 1)) <==>
            EqlIgnoreCase(rest[1], "BEFORE") || EqlIgnoreCase(rest[1], "AFTER")
  {
    hide EqlIgnoreCase;
    assert rest[1..][0] == rest[1];
  }

  /** Two commands take no words at all, and one of them sends nothing. */
  lemma TakesNone(word: string, rest: seq<string>)
    ensures EqlIgnoreCase(word, "Ping") ==> Sends(ParsedCommand([word] + rest), ["PING"])
    ensures EqlIgnoreCase(word, "Exit") ==> ParsedCommand([word] + rest) == Ok(ExitCommand)
  {
    assert TABLE[4] == (Ping, 0) && TABLE[12] == (Exit, 0) && TagName(Ping) == "Ping" && TagName(Exit) == "Exit";
    if EqlIgnoreCase(word, "Ping") {
      assert Spells(word, 4);
      Dispatched(word, 4, rest);
      assert Args(KV("PING", None, None, 0)) == [];
    }
    if EqlIgnoreCase(word, "Exit") {
      assert Spells(word, 12);
      Dispatched(word, 12, rest);
    }
  }

  /** The word names a command, whatever the case. */
  predicate IsName(word: string) {
    exists name :: name in ONE + TWO + THREE + MANY + ["LINSERT", "Ping", "Exit"] && EqlIgnoreCase(word, name)
  }

  /** A word that names no command is skipped. */
  lemma OthersSkipped(word: string, rest: seq<string>)
    requires !IsName(word)
    ensures ParsedCommand([word] + rest) == ParsedCommand(rest)
    ensures ParsedCommand([]) == Err(UnknownCommand)
  {
    LookUpFirst(word, 0);
    if i: nat :| i < |TABLE| && Spells(word, i) {
      TagIsName(TABLE[i].0);
      hide ONE, TWO, THREE, MANY;
      assert EqlIgnoreCase(word, TagName(TABLE[i].0));
    }
    hide LookUp, Dispatch, IsName;
    assert ([word] + rest)[1..] == rest;
  }

  lemma TagIsName(t: CommandType)
    ensures TagName(t) in ONE + TWO + THREE + MANY + ["LINSERT", "Ping", "Exit"]
  {
    match t
    case Get => assert TagName(t) == ONE[0];
    case Incr => assert TagName(t) == ONE[1];
    case Select => assert TagName(t) == ONE[2];
    case Auth => assert TagName(t) == ONE[3];
    case DEL => assert TagName(t) == ONE[4];
    case EXISTS => assert TagName(t) == ONE[5];
    case LLEN => assert TagName(t) == ONE[6];
    case GETSET => assert TagName(t) == TWO[0];
    case Set => assert TagName(t) == TWO[1];
    case LPOP => assert TagName(t) == TWO[2];
    case RPOP => assert TagName(t) == TWO[3];
    case LTrim => assert TagName(t) == THREE[0];
    case LRANGE => assert TagName(t) == THREE[1];
    case LRem => assert TagName(t) == THREE[2];
    case MGET => assert TagName(t) == MANY[0];
    case LPUSH => assert TagName(t) == MANY[1];
    case RPUSH => assert TagName(t) == MANY[2];
    case LINSERT =>
    case Ping =>
    case Exit =>
  }

  /** The first of the words that names a command, counted from the front. */
  function FirstName(tokens: seq<string>): (i: nat)
    ensures i <= |tokens|
  {
    if tokens == [] || IsName(tokens[0]) then 0 else 1 + FirstName(tokens[1..])
  }

  /** So the first string sent is the word typed, up to its case, and the others are words
      that follow it, in order. */
  lemma {:induction false} SendsWhatIsNamed(tokens: seq<string>)
    requires var r := ParsedCommand(tokens); r.Ok? && r.value.Command?
    ensures var i, ss := FirstName(tokens), Strings(ParsedCommand(tokens).value.kv);
            i < |tokens| && EqlIgnoreCase(tokens[i], ss[0]) && ss[1..] <= tokens[i + 1..]
  {
    if tokens != [] {
      var word, rest := tokens[0], tokens[1..];
      assert tokens == [word] + rest;
      if !IsName(word) {
        OthersSkipped(word, rest);
        SendsWhatIsNamed(rest);
        var i := FirstName(rest);
        assert FirstName(tokens) == 1 + i;
        hide ParsedCommand, Strings, IsName, FirstName, EqlIgnoreCase;
        assert tokens[1 + i] == rest[i] && tokens[1 + i + 1..] == rest[i + 1..];
      } else {
        NamedSends(word, rest);
        hide ParsedCommand, Strings, IsName, EqlIgnoreCase;
      }
    }
  }

  lemma NamedSends(word: string, rest: seq<string>)
    requires IsName(word)
    requires var r := ParsedCommand([word] + rest); r.Ok? && r.value.Command?
    ensures var ss := Strings(ParsedCommand([word] + rest).value.kv);
            EqlIgnoreCase(word, ss[0]) && ss[1..] <= rest
  {
    var name :| name in ONE + TWO + THREE + MANY + ["LINSERT", "Ping", "Exit"] && EqlIgnoreCase(word, name);
    TakesNone(word, rest);
    hide ParsedCommand, Strings;
    if name in ONE { TakesOne(word, name, rest); }
    if name in TWO { TakesTwo(word, name, rest); }
    if name in THREE { TakesThree(word, name, rest); }
    if name in MANY { TakesMany(word, name, rest); }
    if name == "LINSERT" { TakesFour(word, rest); }
    if name == "Ping" { PingNames(word); }
  }

  lemma PingNames(word: string)
    requires EqlIgnoreCase(word, "Ping")
    ensures EqlIgnoreCase(word, "PING")
  {
    assert EqlIgnoreCase("Ping", "PING");
  }
}
