/** Zig's std.mem token iterators: the pieces of a buffer between delimiters, runs of
    delimiters counting as one. */
module Tokenizer {

  const CRLF: string := "\r\n"
  const BLANK: string := " "

  datatype Option<T> = None | Some(value: T)

  function SkipDelims(s: string, d: string): (t: string)
    requires d != []
    ensures |t| <= |s| && !(d <= t)
  {
    if d <= s then SkipDelims(s[|d|..], d) else s
  }

  function TokenLen(s: string, d: string): (n: nat)
    ensures n <= |s|
  {
    if s == [] || d <= s then 0 else 1 + TokenLen(s[1..], d)
  }

  function Tokens(s: string, d: string): seq<string>
    requires d != []
    decreases |s|
  {
    var t := SkipDelims(s, d);
    if t == [] then []
    else
      var n := TokenLen(t, d);
      [t[..n]] + Tokens(t[n..], d)
  }

  /** No delimiter starts anywhere in `s`. */
  predicate Free(s: string, d: string) { forall i :: 0 <= i < |s| ==> !(d <= s[i..]) }

  lemma {:induction false} NoDelimBefore(s: string, d: string, i: nat)
    requires i < TokenLen(s, d)
    ensures !(d <= s[i..])
  {
    if i == 0 {
      assert s[0..] == s;
    } else {
      assert s[i..] == s[1..][i - 1..];
      NoDelimBefore(s[1..], d, i - 1);
    }
  }

  lemma TokenLenFree(s: string, d: string)
    requires d != []
    ensures Free(s[..TokenLen(s, d)], d)
  {
    var t := s[..TokenLen(s, d)];
    forall i | 0 <= i < |t|
      ensures !(d <= t[i..])
    {
      NoDelimBefore(s, d, i);
      assert t[i..] <= s[i..];
    }
  }

  /** Tokens are never empty and never hold a delimiter. */
  lemma {:induction false} TokensAreFree(s: string, d: string)
    requires d != []
    ensures forall t :: t in Tokens(s, d) ==> t != [] && Free(t, d)
    decreases |s|
  {
    var t := SkipDelims(s, d);
    if t != [] {
      TokenLenFree(t, d);
      TokensAreFree(t[TokenLen(t, d)..], d);
    }
  }

  lemma {:induction false} TokenLenCrLf(a: string, rest: string)
    requires Free(a, CRLF)
    ensures TokenLen(a + CRLF + rest, CRLF) == |a|
  {
    var s := a + CRLF + rest;
    if a != [] {
      assert s[1..] == a[1..] + CRLF + rest;
      assert a[0..] == a;
      assert forall i :: 0 <= i < |a| - 1 ==> a[1..][i..] == a[i + 1..];
      TokenLenCrLf(a[1..], rest);
      if |a| == 1 { assert s[1] == '\r'; } else { assert s[..2] == a[..2]; }
    } else {
      assert s[..2] == CRLF;
    }
  }

  /** A line is one token, whatever follows its CR LF; a CR at its end or an LF at the
      start of the next line does not make another delimiter. */
  lemma LineIsToken(a: string, rest: string)
    requires a != [] && Free(a, CRLF)
    ensures Tokens(a + CRLF + rest, CRLF) == [a] + Tokens(rest, CRLF)
  {
    var s := a + CRLF + rest;
    TokenLenCrLf(a, rest);
    assert SkipDelims(s, CRLF) == s;
    assert s[..|a|] == a && s[|a|..] == CRLF + rest;
    assert (CRLF + rest)[2..] == rest;
    assert SkipDelims(CRLF + rest, CRLF) == SkipDelims(rest, CRLF);
  }

  /** Delimiters in front are skipped, and what follows the last one is a token too. */
  lemma DelimsSkipped(s: string, d: string)
    requires d != []
    ensures Tokens(d + s, d) == Tokens(s, d)
  {
    assert (d + s)[|d|..] == s;
    assert SkipDelims(d + s, d) == SkipDelims(s, d);
  }

  lemma LastIsToken(a: string, d: string)
    requires d != [] && Free(a, d)
    ensures Tokens(a, d) == if a == [] then [] else [a]
  {
    if a != [] {
      FreeIsWhole(a, d);
      assert a[0..] == a;
      assert a[..|a|] == a && a[|a|..] == [];
      assert Tokens([], d) == [];
    }
  }

  lemma {:induction false} FreeIsWhole(a: string, d: string)
    requires d != [] && Free(a, d)
    ensures TokenLen(a, d) == |a|
  {
    if a != [] {
      assert a[0..] == a;
      assert forall i :: 0 <= i < |a| - 1 ==> a[1..][i..] == a[i + 1..];
      FreeIsWhole(a[1..], d);
    }
  }

  /** A word is one token, whatever follows its blank. */
  lemma WordIsToken(a: string, rest: string)
    requires a != [] && ' ' !in a
    ensures Tokens(a + BLANK + rest, BLANK) == [a] + Tokens(rest, BLANK)
  {
    var s := a + BLANK + rest;
    WordLen(a, rest);
    assert SkipDelims(s, BLANK) == s;
    assert s[..|a|] == a && s[|a|..] == BLANK + rest;
    DelimsSkipped(rest, BLANK);
  }

  lemma {:induction false} WordLen(a: string, rest: string)
    requires ' ' !in a
    ensures TokenLen(a + BLANK + rest, BLANK) == |a|
  {
    var s := a + BLANK + rest;
    if a != [] {
      assert s[1..] == a[1..] + BLANK + rest && s[0] == a[0];
      WordLen(a[1..], rest);
    } else {
      assert s[..1] == BLANK;
    }
  }

  lemma TokensUnfold(s: string, d: string)
    requires d != []
    ensures var t := SkipDelims(s, d);
            var n := TokenLen(t, d);
            Tokens(s, d) == if t == [] then [] else [t[..n]] + Tokens(t[n..], d)
    ensures Tokens([], d) == []
  {
  }

  /** std.mem.trim of blanks. */
  function Trim(s: string): string
    decreases |s|
  {
    if s == [] then s
    else if s[0] == ' ' then Trim(s[1..])
    else if s[|s| - 1] == ' ' then Trim(s[..|s| - 1])
    else s
  }

  lemma {:induction false} BlankAtEnd(s: string)
    ensures Tokens(s + BLANK, BLANK) == Tokens(s, BLANK)
    decreases |s|
  {
    if s == [] {
      assert s + BLANK == BLANK && BLANK[1..] == [];
    } else if BLANK <= s {
      assert (s + BLANK)[1..] == s[1..] + BLANK;
      BlankAtEnd(s[1..]);
    } else {
      var n := TokenLen(s, BLANK);
      BlankAfterToken(s);
      assert (s + BLANK)[n..] == s[n..] + BLANK && (s + BLANK)[..n] == s[..n];
      BlankAtEnd(s[n..]);
    }
  }

  lemma {:induction false} BlankAfterToken(s: string)
    ensures TokenLen(s + BLANK, BLANK) == TokenLen(s, BLANK)
  {
    if s != [] && !(BLANK <= s) {
      assert (s + BLANK)[1..] == s[1..] + BLANK;
      BlankAfterToken(s[1..]);
    }
  }

  /** Trimming changes no token. */
  lemma {:induction false} TrimKeepsTokens(s: string)
    ensures Tokens(Trim(s), BLANK) == Tokens(s, BLANK)
    decreases |s|
  {
    if s == [] {
    } else if s[0] == ' ' {
      TrimKeepsTokens(s[1..]);
      assert BLANK <= s;
    } else if s[|s| - 1] == ' ' {
      TrimKeepsTokens(s[..|s| - 1]);
      BlankAtEnd(s[..|s| - 1]);
      assert s == s[..|s| - 1] + BLANK;
    }
  }

  /** The iterator: a position in the buffer that each call advances. */
  class TokenIterator {
    const buffer: string
    const delimiter: string
    var index: nat

    ghost predicate Valid()
      reads this
    {
      index <= |buffer| && delimiter != []
    }

    ghost function Rest(): seq<string>
      reads this
      requires Valid()
    {
      Tokens(buffer[index..], delimiter)
    }

    constructor (buffer: string, delimiter: string)
      requires delimiter != []
      ensures Valid() && Rest() == Tokens(buffer, delimiter) && this.delimiter == delimiter
    {
      this.buffer, this.delimiter, index := buffer, delimiter, 0;
      new;
      assert buffer[0..] == buffer;
    }

    method Next() returns (token: Option<string>)
      requires Valid()
      modifies this
      ensures Valid()
      ensures old(Rest()) == [] ==> token == None && Rest() == []
      ensures old(Rest()) != [] ==> token == Some(old(Rest())[0]) && Rest() == old(Rest())[1..]
    {
      hide Tokens, SkipDelims, TokenLen;
      TokensUnfold(buffer[index..], delimiter);
      SkipDelimiters();
      var start := index;
      ghost var t := buffer[start..];
      if start == |buffer| {
        assert buffer[index..] == [];
        return None;
      }
      var end := TokenEnd(start);
      index := end;
      assert t[..end - start] == buffer[start..end] && t[end - start..] == buffer[end..];
      return Some(buffer[start..end]);
    }

    method SkipDelimiters()
      requires Valid()
      modifies this
      ensures Valid() && buffer[index..] == SkipDelims(old(buffer[index..]), delimiter)
    {
      ghost var s := buffer[index..];
      while delimiter <= buffer[index..]
        invariant Valid() && SkipDelims(buffer[index..], delimiter) == SkipDelims(s, delimiter)
        decreases |buffer| - index
      {
        assert buffer[index..][|delimiter|..] == buffer[index + |delimiter|..];
        index := index + |delimiter|;
      }
    }

    method TokenEnd(start: nat) returns (end: nat)
      requires Valid() && start <= |buffer|
      ensures end == start + TokenLen(buffer[start..], delimiter) <= |buffer|
    {
      end := start;
      while end < |buffer| && !(delimiter <= buffer[end..])
        invariant start <= end <= |buffer|
        invariant end - start + TokenLen(buffer[end..], delimiter) == TokenLen(buffer[start..], delimiter)
      {
        assert buffer[end..][1..] == buffer[end + 1..];
        end := end + 1;
      }
    }
  }
}
