/** The C library calls the line editor makes on its buffers. */
module Memory {

  import opened Ascii

  /** memmove within one array: the regions may overlap. */
  method MemMove<T>(a: array<T>, dst: nat, src: nat, n: nat)
    requires dst + n <= a.Length && src + n <= a.Length
    modifies a
    ensures a[..] == old(a[..dst] + a[src..src + n] + a[dst + n..])
  {
    forall i | dst <= i < dst + n {
      a[i] := a[i - dst + src];
    }
  }

  /** Closing the gap dst..src in the first `len` elements. */
  lemma MovedLeft<T>(was: seq<T>, now: seq<T>, dst: nat, src: nat, len: nat)
    requires dst <= src <= len <= |was|
    requires now == was[..dst] + was[src..src + (len - src)] + was[dst + (len - src)..]
    ensures |now| == |was| && now[..dst + len - src] == was[..len][..dst] + was[..len][src..]
  {
    assert was[..len][src..] == was[src..len];
  }

  /** Taking out p..q of a string and moving its closing element along. */
  lemma CutOut<T>(was: seq<T>, now: seq<T>, p: nat, q: nat, len: nat)
    requires p <= q <= len < |was|
    requires now == was[..p] + was[q..q + (len - q + 1)] + was[p + (len - q + 1)..]
    ensures |now| == |was| && now[p + len - q] == was[len]
    ensures now[..p + len - q] == was[..len][..p] + was[..len][q..]
  {
    assert was[..len][q..] == was[q..len];
    assert now[..p + len - q] == was[..p] + was[q..len];
  }

  /** Opening a gap for `c` at `pos` in the first `len` elements. */
  lemma Opened<T>(was: seq<T>, now: seq<T>, c: T, pos: nat, len: nat)
    requires pos <= len < |was|
    requires now == was[..pos + 1] + was[pos..pos + (len - pos)] + was[pos + 1 + (len - pos)..]
    ensures |now| == |was| && now[pos := c][..len + 1] == was[..len][..pos] + [c] + was[..len][pos..]
  {
    assert was[..len][pos..] == was[pos..len];
    assert now[pos := c][..len + 1] == was[..pos] + [c] + was[pos..len];
  }

  /** The part of `s` before its first `c`; all of it when there is none. */
  function Before(s: string, c: char): (r: string)
    ensures r <= s && c !in r && (c in s ==> |r| < |s| && s[|r|] == c) && (c !in s ==> r == s)
  {
    if s == [] || s[0] == c then [] else [s[0]] + Before(s[1..], c)
  }

  lemma {:induction false} BeforeAt(s: string, c: char, k: nat)
    requires k < |s| && s[k] == c && c !in s[..k]
    ensures Before(s, c) == s[..k]
  {
    if k > 0 {
      assert s[0] == s[..k][0];
      assert s[1..][..k - 1] == s[..k][1..];
      BeforeAt(s[1..], c, k - 1);
    }
  }

  /** The C string that starts at the first byte of `s`. */
  function CString(s: string): string { Before(s, NUL) }

  /** strncpy: at most `n` bytes of the C string `s`, padded with NUL to `n` bytes. */
  method StrNCpy(a: array<char>, s: string, n: nat)
    requires n <= a.Length
    modifies a
    ensures var k := if |s| < n then |s| else n;
            && a[..k] == s[..k] && (forall i :: k <= i < n ==> a[i] == NUL)
            && a[n..] == old(a[n..])
  {
    forall i | 0 <= i < n {
      a[i] := if i < |s| then s[i] else NUL;
    }
  }
}
