/**
 * The C string helpers the parser relies on: `isspace`, the shell's own
 * `trim_spaces` (as its caller sees it), `strchr` and `strtok`.
 * A C string is modelled by the characters before its terminator.
 */
module Strings {
  import opened Prelude

  /** `isspace` in the "C" locale. */
  predicate IsSpace(c: char)
  {
    c == ' ' || c == '\t' || c == '\n' || c == '\U{B}' || c == '\U{C}' || c == '\r'
  }

  /** One past the last non-whitespace character of `s`, or 0 when there is none. */
  function ContentEnd(s: string): (k: nat)
    ensures k <= |s|
    ensures forall j :: k <= j < |s| ==> IsSpace(s[j])
    ensures k > 0 ==> !IsSpace(s[k - 1])
    decreases |s|
  {
    if s == [] then 0
    else if IsSpace(s[|s| - 1]) then ContentEnd(s[..|s| - 1])
    else |s|
  }

  /**
   * What the caller of `trim_spaces` sees in its buffer afterwards. The
   * leading-space skip only moves the callee's local pointer, so leading
   * whitespace stays; a terminator is written after the last non-space
   * character; a string made only of whitespace is left as it was.
   */
  function Trimmed(s: string): (t: string)
    ensures |t| <= |s| && t == s[..|t|]
    ensures forall j :: |t| <= j < |s| ==> IsSpace(s[j])
    ensures (exists j :: 0 <= j < |s| && !IsSpace(s[j])) ==> |t| > 0 && !IsSpace(t[|t| - 1])
    ensures (forall j :: 0 <= j < |s| ==> IsSpace(s[j])) ==> t == s
    ensures |s| > 0 ==> |t| > 0
  {
    var k := ContentEnd(s);
    if k == 0 then s else s[..k]
  }

  /** `trim_spaces`: skip leading whitespace locally, then walk back from the end. */
  method TrimSpaces(s: string) returns (t: string)
    ensures t == Trimmed(s)
  {
    var start := 0;
    while start < |s| && IsSpace(s[start])
      invariant 0 <= start <= |s|
      invariant forall j :: 0 <= j < start ==> IsSpace(s[j])
    {
      start := start + 1;
    }
    // `str + strlen(str) - 1`, as an index into the caller's string
    var end := |s| - 1;
    while end > start && IsSpace(s[end])
      invariant start < |s| ==> start <= end < |s|
      invariant start == |s| ==> end == |s| - 1
      invariant forall j :: end < j < |s| ==> IsSpace(s[j])
    {
      end := end - 1;
    }
    t := s[..end + 1];
  }

  /** `strchr`: the index of the first `c` in `s`, or -1 when there is none. */
  method FindFirst(s: string, c: char) returns (idx: int)
    ensures -1 <= idx < |s|
    ensures idx == -1 <==> c !in s
    ensures 0 <= idx ==> s[idx] == c && c !in s[..idx]
  {
    idx := 0;
    while idx < |s| && s[idx] != c
      invariant 0 <= idx <= |s|
      invariant c !in s[..idx]
    {
      idx := idx + 1;
    }
    if idx == |s| {
      assert s[..idx] == s;
      idx := -1;
    }
  }

  /** Index of the first `d` in `s`, or `|s|` when there is none. */
  function RunEnd(s: string, d: char): (k: nat)
    ensures k <= |s|
    ensures forall j :: 0 <= j < k ==> s[j] != d
    ensures k < |s| ==> s[k] == d
  {
    if s == [] || s[0] == d then 0 else 1 + RunEnd(s[1..], d)
  }

  /**
   * The tokens `strtok` hands out for the single delimiter `d`: the maximal
   * runs of characters other than `d`; runs of delimiters yield no empty token.
   */
  function Tokens(s: string, d: char): (r: seq<string>)
    ensures |r| <= |s|
    ensures forall k :: 0 <= k < |r| ==> |r[k]| > 0 && d !in r[k]
    decreases |s|
  {
    if s == [] then []
    else if s[0] == d then Tokens(s[1..], d)
    else
      var k := RunEnd(s, d);
      [s[..k]] + Tokens(s[k..], d)
  }

  /** `s` with every `d` removed. */
  function Without(s: string, d: char): string
  {
    if s == [] then [] else (if s[0] == d then [] else [s[0]]) + Without(s[1..], d)
  }

  function Concat(ts: seq<string>): string
  {
    if ts == [] then [] else ts[0] + Concat(ts[1..])
  }

  lemma {:induction false} WithoutAppend(a: string, b: string, d: char)
    ensures Without(a + b, d) == Without(a, d) + Without(b, d)
  {
    if a == [] {
      assert a + b == b;
    } else {
      assert (a + b)[1..] == a[1..] + b;
      WithoutAppend(a[1..], b, d);
    }
  }

  lemma {:induction false} WithoutNone(s: string, d: char)
    requires d !in s
    ensures Without(s, d) == s
  {
    if s != [] {
      WithoutNone(s[1..], d);
    }
  }

  /** Gluing the tokens back together gives the string with its delimiters removed. */
  lemma {:induction false} TokensCoverInput(s: string, d: char)
    ensures Concat(Tokens(s, d)) == Without(s, d)
    decreases |s|
  {
    if s == [] {
    } else if s[0] == d {
      TokensCoverInput(s[1..], d);
    } else {
      var k := RunEnd(s, d);
      assert s == s[..k] + s[k..];
      WithoutAppend(s[..k], s[k..], d);
      WithoutNone(s[..k], d);
      TokensCoverInput(s[k..], d);
      assert Tokens(s, d) == [s[..k]] + Tokens(s[k..], d);
      assert Concat(Tokens(s, d)) == s[..k] + Concat(Tokens(s[k..], d));
    }
  }

  /** A non-empty string without the delimiter is a single token. */
  lemma TokensOfUndelimited(s: string, d: char)
    requires s != [] && d !in s
    ensures Tokens(s, d) == [s]
  {
    assert s[0] != d;
    var k := RunEnd(s, d);
    assert k == |s|;
    assert s[..k] == s && s[k..] == [];
    assert Tokens(s, d) == [s[..k]] + Tokens(s[k..], d);
  }

  lemma TokensSkipDelimiter(s: string, d: char, i: nat)
    requires i < |s| && s[i] == d
    ensures Tokens(s[i..], d) == Tokens(s[i + 1..], d)
  {
    assert s[i..][1..] == s[i + 1..];
  }

  lemma TokensTakeRun(s: string, d: char, i: nat, j: nat)
    requires i < j <= |s|
    requires forall m :: i <= m < j ==> s[m] != d
    requires j < |s| ==> s[j] == d
    ensures Tokens(s[i..], d) == [s[i..j]] + Tokens(s[j..], d)
  {
    var t := s[i..];
    var k := RunEnd(t, d);
    assert t[0] == s[i];
    assert k == j - i;
    assert t[..k] == s[i..j];
    assert t[k..] == s[j..];
  }

  /**
   * The `strtok` loop: hand out tokens for delimiter `d` until there are no
   * more or `limit` of them have been kept.
   */
  method Tokenize(s: string, d: char, limit: nat) returns (toks: seq<string>)
    ensures toks == Take(Tokens(s, d), limit)
  {
    toks := [];
    var i := 0;
    assert s[0..] == s;
    while |toks| < limit
      invariant 0 <= i <= |s|
      invariant |toks| <= limit
      invariant Tokens(s, d) == toks + Tokens(s[i..], d)
      decreases |s| - i
    {
      i := SkipDelimiters(s, d, i);
      if i == |s| {
        assert toks + [] == toks;
        break;
      }
      var j := FindRunEnd(s, d, i);
      ghost var later := Tokens(s[j..], d);
      assert toks + ([s[i..j]] + later) == (toks + [s[i..j]]) + later;
      toks := toks + [s[i..j]];
      i := j;
    }
  }

  /** Skip the delimiters from `i` on: they start no token. */
  method SkipDelimiters(s: string, d: char, i: nat) returns (k: nat)
    requires i <= |s|
    ensures i <= k <= |s| && (k < |s| ==> s[k] != d)
    ensures Tokens(s[i..], d) == Tokens(s[k..], d)
  {
    k := i;
    while k < |s| && s[k] == d
      invariant i <= k <= |s|
      invariant Tokens(s[i..], d) == Tokens(s[k..], d)
    {
      TokensSkipDelimiter(s, d, k);
      k := k + 1;
    }
  }

  /** Walk to the end of the token that starts at `i`. */
  method FindRunEnd(s: string, d: char, i: nat) returns (j: nat)
    requires i < |s| && s[i] != d
    ensures i < j <= |s|
    ensures Tokens(s[i..], d) == [s[i..j]] + Tokens(s[j..], d)
  {
    j := i;
    while j < |s| && s[j] != d
      invariant i <= j <= |s|
      invariant forall m :: i <= m < j ==> s[m] != d
    {
      j := j + 1;
    }
    TokensTakeRun(s, d, i, j);
  }

  /** A string made only of delimiters has no tokens. */
  lemma {:induction false} TokensOfDelimiters(s: string, d: char)
    requires forall j :: 0 <= j < |s| ==> s[j] == d
    ensures Tokens(s, d) == []
    decreases |s|
  {
    if s != [] {
      TokensOfDelimiters(s[1..], d);
    }
  }

  /** Trimming a second time changes nothing. */
  lemma TrimIdempotent(s: string)
    ensures Trimmed(Trimmed(s)) == Trimmed(s)
  {
    var t := Trimmed(s);
    if exists j :: 0 <= j < |s| && !IsSpace(s[j]) {
      assert !IsSpace(t[|t| - 1]);
      assert t[..|t|] == t;
    } else {
      assert t == s;
    }
  }
}
