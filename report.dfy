/**
 * The completion line written to standard error when a job finishes:
 * `+ completed '<command>' ` followed by one `[<code>]` per stage and a
 * newline, with each code printed by `%d`.
 */
module Report {
  import opened Prelude

  /** The status a process hands back when it exits: its low eight bits. */
  type ExitCode = c: nat | c < 256

  predicate IsDigit(c: char)
  {
    '0' <= c <= '9'
  }

  predicate AllDigits(s: string)
  {
    forall i :: 0 <= i < |s| ==> IsDigit(s[i])
  }

  function DigitChar(d: nat): (c: char)
    requires d < 10
    ensures IsDigit(c) && c as int - '0' as int == d
  {
    ('0' as int + d) as char
  }

  /** `%d` for a non-negative number: its decimal digits, without leading zeros. */
  function Decimal(n: nat): (s: string)
    ensures |s| > 0 && AllDigits(s)
    ensures |s| > 1 ==> s[0] != '0'
    decreases n
  {
    if n < 10 then [DigitChar(n)] else Decimal(n / 10) + [DigitChar(n % 10)]
  }

  /** The number a string of decimal digits denotes. */
  function DecimalValue(s: string): nat
    requires AllDigits(s)
  {
    if s == [] then 0
    else DecimalValue(s[..|s| - 1]) * 10 + (s[|s| - 1] as int - '0' as int)
  }

  /** Reading back what `%d` printed gives the number. */
  lemma {:induction false} DecimalRoundTrip(n: nat)
    ensures DecimalValue(Decimal(n)) == n
    decreases n
  {
    var s := Decimal(n);
    if n >= 10 {
      DecimalRoundTrip(n / 10);
      assert s[..|s| - 1] == Decimal(n / 10);
    }
  }

  /** The bracketed codes, `[c0][c1]...`, one per stage in order. */
  function Brackets(codes: seq<nat>): string
  {
    if codes == [] then []
    else Brackets(codes[..|codes| - 1]) + "[" + Decimal(codes[|codes| - 1]) + "]"
  }

  const Prefix: string := "+ completed '"

  /** The completion line for `command` whose stages ended with `codes`. */
  function ReportLine(command: string, codes: seq<nat>): (line: string)
    ensures |line| > |Prefix| && line[..|Prefix|] == Prefix
    ensures line[|line| - 1] == '\n'
  {
    Prefix + command + "' " + Brackets(codes) + "\n"
  }

  /** Where the run of digits that ends at `e` starts. */
  function DigitRunStart(s: string, e: nat): (j: nat)
    requires e <= |s|
    ensures j <= e && forall i :: j <= i < e ==> IsDigit(s[i])
    ensures j > 0 ==> !IsDigit(s[j - 1])
    decreases e
  {
    if e > 0 && IsDigit(s[e - 1]) then DigitRunStart(s, e - 1) else e
  }

  /**
   * Reads bracketed codes off the end of `s`, as many as there are, and
   * returns what precedes them together with the codes in order.
   */
  function SplitBrackets(s: string): (r: (string, seq<nat>))
    ensures |r.0| <= |s| && r.0 == s[..|r.0|]
    decreases |s|
  {
    if |s| < 3 || s[|s| - 1] != ']' then (s, [])
    else
      var j := DigitRunStart(s, |s| - 1);
      if j == |s| - 1 || j == 0 || s[j - 1] != '[' then (s, [])
      else
        var rest := SplitBrackets(s[..j - 1]);
        var digits := s[j..|s| - 1];
        assert forall k :: 0 <= k < |digits| ==> digits[k] == s[j + k];
        (rest.0, rest.1 + [DecimalValue(digits)])
  }

  /** Recovers the command and the codes from a completion line, when it is one. */
  function ParseReportLine(line: string): Option<(string, seq<nat>)>
  {
    if |line| < |Prefix| + 1 || line[..|Prefix|] != Prefix || line[|line| - 1] != '\n' then None
    else
      var body := line[|Prefix|..|line| - 1];
      var (rest, codes) := SplitBrackets(body);
      if |rest| < 2 || rest[|rest| - 2..] != "' " then None
      else Some((rest[..|rest| - 2], codes))
  }

  lemma DigitRunOfDecimal(x: string, n: nat)
    requires x == [] || !IsDigit(x[|x| - 1])
    ensures DigitRunStart(x + Decimal(n), |x + Decimal(n)|) == |x|
  {
    var s := x + Decimal(n);
    var d := Decimal(n);
    assert s[|x|..] == d;
    assert forall i :: |x| <= i < |s| ==> s[i] == d[i - |x|];
    DigitRunAll(s, |x|, |s|);
    if |x| > 0 {
      assert s[|x| - 1] == x[|x| - 1];
    }
  }

  lemma {:induction false} DigitRunAll(s: string, j: nat, e: nat)
    requires j <= e <= |s| && forall i :: j <= i < e ==> IsDigit(s[i])
    requires j > 0 ==> !IsDigit(s[j - 1])
    ensures DigitRunStart(s, e) == j
    decreases e
  {
    if e > j {
      DigitRunAll(s, j, e - 1);
    }
  }

  /**
   * The codes printed after any text that does not itself end in `]` are
   * read back exactly, and the text is left over.
   */
  lemma {:induction false} SplitBracketsRoundTrip(x: string, codes: seq<nat>)
    requires x == [] || x[|x| - 1] != ']'
    ensures SplitBrackets(x + Brackets(codes)) == (x, codes)
    decreases |codes|
  {
    if codes == [] {
      assert x + Brackets(codes) == x;
      if |x| >= 3 {
        assert x[|x| - 1] != ']';
      }
    } else {
      var init := codes[..|codes| - 1];
      var c := codes[|codes| - 1];
      assert init + [c] == codes;
      SplitBracketsRoundTrip(x, init);
      SplitBracketsLast(x, init, c);
    }
  }

  /** One more bracketed code at the end is read back as one more code. */
  lemma SplitBracketsLast(x: string, init: seq<nat>, c: nat)
    requires SplitBrackets(x + Brackets(init)) == (x, init)
    ensures SplitBrackets(x + Brackets(init + [c])) == (x, init + [c])
  {
    var codes := init + [c];
    var y := x + Brackets(init);
    assert x + Brackets(codes) == y + "[" + Decimal(c) + "]" by {
      assert codes[..|codes| - 1] == init;
      assert Brackets(codes) == Brackets(init) + "[" + Decimal(c) + "]";
    }
    SplitOneMore(y, c);
  }

  /** Whatever precedes it, a trailing `[<code>]` is split off as the last code. */
  lemma SplitOneMore(y: string, c: nat)
    ensures SplitBrackets(y + "[" + Decimal(c) + "]") == (SplitBrackets(y).0, SplitBrackets(y).1 + [c])
  {
    var d := Decimal(c);
    var p := y + "[";
    var s := p + d + "]";
    var j := |p|;
    assert DigitRunStart(s, |s| - 1) == j by {
      assert s[..|s| - 1] == p + d;
      DigitRunOfDecimal(p, c);
      DigitRunPrefix(s, p + d);
    }
    assert s[j - 1] == '[' && s[..j - 1] == y && s[j..|s| - 1] == d;
    SplitBracketsStep(s, j);
    DecimalRoundTrip(c);
  }

  lemma SplitBracketsStep(s: string, j: nat)
    requires 3 <= |s| && s[|s| - 1] == ']'
    requires DigitRunStart(s, |s| - 1) == j
    requires 0 < j < |s| - 1 && s[j - 1] == '['
    ensures SplitBrackets(s) == (SplitBrackets(s[..j - 1]).0, SplitBrackets(s[..j - 1]).1 + [DecimalValue(s[j..|s| - 1])])
  {
  }

  lemma DigitRunPrefix(s: string, t: string)
    requires |t| < |s| && s[..|t|] == t
    ensures DigitRunStart(s, |t|) == DigitRunStart(t, |t|)
  {
    var j := DigitRunStart(t, |t|);
    if j > 0 {
      assert s[j - 1] == t[j - 1];
    }
    DigitRunAll(s, j, |t|);
  }

  /** Every completion line can be read back: the command and all the codes are recovered. */
  lemma ReportLineRoundTrip(command: string, codes: seq<nat>)
    ensures ParseReportLine(ReportLine(command, codes)) == Some((command, codes))
  {
    var line := ReportLine(command, codes);
    var x := Prefix + command + "' ";
    assert line == x + Brackets(codes) + "\n";
    var body := line[|Prefix|..|line| - 1];
    assert body == command + "' " + Brackets(codes);
    var x' := command + "' ";
    assert body == x' + Brackets(codes);
    SplitBracketsRoundTrip(x', codes);
    assert x'[|x'| - 2..] == "' ";
    assert x'[..|x'| - 2] == command;
  }

  /** Different completion lines come from different commands or codes. */
  lemma ReportLineInjective(c1: string, k1: seq<nat>, c2: string, k2: seq<nat>)
    requires ReportLine(c1, k1) == ReportLine(c2, k2)
    ensures c1 == c2 && k1 == k2
  {
    ReportLineRoundTrip(c1, k1);
    ReportLineRoundTrip(c2, k2);
  }
}
