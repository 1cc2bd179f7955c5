/**
 * `pad_spaces_if_missing`: the rewrite that puts a space on each side of the
 * operators `<`, `>` and `|` so that splitting on spaces separates them.
 */
module Normalize {
  import opened Prelude
  import opened Strings

  predicate IsOperator(c: char)
  {
    c == '<' || c == '>' || c == '|'
  }

  /**
   * A space goes in front of the operator at `i` unless it starts the line,
   * follows a space, or follows another operator (which has then already
   * been given a space after it).
   */
  predicate SpaceBefore(line: string, i: nat)
    requires i < |line|
  {
    0 < i && line[i - 1] != ' ' && !IsOperator(line[i - 1])
  }

  /** A space goes after the operator at `i` unless it ends the line or a space follows. */
  predicate SpaceAfter(line: string, i: nat)
    requires i < |line|
  {
    i + 1 < |line| && line[i + 1] != ' '
  }

  /** What the rewrite emits for the input character at `i`. */
  function Piece(line: string, i: nat): string
    requires i < |line|
  {
    if IsOperator(line[i]) then
      (if SpaceBefore(line, i) then " " else "") + [line[i]] + (if SpaceAfter(line, i) then " " else "")
    else
      [line[i]]
  }

  /** The output emitted for the first `n` input characters. */
  function PaddedPrefix(line: string, n: nat): string
    requires n <= |line|
  {
    if n == 0 then [] else PaddedPrefix(line, n - 1) + Piece(line, n - 1)
  }

  /** The line as `pad_spaces_if_missing` leaves it. */
  function Padded(line: string): string
  {
    PaddedPrefix(line, |line|)
  }

  /** Number of operator characters in `s`. */
  function Operators(s: string): nat
  {
    if s == [] then 0 else Operators(s[..|s| - 1]) + (if IsOperator(s[|s| - 1]) then 1 else 0)
  }

  /** Every operator is preceded by a space unless it is first, and followed by one unless it is last. */
  ghost predicate OperatorsSeparated(s: string)
  {
    forall p :: 0 <= p < |s| && IsOperator(s[p]) ==>
      (0 < p ==> s[p - 1] == ' ') && (p + 1 < |s| ==> s[p + 1] == ' ')
  }

  lemma {:induction false} PrefixGrows(line: string, i: nat, j: nat)
    requires i <= j <= |line|
    ensures |PaddedPrefix(line, i)| <= |PaddedPrefix(line, j)|
    decreases j
  {
    if i < j {
      PrefixGrows(line, i, j - 1);
      assert PaddedPrefix(line, j) == PaddedPrefix(line, j - 1) + Piece(line, j - 1);
    }
  }

  lemma PrefixLast(line: string, i: nat)
    requires 0 < i <= |line|
    ensures |PaddedPrefix(line, i)| > 0
    ensures PaddedPrefix(line, i)[|PaddedPrefix(line, i)| - 1]
         == if IsOperator(line[i - 1]) && SpaceAfter(line, i - 1) then ' ' else line[i - 1]
  {
    var p := Piece(line, i - 1);
    assert PaddedPrefix(line, i) == PaddedPrefix(line, i - 1) + p;
    assert p[|p| - 1] == if IsOperator(line[i - 1]) && SpaceAfter(line, i - 1) then ' ' else line[i - 1];
  }

  /** The rewrite decides on a leading space by looking at what it has emitted so far. */
  lemma SpaceBeforeFromOutput(line: string, i: nat)
    requires i < |line| && IsOperator(line[i])
    ensures SpaceBefore(line, i) <==>
      |PaddedPrefix(line, i)| > 0 && PaddedPrefix(line, i)[|PaddedPrefix(line, i)| - 1] != ' '
  {
    if 0 < i {
      PrefixLast(line, i);
    }
  }

  /**
   * The copy loop of `pad_spaces_if_missing`: it fills a `CMDLINE_MAX` buffer
   * and the result is copied back over the line. The source does not check
   * the buffer bound, so the padded line must fit, terminator included.
   */
  method PadSpaces(line: string) returns (padded: string)
    requires |Padded(line)| < CMDLINE_MAX
    ensures padded == Padded(line)
  {
    var temp := new char[CMDLINE_MAX];
    var tempIndex := 0;
    var i := 0;
    while i < |line|
      invariant 0 <= i <= |line|
      invariant tempIndex == |PaddedPrefix(line, i)|
      invariant tempIndex <= |Padded(line)|
      invariant temp[..tempIndex] == PaddedPrefix(line, i)
    {
      PrefixGrows(line, i + 1, |line|);
      tempIndex := Emit(line, i, temp, tempIndex);
      i := i + 1;
    }
    temp[tempIndex] := '\0';
    padded := temp[..tempIndex];
  }

  /** One round of the copy loop: append the piece for the character at `i`. */
  method Emit(line: string, i: nat, temp: array<char>, tempIndex: nat) returns (next: nat)
    requires i < |line|
    requires tempIndex + |Piece(line, i)| <= temp.Length
    requires temp[..tempIndex] == PaddedPrefix(line, i)
    modifies temp
    ensures next == tempIndex + |Piece(line, i)|
    ensures temp[..next] == PaddedPrefix(line, i + 1)
  {
    next := tempIndex;
    ghost var emitted: string := [];
    if IsOperator(line[i]) {
      SpaceBeforeFromOutput(line, i);
      if next > 0 && temp[next - 1] != ' ' {
        next := Put(temp, next, ' ', PaddedPrefix(line, i));
        emitted := " ";
      }
      next := Put(temp, next, line[i], PaddedPrefix(line, i) + emitted);
      emitted := emitted + [line[i]];
      if i + 1 < |line| && line[i + 1] != ' ' {
        next := Put(temp, next, ' ', PaddedPrefix(line, i) + emitted);
        emitted := emitted + " ";
      }
    } else {
      next := Put(temp, next, line[i], PaddedPrefix(line, i));
      emitted := [line[i]];
    }
    assert PaddedPrefix(line, i) + emitted == PaddedPrefix(line, i + 1);
  }

  /** `temp[n++] = c`: the output so far, `done`, grows by `c`. */
  method Put(temp: array<char>, n: nat, c: char, ghost done: string) returns (next: nat)
    requires n < temp.Length && temp[..n] == done
    modifies temp
    ensures next == n + 1 && temp[..next] == done + [c]
  {
    temp[n] := c;
    next := n + 1;
    assert temp[..next] == temp[..n] + [c];
  }

  /** Where the input character at `i` sits inside its piece: after the leading space, if any. */
  function Offset(line: string, i: nat): nat
    requires i < |line|
  {
    if IsOperator(line[i]) && SpaceBefore(line, i) then 1 else 0
  }

  /** Where the input character at `i` lands in the padded line. */
  function Position(line: string, i: nat): nat
    requires i < |line|
  {
    |PaddedPrefix(line, i)| + Offset(line, i)
  }

  /** Output position `p` holds a character copied from the input. */
  ghost predicate IsInputPosition(line: string, p: nat)
  {
    exists i :: 0 <= i < |line| && Position(line, i) == p
  }

  /**
   * A piece is the input character itself, preceded by at most one space and
   * followed by at most one space, and the spaces only around an operator.
   */
  lemma PieceShape(line: string, i: nat)
    requires i < |line|
    ensures !IsOperator(line[i]) ==> Piece(line, i) == [line[i]]
    ensures Offset(line, i) <= 1 && Offset(line, i) < |Piece(line, i)| <= Offset(line, i) + 2
    ensures Piece(line, i)[Offset(line, i)] == line[i]
    ensures forall j :: 0 <= j < |Piece(line, i)| && j != Offset(line, i) ==> Piece(line, i)[j] == ' '
    ensures 1 <= |Piece(line, i)| <= if IsOperator(line[i]) then 3 else 1
  {
    var c := line[i];
    if IsOperator(c) {
      var b: string := if SpaceBefore(line, i) then " " else "";
      var a: string := if SpaceAfter(line, i) then " " else "";
      var q := Piece(line, i);
      assert q == b + [c] + a;
      forall j | 0 <= j < |q| && j != Offset(line, i)
        ensures q[j] == ' '
      {
        if j < |b| {
          assert q[j] == b[j];
        } else {
          assert q[j] == a[j - |b| - 1];
        }
      }
    }
  }

  /** With spaces removed, a piece is its input character with spaces removed; only an operator's piece grows. */
  lemma PieceWithoutSpaces(line: string, i: nat)
    requires i < |line|
    ensures Without(Piece(line, i), ' ') == Without([line[i]], ' ')
    ensures 1 <= |Piece(line, i)| <= if IsOperator(line[i]) then 3 else 1
  {
    var c := line[i];
    if IsOperator(c) {
      var b: string := if SpaceBefore(line, i) then " " else "";
      var a: string := if SpaceAfter(line, i) then " " else "";
      WithoutAppend(b, [c], ' ');
      WithoutAppend(b + [c], a, ' ');
      assert Without(b, ' ') == [] && Without(a, ' ') == [] by {
        assert b == [] || b == [' '];
        assert a == [] || a == [' '];
      }
    }
  }

  /** Each of the first `n` input characters sits at its position in the first `n` pieces. */
  ghost predicate KeepsPrefix(line: string, n: nat)
    requires n <= |line|
  {
    forall i :: 0 <= i < n ==>
      Position(line, i) < |PaddedPrefix(line, n)| && PaddedPrefix(line, n)[Position(line, i)] == line[i]
  }

  /** In the first `n` pieces, every position not holding an input character holds a space. */
  ghost predicate SpacesElsewhere(line: string, n: nat)
    requires n <= |line|
  {
    forall p :: 0 <= p < |PaddedPrefix(line, n)| && !IsInputPosition(line, p) ==> PaddedPrefix(line, n)[p] == ' '
  }

  lemma {:induction false} PrefixEmbedding(line: string, n: nat)
    requires n <= |line|
    ensures KeepsPrefix(line, n) && SpacesElsewhere(line, n)
  {
    if n > 0 {
      var k := n - 1;
      PrefixEmbedding(line, k);
      assert KeepsPrefix(line, k) && SpacesElsewhere(line, k);
      PieceShape(line, k);
      KeepsStep(line, k, PaddedPrefix(line, k), Piece(line, k));
      SpacesStep(line, k, PaddedPrefix(line, k), Piece(line, k));
      assert KeepsPrefix(line, k + 1) && SpacesElsewhere(line, k + 1);
    }
  }

  /** Appending the piece for the character at `k` keeps every input character in place. */
  lemma KeepsStep(line: string, k: nat, front: string, q: string)
    requires k < |line| && front == PaddedPrefix(line, k) && q == Piece(line, k)
    requires Offset(line, k) < |q| && q[Offset(line, k)] == line[k]
    requires KeepsPrefix(line, k)
    ensures KeepsPrefix(line, k + 1)
  {
    assert PaddedPrefix(line, k + 1) == front + q;
    forall i | 0 <= i < k + 1
      ensures Position(line, i) < |front + q| && (front + q)[Position(line, i)] == line[i]
    {
      if i == k {
        assert (front + q)[Position(line, i)] == q[Offset(line, k)];
      } else {
        assert Position(line, i) < |front| && front[Position(line, i)] == line[i];
      }
    }
  }

  /** Appending the piece for the character at `k` adds only spaces around that character. */
  lemma SpacesStep(line: string, k: nat, front: string, q: string)
    requires k < |line| && front == PaddedPrefix(line, k) && q == Piece(line, k)
    requires forall j :: 0 <= j < |q| && j != Offset(line, k) ==> q[j] == ' '
    requires SpacesElsewhere(line, k)
    ensures SpacesElsewhere(line, k + 1)
  {
    assert PaddedPrefix(line, k + 1) == front + q;
    forall p | 0 <= p < |front + q| && !IsInputPosition(line, p)
      ensures (front + q)[p] == ' '
    {
      if |front| <= p {
        assert Position(line, k) != p;
        assert (front + q)[p] == q[p - |front|];
      } else {
        assert (front + q)[p] == front[p];
      }
    }
  }

  lemma PositionsIncrease(line: string, i: nat, j: nat)
    requires i < j < |line|
    ensures Position(line, i) < Position(line, j)
  {
    PieceShape(line, i);
    PrefixGrows(line, i + 1, j);
    assert PaddedPrefix(line, i + 1) == PaddedPrefix(line, i) + Piece(line, i);
  }

  /**
   * Padding keeps every input character, in order, and adds nothing but
   * spaces: the character at `i` lands at `Position(line, i)`, positions
   * increase with `i`, and every other output position holds a space.
   */
  lemma PadEmbedsInput(line: string)
    ensures forall i :: 0 <= i < |line| ==>
      Position(line, i) < |Padded(line)| && Padded(line)[Position(line, i)] == line[i]
    ensures forall i, j :: 0 <= i < j < |line| ==> Position(line, i) < Position(line, j)
    ensures forall p :: 0 <= p < |Padded(line)| && !IsInputPosition(line, p) ==> Padded(line)[p] == ' '
  {
    PrefixEmbedding(line, |line|);
    forall i, j | 0 <= i < j < |line|
      ensures Position(line, i) < Position(line, j)
    {
      PositionsIncrease(line, i, j);
    }
  }

  /**
   * Padding only inserts spaces: with all spaces removed, input and output
   * agree, so no non-space character is dropped or moved; at most two
   * characters are added per operator.
   */
  lemma {:induction false} PadOnlyInsertsSpaces(line: string)
    ensures Without(Padded(line), ' ') == Without(line, ' ')
    ensures |line| <= |Padded(line)| <= |line| + 2 * Operators(line)
  {
    PrefixOnlyInsertsSpaces(line, |line|);
    assert line[..|line|] == line;
  }

  lemma {:induction false} PrefixOnlyInsertsSpaces(line: string, n: nat)
    requires n <= |line|
    ensures Without(PaddedPrefix(line, n), ' ') == Without(line[..n], ' ')
    ensures n <= |PaddedPrefix(line, n)| <= n + 2 * Operators(line[..n])
  {
    if n > 0 {
      PrefixOnlyInsertsSpaces(line, n - 1);
      PieceWithoutSpaces(line, n - 1);
      assert line[..n] == line[..n - 1] + [line[n - 1]];
      assert line[..n][..n - 1] == line[..n - 1];
      WithoutAppend(PaddedPrefix(line, n - 1), Piece(line, n - 1), ' ');
      WithoutAppend(line[..n - 1], [line[n - 1]], ' ');
    }
  }

  lemma SeparatedConcat(a: string, b: string)
    requires OperatorsSeparated(a) && OperatorsSeparated(b)
    requires a != [] && b != [] ==>
      (IsOperator(b[0]) ==> a[|a| - 1] == ' ') && (IsOperator(a[|a| - 1]) ==> b[0] == ' ')
    ensures OperatorsSeparated(a + b)
  {
    var s := a + b;
    forall p | 0 <= p < |s| && IsOperator(s[p])
      ensures (0 < p ==> s[p - 1] == ' ') && (p + 1 < |s| ==> s[p + 1] == ' ')
    {
      if p < |a| {
        assert s[p] == a[p];
        if p + 1 == |a| && p + 1 < |s| {
          assert s[p + 1] == b[0];
        }
      } else {
        assert s[p] == b[p - |a|];
        if p == |a| && 0 < p {
          assert s[p - 1] == a[|a| - 1];
        }
      }
    }
  }

  lemma {:induction false} PrefixSeparated(line: string, n: nat)
    requires n <= |line|
    ensures OperatorsSeparated(PaddedPrefix(line, n))
  {
    if n > 0 {
      PrefixSeparated(line, n - 1);
      var q := Piece(line, n - 1);
      PieceSeparated(line, n - 1);
      if n > 1 {
        PrefixLast(line, n - 1);
      }
      SeparatedConcat(PaddedPrefix(line, n - 1), q);
    }
  }

  lemma PieceSeparated(line: string, i: nat)
    requires i < |line|
    ensures OperatorsSeparated(Piece(line, i))
  {
    var q := Piece(line, i);
    forall p | 0 <= p < |q| && IsOperator(q[p])
      ensures (0 < p ==> q[p - 1] == ' ') && (p + 1 < |q| ==> q[p + 1] == ' ')
    {
      PieceShape(line, i);
    }
  }

  /** After padding, every operator not at the start has a space before it and every one not at the end a space after it. */
  lemma PadSeparatesOperators(line: string)
    ensures OperatorsSeparated(Padded(line))
  {
    PrefixSeparated(line, |line|);
  }

  lemma {:induction false} SeparatedPrefixUnchanged(s: string, n: nat)
    requires OperatorsSeparated(s)
    requires n <= |s|
    ensures PaddedPrefix(s, n) == s[..n]
  {
    if n > 0 {
      SeparatedPrefixUnchanged(s, n - 1);
      assert Piece(s, n - 1) == [s[n - 1]];
      assert s[..n] == s[..n - 1] + [s[n - 1]];
    }
  }

  /** A line whose operators are already separated is left as it is; in particular one without operators. */
  lemma SeparatedUnchanged(s: string)
    requires OperatorsSeparated(s)
    ensures Padded(s) == s
  {
    SeparatedPrefixUnchanged(s, |s|);
    assert s[..|s|] == s;
  }

  /** Padding twice is padding once. */
  lemma PadIdempotent(line: string)
    ensures Padded(Padded(line)) == Padded(line)
  {
    PadSeparatesOperators(line);
    SeparatedUnchanged(Padded(line));
  }
}
