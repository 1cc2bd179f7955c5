/**
 * `parse_command`: from a (padded) command line to the list of pipeline
 * stages, or to one of the fixed parse errors. The two `open` probes on
 * redirection targets are the oracles `canOpenRead` and `canOpenWrite`.
 */
module Parser {
  import opened Prelude
  import opened Strings

  /** One stage of a pipeline: the `Command` record. */
  datatype Command = Command(
    args: seq<string>,
    input: Option<string>,
    output: Option<string>,
    background: bool)

  /** The parse errors, one per distinct message the parser prints. */
  datatype ParseError =
    | MissingCommand
    | MislocatedBackground
    | MislocatedInput
    | NoInputFile
    | CannotOpenInput
    | MislocatedOutput
    | NoOutputFile
    | CannotOpenOutput
    | TooManyArguments

  /** The line printed on standard error for each error. */
  function Message(e: ParseError): (m: string)
    ensures |m| > 7 && m[..7] == "Error: "
  {
    match e
    case MissingCommand => "Error: missing command"
    case MislocatedBackground => "Error: mislocated background sign"
    case MislocatedInput => "Error: mislocated input redirection"
    case NoInputFile => "Error: no input file"
    case CannotOpenInput => "Error: cannot open input file"
    case MislocatedOutput => "Error: mislocated output redirection"
    case NoOutputFile => "Error: no output file"
    case CannotOpenOutput => "Error: cannot open output file"
    case TooManyArguments => "Error: too many process arguments"
  }

  /** Different errors print different messages. */
  lemma MessagesDistinct(e1: ParseError, e2: ParseError)
    requires e1 != e2
    ensures Message(e1) != Message(e2)
  {
  }

  /*
   * The token grammar of one stage: `<` and `>` each take the next token as
   * their target, every other token is a plain argument.
   */

  predicate IsRedirect(tok: string)
  {
    tok == "<" || tok == ">"
  }

  /** The plain arguments of a stage, in order, with redirections and their targets taken out. */
  function PlainArgs(toks: seq<string>): seq<string>
  {
    if toks == [] then []
    else if IsRedirect(toks[0]) then (if |toks| < 2 then [] else PlainArgs(toks[2..]))
    else [toks[0]] + PlainArgs(toks[1..])
  }

  /** The targets of the `op` redirections of a stage, in order. */
  function Targets(toks: seq<string>, op: string): seq<string>
  {
    if toks == [] then []
    else if IsRedirect(toks[0]) then
      if |toks| < 2 then []
      else (if toks[0] == op then [toks[1]] else []) + Targets(toks[2..], op)
    else Targets(toks[1..], op)
  }

  /** Every redirection operator is followed by a target. */
  predicate TargetsPresent(toks: seq<string>)
  {
    if toks == [] then true
    else if IsRedirect(toks[0]) then |toks| >= 2 && TargetsPresent(toks[2..])
    else TargetsPresent(toks[1..])
  }

  /** The last element of `ts`, or `dflt` when there is none. */
  function LastOr(ts: seq<string>, dflt: Option<string>): Option<string>
  {
    if ts == [] then dflt else Some(ts[|ts| - 1])
  }

  /**
   * The token loop of one stage: redirections are placed, their targets
   * probed and recorded (the last one wins), other tokens become arguments.
   */
  function ScanTokens(toks: seq<string>, isFirst: bool, isLast: bool,
                      canOpenRead: string -> bool, canOpenWrite: string -> bool,
                      cmd: Command): Result<Command, ParseError>
  {
    if toks == [] then Success(cmd)
    else if toks[0] == "<" then
      if !isFirst then Failure(MislocatedInput)
      else if |toks| < 2 then Failure(NoInputFile)
      else if !canOpenRead(toks[1]) then Failure(CannotOpenInput)
      else ScanTokens(toks[2..], isFirst, isLast, canOpenRead, canOpenWrite, cmd.(input := Some(toks[1])))
    else if toks[0] == ">" then
      if !isLast then Failure(MislocatedOutput)
      else if |toks| < 2 then Failure(NoOutputFile)
      else if !canOpenWrite(toks[1]) then Failure(CannotOpenOutput)
      else ScanTokens(toks[2..], isFirst, isLast, canOpenRead, canOpenWrite, cmd.(output := Some(toks[1])))
    else
      ScanTokens(toks[1..], isFirst, isLast, canOpenRead, canOpenWrite, cmd.(args := cmd.args + [toks[0]]))
  }

  /** One pipe-separated segment, the `i`th of `n`, turned into a stage. */
  function ParseSegment(segment: string, i: nat, n: nat, background: bool,
                        canOpenRead: string -> bool, canOpenWrite: string -> bool): Result<Command, ParseError>
    requires i < n
  {
    var text := Trimmed(segment);
    if |text| == 0 || text[0] == '<' || text[0] == '>' then Failure(MissingCommand)
    else
      match ScanTokens(Tokens(text, ' '), i == 0, i == n - 1, canOpenRead, canOpenWrite,
                       Command([], None, None, background && i == n - 1))
      case Failure(e) => Failure(e)
      case Success(cmd) =>
        if |cmd.args| > MAX_ARGS_PER_CMD then Failure(TooManyArguments) else Success(cmd)
  }

  /** The stage parsed from each segment, the `k`th of `|segments|` from the `k`th segment. */
  function Stages(segments: seq<string>, background: bool,
                  canOpenRead: string -> bool, canOpenWrite: string -> bool): seq<Result<Command, ParseError>>
  {
    seq(|segments|, k requires 0 <= k < |segments| =>
      ParseSegment(segments[k], k, |segments|, background, canOpenRead, canOpenWrite))
  }

  /**
   * The per-segment loop: the results from the `i`th on, appended to `acc`;
   * it stops at the first failure, whose error it returns.
   */
  function Collect<T, E>(results: seq<Result<T, E>>, i: nat, acc: seq<T>): Result<seq<T>, E>
    requires i <= |results|
    decreases |results| - i
  {
    if i == |results| then Success(acc)
    else
      match results[i]
      case Failure(e) => Failure(e)
      case Success(v) => Collect(results, i + 1, acc + [v])
  }

  /** Whether the trimmed line ends in the background marker `&`. */
  predicate IsBackground(line: string)
    requires |line| > 0
  {
    var t := Trimmed(line);
    t[|t| - 1] == '&'
  }

  /** The line with trailing whitespace and the background marker taken off. */
  function Body(line: string): string
    requires |line| > 0
  {
    var t := Trimmed(line);
    if IsBackground(line) then Trimmed(t[..|t| - 1]) else t
  }

  /** The pipe-separated segments `strtok` hands out, at most `MAX_COMMANDS` of them. */
  function Segments(body: string): seq<string>
  {
    Take(Tokens(body, '|'), MAX_COMMANDS)
  }

  /** What `parse_command` computes for a non-empty line. */
  function Parse(line: string, canOpenRead: string -> bool, canOpenWrite: string -> bool): Result<seq<Command>, ParseError>
    requires |line| > 0
  {
    var body := Body(line);
    if |body| == 0 then Failure(MissingCommand)
    else if '&' in body[..|body| - 1] then Failure(MislocatedBackground)
    else if body[0] == '|' || body[|body| - 1] == '|' then Failure(MissingCommand)
    else Collect(Stages(Segments(body), IsBackground(line), canOpenRead, canOpenWrite), 0, [])
  }

  /** The body of the per-segment loop of `parse_command`. */
  method ParseStage(segment: string, i: nat, n: nat, background: bool,
                    canOpenRead: string -> bool, canOpenWrite: string -> bool)
    returns (r: Result<Command, ParseError>)
    requires i < n
    ensures r == ParseSegment(segment, i, n, background, canOpenRead, canOpenWrite)
  {
    var text := TrimSpaces(segment);
    if |text| == 0 || text[0] == '>' || text[0] == '<' {
      return Failure(MissingCommand);
    }
    var cmd := Command([], None, None, false);
    if i == n - 1 && background {
      cmd := cmd.(background := true);
    }
    var tokens := Tokenize(text, ' ', |text|);
    var scanned := ScanStage(tokens, i == 0, i == n - 1, canOpenRead, canOpenWrite, cmd);
    if scanned.Failure? {
      return Failure(scanned.error);
    }
    cmd := scanned.value;
    if |cmd.args| > MAX_ARGS_PER_CMD {
      return Failure(TooManyArguments);
    }
    return Success(cmd);
  }

  /** The token loop of one stage: redirections, their targets, and the plain arguments, from `start` on. */
  method ScanStage(tokens: seq<string>, isFirst: bool, isLast: bool,
                   canOpenRead: string -> bool, canOpenWrite: string -> bool, start: Command)
    returns (r: Result<Command, ParseError>)
    ensures r == ScanTokens(tokens, isFirst, isLast, canOpenRead, canOpenWrite, start)
  {
    var cmd := start;
    var j := 0;
    while j < |tokens|
      invariant 0 <= j <= |tokens|
      invariant ScanTokens(tokens, isFirst, isLast, canOpenRead, canOpenWrite, start)
             == ScanTokens(tokens[j..], isFirst, isLast, canOpenRead, canOpenWrite, cmd)
    {
      assert tokens[j..][0] == tokens[j];
      if tokens[j] == "<" {
        if !isFirst {
          return Failure(MislocatedInput);
        }
        j := j + 1;
        if j < |tokens| {
          cmd := cmd.(input := Some(tokens[j]));
          if !canOpenRead(tokens[j]) {
            return Failure(CannotOpenInput);
          }
          assert tokens[j - 1..][2..] == tokens[j + 1..];
        } else {
          return Failure(NoInputFile);
        }
      } else if tokens[j] == ">" {
        if !isLast {
          return Failure(MislocatedOutput);
        }
        j := j + 1;
        if j < |tokens| {
          cmd := cmd.(output := Some(tokens[j]));
          if !canOpenWrite(tokens[j]) {
            return Failure(CannotOpenOutput);
          }
          assert tokens[j - 1..][2..] == tokens[j + 1..];
        } else {
          return Failure(NoOutputFile);
        }
      } else {
        cmd := cmd.(args := cmd.args + [tokens[j]]);
        assert tokens[j..][1..] == tokens[j + 1..];
      }
      j := j + 1;
    }
    return Success(cmd);
  }

  /** `parse_command`: the line checks, the split on `|`, then one stage per segment. */
  method ParseCommand(line: string, canOpenRead: string -> bool, canOpenWrite: string -> bool)
    returns (r: Result<seq<Command>, ParseError>)
    requires |line| > 0
    ensures r == Parse(line, canOpenRead, canOpenWrite)
  {
    var text := TrimSpaces(line);
    var background := false;
    var len := |text|;
    if len > 0 && text[len - 1] == '&' {
      background := true;
      text := TrimSpaces(text[..len - 1]);
      if |text| == 0 {
        return Failure(MissingCommand);
      }
    }
    assert text == Body(line) && background == IsBackground(line);

    var ampersand := FindFirst(text, '&');
    if ampersand != -1 && ampersand != |text| - 1 {
      assert text[..|text| - 1][ampersand] == '&';
      return Failure(MislocatedBackground);
    }
    assert '&' !in text[..|text| - 1] by {
      if ampersand == |text| - 1 {
        assert text[..ampersand] == text[..|text| - 1];
      }
    }
    if text[0] == '|' || text[|text| - 1] == '|' {
      return Failure(MissingCommand);
    }

    var segments := Tokenize(text, '|', MAX_COMMANDS);
    var numCommands := |segments|;
    ghost var stages := Stages(segments, background, canOpenRead, canOpenWrite);
    var commands: seq<Command> := [];
    var i := 0;
    while i < numCommands
      invariant 0 <= i <= numCommands
      invariant Collect(stages, 0, []) == Collect(stages, i, commands)
    {
      var cmd := ParseStage(segments[i], i, numCommands, background, canOpenRead, canOpenWrite);
      if cmd.Failure? {
        return Failure(cmd.error);
      }
      commands := commands + [cmd.value];
      i := i + 1;
    }
    return Success(commands);
  }

  /*
   * Properties of the parser.
   */

  /** A stage's token loop succeeds exactly when every redirection has a target, sits on an allowed stage and passes its probe. */
  lemma {:induction false} ScanSucceedsIff(toks: seq<string>, isFirst: bool, isLast: bool,
                                           canOpenRead: string -> bool, canOpenWrite: string -> bool, cmd: Command)
    ensures ScanTokens(toks, isFirst, isLast, canOpenRead, canOpenWrite, cmd).Success? <==>
      && TargetsPresent(toks)
      && (Targets(toks, "<") != [] ==> isFirst)
      && (Targets(toks, ">") != [] ==> isLast)
      && (forall t :: t in Targets(toks, "<") ==> canOpenRead(t))
      && (forall t :: t in Targets(toks, ">") ==> canOpenWrite(t))
    decreases |toks|
  {
    if toks == [] {
    } else if toks[0] == "<" {
      if |toks| >= 2 {
        ScanSucceedsIff(toks[2..], isFirst, isLast, canOpenRead, canOpenWrite, cmd.(input := Some(toks[1])));
      }
    } else if toks[0] == ">" {
      if |toks| >= 2 {
        ScanSucceedsIff(toks[2..], isFirst, isLast, canOpenRead, canOpenWrite, cmd.(output := Some(toks[1])));
      }
    } else {
      ScanSucceedsIff(toks[1..], isFirst, isLast, canOpenRead, canOpenWrite, cmd.(args := cmd.args + [toks[0]]));
    }
  }

  lemma LastOrCons(x: string, rest: seq<string>, dflt: Option<string>)
    ensures LastOr([x] + rest, dflt) == LastOr(rest, Some(x))
  {
  }

  /**
   * What a successful token loop records: the plain arguments appended in
   * order, the last target of each redirection kind, the background flag kept.
   */
  lemma {:induction false} ScanResult(toks: seq<string>, isFirst: bool, isLast: bool,
                                      canOpenRead: string -> bool, canOpenWrite: string -> bool,
                                      cmd: Command, out: Command)
    requires ScanTokens(toks, isFirst, isLast, canOpenRead, canOpenWrite, cmd) == Success(out)
    ensures out.args == cmd.args + PlainArgs(toks)
    ensures out.input == LastOr(Targets(toks, "<"), cmd.input)
    ensures out.output == LastOr(Targets(toks, ">"), cmd.output)
    ensures out.background == cmd.background
    decreases |toks|
  {
    if toks == [] {
    } else if toks[0] == "<" {
      assert ScanTokens(toks, isFirst, isLast, canOpenRead, canOpenWrite, cmd)
          == ScanTokens(toks[2..], isFirst, isLast, canOpenRead, canOpenWrite, cmd.(input := Some(toks[1])));
      ScanResult(toks[2..], isFirst, isLast, canOpenRead, canOpenWrite, cmd.(input := Some(toks[1])), out);
      assert PlainArgs(toks) == PlainArgs(toks[2..]);
      assert Targets(toks, "<") == [toks[1]] + Targets(toks[2..], "<");
      assert Targets(toks, ">") == Targets(toks[2..], ">");
      LastOrCons(toks[1], Targets(toks[2..], "<"), cmd.input);
    } else if toks[0] == ">" {
      assert ScanTokens(toks, isFirst, isLast, canOpenRead, canOpenWrite, cmd)
          == ScanTokens(toks[2..], isFirst, isLast, canOpenRead, canOpenWrite, cmd.(output := Some(toks[1])));
      ScanResult(toks[2..], isFirst, isLast, canOpenRead, canOpenWrite, cmd.(output := Some(toks[1])), out);
      assert PlainArgs(toks) == PlainArgs(toks[2..]);
      assert Targets(toks, ">") == [toks[1]] + Targets(toks[2..], ">");
      assert Targets(toks, "<") == Targets(toks[2..], "<");
      LastOrCons(toks[1], Targets(toks[2..], ">"), cmd.output);
    } else {
      ScanResult(toks[1..], isFirst, isLast, canOpenRead, canOpenWrite, cmd.(args := cmd.args + [toks[0]]), out);
      assert PlainArgs(toks) == [toks[0]] + PlainArgs(toks[1..]);
    }
  }

  /** The token loop does not look at the background flag, and keeps it. */
  lemma {:induction false} ScanIgnoresBackground(toks: seq<string>, isFirst: bool, isLast: bool,
                                                 canOpenRead: string -> bool, canOpenWrite: string -> bool,
                                                 cmd: Command, flag: bool)
    ensures var r := ScanTokens(toks, isFirst, isLast, canOpenRead, canOpenWrite, cmd);
            var r' := ScanTokens(toks, isFirst, isLast, canOpenRead, canOpenWrite, cmd.(background := flag));
            && r.Success? == r'.Success?
            && (r.Failure? ==> r'.error == r.error)
            && (r.Success? ==> r'.value == r.value.(background := flag))
    decreases |toks|
  {
    if toks == [] {
    } else if toks[0] == "<" {
      if isFirst && |toks| >= 2 && canOpenRead(toks[1]) {
        ScanIgnoresBackground(toks[2..], isFirst, isLast, canOpenRead, canOpenWrite, cmd.(input := Some(toks[1])), flag);
        assert cmd.(background := flag).(input := Some(toks[1])) == cmd.(input := Some(toks[1])).(background := flag);
      }
    } else if toks[0] == ">" {
      if isLast && |toks| >= 2 && canOpenWrite(toks[1]) {
        ScanIgnoresBackground(toks[2..], isFirst, isLast, canOpenRead, canOpenWrite, cmd.(output := Some(toks[1])), flag);
        assert cmd.(background := flag).(output := Some(toks[1])) == cmd.(output := Some(toks[1])).(background := flag);
      }
    } else {
      ScanIgnoresBackground(toks[1..], isFirst, isLast, canOpenRead, canOpenWrite, cmd.(args := cmd.args + [toks[0]]), flag);
      assert cmd.(background := flag).(args := cmd.args + [toks[0]]) == cmd.(args := cmd.args + [toks[0]]).(background := flag);
    }
  }

  /**
   * Every redirection among `toks` has a target, sits on an allowed stage
   * and passes its probe.
   */
  predicate RedirectsOk(toks: seq<string>, isFirst: bool, isLast: bool,
                        canOpenRead: string -> bool, canOpenWrite: string -> bool)
  {
    && TargetsPresent(toks)
    && (Targets(toks, "<") != [] ==> isFirst)
    && (Targets(toks, ">") != [] ==> isLast)
    && (forall t :: t in Targets(toks, "<") ==> canOpenRead(t))
    && (forall t :: t in Targets(toks, ">") ==> canOpenWrite(t))
  }

  /** The redirection `op` with target `target` is allowed on this stage and passes its probe. */
  predicate UnitOk(op: string, target: string, isFirst: bool, isLast: bool,
                   canOpenRead: string -> bool, canOpenWrite: string -> bool)
  {
    if op == "<" then isFirst && canOpenRead(target) else isLast && canOpenWrite(target)
  }

  /**
   * The token loop stops with `e` at the redirection `toks[k]`: the tokens
   * before it are whole units that all pass, and the redirection is on the
   * wrong stage (first of all), or has no target, or its target fails the
   * probe.
   */
  predicate FaultAt(toks: seq<string>, k: nat, isFirst: bool, isLast: bool,
                    canOpenRead: string -> bool, canOpenWrite: string -> bool, e: ParseError)
  {
    && k < |toks|
    && IsRedirect(toks[k])
    && RedirectsOk(toks[..k], isFirst, isLast, canOpenRead, canOpenWrite)
    && (toks[k] == "<" ==>
          || (!isFirst && e == MislocatedInput)
          || (isFirst && k + 1 == |toks| && e == NoInputFile)
          || (isFirst && k + 1 < |toks| && !canOpenRead(toks[k + 1]) && e == CannotOpenInput))
    && (toks[k] == ">" ==>
          || (!isLast && e == MislocatedOutput)
          || (isLast && k + 1 == |toks| && e == NoOutputFile)
          || (isLast && k + 1 < |toks| && !canOpenWrite(toks[k + 1]) && e == CannotOpenOutput))
  }

  /** Some redirection of `toks` stops the token loop with `e`. */
  ghost predicate HasFault(toks: seq<string>, isFirst: bool, isLast: bool,
                           canOpenRead: string -> bool, canOpenWrite: string -> bool, e: ParseError)
  {
    exists k: nat :: FaultAt(toks, k, isFirst, isLast, canOpenRead, canOpenWrite, e)
  }

  /** `RedirectsOk` unit by unit: a plain token, a redirection without target, or a redirection and its target. */
  lemma RedirectsOkCons(toks: seq<string>, isFirst: bool, isLast: bool,
                        canOpenRead: string -> bool, canOpenWrite: string -> bool)
    requires toks != []
    ensures !IsRedirect(toks[0]) ==>
      (RedirectsOk(toks, isFirst, isLast, canOpenRead, canOpenWrite) <==>
       RedirectsOk(toks[1..], isFirst, isLast, canOpenRead, canOpenWrite))
    ensures IsRedirect(toks[0]) && |toks| < 2 ==> !RedirectsOk(toks, isFirst, isLast, canOpenRead, canOpenWrite)
    ensures IsRedirect(toks[0]) && |toks| >= 2 ==>
      (RedirectsOk(toks, isFirst, isLast, canOpenRead, canOpenWrite) <==>
       UnitOk(toks[0], toks[1], isFirst, isLast, canOpenRead, canOpenWrite) &&
       RedirectsOk(toks[2..], isFirst, isLast, canOpenRead, canOpenWrite))
  {
    if IsRedirect(toks[0]) && |toks| >= 2 {
      var rest := toks[2..];
      var mine: seq<string> := [toks[1]];
      if toks[0] == "<" {
        assert Targets(toks, "<") == mine + Targets(rest, "<");
        assert Targets(toks, ">") == Targets(rest, ">");
      } else {
        assert Targets(toks, ">") == mine + Targets(rest, ">");
        assert Targets(toks, "<") == Targets(rest, "<");
      }
    }
  }

  /** `FaultAt` seen past a first unit of `step` tokens that passes. */
  lemma FaultShift(toks: seq<string>, k: nat, step: nat, isFirst: bool, isLast: bool,
                   canOpenRead: string -> bool, canOpenWrite: string -> bool, e: ParseError)
    requires 0 < step <= k < |toks|
    requires RedirectsOk(toks[..k], isFirst, isLast, canOpenRead, canOpenWrite) <==>
             RedirectsOk(toks[step..][..k - step], isFirst, isLast, canOpenRead, canOpenWrite)
    ensures FaultAt(toks, k, isFirst, isLast, canOpenRead, canOpenWrite, e) <==>
            FaultAt(toks[step..], k - step, isFirst, isLast, canOpenRead, canOpenWrite, e)
  {
    var rest := toks[step..];
    assert rest[k - step] == toks[k];
    if k + 1 < |toks| {
      assert rest[k - step + 1] == toks[k + 1];
    }
  }

  /** The first unit of `toks[..k]` is the first unit of `toks`. */
  lemma PrefixCons(toks: seq<string>, k: nat, isFirst: bool, isLast: bool,
                   canOpenRead: string -> bool, canOpenWrite: string -> bool)
    requires 0 < k <= |toks|
    ensures !IsRedirect(toks[0]) ==>
      (RedirectsOk(toks[..k], isFirst, isLast, canOpenRead, canOpenWrite) <==>
       RedirectsOk(toks[1..][..k - 1], isFirst, isLast, canOpenRead, canOpenWrite))
    ensures IsRedirect(toks[0]) && k < 2 ==> !RedirectsOk(toks[..k], isFirst, isLast, canOpenRead, canOpenWrite)
    ensures IsRedirect(toks[0]) && k >= 2 ==>
      (RedirectsOk(toks[..k], isFirst, isLast, canOpenRead, canOpenWrite) <==>
       UnitOk(toks[0], toks[1], isFirst, isLast, canOpenRead, canOpenWrite) &&
       RedirectsOk(toks[2..][..k - 2], isFirst, isLast, canOpenRead, canOpenWrite))
  {
    var p := toks[..k];
    RedirectsOkCons(p, isFirst, isLast, canOpenRead, canOpenWrite);
    assert p[0] == toks[0];
    assert p[1..] == toks[1..][..k - 1];
    if k >= 2 {
      assert p[1] == toks[1];
      assert p[2..] == toks[2..][..k - 2];
    }
  }

  /** A failing token loop fails at a redirection: the first one that does not pass. */
  lemma {:induction false} ScanFaultFound(toks: seq<string>, isFirst: bool, isLast: bool,
                                          canOpenRead: string -> bool, canOpenWrite: string -> bool, cmd: Command)
    requires ScanTokens(toks, isFirst, isLast, canOpenRead, canOpenWrite, cmd).Failure?
    ensures exists k: nat :: FaultAt(toks, k, isFirst, isLast, canOpenRead, canOpenWrite,
                                ScanTokens(toks, isFirst, isLast, canOpenRead, canOpenWrite, cmd).error)
    decreases |toks|
  {
    var e := ScanTokens(toks, isFirst, isLast, canOpenRead, canOpenWrite, cmd).error;
    var head := IsRedirect(toks[0]) && |toks| >= 2 && UnitOk(toks[0], toks[1], isFirst, isLast, canOpenRead, canOpenWrite);
    if IsRedirect(toks[0]) && !head {
      assert toks[..0] == [];
      assert FaultAt(toks, 0, isFirst, isLast, canOpenRead, canOpenWrite, e);
    } else {
      var step: nat := if IsRedirect(toks[0]) then 2 else 1;
      var cmd' := if toks[0] == "<" then cmd.(input := Some(toks[1]))
                  else if toks[0] == ">" then cmd.(output := Some(toks[1]))
                  else cmd.(args := cmd.args + [toks[0]]);
      assert ScanTokens(toks, isFirst, isLast, canOpenRead, canOpenWrite, cmd)
          == ScanTokens(toks[step..], isFirst, isLast, canOpenRead, canOpenWrite, cmd');
      ScanFaultFound(toks[step..], isFirst, isLast, canOpenRead, canOpenWrite, cmd');
      var j: nat :| FaultAt(toks[step..], j, isFirst, isLast, canOpenRead, canOpenWrite, e);
      PrefixCons(toks, j + step, isFirst, isLast, canOpenRead, canOpenWrite);
      FaultShift(toks, j + step, step, isFirst, isLast, canOpenRead, canOpenWrite, e);
    }
  }

  /** A redirection at which `FaultAt` holds stops the token loop with that error. */
  lemma {:induction false} ScanFaultStops(toks: seq<string>, k: nat, isFirst: bool, isLast: bool,
                                          canOpenRead: string -> bool, canOpenWrite: string -> bool,
                                          cmd: Command, e: ParseError)
    requires FaultAt(toks, k, isFirst, isLast, canOpenRead, canOpenWrite, e)
    ensures ScanTokens(toks, isFirst, isLast, canOpenRead, canOpenWrite, cmd) == Failure(e)
    decreases k
  {
    if k > 0 {
      PrefixCons(toks, k, isFirst, isLast, canOpenRead, canOpenWrite);
      var step: nat := if IsRedirect(toks[0]) then 2 else 1;
      assert step <= k;
      var cmd' := if toks[0] == "<" then cmd.(input := Some(toks[1]))
                  else if toks[0] == ">" then cmd.(output := Some(toks[1]))
                  else cmd.(args := cmd.args + [toks[0]]);
      assert ScanTokens(toks, isFirst, isLast, canOpenRead, canOpenWrite, cmd)
          == ScanTokens(toks[step..], isFirst, isLast, canOpenRead, canOpenWrite, cmd');
      FaultShift(toks, k, step, isFirst, isLast, canOpenRead, canOpenWrite, e);
      ScanFaultStops(toks[step..], k - step, isFirst, isLast, canOpenRead, canOpenWrite, cmd', e);
    }
  }

  /**
   * The token loop fails with `e` exactly when some redirection is the
   * first one that does not pass, and `e` names how it fails: on the wrong
   * stage, without a target, or with a target that cannot be opened.
   */
  lemma ScanFailsIff(toks: seq<string>, isFirst: bool, isLast: bool,
                     canOpenRead: string -> bool, canOpenWrite: string -> bool, cmd: Command, e: ParseError)
    ensures ScanTokens(toks, isFirst, isLast, canOpenRead, canOpenWrite, cmd) == Failure(e) <==>
            exists k: nat :: FaultAt(toks, k, isFirst, isLast, canOpenRead, canOpenWrite, e)
  {
    if ScanTokens(toks, isFirst, isLast, canOpenRead, canOpenWrite, cmd) == Failure(e) {
      ScanFaultFound(toks, isFirst, isLast, canOpenRead, canOpenWrite, cmd);
    }
    if exists k: nat :: FaultAt(toks, k, isFirst, isLast, canOpenRead, canOpenWrite, e) {
      var k: nat :| FaultAt(toks, k, isFirst, isLast, canOpenRead, canOpenWrite, e);
      ScanFaultStops(toks, k, isFirst, isLast, canOpenRead, canOpenWrite, cmd, e);
    }
  }

  /** The tokens of a segment once its trailing whitespace is cut. */
  function SegmentTokens(segment: string): seq<string>
  {
    Tokens(Trimmed(segment), ' ')
  }

  /**
   * A segment is accepted exactly when it starts with neither `<` nor `>`,
   * its redirections are well placed and openable, and it has at most
   * `MAX_ARGS_PER_CMD` plain arguments (so exactly that many is accepted).
   */
  lemma StageAcceptedIff(segment: string, i: nat, n: nat, background: bool,
                         canOpenRead: string -> bool, canOpenWrite: string -> bool)
    requires i < n
    ensures ParseSegment(segment, i, n, background, canOpenRead, canOpenWrite).Success? <==>
      var text := Trimmed(segment);
      var toks := SegmentTokens(segment);
      && |text| > 0 && text[0] != '<' && text[0] != '>'
      && TargetsPresent(toks)
      && (Targets(toks, "<") != [] ==> i == 0)
      && (Targets(toks, ">") != [] ==> i == n - 1)
      && (forall t :: t in Targets(toks, "<") ==> canOpenRead(t))
      && (forall t :: t in Targets(toks, ">") ==> canOpenWrite(t))
      && |PlainArgs(toks)| <= MAX_ARGS_PER_CMD
  {
    var text := Trimmed(segment);
    var toks := SegmentTokens(segment);
    var start := Command([], None, None, background && i == n - 1);
    ScanSucceedsIff(toks, i == 0, i == n - 1, canOpenRead, canOpenWrite, start);
    var r := ScanTokens(toks, i == 0, i == n - 1, canOpenRead, canOpenWrite, start);
    if r.Success? {
      ScanResult(toks, i == 0, i == n - 1, canOpenRead, canOpenWrite, start, r.value);
    }
  }

  /**
   * An accepted stage: its arguments are the segment's plain tokens in order,
   * its redirections are the last targets given and passed their probes,
   * input only on the first stage, output only on the last, and the
   * background flag only on the last stage of a background line.
   */
  lemma StageShape(segment: string, i: nat, n: nat, background: bool,
                   canOpenRead: string -> bool, canOpenWrite: string -> bool, cmd: Command)
    requires i < n
    requires ParseSegment(segment, i, n, background, canOpenRead, canOpenWrite) == Success(cmd)
    ensures cmd.args == PlainArgs(SegmentTokens(segment))
    ensures |cmd.args| <= MAX_ARGS_PER_CMD
    ensures cmd.input == LastOr(Targets(SegmentTokens(segment), "<"), None)
    ensures cmd.output == LastOr(Targets(SegmentTokens(segment), ">"), None)
    ensures cmd.input.Some? ==> i == 0 && canOpenRead(cmd.input.value)
    ensures cmd.output.Some? ==> i == n - 1 && canOpenWrite(cmd.output.value)
    ensures cmd.background == (background && i == n - 1)
  {
    var toks := SegmentTokens(segment);
    var start := Command([], None, None, background && i == n - 1);
    ScanSucceedsIff(toks, i == 0, i == n - 1, canOpenRead, canOpenWrite, start);
    ScanResult(toks, i == 0, i == n - 1, canOpenRead, canOpenWrite, start, cmd);
  }

  /**
   * Which error a rejected segment reports: a missing command when its
   * trimmed text is empty or starts with `<` or `>`; otherwise the error of
   * the first redirection that does not pass; otherwise, when all pass,
   * too many arguments when there are more than `MAX_ARGS_PER_CMD`.
   */
  lemma StageFailsWith(segment: string, i: nat, n: nat, background: bool,
                       canOpenRead: string -> bool, canOpenWrite: string -> bool, e: ParseError)
    requires i < n
    ensures ParseSegment(segment, i, n, background, canOpenRead, canOpenWrite) == Failure(e) <==>
      var text := Trimmed(segment);
      var toks := SegmentTokens(segment);
      if |text| == 0 || text[0] == '<' || text[0] == '>' then e == MissingCommand
      else
        || HasFault(toks, i == 0, i == n - 1, canOpenRead, canOpenWrite, e)
        || (&& e == TooManyArguments
            && RedirectsOk(toks, i == 0, i == n - 1, canOpenRead, canOpenWrite)
            && |PlainArgs(toks)| > MAX_ARGS_PER_CMD)
  {
    var text := Trimmed(segment);
    if !(|text| == 0 || text[0] == '<' || text[0] == '>') {
      var toks := SegmentTokens(segment);
      var start := Command([], None, None, background && i == n - 1);
      var r := ScanTokens(toks, i == 0, i == n - 1, canOpenRead, canOpenWrite, start);
      ScanFailsIff(toks, i == 0, i == n - 1, canOpenRead, canOpenWrite, start, e);
      ScanSucceedsIff(toks, i == 0, i == n - 1, canOpenRead, canOpenWrite, start);
      if r.Success? {
        ScanResult(toks, i == 0, i == n - 1, canOpenRead, canOpenWrite, start, r.value);
      }
    }
  }

  /**
   * A segment reports too many arguments exactly when it passes the
   * first-character check and every redirection passes, but it has more
   * than `MAX_ARGS_PER_CMD` plain arguments; the token loop itself never
   * reports it.
   */
  lemma TooManyArgumentsIff(segment: string, i: nat, n: nat, background: bool,
                            canOpenRead: string -> bool, canOpenWrite: string -> bool)
    requires i < n
    ensures ParseSegment(segment, i, n, background, canOpenRead, canOpenWrite) == Failure(TooManyArguments) <==>
      var text := Trimmed(segment);
      var toks := SegmentTokens(segment);
      && |text| > 0 && text[0] != '<' && text[0] != '>'
      && ScanTokens(toks, i == 0, i == n - 1, canOpenRead, canOpenWrite,
                    Command([], None, None, background && i == n - 1)).Success?
      && |PlainArgs(toks)| > MAX_ARGS_PER_CMD
  {
    var toks := SegmentTokens(segment);
    StageFailsWith(segment, i, n, background, canOpenRead, canOpenWrite, TooManyArguments);
    ScanSucceedsIff(toks, i == 0, i == n - 1, canOpenRead, canOpenWrite,
                    Command([], None, None, background && i == n - 1));
  }

  /** The loop succeeds exactly when every remaining result is a success, and then yields their values in order. */
  lemma {:induction false} CollectSucceeds<T, E>(results: seq<Result<T, E>>, i: nat, acc: seq<T>)
    requires i <= |results|
    ensures var r := Collect(results, i, acc);
      && (r.Success? <==> forall k :: i <= k < |results| ==> results[k].Success?)
      && (r.Success? ==>
            && |r.value| == |acc| + |results| - i
            && r.value[..|acc|] == acc
            && forall k :: i <= k < |results| ==> results[k] == Success(r.value[|acc| + k - i]))
    decreases |results| - i
  {
    if i < |results| && results[i].Success? {
      var acc' := acc + [results[i].value];
      CollectSucceeds(results, i + 1, acc');
      var r := Collect(results, i + 1, acc');
      if r.Success? {
        assert r.value[..|acc|] == r.value[..|acc'|][..|acc|];
        assert r.value[|acc|] == acc'[|acc|];
      }
    }
  }

  /** When the loop fails, its error is that of the first failing result. */
  lemma {:induction false} CollectFirstFailure<T, E>(results: seq<Result<T, E>>, i: nat, acc: seq<T>)
    requires i <= |results|
    requires Collect(results, i, acc).Failure?
    ensures exists k :: && i <= k < |results|
                        && results[k] == Failure(Collect(results, i, acc).error)
                        && forall m :: i <= m < k ==> results[m].Success?
    decreases |results| - i
  {
    if results[i].Success? {
      CollectFirstFailure(results, i + 1, acc + [results[i].value]);
    } else {
      assert results[i] == Failure(Collect(results, i, acc).error);
    }
  }

  /** A line whose body is non-empty and starts with a character other than `|` has at least one segment. */
  lemma SegmentsNonEmpty(body: string)
    requires |body| > 0 && body[0] != '|'
    ensures |Segments(body)| >= 1
  {
    var k := RunEnd(body, '|');
    assert Tokens(body, '|') == [body[..k]] + Tokens(body[k..], '|');
  }

  /**
   * The checks on the whole line, in the order they apply: a bare `&` is a
   * missing command; an `&` anywhere but last is mislocated; a `|` first or
   * last is a missing command; otherwise the segments decide.
   */
  lemma LineChecks(line: string, canOpenRead: string -> bool, canOpenWrite: string -> bool)
    requires |line| > 0
    ensures var body := Body(line);
            var r := Parse(line, canOpenRead, canOpenWrite);
      && (|body| == 0 <==> IsBackground(line) && Trimmed(Trimmed(line)[..|Trimmed(line)| - 1]) == [])
      && (|body| == 0 ==> r == Failure(MissingCommand))
      && (|body| > 0 && '&' in body[..|body| - 1] ==> r == Failure(MislocatedBackground))
      && ((|body| > 0 && '&' !in body[..|body| - 1] && (body[0] == '|' || body[|body| - 1] == '|'))
            ==> r == Failure(MissingCommand))
  {
  }

  /**
   * An accepted line: between one and `MAX_COMMANDS` stages, one per
   * segment kept, each shaped as `StageShape` says.
   */
  lemma ParsedPipeline(line: string, canOpenRead: string -> bool, canOpenWrite: string -> bool, cmds: seq<Command>)
    requires |line| > 0
    requires Parse(line, canOpenRead, canOpenWrite) == Success(cmds)
    ensures var body := Body(line);
      && |body| > 0 && body[0] != '|' && body[|body| - 1] != '|' && '&' !in body[..|body| - 1]
      && |cmds| == |Segments(body)|
      && 1 <= |cmds| <= MAX_COMMANDS
      && forall k :: 0 <= k < |cmds| ==>
           Stages(Segments(body), IsBackground(line), canOpenRead, canOpenWrite)[k] == Success(cmds[k])
  {
    var body := Body(line);
    var stages := Stages(Segments(body), IsBackground(line), canOpenRead, canOpenWrite);
    SegmentsNonEmpty(body);
    assert Parse(line, canOpenRead, canOpenWrite) == Collect(stages, 0, []);
    CollectSucceeds(stages, 0, []);
  }

  /** A line is accepted exactly when it passes the line checks and each kept segment is accepted. */
  lemma PipelineAcceptedIff(line: string, canOpenRead: string -> bool, canOpenWrite: string -> bool)
    requires |line| > 0
    ensures Parse(line, canOpenRead, canOpenWrite).Success? <==>
      var body := Body(line);
      var segs := Segments(body);
      && |body| > 0 && '&' !in body[..|body| - 1] && body[0] != '|' && body[|body| - 1] != '|'
      && forall k :: 0 <= k < |segs| ==>
           Stages(segs, IsBackground(line), canOpenRead, canOpenWrite)[k].Success?
  {
    var body := Body(line);
    var stages := Stages(Segments(body), IsBackground(line), canOpenRead, canOpenWrite);
    if |body| > 0 && '&' !in body[..|body| - 1] && body[0] != '|' && body[|body| - 1] != '|' {
      assert Parse(line, canOpenRead, canOpenWrite) == Collect(stages, 0, []);
      CollectSucceeds(stages, 0, []);
    }
  }

  /** A line that passes the line checks but is rejected fails with the error of its first rejected stage. */
  lemma PipelineFirstFailure(line: string, canOpenRead: string -> bool, canOpenWrite: string -> bool, e: ParseError)
    requires |line| > 0
    requires var body := Body(line);
      |body| > 0 && '&' !in body[..|body| - 1] && body[0] != '|' && body[|body| - 1] != '|'
    requires Parse(line, canOpenRead, canOpenWrite) == Failure(e)
    ensures var stages := Stages(Segments(Body(line)), IsBackground(line), canOpenRead, canOpenWrite);
      exists k :: && 0 <= k < |stages|
                  && stages[k] == Failure(e)
                  && forall m :: 0 <= m < k ==> stages[m].Success?
  {
    var stages := Stages(Segments(Body(line)), IsBackground(line), canOpenRead, canOpenWrite);
    assert Parse(line, canOpenRead, canOpenWrite) == Collect(stages, 0, []);
    CollectFirstFailure(stages, 0, []);
  }

  lemma DoubleAmpersandBody()
    ensures IsBackground("ls &&") && Body("ls &&") == "ls &"
    ensures Segments("ls &") == ["ls &"]
  {
    assert Trimmed("ls &&") == "ls &&";
    assert Trimmed("ls &") == "ls &";
    TokensOfUndelimited("ls &", '|');
  }

  lemma DoubleAmpersandTokens()
    ensures Tokens("ls &", ' ') == ["ls", "&"]
  {
    var body := "ls &";
    assert body[0..] == body && body[0..2] == "ls" && body[3..] == "&";
    TokensTakeRun(body, ' ', 0, 2);
    TokensSkipDelimiter(body, ' ', 2);
    TokensOfUndelimited("&", ' ');
  }

  lemma DoubleAmpersandScan(canOpenRead: string -> bool, canOpenWrite: string -> bool)
    ensures ScanTokens(["ls", "&"], true, true, canOpenRead, canOpenWrite, Command([], None, None, true))
         == Success(Command(["ls", "&"], None, None, true))
  {
    var cmd := Command(["ls", "&"], None, None, true);
    var c0 := Command([], None, None, true);
    var c1 := c0.(args := c0.args + ["ls"]);
    assert ["ls", "&"][1..] == ["&"] && ["&"][1..] == [];
    assert "ls" != "<" && "ls" != ">" && "&" != "<" && "&" != ">";
    assert ScanTokens(["ls", "&"], true, true, canOpenRead, canOpenWrite, c0)
        == ScanTokens(["&"], true, true, canOpenRead, canOpenWrite, c1);
    assert c1.(args := c1.args + ["&"]) == cmd;
  }

  lemma DoubleAmpersandStage(canOpenRead: string -> bool, canOpenWrite: string -> bool)
    ensures ParseSegment("ls &", 0, 1, true, canOpenRead, canOpenWrite) == Success(Command(["ls", "&"], None, None, true))
  {
    assert Trimmed("ls &") == "ls &";
    DoubleAmpersandTokens();
    DoubleAmpersandScan(canOpenRead, canOpenWrite);
  }

  /** Only the first `&` matters: in `ls &&` the final one marks the background and the other is an argument. */
  lemma DoubleAmpersandExample(canOpenRead: string -> bool, canOpenWrite: string -> bool)
    ensures Parse("ls &&", canOpenRead, canOpenWrite) == Success([Command(["ls", "&"], None, None, true)])
  {
    var body := "ls &";
    var cmd := Command(["ls", "&"], None, None, true);
    DoubleAmpersandBody();
    DoubleAmpersandStage(canOpenRead, canOpenWrite);
    var stages := Stages([body], true, canOpenRead, canOpenWrite);
    assert stages == [Success(cmd)];
    assert Collect(stages, 1, [cmd]) == Success([cmd]);
    assert Collect(stages, 0, []) == Success([cmd]) by {
      assert [] + [cmd] == [cmd];
    }
    assert '&' !in body[..|body| - 1] by {
      assert body[..|body| - 1] == "ls ";
    }
    assert Parse("ls &&", canOpenRead, canOpenWrite) == Collect(stages, 0, []);
  }

  /**
   * A line of spaces only is not a missing command: trimming leaves it as it
   * is, so it is accepted as one stage with no arguments at all.
   */
  lemma BlankLineAccepted(line: string, canOpenRead: string -> bool, canOpenWrite: string -> bool)
    requires |line| > 0 && forall j :: 0 <= j < |line| ==> line[j] == ' '
    ensures Parse(line, canOpenRead, canOpenWrite) == Success([Command([], None, None, false)])
  {
    assert Trimmed(line) == line;
    assert !IsBackground(line) && Body(line) == line;
    assert '&' !in line[..|line| - 1];
    TokensOfUndelimited(line, '|');
    assert Segments(line) == [line];
    TokensOfDelimiters(line, ' ');
    var cmd := Command([], None, None, false);
    assert ParseSegment(line, 0, 1, false, canOpenRead, canOpenWrite) == Success(cmd);
    var stages := Stages([line], false, canOpenRead, canOpenWrite);
    assert stages == [Success(cmd)];
    assert Collect(stages, 1, [cmd]) == Success([cmd]);
    assert Collect(stages, 0, []) == Success([cmd]) by {
      assert [] + [cmd] == [cmd];
    }
  }
}
