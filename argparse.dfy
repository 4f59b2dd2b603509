/** xdd's command-line parser, `parse_args`: a two-state machine over the arguments
    after the program name. `-c N` sets the number of columns, `-h` asks for help,
    any other token is the input file name. */
module ArgParse {
  import opened CType
  import opened StrConv

  /** The size of the row buffer, and so the widest row. */
  const MaxCols: nat := 256
  const DefaultColumns: nat := 16

  datatype Option<T> = None | Some(value: T)

  /** `struct Args`: no file name means standard input. */
  datatype Args = Args(filename: Option<CString>, columns: nat)

  /** `enum ArgOption`: whether the previous token was an option awaiting its value. */
  datatype ArgOption = OptNone | OptColumns

  /** The diagnostics `parse_args` writes to standard error before returning 1. */
  datatype ParseError =
    | EmptyOption                  // a bare `-`
    | UnknownOption(letter: char)  // `-x` for a letter other than `c` and `h`
    | NotAnInteger(token: CString) // the value of `-c` is not wholly a number
    | ColumnsOutOfRange(value: int)
    | TooManyArguments             // a second file name
    | MissingValue(option: CString) // `-c` ends the argument list

  /** The three results of `parse_args`: 0 with the arguments filled in, -1 for
      help, 1 for an error. */
  datatype Outcome = Ok(args: Args) | Help | Err(error: ParseError)

  /** The integer `parse_args` returns for an outcome. */
  function ReturnCode(outcome: Outcome): (code: int)
    ensures code == 0 <==> outcome.Ok?
    ensures code < 0 <==> outcome.Help?
    ensures code > 0 <==> outcome.Err?
  {
    match outcome
    case Ok(_) => 0
    case Help => -1
    case Err(_) => 1
  }

  /** The parser's state between two tokens: still running with `prev_opt` and the
      `Args` built so far, or already returned. */
  datatype Progress = Running(prev: ArgOption, args: Args) | Stopped(outcome: Outcome)

  const Initial: Progress := Running(OptNone, Args(None, DefaultColumns))

  /** A token that starts with `-`; only the character after the dash is examined. */
  predicate IsFlag(token: CString) {
    |token| > 0 && token[0] == '-'
  }

  /** A flag whose first letter is `letter`, such as `-c` or `-cfoo`. */
  predicate IsFlagFor(token: CString, letter: char) {
    |token| > 1 && token[0] == '-' && token[1] == letter
  }

  /** One iteration of the loop of `parse_args` on the token `arg`. */
  function Step(prev: ArgOption, args: Args, arg: CString): Progress {
    if IsFlag(arg) then
      if |arg| == 1 then Stopped(Err(EmptyOption))
      else if arg[1] == 'c' then Running(OptColumns, args)
      else if arg[1] == 'h' then Stopped(Help)
      else Stopped(Err(UnknownOption(arg[1])))
    else
      match prev
      case OptColumns =>
        var conv := StrToL(arg);
        if conv.end != |arg| then Stopped(Err(NotAnInteger(arg)))
        else if conv.value > MaxCols as int || conv.value < 1 then Stopped(Err(ColumnsOutOfRange(conv.value)))
        else Running(OptNone, args.(columns := conv.value))
      case OptNone =>
        if args.filename.Some? then Stopped(Err(TooManyArguments))
        else Running(OptNone, args.(filename := Some(arg)))
  }

  /** The state after the loop has consumed `tokens`, left to right. */
  function Scan(tokens: seq<CString>): Progress {
    if tokens == [] then Initial
    else
      match Scan(tokens[..|tokens| - 1])
      case Stopped(outcome) => Stopped(outcome)
      case Running(prev, args) => Step(prev, args, tokens[|tokens| - 1])
  }

  /** `argv[1..argc]`: the arguments after the program name. */
  function Operands(argv: seq<CString>): seq<CString> {
    if |argv| == 0 then [] else argv[1..]
  }

  /** What `parse_args` returns for `argv`: the outcome of the loop, and after a
      completed loop an error if `-c` is still waiting for its value. */
  function Parse(argv: seq<CString>): (outcome: Outcome)
    ensures outcome.Ok? ==> 1 <= outcome.args.columns <= MaxCols
  {
    var tokens := Operands(argv);
    ScanInvariant(tokens);
    match Scan(tokens)
    case Stopped(outcome) => outcome
    case Running(prev, args) =>
      if prev == OptColumns then Err(MissingValue(tokens[|tokens| - 1])) else Ok(args)
  }

  /** `parse_args` itself: the loop of the source over `argv[1..]`, updating
      `prev_opt` and the fields of `args`, and returning as soon as a token decides
      the outcome. */
  method ParseArgs(argv: seq<CString>) returns (outcome: Outcome)
    ensures outcome == Parse(argv)
    ensures outcome.Ok? ==> 1 <= outcome.args.columns <= MaxCols
  {
    ghost var tokens := Operands(argv);
    var args := Args(None, DefaultColumns);
    var prevOpt := OptNone;
    var i := 1;
    while i < |argv|
      invariant 1 <= i && i - 1 <= |tokens|
      invariant Scan(tokens[..i - 1]) == Running(prevOpt, args)
    {
      var arg := argv[i];
      assert tokens[..i][..i - 1] == tokens[..i - 1] && tokens[i - 1] == arg;
      ghost var next := Step(prevOpt, args, arg);
      assert Scan(tokens[..i]) == next;
      if IsFlag(arg) {
        if |arg| == 1 {
          outcome := Err(EmptyOption);
          StoppedPrefix(tokens, i);
          return;
        }
        if arg[1] == 'c' {
          prevOpt := OptColumns;
        } else if arg[1] == 'h' {
          outcome := Help;
          StoppedPrefix(tokens, i);
          return;
        } else {
          outcome := Err(UnknownOption(arg[1]));
          StoppedPrefix(tokens, i);
          return;
        }
      } else {
        match prevOpt {
          case OptColumns =>
            var conv := StrToL(arg);
            if conv.end != |arg| {
              outcome := Err(NotAnInteger(arg));
              StoppedPrefix(tokens, i);
              return;
            }
            if conv.value > MaxCols as int || conv.value < 1 {
              outcome := Err(ColumnsOutOfRange(conv.value));
              StoppedPrefix(tokens, i);
              return;
            }
            args := args.(columns := conv.value);
          case OptNone =>
            if args.filename.Some? {
              outcome := Err(TooManyArguments);
              StoppedPrefix(tokens, i);
              return;
            }
            args := args.(filename := Some(arg));
        }
        prevOpt := OptNone;
      }
      i := i + 1;
    }
    assert tokens[..i - 1] == tokens;
    if prevOpt != OptNone {
      outcome := Err(MissingValue(argv[i - 1]));
      return;
    }
    outcome := Ok(args);
  }

  /** Once a prefix of the tokens has decided the outcome, the rest is never read. */
  lemma {:induction false} StoppedPrefix(tokens: seq<CString>, k: nat)
    requires k <= |tokens| && Scan(tokens[..k]).Stopped?
    ensures Scan(tokens) == Scan(tokens[..k])
    decreases |tokens| - k
  {
    if k < |tokens| {
      var init := tokens[..|tokens| - 1];
      assert init[..k] == tokens[..k];
      StoppedPrefix(init, k);
    } else {
      assert tokens[..k] == tokens;
    }
  }

  /** What every running state of the parser holds: the column count is in range,
      a pending `-c` was the last token, the column count other than the default
      was read from a token right after a `-c` flag, and a file name is one of the
      tokens that is not a flag. */
  lemma {:induction false} ScanInvariant(tokens: seq<CString>)
    ensures Scan(tokens).Stopped? ==> !Scan(tokens).outcome.Ok?
    ensures Scan(tokens).Running? ==> 1 <= Scan(tokens).args.columns <= MaxCols
    ensures Scan(tokens).Running? && Scan(tokens).prev == OptColumns ==>
              |tokens| > 0 && IsFlagFor(tokens[|tokens| - 1], 'c')
    ensures Scan(tokens).Running? && Scan(tokens).args.columns != DefaultColumns ==>
              exists j :: 1 <= j < |tokens| && IsFlagFor(tokens[j - 1], 'c')
                          && StrToL(tokens[j]) == Conversion(Scan(tokens).args.columns, |tokens[j]|)
    ensures Scan(tokens).Running? && Scan(tokens).args.filename.Some? ==>
              exists j :: 0 <= j < |tokens| && tokens[j] == Scan(tokens).args.filename.value
                          && !IsFlag(tokens[j])
  {
    if tokens != [] {
      var init := tokens[..|tokens| - 1];
      ScanInvariant(init);
      var last := tokens[|tokens| - 1];
      match Scan(init)
      case Stopped(_) =>
      case Running(prev, args) =>
        assert forall j :: 0 <= j < |init| ==> init[j] == tokens[j];
        if !IsFlag(last) && prev == OptColumns && Scan(tokens).Running? {
          assert IsFlagFor(tokens[|tokens| - 2], 'c');
        }
    }
  }

  /** With only the program name (or nothing at all), `parse_args` succeeds with
      standard input and 16 columns. */
  lemma ParseWithoutArguments(prog: CString)
    ensures Parse([prog]) == Ok(Args(None, DefaultColumns))
    ensures Parse([]) == Ok(Args(None, DefaultColumns))
  {
    assert Operands([prog]) == [];
  }

  /** Help and errors need at least one argument after the program name: with
      none, the loop does not run and the parse succeeds. */
  lemma OnlyArgumentsStop(argv: seq<CString>)
    requires !Parse(argv).Ok?
    ensures |argv| >= 2
  {
  }

  /** A successful parse: the columns are in [1, 256], a count other than 16 came
      from a `-c` value that converts completely, and a file name is a non-flag
      argument. */
  lemma ParseOk(argv: seq<CString>)
    requires Parse(argv).Ok?
    ensures 1 <= Parse(argv).args.columns <= MaxCols
    ensures Parse(argv).args.columns != DefaultColumns ==>
              exists j :: 2 <= j < |argv| && IsFlagFor(argv[j - 1], 'c')
                          && StrToL(argv[j]) == Conversion(Parse(argv).args.columns, |argv[j]|)
    ensures Parse(argv).args.filename.Some? ==>
              exists j :: 1 <= j < |argv| && argv[j] == Parse(argv).args.filename.value
                          && !IsFlag(argv[j])
  {
    var tokens := Operands(argv);
    ScanInvariant(tokens);
    var a := Parse(argv).args;
    assert Scan(tokens).Running? && Scan(tokens).args == a;
    if a.columns != DefaultColumns {
      var j :| 1 <= j < |tokens| && IsFlagFor(tokens[j - 1], 'c')
               && StrToL(tokens[j]) == Conversion(a.columns, |tokens[j]|);
      assert argv[j + 1] == tokens[j] && argv[j] == tokens[j - 1];
    }
    if a.filename.Some? {
      var j :| 0 <= j < |tokens| && tokens[j] == a.filename.value && !IsFlag(tokens[j]);
      assert argv[j + 1] == tokens[j];
    }
  }

  /** The tokens of `[prog] + before + [token] + after`, split at `token`. */
  lemma OperandsAround(prog: CString, before: seq<CString>, token: CString, after: seq<CString>)
    ensures var tokens := Operands([prog] + before + [token] + after);
            |tokens| > |before| && tokens[..|before|] == before && tokens[..|before| + 1] == before + [token]
            && tokens[..|before| + 1][..|before|] == before
  {
    var tokens := Operands([prog] + before + [token] + after);
    assert tokens == before + [token] + after;
  }

  /** When the state reached after `before` stops on `token`, that decides what
      `parse_args` returns, whatever arguments come after. */
  lemma {:induction false} StopDecides(prog: CString, before: seq<CString>, token: CString, after: seq<CString>)
    requires Scan(before).Running?
    requires Step(Scan(before).prev, Scan(before).args, token).Stopped?
    ensures Parse([prog] + before + [token] + after) == Step(Scan(before).prev, Scan(before).args, token).outcome
  {
    var tokens := Operands([prog] + before + [token] + after);
    OperandsAround(prog, before, token, after);
    assert Scan(tokens[..|before| + 1]).Stopped?;
    StoppedPrefix(tokens, |before| + 1);
  }

  /** `-h` (or any token `-h...`) returns help at once, provided nothing before it
      has already stopped the parse; later arguments are not looked at. */
  lemma HelpAbortsParse(prog: CString, before: seq<CString>, token: CString, after: seq<CString>)
    requires Scan(before).Running? && IsFlagFor(token, 'h')
    ensures Parse([prog] + before + [token] + after) == Help
  {
    StopDecides(prog, before, token, after);
  }

  /** A bare `-` is an error. */
  lemma BareDashFails(prog: CString, before: seq<CString>, after: seq<CString>)
    requires Scan(before).Running?
    ensures Parse([prog] + before + ["-"] + after) == Err(EmptyOption)
  {
    StopDecides(prog, before, "-", after);
  }

  /** A flag whose letter is neither `c` nor `h` is an error naming that letter. */
  lemma UnknownOptionFails(prog: CString, before: seq<CString>, token: CString, after: seq<CString>)
    requires Scan(before).Running? && IsFlag(token) && |token| > 1
    requires token[1] != 'c' && token[1] != 'h'
    ensures Parse([prog] + before + [token] + after) == Err(UnknownOption(token[1]))
  {
    StopDecides(prog, before, token, after);
  }

  /** A second file name is an error. */
  lemma SecondFilenameFails(prog: CString, before: seq<CString>, token: CString, after: seq<CString>)
    requires Scan(before).Running? && Scan(before).prev == OptNone && Scan(before).args.filename.Some?
    requires !IsFlag(token)
    ensures Parse([prog] + before + [token] + after) == Err(TooManyArguments)
  {
    StopDecides(prog, before, token, after);
  }

  /** A value for `-c` that is not wholly a number, or lies outside [1, 256], is an
      error. */
  lemma BadColumnsFails(prog: CString, before: seq<CString>, token: CString, after: seq<CString>)
    requires Scan(before).Running? && Scan(before).prev == OptColumns && !IsFlag(token)
    ensures StrToL(token).end != |token| ==>
              Parse([prog] + before + [token] + after) == Err(NotAnInteger(token))
    ensures StrToL(token).end == |token| && !(1 <= StrToL(token).value <= MaxCols) ==>
              Parse([prog] + before + [token] + after) == Err(ColumnsOutOfRange(StrToL(token).value))
  {
    var conv := StrToL(token);
    if conv.end != |token| || !(1 <= conv.value <= MaxCols) {
      StopDecides(prog, before, token, after);
    }
  }

  /** `-c` as the last argument is an error naming it. */
  lemma DanglingColumnsFails(prog: CString, before: seq<CString>, token: CString)
    requires Scan(before).Running? && IsFlagFor(token, 'c')
    ensures Parse([prog] + before + [token]) == Err(MissingValue(token))
  {
    var tokens := Operands([prog] + before + [token]);
    assert tokens == before + [token];
    assert tokens[..|tokens| - 1] == before;
  }

  /** `-c` followed by `-c` is not an error: the pending option is set again, and
      the value that follows applies. */
  lemma RepeatedColumnsFlag(before: seq<CString>, first: CString, second: CString)
    requires Scan(before).Running? && IsFlagFor(first, 'c') && IsFlagFor(second, 'c')
    ensures Scan(before + [first, second]) == Running(OptColumns, Scan(before).args)
  {
    var tokens := before + [first, second];
    assert tokens[..|tokens| - 1] == before + [first];
    assert (before + [first])[..|before|] == before;
  }

  /** A lone file name is accepted and the default width kept. */
  lemma ParseFilename(prog: CString, name: CString)
    requires !IsFlag(name)
    ensures Parse([prog, name]) == Ok(Args(Some(name), DefaultColumns))
  {
    assert Operands([prog, name]) == [name];
    assert [name][..0] == [];
    assert Scan([name]) == Running(OptNone, Args(Some(name), DefaultColumns));
  }

  /** `-c T` is accepted exactly when `T` converts completely to a number in
      [1, 256], and then that number is the column count. */
  lemma ParseColumnsToken(prog: CString, flag: CString, token: CString)
    requires IsFlagFor(flag, 'c') && !IsFlag(token)
    ensures Parse([prog, flag, token]).Ok? <==>
              StrToL(token).end == |token| && 1 <= StrToL(token).value <= MaxCols
    ensures Parse([prog, flag, token]).Ok? ==>
              Parse([prog, flag, token]) == Ok(Args(None, StrToL(token).value))
  {
    var tokens := Operands([prog, flag, token]);
    assert tokens == [flag, token];
    assert tokens[..1] == [flag] && [flag][..0] == [];
    assert Scan([flag]) == Running(OptColumns, Args(None, DefaultColumns));
    assert Scan(tokens) == Step(OptColumns, Args(None, DefaultColumns), token);
  }

  /** Every column count in [1, 256], written in decimal after `-c`, is accepted. */
  lemma ParseColumnsDecimal(prog: CString, n: nat)
    requires 1 <= n <= MaxCols
    ensures '\0' !in Decimal(n)
    ensures Parse([prog, "-c", Decimal(n)]) == Ok(Args(None, n))
  {
    StrToLOfDecimal(n);
    ParseColumnsToken(prog, "-c", Decimal(n));
  }
}
