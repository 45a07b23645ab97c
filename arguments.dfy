// How the command line selects what the program does.

module Arguments {

  const TOO_MANY_ARGS_CODE := -1
  const TOO_FEW_ARGS_CODE := 0
  const WRONG_ARGUMENT_CODE := 10

  const HELP_ARGUMENT_CODE := 1
  const TEST_ARGUMENT_CODE := 2
  const HLINE_ARGUMENT_CODE := 3
  const VLINE_ARGUMENT_CODE := 4
  const SQUARE_ARGUMENT_CODE := 5

  /** The codes of the five commands the program knows. */
  predicate IsCommandCode(code: int)
  {
    HELP_ARGUMENT_CODE <= code <= SQUARE_ARGUMENT_CODE
  }

  /** The argument that selects each command. */
  function CommandName(code: int): (name: string)
    requires IsCommandCode(code)
    ensures |name| > 0
  {
    if code == HELP_ARGUMENT_CODE then "--help"
    else if code == TEST_ARGUMENT_CODE then "test"
    else if code == HLINE_ARGUMENT_CODE then "hline"
    else if code == VLINE_ARGUMENT_CODE then "vline"
    else "square"
  }

  /** Some command is selected by `arg`. */
  ghost predicate IsCommandName(arg: string)
  {
    exists code :: IsCommandCode(code) && CommandName(code) == arg
  }

  /**
   * The run type for `argc` arguments (the program name included): one
   * argument is too few, exactly two select a command by name or are a
   * wrong argument, and every other count (zero as well) is too many.
   */
  function ProgramStartType(argc: int, argv: seq<string>): (code: int)
    requires |argv| == argc
    ensures code == TOO_FEW_ARGS_CODE <==> argc == 1
    ensures code == TOO_MANY_ARGS_CODE <==> argc != 1 && argc != 2
    ensures argc == 2 ==> (code == WRONG_ARGUMENT_CODE <==> !IsCommandName(argv[1]))
    ensures argc == 2 && IsCommandName(argv[1]) ==>
      IsCommandCode(code) && CommandName(code) == argv[1]
  {
    if argc == 1 then TOO_FEW_ARGS_CODE
    else if argc == 2 then ArgumentCode(argv[1])
    else TOO_MANY_ARGS_CODE
  }

  /** The code a single argument selects: a command by its name, otherwise the wrong-argument code. */
  function ArgumentCode(arg: string): (code: int)
    ensures code == WRONG_ARGUMENT_CODE <==> !IsCommandName(arg)
    ensures code != WRONG_ARGUMENT_CODE ==> IsCommandCode(code) && CommandName(code) == arg
  {
    CommandNames(arg);
    if arg == "--help" then HELP_ARGUMENT_CODE
    else if arg == "test" then TEST_ARGUMENT_CODE
    else if arg == "hline" then HLINE_ARGUMENT_CODE
    else if arg == "vline" then VLINE_ARGUMENT_CODE
    else if arg == "square" then SQUARE_ARGUMENT_CODE
    else WRONG_ARGUMENT_CODE
  }

  /** The names that select a command are exactly these five. */
  lemma CommandNames(arg: string)
    ensures IsCommandName(arg) <==>
      arg == "--help" || arg == "test" || arg == "hline" || arg == "vline" || arg == "square"
  {
    if IsCommandName(arg) {
      var k :| IsCommandCode(k) && CommandName(k) == arg;
      assert k == 1 || k == 2 || k == 3 || k == 4 || k == 5;
    } else {
      assert CommandName(HELP_ARGUMENT_CODE) == "--help" && CommandName(TEST_ARGUMENT_CODE) == "test" &&
        CommandName(HLINE_ARGUMENT_CODE) == "hline" && CommandName(VLINE_ARGUMENT_CODE) == "vline" &&
        CommandName(SQUARE_ARGUMENT_CODE) == "square";
    }
  }

  /** The five names are distinct, so each command has exactly one name. */
  lemma CommandNameInjective(a: int, b: int)
    requires IsCommandCode(a) && IsCommandCode(b)
    ensures CommandName(a) == CommandName(b) <==> a == b
  {
  }

  /** Naming a command as the one argument selects exactly that command. */
  lemma SelectsNamedCommand(program: string, code: int)
    requires IsCommandCode(code)
    ensures ProgramStartType(2, [program, CommandName(code)]) == code
  {
    var c := ProgramStartType(2, [program, CommandName(code)]);
    assert IsCommandName(CommandName(code));
    CommandNameInjective(c, code);
  }
}
