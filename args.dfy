/** `process_args`: what the command line asks for. The source prints and
    calls `sys.exit(0)` for the management commands; here those outcomes
    are an `Action`, and the global `verbose_flag` and `m5_flag` travel in
    the `Lookup` action. */
module Args {
  import opened Records
  import opened Search

  datatype Action =
    | Usage                                          // print USAGE_STRING, exit 0
    | Install                                        // install(), exit 0
    | Uninstall                                      // uninstall(), exit 0
    | ChangeDir                                      // print the program's directory, exit 0
    | Abort                                          // `sys.argv[1][0]` on an empty argument raises IndexError
    | Lookup(word: string, verbose: bool, m5: bool)  // go on to look `word` up

  /** `CONTROL_COMMAND_SET`: allowed as the first argument. */
  predicate IsControl(a: string) {
    a == "--install" || a == "--uninstall" || a == "--cd"
  }

  /** The arguments that end argument processing. */
  predicate Decides(a: string) {
    a == "-h" || a == "--help" || IsControl(a)
  }

  function Decision(a: string): Action
    requires Decides(a)
  {
    if a == "--install" then Install
    else if a == "--uninstall" then Uninstall
    else if a == "--cd" then ChangeDir
    else Usage
  }

  /** The first argument neither introduces an unknown option nor is empty,
      so the loop over `argv` is reached. */
  predicate PassesGuards(argv: seq<string>) {
    |argv| >= 2 && argv[1] != "" && (argv[1][0] != '-' || IsControl(argv[1]))
  }

  predicate AsksVerbose(argv: seq<string>) {
    "-v" in argv || "--verbose" in argv
  }

  /** Everything `process_args` decides about a command line. */
  predicate Dispatched(argv: seq<string>, act: Action) {
    (|argv| < 2 ==> act == Usage) &&
    (|argv| >= 2 && argv[1] == "" ==> act == Abort) &&
    (|argv| >= 2 && argv[1] != "" && argv[1][0] == '-' && !IsControl(argv[1]) ==> act == Usage) &&
    (PassesGuards(argv) ==>
      act == match FirstIndex(argv, Decides)
             case Some(k) => Decision(argv[k])
             case None => Lookup(argv[1], AsksVerbose(argv), "-m5" in argv))
  }

  /** The rules leave no choice: every command line gets exactly one action. */
  lemma DispatchIsDeterministic(argv: seq<string>, a: Action, b: Action)
    requires Dispatched(argv, a) && Dispatched(argv, b)
    ensures a == b
  {
  }

  /** The two guards, then one pass over `argv` (the program name included)
      in which the flags are recorded and the first deciding argument ends
      the processing. */
  method ProcessArgs(argv: seq<string>) returns (act: Action)
    ensures Dispatched(argv, act)
  {
    if |argv| < 2 {
      return Usage;
    }
    if argv[1] == "" {
      return Abort;
    }
    if argv[1][0] == '-' && !IsControl(argv[1]) {
      return Usage;
    }
    var verbose, m5 := false, false;
    var i := 0;
    while i < |argv|
      invariant 0 <= i <= |argv|
      invariant forall j :: 0 <= j < i ==> !Decides(argv[j])
      invariant verbose <==> "-v" in argv[..i] || "--verbose" in argv[..i]
      invariant m5 <==> "-m5" in argv[..i]
    {
      var arg := argv[i];
      assert argv[..i + 1] == argv[..i] + [arg];
      if arg == "-v" || arg == "--verbose" {
        verbose := true;
      } else if arg == "-m5" {
        m5 := true;
      } else if arg == "-h" || arg == "--help" {
        return Usage;
      } else if arg == "--install" {
        return Install;
      } else if arg == "--uninstall" {
        return Uninstall;
      } else if arg == "--cd" {
        return ChangeDir;
      }
      i := i + 1;
    }
    assert argv[..i] == argv;
    act := Lookup(argv[1], verbose, m5);
  }

  /** A word that reaches the lookup never looks like an option, and no
      argument anywhere on the line is a management command or help. */
  lemma LookupWordIsPlain(argv: seq<string>)
    requires PassesGuards(argv) && FirstIndex(argv, Decides).None?
    ensures argv[1][0] != '-'
    ensures forall j :: 0 <= j < |argv| ==> !Decides(argv[j])
  {
    assert !Decides(argv[1]);
  }

  /** Order matters: whichever deciding argument comes first wins,
      whatever follows it. */
  lemma FirstDecidingArgumentWins(argv: seq<string>, k: nat)
    requires k < |argv| && Decides(argv[k])
    requires forall j :: 0 <= j < k ==> !Decides(argv[j])
    ensures FirstIndex(argv, Decides) == Some(k)
  {
  }
}
