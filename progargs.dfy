/** Command-line configuration: the operation names and the order of the
    checks `parse_arguments` makes. Printing the help text and `std::exit`
    become an error result; `std::filesystem::exists` is a parameter. */
module ProgArgs {
  import opened Results

  datatype Subcommand = Copy | Histo | Mono | Gauss | Info

  /** The name under which each subcommand appears in the lookup table. */
  function Name(c: Subcommand): string
  {
    match c
    case Copy => "copy"
    case Histo => "histo"
    case Mono => "mono"
    case Gauss => "gauss"
    case Info => "info"
  }

  const SubcommandMap: map<string, Subcommand> :=
    map["copy" := Copy, "histo" := Histo, "mono" := Mono, "gauss" := Gauss, "info" := Info]

  /** `to_subcommand`: a lookup in the table of names; any other string is
      `std::nullopt`. */
  function ToSubcommand(s: string): (r: Option<Subcommand>)
    ensures r.Some? ==> Name(r.value) == s
    ensures r.None? ==> forall c: Subcommand :: Name(c) != s
  {
    if s in SubcommandMap then Some(SubcommandMap[s]) else None
  }

  /** The lookup and the names are inverse: a string maps to a subcommand
      exactly when it is that subcommand's name. So the five names map to five
      distinct subcommands and no other string maps to any. */
  lemma {:induction false} ToSubcommandNames(s: string, c: Subcommand)
    ensures ToSubcommand(s) == Some(c) <==> s == Name(c)
  {
    if s == Name(c) {
      assert s in SubcommandMap;
    }
  }

  lemma ToSubcommandExamples()
    ensures ToSubcommand("copy") == Some(Copy) && ToSubcommand("histo") == Some(Histo)
    ensures ToSubcommand("mono") == Some(Mono) && ToSubcommand("gauss") == Some(Gauss)
    ensures ToSubcommand("info") == Some(Info)
    ensures ToSubcommand("error") == None
  {
    assert "error" !in SubcommandMap.Keys;
  }

  datatype Configuration = Configuration(inputDir: string, outputDir: string, subcmd: Subcommand)

  /** What `parse_arguments` reports before it exits the program. */
  datatype ArgumentError = WrongFormat | InputMissing | OutputMissing | UnexpectedOperation

  type PathExists = string -> bool

  /** `parse_arguments` over the program's argument vector (the program name
      first). The checks run in a fixed order and the first that fails
      decides the error: argument count, input path, output path, operation. */
  function ParseArguments(args: seq<string>, pathExists: PathExists): (r: Result<Configuration, ArgumentError>)
    ensures r == Failure(WrongFormat) <==> |args| != 4
    ensures r == Failure(InputMissing) <==> |args| == 4 && !pathExists(args[1])
    ensures r == Failure(OutputMissing) <==> |args| == 4 && pathExists(args[1]) && !pathExists(args[2])
    ensures r == Failure(UnexpectedOperation) <==>
              |args| == 4 && pathExists(args[1]) && pathExists(args[2]) && ToSubcommand(args[3]) == None
    ensures r.Success? ==> |args| == 4 && ToSubcommand(args[3]) == Some(r.value.subcmd)
                           && r.value.inputDir == args[1] && r.value.outputDir == args[2]
  {
    if |args| != 4 then Failure(WrongFormat)
    else if !pathExists(args[1]) then Failure(InputMissing)
    else if !pathExists(args[2]) then Failure(OutputMissing)
    else
      match ToSubcommand(args[3])
      case None => Failure(UnexpectedOperation)
      case Some(c) => Success(Configuration(args[1], args[2], c))
  }

  /** The cases of the unit tests, with the directories "in" and "out"
      present and every other path absent. */
  lemma ParseArgumentsExamples(pathExists: PathExists)
    requires pathExists("in") && pathExists("out") && !pathExists("unknown")
    ensures ParseArguments(["img", "in", "out"], pathExists) == Failure(WrongFormat)
    ensures ParseArguments(["img", "unknown", "out", "copy"], pathExists) == Failure(InputMissing)
    ensures ParseArguments(["img", "in", "unknown", "copy"], pathExists) == Failure(OutputMissing)
    ensures ParseArguments(["img", "in", "out", "unknown"], pathExists) == Failure(UnexpectedOperation)
    ensures ParseArguments(["img", "in", "out", "copy"], pathExists) == Success(Configuration("in", "out", Copy))
  {
    ToSubcommandExamples();
    assert ToSubcommand("unknown") == None by {
      assert "unknown" !in SubcommandMap.Keys;
    }
  }
}
