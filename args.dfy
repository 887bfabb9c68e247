/** The argument resolver of `Config`: it turns the raw argument vector and
    the environment into the query, the file path and the ignore-case flag. */
module Args {
  import opened Text
  import opened Wrappers

  /** The resolved configuration; built once and never changed. */
  datatype Config = Config(query: string, filePath: string, ignoreCase: bool)

  /** The environment: variable names bound to their values. */
  type Environment = map<string, string>

  const NotEnoughArguments: string := "not enough arguments"
  const IgnoreCaseVariable: string := "IGNORE_CASE"
  const IgnoreCaseOptions: seq<string> := ["-i", "--ignore-case"]

  // ---------------------------------------------------------------------------
  // Classifying tokens
  // ---------------------------------------------------------------------------

  /** An option is longer than one character and starts with `-`; a lone
      `-` is positional. (The byte length and the character length are both
      above 1 exactly when a `-` is followed by something.) */
  predicate IsOption(arg: string) {
    |arg| > 1 && StartsWith(arg, "-")
  }

  /** `IsOption` in terms of the characters of `arg`. */
  lemma IsOptionChars(arg: string)
    ensures IsOption(arg) <==> |arg| >= 2 && arg[0] == '-'
  {
  }

  /** The tokens of `tokens` that are not options, in order. */
  function Positionals(tokens: seq<string>): (ps: seq<string>)
    ensures |ps| <= |tokens|
    ensures forall k :: 0 <= k < |ps| ==> !IsOption(ps[k])
    decreases |tokens|
  {
    if tokens == [] then []
    else
      var last := tokens[|tokens| - 1];
      Positionals(tokens[..|tokens| - 1]) + (if IsOption(last) then [] else [last])
  }

  /** The positionals of a concatenation are those of its parts. */
  lemma {:induction false} PositionalsAppend(a: seq<string>, b: seq<string>)
    ensures Positionals(a + b) == Positionals(a) + Positionals(b)
    decreases |b|
  {
    if b == [] {
      assert a + b == a;
    } else {
      var b' := b[..|b| - 1];
      assert (a + b)[..|a + b| - 1] == a + b';
      PositionalsAppend(a, b');
    }
  }

  /** The position of the first non-empty string of `ps`, or `|ps|`. */
  function FirstNonEmpty(ps: seq<string>): (i: nat)
    ensures i <= |ps|
    ensures forall j :: 0 <= j < i ==> ps[j] == ""
    ensures i < |ps| ==> ps[i] != ""
  {
    if ps == [] || ps[0] != "" then 0 else 1 + FirstNonEmpty(ps[1..])
  }

  // ---------------------------------------------------------------------------
  // Query and file path
  // ---------------------------------------------------------------------------

  /** What `get_query_and_file_path` returns, stated over the positional
      tokens after the program name: the query is the first NON-EMPTY one
      (an empty positional does not fill the query slot), the file path is
      the positional right after it; a missing value is "". */
  function QueryAndFilePath(args: seq<string>): (string, string)
    requires |args| >= 1
  {
    var ps := Positionals(args[1..]);
    var q := FirstNonEmpty(ps);
    (if q < |ps| then ps[q] else "", if q + 1 < |ps| then ps[q + 1] else "")
  }

  /** Scanning one more token appends it to the positionals when it is not
      an option. */
  lemma PositionalsStep(args: seq<string>, i: nat)
    requires 1 <= i < |args|
    ensures Positionals(args[1..i + 1]) ==
      Positionals(args[1..i]) + (if IsOption(args[i]) then [] else [args[i]])
  {
    assert args[1..i + 1][..i - 1] == args[1..i];
  }

  /** `FirstNonEmpty` is the only position with its three properties. */
  lemma FirstNonEmptyUnique(ps: seq<string>, i: nat)
    requires i <= |ps|
    requires forall j :: 0 <= j < i ==> ps[j] == ""
    requires i < |ps| ==> ps[i] != ""
    ensures FirstNonEmpty(ps) == i
  {
  }

  /** Once the positionals seen so far end with the query, the next
      positional `args[i]` is the file path, whatever follows it. */
  lemma FilePathFound(args: seq<string>, i: nat)
    requires 1 <= i < |args| && !IsOption(args[i])
    requires var ps := Positionals(args[1..i]);
      FirstNonEmpty(ps) + 1 == |ps|
    ensures var ps := Positionals(args[1..i]);
      QueryAndFilePath(args) == (ps[|ps| - 1], args[i])
  {
    var ps := Positionals(args[1..i]);
    var q := |ps| - 1;
    PositionalsStep(args, i);
    assert args[1..] == args[1..i + 1] + args[i + 1..];
    PositionalsAppend(args[1..i + 1], args[i + 1..]);
    var all := Positionals(args[1..]);
    assert all == ps + [args[i]] + Positionals(args[i + 1..]);
    assert all[q] == ps[q] && all[q + 1] == args[i];
    FirstNonEmptyUnique(all, q);
  }

  /** The state of the pass once it has seen the positionals `ps`: `query`
      holds the first non-empty one, if any, and no positional follows it
      yet. */
  ghost predicate QuerySoFar(ps: seq<string>, query: string) {
    var q := FirstNonEmpty(ps);
    query == (if q < |ps| then ps[q] else "") && (q < |ps| ==> |ps| == q + 1)
  }

  /** A positional seen while the query is still empty becomes the query;
      an empty one leaves the slot free. */
  lemma QueryTaken(ps: seq<string>, arg: string)
    requires QuerySoFar(ps, "")
    ensures QuerySoFar(ps + [arg], arg)
  {
    assert FirstNonEmpty(ps) == |ps|;
    FirstNonEmptyUnique(ps + [arg], if arg == "" then |ps| + 1 else |ps|);
  }

  /** `Config::get_query_and_file_path`: one pass over the arguments after
      the program name, skipping options; while the query is still empty a
      positional becomes the query, otherwise it becomes the file path and
      the pass stops. */
  method GetQueryAndFilePath(args: seq<string>) returns (query: string, filePath: string)
    requires |args| >= 1
    ensures (query, filePath) == QueryAndFilePath(args)
  {
    query, filePath := "", "";
    for i := 1 to |args|
      invariant filePath == ""
      invariant QuerySoFar(Positionals(args[1..i]), query)
    {
      var arg := args[i];
      ghost var ps := Positionals(args[1..i]);
      PositionalsStep(args, i);
      if IsOption(arg) {
        assert ps + [] == ps;
        continue;
      }
      if query == "" {
        query := arg;
        QueryTaken(ps, arg);
      } else {
        filePath := arg;
        FilePathFound(args, i);
        break;
      }
    }
    if filePath == "" {
      assert args[1..|args|] == args[1..];
    }
  }

  /** The common invocation `prog QUERY FILE ...`: a non-empty query and a
      file path in the first two places, whatever follows. */
  lemma PlainInvocation(prog: string, query: string, file: string, rest: seq<string>)
    requires !IsOption(query) && query != "" && !IsOption(file)
    ensures QueryAndFilePath([prog, query, file] + rest) == (query, file)
  {
    var args := [prog, query, file] + rest;
    assert args[1..] == [query, file] + rest;
    assert [query, file] == [query] + [file];
    PositionalsAppend([query, file], rest);
    PositionalsAppend([query], [file]);
    assert [query][..0] == [];
    assert [file][..0] == [];
    assert Positionals([query]) == [query];
    assert Positionals([file]) == [file];
  }

  /** An option token inserted anywhere after the program name changes
      neither the query nor the file path. */
  lemma OptionsIgnored(args: seq<string>, i: nat, opt: string)
    requires 1 <= i <= |args| && IsOption(opt)
    ensures QueryAndFilePath(args[..i] + [opt] + args[i..]) == QueryAndFilePath(args)
  {
    var args' := args[..i] + [opt] + args[i..];
    assert args'[1..] == args[1..i] + [opt] + args[i..];
    assert args[1..] == args[1..i] + args[i..];
    assert [opt][..0] == [];
    calc {
      Positionals(args'[1..]);
      { PositionalsAppend(args[1..i] + [opt], args[i..]); }
      Positionals(args[1..i] + [opt]) + Positionals(args[i..]);
      { PositionalsAppend(args[1..i], [opt]); }
      Positionals(args[1..i]) + Positionals([opt]) + Positionals(args[i..]);
      { assert Positionals([opt]) == []; }
      Positionals(args[1..i]) + Positionals(args[i..]);
      { PositionalsAppend(args[1..i], args[i..]); }
      Positionals(args[1..]);
    }
  }

  /** The length test of `is_option`: a lone `-` is positional and takes a
      slot like any other token, while `--`, two characters long, is an
      option and is skipped. */
  lemma LoneDashIsPositional(prog: string, file: string, rest: seq<string>)
    requires !IsOption(file)
    ensures QueryAndFilePath([prog, "-", file] + rest) == ("-", file)
    ensures QueryAndFilePath([prog, "--", file] + rest) == QueryAndFilePath([prog, file] + rest)
  {
    PlainInvocation(prog, "-", file, rest);
    var args := [prog, file] + rest;
    OptionsIgnored(args, 1, "--");
    assert args[..1] + ["--"] + args[1..] == [prog, "--", file] + rest;
  }

  /** An empty argument right after the program name is skipped: it never
      becomes the query, and the next positional takes the query slot. */
  lemma EmptyArgumentSkipped(prog: string, rest: seq<string>)
    ensures QueryAndFilePath([prog, ""] + rest) == QueryAndFilePath([prog] + rest)
  {
    var ps := Positionals([""] + rest);
    assert ([prog, ""] + rest)[1..] == [""] + rest;
    assert ([prog] + rest)[1..] == rest;
    PositionalsAppend([""], rest);
    assert [""][..0] == [];
    assert Positionals([""]) == [""];
    assert ps == [""] + Positionals(rest);
    assert ps[1..] == Positionals(rest);
  }

  // ---------------------------------------------------------------------------
  // Ignore-case switches
  // ---------------------------------------------------------------------------

  /** `Config::check_options`: whether any of `targets` equals one of the
      arguments after the program name. */
  method CheckOptions(args: seq<string>, targets: seq<string>) returns (found: bool)
    requires |targets| > 0 ==> |args| >= 1
    ensures found <==> exists k, j :: 0 <= k < |targets| && 1 <= j < |args| && targets[k] == args[j]
  {
    for k := 0 to |targets|
      invariant forall k', j :: 0 <= k' < k && 1 <= j < |args| ==> targets[k'] != args[j]
    {
      if targets[k] in args[1..] {
        ghost var j :| 0 <= j < |args[1..]| && args[1..][j] == targets[k];
        assert args[j + 1] == targets[k];
        return true;
      }
      assert forall j :: 1 <= j < |args| ==> args[j] == args[1..][j - 1];
    }
    return false;
  }

  /** `Config::check_env`: the variable is set to something other than "0". */
  function CheckEnv(env: Environment, variable: string): bool {
    var flag := if variable in env then Some(env[variable]) else None;
    !(flag == None || flag == Some("0"))
  }

  /** Some argument after the program name is exactly `token`. */
  ghost predicate Given(args: seq<string>, token: string) {
    exists j :: 1 <= j < |args| && args[j] == token
  }

  // ---------------------------------------------------------------------------
  // Resolution
  // ---------------------------------------------------------------------------

  /** What `Config::from` computes: fewer than three raw arguments (options
      included) is an error; otherwise the query and file path of
      `QueryAndFilePath` and the ignore-case switches. */
  ghost function Resolve(args: seq<string>, env: Environment): Result<Config> {
    if |args| < 3 then Err(NotEnoughArguments)
    else
      var (query, filePath) := QueryAndFilePath(args);
      Ok(Config(query, filePath,
        CheckEnv(env, IgnoreCaseVariable) || Given(args, "-i") || Given(args, "--ignore-case")))
  }

  /** `Config::from`. */
  method From(args: seq<string>, env: Environment) returns (r: Result<Config>)
    ensures r == Resolve(args, env)
  {
    if |args| < 3 {
      return Err(NotEnoughArguments);
    }
    var query, filePath := GetQueryAndFilePath(args);
    var optionGiven := CheckOptions(args, IgnoreCaseOptions);
    assert optionGiven <==> Given(args, "-i") || Given(args, "--ignore-case") by {
      assert IgnoreCaseOptions[0] == "-i" && IgnoreCaseOptions[1] == "--ignore-case";
    }
    var ignoreCase := CheckEnv(env, IgnoreCaseVariable) || optionGiven;
    return Ok(Config(query, filePath, ignoreCase));
  }

  /** Resolution fails exactly when fewer than three raw arguments are given,
      and then with "not enough arguments"; it never fails otherwise. */
  lemma ResolveFailsIffTooFew(args: seq<string>, env: Environment)
    ensures Resolve(args, env).Err? <==> |args| < 3
    ensures Resolve(args, env).Err? ==> Resolve(args, env).error == "not enough arguments"
  {
  }

  /** Case is ignored exactly when IGNORE_CASE is set to something other
      than "0", or `-i` or `--ignore-case` is given after the program name;
      either alone suffices. */
  lemma ResolveIgnoreCase(args: seq<string>, env: Environment)
    requires |args| >= 3
    ensures Resolve(args, env).Ok?
    ensures Resolve(args, env).value.ignoreCase <==>
      ("IGNORE_CASE" in env && env["IGNORE_CASE"] != "0") ||
      (exists j :: 1 <= j < |args| && (args[j] == "-i" || args[j] == "--ignore-case"))
  {
  }

  /** `prog duct poem.txt` resolves to query "duct", file "poem.txt", case
      kept; with `-i` after them, case is ignored. */
  lemma ResolveExamples()
    ensures Resolve(["prog", "duct"], map[]) == Err("not enough arguments")
    ensures Resolve(["prog", "duct", "poem.txt"], map[]) == Ok(Config("duct", "poem.txt", false))
    ensures Resolve(["prog", "duct", "poem.txt", "-i"], map[]) == Ok(Config("duct", "poem.txt", true))
    ensures Resolve(["prog", "duct", "poem.txt"], map["IGNORE_CASE" := "0"]) == Ok(Config("duct", "poem.txt", false))
    ensures Resolve(["prog", "duct", "poem.txt"], map["IGNORE_CASE" := "1"]) == Ok(Config("duct", "poem.txt", true))
  {
    IsOptionChars("duct");
    IsOptionChars("poem.txt");
    PlainInvocation("prog", "duct", "poem.txt", []);
    PlainInvocation("prog", "duct", "poem.txt", ["-i"]);
    var a4 := ["prog", "duct", "poem.txt", "-i"];
    assert ["prog", "duct", "poem.txt"] + ["-i"] == a4;
    assert a4[3] == "-i";
    var a3 := ["prog", "duct", "poem.txt"];
    assert !Given(a3, "-i") && !Given(a3, "--ignore-case");
  }

  /** Only an unset IGNORE_CASE or the exact value "0" keeps case: any
      other value, even the empty string, "false" or "00", ignores it. */
  lemma EnvValueExamples()
    ensures Resolve(["prog", "duct", "poem.txt"], map[]).value.ignoreCase == false
    ensures Resolve(["prog", "duct", "poem.txt"], map["IGNORE_CASE" := "0"]).value.ignoreCase == false
    ensures Resolve(["prog", "duct", "poem.txt"], map["IGNORE_CASE" := ""]).value.ignoreCase
    ensures Resolve(["prog", "duct", "poem.txt"], map["IGNORE_CASE" := "false"]).value.ignoreCase
    ensures Resolve(["prog", "duct", "poem.txt"], map["IGNORE_CASE" := "00"]).value.ignoreCase
    ensures Resolve(["prog", "duct", "poem.txt"], map["ignore_case" := "1"]).value.ignoreCase == false
  {
    var a3 := ["prog", "duct", "poem.txt"];
    assert !Given(a3, "-i") && !Given(a3, "--ignore-case");
    assert "" != "0" && "false" != "0" && "00" != "0";
    assert "ignore_case" != "IGNORE_CASE";
  }

  /** A single non-empty positional is the query; the file path is empty. */
  lemma QueryOnly(prog: string, query: string)
    requires !IsOption(query) && query != ""
    ensures QueryAndFilePath([prog, query]) == (query, "")
  {
    assert [prog, query][1..] == [query];
    assert [query][..0] == [];
    assert Positionals([query]) == [query];
  }

  /** Three raw arguments are enough even when one of them is an option, so
      `prog -i duct` succeeds with an empty file path. */
  lemma ResolveCountsOptions()
    ensures Resolve(["prog", "-i", "duct"], map[]) == Ok(Config("duct", "", true))
  {
    var args := ["prog", "-i", "duct"];
    IsOptionChars("-i");
    IsOptionChars("duct");
    OptionsIgnored(["prog", "duct"], 1, "-i");
    assert ["prog", "duct"][..1] + ["-i"] + ["prog", "duct"][1..] == args;
    QueryOnly("prog", "duct");
    assert args[1] == "-i";
  }
}
