/** The `--key value` parser `parseArgs` of the package scaffolding scripts
    (scripts/create-theme-package.mjs and, in an identical copy,
    scripts/create-language-package.mjs). */
module CliArgs {
  import opened Wrappers
  import opened Strings

  /** `Missing value for --<key>`. */
  datatype ArgError = MissingValue(key: string)

  type Args = map<string, string>

  predicate IsFlag(token: string) {
    StartsWith(token, "--")
  }

  /** A token JavaScript accepts as the value of a flag: truthy and not a flag. */
  predicate IsValue(token: string) {
    token != "" && !IsFlag(token)
  }

  /** The parse of `argv` from index `i` on, with `args` collected so far: plain
      tokens are skipped, a flag takes the next token as its value. */
  function ParseFrom(argv: seq<string>, i: nat, args: Args): Result<Args, ArgError>
    requires i <= |argv|
    decreases |argv| - i
  {
    if i == |argv| then Success(args)
    else if !IsFlag(argv[i]) then ParseFrom(argv, i + 1, args)
    else if i + 1 == |argv| || !IsValue(argv[i + 1]) then Failure(MissingValue(argv[i][2..]))
    else ParseFrom(argv, i + 2, args[argv[i][2..] := argv[i + 1]])
  }

  function Parse(argv: seq<string>): Result<Args, ArgError> {
    ParseFrom(argv, 0, map[])
  }

  /** `parseArgs(argv)`. */
  method ParseArgs(argv: seq<string>) returns (r: Result<Args, ArgError>)
    ensures r == Parse(argv)
  {
    var args: Args := map[];
    var i := 0;
    while i < |argv|
      invariant i <= |argv|
      invariant ParseFrom(argv, i, args) == Parse(argv)
      decreases |argv| - i
    {
      var arg := argv[i];
      if !StartsWith(arg, "--") {
        i := i + 1;
        continue;
      }
      var key := arg[2..];
      if i + 1 == |argv| || argv[i + 1] == "" || StartsWith(argv[i + 1], "--") {
        return Failure(MissingValue(key));
      }
      args := args[key := argv[i + 1]];
      i := i + 2;
    }
    return Success(args);
  }

  // ---------------------------------------------------------------- properties

  /** Parsing from index `i` only looks at the tokens from `i` on. */
  lemma {:induction false} ParseFromSuffix(argv: seq<string>, i: nat, args: Args)
    requires i <= |argv|
    ensures ParseFrom(argv, i, args) == ParseFrom(argv[i..], 0, args)
    decreases |argv| - i
  {
    var s := argv[i..];
    if i < |argv| {
      assert s[0] == argv[i];
      if !IsFlag(argv[i]) {
        ParseFromSuffix(argv, i + 1, args);
        ParseFromSuffix(s, 1, args);
        assert s[1..] == argv[i + 1..];
      } else if i + 1 < |argv| && IsValue(argv[i + 1]) {
        var next := args[argv[i][2..] := argv[i + 1]];
        ParseFromSuffix(argv, i + 2, next);
        ParseFromSuffix(s, 2, next);
        assert s[2..] == argv[i + 2..];
      }
    }
  }

  /** A plain token is skipped. */
  lemma SkipsPlain(token: string, rest: seq<string>, args: Args)
    requires !IsFlag(token)
    ensures ParseFrom([token] + rest, 0, args) == ParseFrom(rest, 0, args)
  {
    ParseFromSuffix([token] + rest, 1, args);
    assert ([token] + rest)[1..] == rest;
  }

  /** `--key value` stores the value under the key and consumes both tokens. */
  lemma StoresPair(key: string, value: string, rest: seq<string>, args: Args)
    requires IsValue(value)
    ensures ParseFrom(["--" + key, value] + rest, 0, args) == ParseFrom(rest, 0, args[key := value])
  {
    var argv := ["--" + key, value] + rest;
    assert argv[0] == "--" + key && argv[1] == value && IsFlag(argv[0]);
    assert argv[0][2..] == key;
    ParseFromSuffix(argv, 2, args[key := value]);
    assert argv[2..] == rest;
  }

  /** A flag without a usable value fails, naming the flag's key. */
  lemma MissingValueFails(key: string, rest: seq<string>, args: Args)
    requires rest == [] || !IsValue(rest[0])
    ensures ParseFrom(["--" + key] + rest, 0, args) == Failure(MissingValue(key))
  {
    var argv := ["--" + key] + rest;
    assert argv[0] == "--" + key && IsFlag(argv[0]);
    assert argv[0][2..] == key;
    assert rest != [] ==> argv[1] == rest[0];
  }

  /** So a lone `--help` fails instead of asking for the usage text. */
  lemma LoneHelpFails()
    ensures Parse(["--help"]) == Failure(MissingValue("help"))
  {
    assert "--help" == "--" + "help";
    assert ["--help"] == ["--" + "help"] + [];
    MissingValueFails("help", [], map[]);
  }

  /** A prefix that parses on its own hands its arguments on to the rest. */
  lemma {:induction false} ParseConcat(a: seq<string>, b: seq<string>, i: nat, args: Args, done: Args)
    requires i <= |a|
    requires ParseFrom(a, i, args) == Success(done)
    ensures ParseFrom(a + b, i, args) == ParseFrom(b, 0, done)
    decreases |a| - i
  {
    var ab := a + b;
    if i == |a| {
      ParseFromSuffix(ab, i, args);
      assert ab[i..] == b;
    } else {
      assert ab[i] == a[i];
      if !IsFlag(a[i]) {
        ParseConcat(a, b, i + 1, args, done);
      } else {
        assert ab[i + 1] == a[i + 1];
        ParseConcat(a, b, i + 2, args[a[i][2..] := a[i + 1]], done);
      }
    }
  }

  /** No token of `argv` is the flag `--key`. */
  predicate NoFlagFor(argv: seq<string>, key: string) {
    forall j :: 0 <= j < |argv| ==> argv[j] != "--" + key
  }

  /** A key no later flag names keeps its entry. */
  lemma {:induction false} KeyUntouched(argv: seq<string>, i: nat, args: Args, key: string)
    requires i <= |argv| && NoFlagFor(argv, key)
    requires ParseFrom(argv, i, args).Success?
    ensures key in ParseFrom(argv, i, args).value <==> key in args
    ensures key in args ==> ParseFrom(argv, i, args).value[key] == args[key]
    decreases |argv| - i
  {
    if i < |argv| {
      if !IsFlag(argv[i]) {
        KeyUntouched(argv, i + 1, args, key);
      } else {
        assert argv[i] == "--" + argv[i][2..];
        KeyUntouched(argv, i + 2, args[argv[i][2..] := argv[i + 1]], key);
      }
    }
  }

  /** A repeated key keeps its last value. */
  lemma LastValueWins(a: seq<string>, key: string, value: string, b: seq<string>)
    requires Parse(a).Success? && IsValue(value) && NoFlagFor(b, key)
    ensures Parse(a + ["--" + key, value] + b).Success? ==>
      key in Parse(a + ["--" + key, value] + b).value && Parse(a + ["--" + key, value] + b).value[key] == value
  {
    var m := Parse(a).value;
    ParseConcat(a, ["--" + key, value] + b, 0, map[], m);
    assert a + ["--" + key, value] + b == a + (["--" + key, value] + b);
    StoresPair(key, value, b, m);
    if ParseFrom(b, 0, m[key := value]).Success? {
      KeyUntouched(b, 0, m[key := value], key);
    }
  }

  /** A JavaScript truthy lookup `args[key]`. */
  predicate Given(args: Args, key: string) {
    key in args && args[key] != ""
  }

  /** `args[a] || args[b]`, for a present `b`. */
  function Either(args: Args, a: string, b: string): string
    requires Given(args, b)
  {
    if Given(args, a) then args[a] else args[b]
  }

  predicate CleanValues(args: Args) {
    forall k :: k in args ==> IsValue(args[k])
  }

  /** Every stored value is non-empty and does not start with `--`. */
  lemma {:induction false} ValuesClean(argv: seq<string>, i: nat, args: Args)
    requires i <= |argv| && CleanValues(args)
    requires ParseFrom(argv, i, args).Success?
    ensures CleanValues(ParseFrom(argv, i, args).value)
    decreases |argv| - i
  {
    if i < |argv| {
      if !IsFlag(argv[i]) {
        ValuesClean(argv, i + 1, args);
      } else {
        ValuesClean(argv, i + 2, args[argv[i][2..] := argv[i + 1]]);
      }
    }
  }

  /** Every stored value comes from a token right after a flag naming its key. */
  lemma {:induction false} ValuesFromPairs(argv: seq<string>, i: nat, args: Args)
    requires i <= |argv|
    requires ParseFrom(argv, i, args).Success?
    ensures forall k :: k in ParseFrom(argv, i, args).value ==>
      (k in args && ParseFrom(argv, i, args).value[k] == args[k])
      || exists j :: i <= j < |argv| - 1 && argv[j] == "--" + k && argv[j + 1] == ParseFrom(argv, i, args).value[k]
    decreases |argv| - i
  {
    if i < |argv| {
      if !IsFlag(argv[i]) {
        ValuesFromPairs(argv, i + 1, args);
      } else {
        var key := argv[i][2..];
        assert argv[i] == "--" + key;
        ValuesFromPairs(argv, i + 2, args[key := argv[i + 1]]);
      }
    }
  }

  /** The arguments of a successful parse are all clean. */
  lemma ParsedClean(argv: seq<string>)
    requires Parse(argv).Success?
    ensures CleanValues(Parse(argv).value)
  {
    ValuesClean(argv, 0, map[]);
  }
}
