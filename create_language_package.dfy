/** What `main` of scripts/create-language-package.mjs decides from its arguments
    and the existence check of the package directory, before it writes anything.
    Its `parseArgs` is the same as the theme script's, modelled once as
    `CliArgs.ParseArgs`; its directory check is the corrected one (see
    `DirCheck.EnsureDirDoesNotExistAsWritten` for the check as written). */
module CreateLanguagePackage {
  import opened Wrappers
  import opened CliArgs
  import opened DirCheck

  datatype Plan =
    | Usage
    | Create(folder: string, languageId: string, packageName: string, repo: string, version: string, artifact: string)

  datatype Error = BadArgument(cause: ArgError) | MissingRequired(key: string) | Directory(failure: DirError)

  const Required: seq<string> := ["name", "repo", "version", "artifact"]

  const PackagePrefix := "treelight-language-"

  /** The required-argument loop: the first key of `keys` that is not given, if any. */
  method FirstMissing(args: Args, keys: seq<string>) returns (missing: Option<string>)
    ensures missing.None? <==> forall i :: 0 <= i < |keys| ==> Given(args, keys[i])
    ensures missing.Some? ==>
      exists i :: (0 <= i < |keys| && keys[i] == missing.value && !Given(args, keys[i])
                   && forall j :: 0 <= j < i ==> Given(args, keys[j]))
  {
    for i := 0 to |keys|
      invariant forall j :: 0 <= j < i ==> Given(args, keys[j])
    {
      if !Given(args, keys[i]) {
        return Some(keys[i]);
      }
    }
    return None;
  }

  /** `packages/languages/<folder>`, relative to the repository root. */
  function PackageDir(folder: string): string {
    "packages/languages/" + folder
  }

  /** The arguments of `main`, after `process.argv.slice(2)`, and the outcome of
      `access` on the package directory. */
  method LanguagePlan(argv: seq<string>, access: Outcome<string>) returns (r: Result<Plan, Error>)
    ensures Parse(argv).Failure? <==> r.Failure? && r.error.BadArgument?
    ensures Parse(argv).Failure? ==> r == Failure(BadArgument(Parse(argv).error))
    ensures r == Success(Usage) <==>
      Parse(argv).Success? && (Given(Parse(argv).value, "help") || |Parse(argv).value| == 0)
    ensures r.Failure? && r.error.MissingRequired? ==>
      var args := Parse(argv).value;
      !Given(args, "help") && |args| != 0
      && exists i :: (0 <= i < |Required| && Required[i] == r.error.key && !Given(args, Required[i])
                      && forall j :: 0 <= j < i ==> Given(args, Required[j]))
    ensures r.Success? && r.value.Create? ==>
      var args := Parse(argv).value;
      Given(args, "name") && Given(args, "repo") && Given(args, "version") && Given(args, "artifact")
      && r.value.folder == args["name"]
      && r.value.languageId == (if Given(args, "id") then args["id"] else args["name"])
      && r.value.packageName == PackagePrefix + args["name"]
      && r.value.repo == args["repo"] && r.value.version == args["version"] && r.value.artifact == args["artifact"]
    ensures r.Success? && r.value.Create? ==> access == Fail(NotFound)
    ensures r.Failure? && r.error.Directory? ==>
      var args := Parse(argv).value;
      Given(args, "name") && Fail(r.error.failure) == EnsureDirDoesNotExist(PackageDir(args["name"]), access)
    ensures Parse(argv).Success? && !Given(Parse(argv).value, "help") && |Parse(argv).value| != 0
            && (forall i :: 0 <= i < |Required| ==> Given(Parse(argv).value, Required[i])) ==>
      (r.Success? && r.value.Create? <==> access == Fail(NotFound))
  {
    var parsed := ParseArgs(argv);
    if parsed.Failure? {
      return Failure(BadArgument(parsed.error));
    }
    var args := parsed.value;
    if Given(args, "help") || |args| == 0 {
      return Success(Usage);
    }
    var missing := FirstMissing(args, Required);
    if missing.Some? {
      return Failure(MissingRequired(missing.value));
    }
    assert Given(args, Required[0]) && Given(args, Required[1]) && Given(args, Required[2]) && Given(args, Required[3]);
    var checked := EnsureDirDoesNotExist(PackageDir(args["name"]), access);
    if checked.Fail? {
      return Failure(Directory(checked.error));
    }
    var languageId := Either(args, "id", "name");
    return Success(Create(args["name"], languageId, PackagePrefix + args["name"], args["repo"], args["version"], args["artifact"]));
  }
}
