/** What `main` of scripts/create-theme-package.mjs decides from its arguments
    and the existence check of the package directory, before it writes anything. */
module CreateThemePackage {
  import opened Wrappers
  import opened CliArgs
  import opened DirCheck

  datatype Plan =
    | Usage
    | Create(folder: string, themeId: string, packageName: string)

  datatype Error = BadArgument(cause: ArgError) | MissingRequired(key: string) | Directory(failure: DirError)

  const PackagePrefix := "treelight-theme-"

  /** `packages/themes/<folder>`, relative to the repository root. */
  function PackageDir(folder: string): string {
    "packages/themes/" + folder
  }

  /** The arguments of `main`, after `process.argv.slice(2)`, and the outcome of
      `access` on the package directory. */
  method ThemePlan(argv: seq<string>, access: Outcome<string>) returns (r: Result<Plan, Error>)
    ensures Parse(argv).Failure? <==> r.Failure? && r.error.BadArgument?
    ensures Parse(argv).Failure? ==> r == Failure(BadArgument(Parse(argv).error))
    ensures r == Success(Usage) <==>
      Parse(argv).Success? && (Given(Parse(argv).value, "help") || |Parse(argv).value| == 0)
    ensures r == Failure(MissingRequired("name")) <==>
      Parse(argv).Success? && !Given(Parse(argv).value, "help") && |Parse(argv).value| != 0
      && !Given(Parse(argv).value, "name")
    ensures r.Success? && r.value.Create? ==>
      var args := Parse(argv).value;
      Given(args, "name") && r.value.folder == args["name"]
      && r.value.themeId == (if Given(args, "id") then args["id"] else args["name"])
      && r.value.packageName == PackagePrefix + args["name"]
    ensures r.Success? && r.value.Create? ==> access == Fail(NotFound)
    ensures r.Failure? && r.error.Directory? ==>
      var args := Parse(argv).value;
      Given(args, "name") && Fail(r.error.failure) == EnsureDirDoesNotExist(PackageDir(args["name"]), access)
    ensures Parse(argv).Success? && !Given(Parse(argv).value, "help") && |Parse(argv).value| != 0
            && Given(Parse(argv).value, "name") ==>
      (r.Success? <==> access == Fail(NotFound))
  {
    var parsed := ParseArgs(argv);
    if parsed.Failure? {
      return Failure(BadArgument(parsed.error));
    }
    var args := parsed.value;
    if Given(args, "help") || |args| == 0 {
      return Success(Usage);
    }
    if !Given(args, "name") {
      return Failure(MissingRequired("name"));
    }
    var themeId := Either(args, "id", "name");
    var checked := EnsureDirDoesNotExist(PackageDir(args["name"]), access);
    if checked.Fail? {
      return Failure(Directory(checked.error));
    }
    return Success(Create(args["name"], themeId, PackagePrefix + args["name"]));
  }
}
