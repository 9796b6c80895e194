/** `ensureDirDoesNotExist(target)` of the package scaffolding scripts. The file
    system is a parameter: the outcome of `access(target, F_OK)`, which is `Pass`
    when the path exists and `Fail(code)` with the error code of its rejection
    otherwise. */
module DirCheck {
  import opened Wrappers

  /** What `ensureDirDoesNotExist` can throw. */
  datatype DirError =
    | AlreadyExists(target: string)
    | AccessFailed(code: string)
    | UnboundName(name: string)

  const NotFound := "ENOENT"

  /** The error the `try` block ends with: its own when `access` succeeds, else the
      rejection of `access`. Either way control reaches the `catch` clause. */
  function Thrown(target: string, access: Outcome<string>): DirError {
    match access
    case Pass => AlreadyExists(target)
    case Fail(code) => AccessFailed(code)
  }

  /** `error.code`: only a rejection of `access` carries a code. */
  function Code(e: DirError): Option<string> {
    if e.AccessFailed? then Some(e.code) else None
  }

  /** The clause `catch (<binding>) { if (error.code === 'ENOENT') return; throw error; }`:
      its body reads `error`, which only the binding of that name provides. */
  function CatchBlock(binding: string, caught: DirError): Outcome<DirError> {
    if binding != "error" then Fail(UnboundName("error"))
    else if Code(caught) == Some(NotFound) then Pass
    else Fail(caught)
  }

  /** The check of scripts/create-theme-package.mjs, which binds `error`: it passes
      exactly when the path does not exist, and otherwise reports why. */
  function EnsureDirDoesNotExist(target: string, access: Outcome<string>): (r: Outcome<DirError>)
    ensures r == Pass <==> access == Fail(NotFound)
    ensures access == Pass ==> r == Fail(AlreadyExists(target))
    ensures access.Fail? && access.error != NotFound ==> r == Fail(AccessFailed(access.error))
  {
    CatchBlock("error", Thrown(target, access))
  }

  /** The check as scripts/create-language-package.mjs writes it, binding `_error`:
      whatever the file system says, it throws a `ReferenceError` for `error`. */
  function EnsureDirDoesNotExistAsWritten(target: string, access: Outcome<string>): (r: Outcome<DirError>)
    ensures r == Fail(UnboundName("error"))
  {
    CatchBlock("_error", Thrown(target, access))
  }

  /** A package directory that does not exist yet is refused by the language
      script's check and accepted by the theme script's. */
  lemma AsWrittenRefusesAbsentDir(target: string)
    ensures EnsureDirDoesNotExistAsWritten(target, Fail(NotFound)) == Fail(UnboundName("error"))
    ensures EnsureDirDoesNotExist(target, Fail(NotFound)) == Pass
  {
  }
}
