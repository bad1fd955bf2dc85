/** The error taxonomy shared by the unit of work and the handlers, and the
    shape of a storage-engine failure as the unit of work observes it. */
module Errors {

  /** A failure reported by the storage engine (an `SQLAlchemyError`).
      `isIntegrity` tells an `IntegrityError` apart from any other engine
      failure, `message` is its text (`str(error)`) and `params` the bound
      statement parameters, each already rendered with `str`. */
  datatype StorageError = StorageError(
    isIntegrity: bool,
    message: string,
    params: map<string, string>)

  /** The subkind of a `DataMapperError`, one per message the adapter raises. */
  datatype DataMapperKind =
    | ConstraintViolation
    | CommitFailed
    | FlushFailed
    | RollbackFailed

  /** Every error kind the modelled core raises or lets through. */
  datatype AppError =
    | AuthenticationError
    | AuthorizationError
    | DomainFieldError(field: string)
    | RoleAssignmentNotPermitted
    | UsernameAlreadyExists(username: string)
    | DataMapper(kind: DataMapperKind)
    | SortingError
    | ReaderError
    | PaginationError
      /** A storage failure that no adapter translated (raised by `begin`). */
    | Untranslated(cause: StorageError)

  /** `sub` occurs in `s` starting at position `i`. */
  predicate OccursAt(s: string, sub: string, i: nat)
  {
    i + |sub| <= |s| && s[i..i + |sub|] == sub
  }

  /** Python's `sub in s` for strings, decided by scanning from the left. */
  function Contains(s: string, sub: string): (b: bool)
    ensures b <==> exists i: nat :: OccursAt(s, sub, i)
    decreases |s|
  {
    if |sub| > |s| then
      assert forall i: nat :: !OccursAt(s, sub, i);
      false
    else if OccursAt(s, sub, 0) then
      true
    else
      var rest := Contains(s[1..], sub);
      ShiftOccurrence(s, sub);
      rest
  }

  /** An occurrence in `s` away from the front is an occurrence in `s[1..]`,
      and conversely. */
  lemma ShiftOccurrence(s: string, sub: string)
    requires |s| > 0
    requires !OccursAt(s, sub, 0)
    ensures (exists i: nat :: OccursAt(s, sub, i)) <==> (exists j: nat :: OccursAt(s[1..], sub, j))
  {
    if i: nat :| OccursAt(s, sub, i) {
      if i > 0 {
        assert s[1..][i - 1..i - 1 + |sub|] == s[i..i + |sub|];
        assert OccursAt(s[1..], sub, i - 1);
      }
    }
    if j: nat :| OccursAt(s[1..], sub, j) {
      assert s[1..][j..j + |sub|] == s[j + 1..j + 1 + |sub|];
      assert OccursAt(s, sub, j + 1);
    }
  }
}
