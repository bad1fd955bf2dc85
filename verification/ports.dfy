/** The ports the handlers call, as oracles, and the trace of calls a
    handler leaves behind. A call is recorded with whether it succeeded; a
    failing call raises, so it is the last call of the trace. */
module Ports {
  import opened Errors
  import opened QueryParams

  /** The authenticated user the current-user service resolves. */
  datatype CurrentUser = CurrentUser(id: string, role: UserRole)

  /** The parameters the read gateway receives. */
  datatype UserListParams = UserListParams(limit: int, offset: int, sorting: Sorting)

  datatype Port =
    | GetCurrentUser
    | Authorize(subject: CurrentUser, targetRole: UserRole)
    | BuildUsername(raw: string)
    | BuildPassword(raw: string)
    | CreateUserEntity(username: string, role: UserRole)
    | BuildPagination(limit: int, offset: int)
    | AddUser(userId: string)
    | FlushChanges
    | CommitUow
    | ReadAllUsers(params: UserListParams)

  datatype Call = Call(port: Port, ok: bool)

  /** Calls that stage, send or make durable a change. */
  predicate IsWrite(p: Port)
  {
    p.AddUser? || p.FlushChanges? || p.CommitUow?
  }

  /** Nothing is called after a call that raised. */
  ghost predicate StopsAtFailure(t: seq<Call>)
  {
    forall i :: 0 <= i < |t| - 1 ==> t[i].ok
  }

  /** Some earlier call in `t` is a granted authorization. */
  ghost predicate AuthorizedBefore(t: seq<Call>, j: int)
  {
    exists i :: 0 <= i < j && i < |t| && t[i].port.Authorize? && t[i].ok
  }

  /** The protocol every handler keeps: the first call resolves the current
      user, no call follows a failure, and nothing is written before a
      granted authorization. */
  ghost predicate GuardedByAuthorization(t: seq<Call>)
  {
    && |t| > 0 && t[0].port == GetCurrentUser
    && StopsAtFailure(t)
    && forall j :: 0 <= j < |t| && IsWrite(t[j].port) ==> AuthorizedBefore(t, j)
  }

  /** The write protocol: a commit follows a successful flush, which follows
      the staging of a change. */
  ghost predicate CommitsAfterFlush(t: seq<Call>)
  {
    forall k :: 0 <= k < |t| && t[k].port == CommitUow ==>
      exists j :: 0 <= j < k && t[j] == Call(FlushChanges, true) &&
                  (exists i :: 0 <= i < j && t[i].port.AddUser?)
  }

  /** Number of calls to port `p` in `t`. */
  function Count(t: seq<Call>, p: Port): (n: nat)
    ensures n <= |t|
    ensures n == 0 <==> forall i :: 0 <= i < |t| ==> t[i].port != p
  {
    if |t| == 0 then 0
    else (if t[0].port == p then 1 else 0) + Count(t[1..], p)
  }

  /** One more call adds one to the count of its own port only. */
  lemma {:induction false} CountAppend(t: seq<Call>, c: Call, p: Port)
    ensures Count(t + [c], p) == Count(t, p) + (if c.port == p then 1 else 0)
  {
    if |t| > 0 {
      assert (t + [c])[1..] == t[1..] + [c];
      CountAppend(t[1..], c, p);
    }
  }
}
