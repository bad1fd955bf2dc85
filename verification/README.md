# fastapi-clean-example core, modelled in Dafny

This project models the persistence and orchestration core of a layered
FastAPI user-management backend:

- the SQLAlchemy **unit of work**: the transaction stored on scope entry,
  `commit`/`rollback` acting on that transaction or falling back to the
  session, the translation of `flush` failures into `UsernameAlreadyExistsError`
  or one of two `DataMapperError` kinds, scope exit (rollback on error,
  commit otherwise) and the repositories it binds to its session;
- the generic **repository** (`get`, `one`, `all` with equality filter,
  ordering and limit/offset, `exists`, `create`, `create_all`, `update`,
  `delete`) as pure functions over the rows a session sees;
- the **CreateUser** and **ListUsers** handlers, with every collaborator
  (current-user service, authorization policy, value-object constructors,
  domain service, command/query gateway, flusher) as an oracle, each handler
  returning its outcome and the trace of port calls it made;
- the **configuration loader**: `APP_ENV` validation, the per-environment
  directories, the recursive merge of TOML tables and loading a
  configuration with optional secrets.

Files: `wrappers.dfy` (Option, Result), `errors.dfy` (error kinds, storage
failure shape, substring test), `query_params.dfy` (sorting, pagination,
roles, user projection), `value_order.dfy` (column values and their order),
`repository.dfy`, `unit_of_work.dfy`, `ports.dfy` (port calls, traces and the
call protocol), `create_user.dfy`, `list_users.dfy`, `config_loader.dfy`.

Modelling choices:

- Storage-engine answers are oracle parameters: `None` when a call succeeds,
  `Some(StorageError(isIntegrity, message, params))` when it fails. The
  session records every attempted call, so "which object was committed" is
  a statement about the log. A transaction is named by the position of its
  `begin` in that log, which makes each begun transaction distinct.
- A row is an instance of a mapped class: the class name and a map from
  column name to value. An absent column reads as `NULL`, which is also
  Python's `None` in `update`'s data. A session sees rows of every class;
  a repository's `get` and queries only return rows of its own class.
- The session distinguishes pending rows from persistent ones. A row
  becomes persistent when it is flushed, and `commit` flushes first.
  `delete` is refused for a row that is not persistent, as SQLAlchemy's
  session refuses it.
- Queries through a bound repository autoflush first, as a SQLAlchemy
  session does by default: `one`, `all` and `exists` always, `get` unless a
  persistent row with that key is already in the session. The
  `Repository` query functions are what such a query reads from the rows
  the session sees.
- `ORDER BY` is modelled as a stable insertion sort; the contracts only
  promise a sorted permutation, which is all SQL promises. The value order
  is the model's own: NULL first in ascending order, then booleans,
  integers and strings, strings in code-point order. A database engine can
  order differently; PostgreSQL, for one, puts NULLs last in ascending
  order by default and orders text by its collation.
- Behaviours of the code that the model keeps as written:
  - A second `commit` on the same unit of work is accepted. It goes to the
    session, so the unit of work has no terminal state.
  - `all` never reads `sorting_field`.
  - The list handler does not check the sort field itself. It turns the
    gateway's `None` answer into `SortingError`.
  - The repository does not translate engine failures into `DataMapperError`.

## Model

| member | source | states |
|---|---|---|
| Errors.Contains | src/app/infrastructure/adapters/uow.py:75 | Python's substring test: true iff the constraint name occurs at some position of the error text |
| Repository.Get | src/app/infrastructure/adapters/repository.py:37-38 | returns a stored row of the mapped class whose key is `pk`, and `None` exactly when no stored row of that class has that key (absence is not an error) |
| Repository.Statement | src/app/infrastructure/adapters/repository.py:44-46 | the equality filter is accepted iff every criterion names a column of the mapped class |
| Repository.Filter | src/app/infrastructure/adapters/repository.py:44-46 | keeps every row of the mapped class that is equal on every criterion, with its multiplicity, and nothing else |
| Repository.FilterNoCriteria | src/app/infrastructure/adapters/repository.py:44-46 | with no criteria, on rows of the mapped class only, the filter keeps every row in storage order |
| Repository.One | src/app/infrastructure/adapters/repository.py:40-42 | `None` iff no row of the class matches; the row iff exactly one matches; `MultipleResultsFound` iff two or more match; unknown criteria are refused; no other error |
| Repository.SortRows | src/app/infrastructure/adapters/repository.py:59-65 | the ordered listing is a permutation of the rows, sorted by the column ascending for ASC and descending otherwise |
| Repository.Window | src/app/infrastructure/adapters/repository.py:66-67 | at most `limit` rows, the i-th being row `offset + i`; empty when `limit` is 0 or `offset` is past the end |
| Repository.All | src/app/infrastructure/adapters/repository.py:48-70 | rows are of the mapped class and match the criteria; without pagination the listing holds exactly the matching rows; with pagination at most `limit`; with sorting, ordered by the LAST column attribute in the requested direction; fails only for an unknown criterion or a mapper with no column |
| Repository.AllWithoutArguments | src/app/infrastructure/adapters/repository.py:48-70 | with no criteria, sorting or pagination, `all` over rows of its class returns every row |
| Repository.AllPaginates | src/app/infrastructure/adapters/repository.py:66-67 | a page is the limit/offset window of the filtered, ordered listing |
| Repository.AllIgnoresSortingField | src/app/infrastructure/adapters/repository.py:55-65 | two requests differing only in `sorting_field` get the same answer |
| Repository.Exists | src/app/infrastructure/adapters/repository.py:72-76 | true iff some stored row of the class matches every criterion; unknown criteria are refused |
| Repository.ExistsAgreesWithQueries | src/app/infrastructure/adapters/repository.py:72-76 | `exists` is true iff `all` with the same criteria is non-empty, and false iff `one` finds nothing |
| Repository.Create | src/app/infrastructure/adapters/repository.py:78-79 | stages the instance once if the session does not hold it and changes nothing if it does; every row already there stays where it was |
| Repository.CreateIdempotent | src/app/infrastructure/adapters/repository.py:78-79 | adding the same instance twice equals adding it once |
| Repository.Unheld | src/app/infrastructure/adapters/repository.py:81-82 | the instances `add_all` stages: exactly those given that the session does not hold, none twice |
| Repository.CreateAll | src/app/infrastructure/adapters/repository.py:81-82 | the existing rows are kept in place; afterwards the session sees exactly the old rows and the given ones; nothing held is staged again and no instance is staged twice |
| Repository.CreateAllIsRepeatedCreate | src/app/infrastructure/adapters/repository.py:81-82 | `create_all` equals `create` of each entity in order |
| Repository.CreateThenGet | src/app/infrastructure/adapters/repository.py:78-79 | after `create` of a row of the class with a new key, `get` of that key returns it |
| Repository.CreateOtherModel | src/app/infrastructure/adapters/repository.py:37-38 | staging a row of another class changes nothing `get` returns |
| Repository.Delete | src/app/infrastructure/adapters/repository.py:89-90 | refused exactly when the instance is not persistent (never added, or added but not flushed); otherwise exactly one copy of it leaves the seen rows and nothing else changes |
| Repository.DeleteThenGet | src/app/infrastructure/adapters/repository.py:89-90 | after deleting the only row with a key, `get` of that key returns `None` |
| Repository.Update | src/app/infrastructure/adapters/repository.py:84-87 | each field with a non-None value in `data` is set to it; every other field, including those given None, keeps its value |
| Repository.UpdateEntity | src/app/infrastructure/adapters/repository.py:84-87 | the item-by-item `setattr` loop computes the partial update |
| Repository.UpdateIdempotent | src/app/infrastructure/adapters/repository.py:84-87 | applying the same update twice equals applying it once |
| Repository.UpdateSkipsNone | src/app/infrastructure/adapters/repository.py:84-87 | an update whose only value is None changes nothing |
| Repository.UpdateInStore | src/app/infrastructure/adapters/repository.py:84-87 | the session sees the updated instance in place of the held one; every other row is unchanged |
| Repository.UpdateThenGet | src/app/infrastructure/adapters/repository.py:84-87 | after an update that leaves the key alone, `get` of the key returns the updated row |
| Repository.AllSortsByWrongColumn | src/app/infrastructure/adapters/repository.py:59-65 | a listing requested in username order comes back out of username order |
| Repository.AllByField | src/app/infrastructure/adapters/repository.py:55-65 | corrected `all`: sorted by the requested field, which must be a column |
| Repository.AllByFieldAgreesOnLastColumn | src/app/infrastructure/adapters/repository.py:59-65 | when the requested field is the last column, corrected and as-written `all` agree |
| UnitOfWork.Fresh | src/app/infrastructure/adapters/uow.py:32-34 | a new unit of work stores no transaction, its session has made no call, and every row it sees is persistent and durable |
| UnitOfWork.Enter | src/app/infrastructure/adapters/uow.py:42-43 | entry begins a transaction and stores it; a failing `begin` is raised untranslated; the session and its rows are unchanged |
| UnitOfWork.Commit | src/app/infrastructure/adapters/uow.py:53-63 | commits the stored transaction and clears it, or commits the session when none is stored; success makes every seen row persistent and durable; a failure is `DataMapperError` (commit failed), keeps the transaction and makes nothing new persistent or durable |
| UnitOfWork.Rollback | src/app/infrastructure/adapters/uow.py:88-98 | rolls back the stored transaction and clears it, or rolls back the session; seen and persistent rows revert to the durable ones; a failure is `DataMapperError` (rollback failed) and changes no rows |
| UnitOfWork.TranslateFlushError | src/app/infrastructure/adapters/uow.py:74-83 | `UsernameAlreadyExistsError` iff an integrity error names `uq_users_username`, carrying the `username` parameter or "unknown"; constraint-violation `DataMapperError` iff another integrity error; flush-failed `DataMapperError` iff not an integrity error |
| UnitOfWork.Flush | src/app/infrastructure/adapters/uow.py:65-83 | flush succeeds iff the engine does, keeps the transaction and durable rows, makes every seen row persistent on success, and reports a failure through the translation |
| UnitOfWork.DuplicateUsernameReported | src/app/infrastructure/adapters/uow.py:74-78 | a username-constraint violation reports the offending username |
| UnitOfWork.ConstraintNameAnywhere | src/app/infrastructure/adapters/uow.py:75 | the constraint name anywhere in an integrity error's text makes it a username conflict |
| UnitOfWork.Exit | src/app/application/common/ports/uow.py:14-23 | rollback when the scope raised, commit otherwise; the scope's exception propagates unless the rollback fails; a clean exit raises only a failed commit |
| UnitOfWork.ExitCallsExactlyOne | src/app/application/common/ports/uow.py:20-23 | scope exit makes exactly one storage call: a rollback iff the scope raised, a commit iff not |
| UnitOfWork.RepositoryFor | src/app/infrastructure/adapters/uow.py:100-104 | the repository is bound to this unit of work's own session |
| UnitOfWork.Stage | src/app/infrastructure/adapters/repository.py:78-79 | `create` through a bound repository adds the instance as a pending row of that session unless the session already holds it, and changes nothing else: transaction, log, persistent and durable rows |
| UnitOfWork.Autoflush | src/app/infrastructure/adapters/repository.py:41 | a query first flushes the session: every seen row becomes persistent, the rows seen and durable stay, and an engine failure is raised untranslated |
| UnitOfWork.Lookup | src/app/infrastructure/adapters/repository.py:37-38 | `get` through a bound repository answers without SQL from a persistent row of its class and key; otherwise it autoflushes, then finds such a row in that session (which is then persistent) or `None` exactly when the session sees none; an autoflush failure is raised untranslated |
| UnitOfWork.Execute | src/app/infrastructure/adapters/repository.py:68 | running a statement autoflushes and then reads every row the session sees, all of them persistent afterwards; an autoflush failure is raised untranslated |
| UnitOfWork.FindOne | src/app/infrastructure/adapters/repository.py:40-46 | `one` through a bound repository refuses an unknown criterion without touching the session; otherwise it is the query's answer over the flushed rows, a row it returns being persistent, or the autoflush failure |
| UnitOfWork.FindAll | src/app/infrastructure/adapters/repository.py:48-70 | `all` through a bound repository refuses an unknown criterion, or sorting with no column attribute, without touching the session; otherwise it is the as-written listing over the flushed rows, every listed row persistent, or the autoflush failure |
| UnitOfWork.FindExists | src/app/infrastructure/adapters/repository.py:72-76 | `exists` through a bound repository refuses an unknown criterion without touching the session; otherwise it is the query's answer over the flushed rows, or the autoflush failure |
| UnitOfWork.Remove | src/app/infrastructure/adapters/repository.py:89-90 | `delete` through a bound repository is refused iff the instance is not persistent in the session; otherwise one copy leaves the seen rows and nothing else changes |
| UnitOfWork.Modify | src/app/infrastructure/adapters/repository.py:84-87 | `update` through a bound repository replaces the held instance by its update wherever the session sees it or holds it persistent, and changes nothing else: not the durable rows, the log or the transaction |
| UnitOfWork.UpdatedStaysDeletable | src/app/infrastructure/adapters/repository.py:84-90 | an updated persistent instance is still persistent, so deleting it afterwards succeeds |
| UnitOfWork.RepositoriesSharePendingState | src/app/infrastructure/adapters/uow.py:100-104 | a row staged through one repository of a unit of work is found through any repository of its class, by the autoflush of `get` |
| UnitOfWork.OtherClassesUnaffected | src/app/infrastructure/adapters/uow.py:100-104 | for the same engine answer to the autoflush, a row staged through any repository does not change what `get` through a repository of another class answers |
| UnitOfWork.DeleteNeedsFlush | src/app/infrastructure/adapters/repository.py:78-90 | a staged row that is not persistent cannot be deleted before a flush; after a successful flush it can, and deleting it removes one copy from the rows seen before staging, which are restored exactly when the instance was new |
| UnitOfWork.StageGetDelete | src/app/infrastructure/adapters/repository.py:37-90 | staging a new instance, `get` of its key and then `delete` of it succeeds: the autoflush of `get` made it persistent |
| UnitOfWork.CommitUsesEnteredTransaction | src/app/infrastructure/adapters/uow.py:42-59 | after entry, `commit` acts on the begun transaction rather than the session |
| UnitOfWork.RollbackUsesEnteredTransaction | src/app/infrastructure/adapters/uow.py:88-94 | after entry, `rollback` acts on the begun transaction rather than the session |
| UnitOfWork.SecondCommitUsesSession | src/app/infrastructure/adapters/uow.py:53-59 | after a successful commit, the next commit goes to the session, never to the finished transaction |
| UnitOfWork.FailedCommitKeepsTransaction | src/app/infrastructure/adapters/uow.py:53-63 | after a failed commit, the next commit again targets the same transaction |
| UnitOfWork.NoTransactionEndsTwice | src/app/infrastructure/adapters/uow.py:53-98 | whatever sequence of entries, commits, rollbacks, flushes, stagings, deletes, updates, lookups, queries and exits a fresh unit of work goes through, no transaction is successfully committed or rolled back twice |
| CreateUser.Prepare | src/app/application/features/user/commands/create.py:78-90 | the steps before staging write nothing; a denial stops them with the policy's error; a built user implies granted authorization for the requested role and both value objects built |
| CreateUser.Handle | src/app/application/features/user/commands/create.py:64-102 | current user first; nothing written before a granted authorization for the requested role; a denied request stages nothing and leaves the unit of work as it was; nothing staged unless both value objects are built; an add or flush error is raised unchanged and commit never reached; the unit of work changes only through the one commit, whose outcome it keeps, a failed commit being `DataMapperError` (commit failed); success is add, flush, commit once each in that order with the added user's id returned |
| CreateUser.Persist | src/app/application/features/user/commands/create.py:92-102 | after the user is built: add, then flush, then commit, each reached only when the previous one succeeded, each error returned unchanged |
| CreateUser.CommitStep | src/app/application/features/user/commands/create.py:99-102 | the unit of work's commit ends the handler: the id on success, `DataMapperError` (commit failed) with the failed commit's state otherwise |
| CreateUser.CreateReportsFirstFailure | src/app/application/features/user/commands/create.py:78-102 | the first collaborator to fail decides the result, its error returned unchanged: current user, username, password, domain service, add, flush; when the commit is reached it is made once and its state is kept |
| CreateUser.CreateSucceedsIff | src/app/application/features/user/commands/create.py:78-102 | the handler returns an id iff every collaborator succeeds, and the id is the built user's id |
| CreateUser.CreateInsideScope | src/app/application/features/user/commands/create.py:94-102 | inside a unit-of-work scope, the handler's commit ends the begun transaction and the exit commit falls back to the session |
| ListUsers.ParamsOf | src/app/application/features/user/queries/list.py:91-100 | the gateway receives limit, offset, sorting field and order exactly as requested |
| ListUsers.Handle | src/app/application/features/user/queries/list.py:69-115 | current user, then authorization against USER, then the page window, then one read with the request's values; a current-user, authorization or page-window error is returned unchanged and means no read; a gateway error is returned unchanged; nothing written; no events; a list answer is returned as is; a `None` answer is `SortingError` |
| ListUsers.ListAnswersIff | src/app/application/features/user/queries/list.py:80-112 | the response is the gateway's list, empty or not, iff the caller is authorized, the page window is accepted and the gateway returns that list; `SortingError` exactly when the gateway returns `None` or a collaborator raises it |
| ConfigLoader.ValidateEnv | src/app/setup/config/loader.py:48-57 | fails for a missing value; succeeds iff the value is `local`, `dev` or `prod`, returning the environment of that name; otherwise reports the invalid value |
| ConfigLoader.ValidateEnvRoundTrip | src/app/setup/config/loader.py:14-21 | validating an environment's name returns that environment |
| ConfigLoader.CurrentEnv | src/app/setup/config/loader.py:60-62 | a missing `APP_ENV` is "not set"; a present one is validated: a valid one names the environment returned, any other is reported as invalid with its value |
| ConfigLoader.EnvToDirPaths | src/app/setup/config/loader.py:39-43 | the table has a directory for exactly the three environments |
| ConfigLoader.EveryEnvHasDirectory | src/app/setup/config/loader.py:39-43 | every valid environment maps to the config directory named after it |
| ConfigLoader.ReadConfig | src/app/setup/config/loader.py:65-79 | returns the parsed file iff it exists in the environment's directory; the "no directory" failure never occurs |
| ConfigLoader.Merge | src/app/setup/config/loader.py:82-89 | the merged keys are the union of both documents' keys |
| ConfigLoader.MergeRightBias | src/app/setup/config/loader.py:84-88 | tables under a shared key merge recursively; otherwise the second document's value wins, and keys only in the first keep their value |
| ConfigLoader.MergeRightIdentity | src/app/setup/config/loader.py:82-89 | merging in an empty document changes nothing |
| ConfigLoader.MergeLeftIdentity | src/app/setup/config/loader.py:82-89 | merging into an empty document yields the second document |
| ConfigLoader.MergeIdempotent | src/app/setup/config/loader.py:82-89 | merging a document with itself yields it, at every depth |
| ConfigLoader.MergeDicts | src/app/setup/config/loader.py:82-89 | the copy-then-fold loop with recursive calls computes the declarative merge |
| ConfigLoader.LoadFullConfig | src/app/setup/config/loader.py:92-101 | fails iff the base configuration is missing; without a secrets file the base configuration is returned unchanged; otherwise base merged with secrets |
| ConfigLoader.FullConfigKeys | src/app/setup/config/loader.py:92-101 | the full configuration keeps every base key and gains every secrets key |

## Findings

| source | as written | input that shows it | evidently intended | confidence | as-written member | corrected member |
|---|---|---|---|---|---|---|
| src/app/infrastructure/adapters/repository.py:55-65 | the loop over the mapper's column attributes leaves the last one bound and `all` orders by it; `sorting.sorting_field` is never read | columns `id`, `username`, `is_active`; rows b (`username` "b", inactive) then a (`username` "a", active); sorting `username` ASC returns [b, a] | order by the column named by `sorting_field` | not executed; the loop reads as unfinished code | Repository.All, Repository.AllSortsByWrongColumn | Repository.AllByField |

A listing through a bound repository (`UnitOfWork.FindAll`) keeps the
as-written order, since that is what the program returns; `AllByField`
states the intended one.

## Left out

- Logging, `async`/`await`, and concurrency between requests.
- The message texts of `DataMapperError` (the `DB_*` constants are not part of this model) and of the configuration `ValueError`s; errors carry their kind only.
- `refresh` of the unit of work and the `session` property's "not initialized" error: the session is always supplied at construction.
- Non-storage exceptions passing through `commit`, `rollback` and `flush` untranslated; only engine (`SQLAlchemyError`) failures are modelled.
- Engine failures of the `SELECT` itself inside repository queries: only the autoflush before a query can fail, through its oracle.
- UnitOfWork.Lookup: the session is taken to autoflush, SQLAlchemy's default; an autoflush is logged as a flush attempt even when nothing is pending, and the identity-map hit of `get` is approximated by a persistent row of that key among the rows seen.
- The unused `_pk_column` reflection, the `mapper is None` guard (a mapped class always has a mapper), `unique()` de-duplication of joined rows, and the SQL the engine emits.
- How the engine detects constraint violations: the flush and commit outcomes are oracles.
- The rules inside the `Pagination` constructor, the read gateway's sort-column check, the authorization policy `CanManageRole`, `UserService.create_user` and the `Username`/`RawPassword` validators: the handlers call them as oracles, and the model records each call and propagates each error.
- The `UserListSorting` constructor: it is not part of this model, and the list handler is modelled as building it without failing.
- Whether the command gateway's `add` and the flusher share the unit of work's session: their outcomes are oracles and the handler trace records their calls; the unit of work models only its own commit.
- The mediator, request map and dependency-injection wiring, the HTTP controllers, the meeting-join stub and the access-revocation and identity ports.
- File reading and TOML parsing: the file system is a map from path to parsed document; parse errors are not modelled.
- Repository.All: the order among rows equal on the sort column is storage order in the model, and a page of an unsorted listing is a window of storage order (`AllPaginates` without sorting); SQL promises neither.
- Repository.Delete: removes the first stored copy of the given row; object identity is modelled as value equality (so two equal instances are one instance to `create`, `update` and `delete`), and the instances persistent in the session are passed in rather than derived from identity keys.
- The deleted-object state: after `delete` the model drops the row from the session's view at once, without waiting for the flush that issues the `DELETE`.
