# Windows-compatible semaphores of the Mono runtime on Unix

This project models `mono/metadata/w32semaphore-unix.c`: the counting semaphore that the
runtime exposes to `System.Threading.Semaphore` on Unix hosts, built over the runtime's
generic handle table (`MonoW32Handle`) and its namespace of named waitable objects.

- `counter.dfy`, module `SemCounter`: the semaphore record `MonoW32HandleSemaphore`
  (`val` a guint32, `max` a gint32) together with the handle's signal flag, and the
  three transitions applied to it: the release step of ReleaseSemaphore, the handle
  table's `signal` callback and its `own` callback. The C arithmetic is explicit:
  `ToUnsigned` is the `(guint32)` cast, `AddU32` the wrapping guint32 sum, `DecU32` the
  wrapping `val--`. The overflow test `val + releaseCount > (guint32)max` is computed in
  that arithmetic. Lemmas state what the transitions mean on bounded states and that
  every state reachable through allowed events keeps `0 <= val <= max` and
  `signaled <==> val > 0`.
- `w32semaphore.dfy`, module `W32Semaphore`: class `Semaphore` is a handle's record,
  updated in place by the `signal` and `own` callbacks and by ReleaseSemaphore. Class
  `W32Runtime` holds the handle table (a map from handle id to type tag and record),
  the namespace (a map from name to a named semaphore's handle or to a name held by
  another kind of object) and the last-error slot. Its methods are the file's
  functions: `NewSemHandle` (sem_handle_create), `SemCreate`, `NamedSemCreate` (the
  create-or-open protocol), and the three entry points `CreateSemaphore`,
  `ReleaseSemaphore` and `OpenSemaphore`. `Valid()` is the table's invariant: every
  record is bounded, each handle has its own record, and every namespace entry of a
  named semaphore leads to a live NAMEDSEM handle storing that name.

Handle values are `Ptr`: `Null`, `InvalidHandleValue` or a live handle id. Names are the
UTF-8 bytes the runtime converts the managed string to. Error codes are the symbolic
Win32 codes (ERROR_SUCCESS, ERROR_INVALID_HANDLE, ...).

The namespace knows every named object by the name it stores, which keeps at most
MAX_PATH (260) bytes, and a search compares that stored name with the whole converted
name. So a name longer than 260 bytes is never found: each creation under it makes a
new semaphore, and OpenSemaphore reports it as not found.

Behaviour kept as the code has it:
- OpenSemaphore returns `INVALID_HANDLE_VALUE`, not NULL, when the name belongs to
  another kind of object. The search result is left in the handle and returned from
  the cleanup label.
- CreateSemaphore's argument checks report ERROR_INVALID_PARAMETER through the error
  result only. They do not write the last-error slot.
- A present but empty name takes the named path.
- Release of a count below 1 is not refused. `ReleaseExact` shows the 32-bit test is
  still exact, so `val <= max` holds for every count. But a release that brings `val`
  to 0 (a count of `-val`, e.g. 0 on an empty semaphore) leaves the handle signaled
  with nothing to take (`ZeroReleaseBreaksCoherence`). The managed
  `Semaphore.Release` rejects counts below 1 before calling the runtime, so the
  reachability lemma `RunKeepsInv` assumes releases of at least 1.

## Model

| member | source | states |
|---|---|---|
| SemCounter.ToUnsigned | mono/metadata/w32semaphore-unix.c:299 | the `(guint32)` cast yields the residue of a gint32 modulo 2^32, the value itself when non-negative |
| SemCounter.AddU32 | mono/metadata/w32semaphore-unix.c:299 | guint32 addition is the mathematical sum, less 2^32 when it does not fit |
| SemCounter.DecU32 | mono/metadata/w32semaphore-unix.c:63 | `val--` subtracts one from a positive value and wraps 0 to 2^32 - 1 |
| SemCounter.Init | mono/metadata/w32semaphore-unix.c:145-165 | a new record has `val == initial`, `max == max`, is signaled exactly when initial != 0, and satisfies the invariant |
| SemCounter.Release | mono/metadata/w32semaphore-unix.c:293-312 | the previous count is reported on both paths, max never changes, a refused release leaves the state unchanged and a successful one signals; `ReleaseExact` gives its exact success condition and new count |
| SemCounter.ReleaseExact | mono/metadata/w32semaphore-unix.c:293-312 | on a bounded record, for every gint32 count (negative too), the previous count is reported on both paths; the release succeeds iff 0 <= val + n <= max; success stores val + n and signals; failure leaves the record unchanged |
| SemCounter.ReleaseKeepsBounded | mono/metadata/w32semaphore-unix.c:299-308 | no release, whatever its count, takes a bounded record beyond max |
| SemCounter.ReleaseCoherence | mono/metadata/w32semaphore-unix.c:299-309 | a release keeps `signaled <==> val > 0` exactly unless it succeeds with val + n == 0; a release of at least 1 keeps the full invariant |
| SemCounter.ZeroReleaseBreaksCoherence | mono/metadata/w32semaphore-unix.c:299-309 | a release of 0 on an empty semaphore succeeds and leaves it signaled with val 0; owning it then wraps val to 2^32 - 1, beyond max |
| SemCounter.Signal | mono/metadata/w32semaphore-unix.c:40-49 | max never changes; when the state changes, it is signaled and val is the guint32 val + 1, within (guint32)max; `SignalExact` says when that happens |
| SemCounter.SignalExact | mono/metadata/w32semaphore-unix.c:40-49 | the `signal` callback adds one unit exactly when val < max and otherwise changes nothing; it keeps the invariant |
| SemCounter.Own | mono/metadata/w32semaphore-unix.c:63-66 | max never changes, a positive val drops by one, and the handle stays signaled exactly when it was and val is not 0; `OwnExact` gives the invariant |
| SemCounter.OwnExact | mono/metadata/w32semaphore-unix.c:63-66 | owning a signaled, consistent record takes exactly one unit, keeps the invariant and leaves it signaled iff units remain |
| SemCounter.OwnAtZeroWraps | mono/metadata/w32semaphore-unix.c:63-66 | owning a record with val 0 wraps val to 2^32 - 1, beyond any max |
| SemCounter.RacingReleasesOneWins | mono/metadata/w32semaphore-unix.c:291-314 | two positive releases that each fit but not together: in either order exactly one succeeds and val stays within max |
| SemCounter.RunKeepsInv | mono/metadata/w32semaphore-unix.c:30-69 | every state reachable from a consistent one by releases of at least 1, signals, and owns of signaled handles keeps 0 <= val <= max and signaled <==> val > 0 |
| W32Semaphore.Truncated | mono/metadata/w32semaphore-unix.c:217 | a named semaphore keeps a prefix of its name of exactly min(len, MAX_PATH) bytes, MAX_PATH being 260 |
| W32Semaphore.StoredName | mono/metadata/w32semaphore-unix.c:217-219 | the stored name is the first min(len, 260) bytes followed by NUL |
| W32Semaphore.Registered | mono/metadata/w32semaphore-unix.c:217-221 | a new named semaphore becomes known to the namespace under its truncated name, an earlier holder of that name is kept, and no other entry changes |
| W32Semaphore.W32Runtime.SearchHandle | mono/metadata/w32semaphore-unix.c:203-213 | the namespace search by the whole converted name: not found exactly when no stored name equals it, a kind mismatch exactly when another kind holds it, otherwise the named semaphore's handle registered under it |
| W32Semaphore.Semaphore.constructor | mono/metadata/w32semaphore-unix.c:145-165 | a new record holds `Init(initial, max)` and the name, and no broadcast was made |
| W32Semaphore.Semaphore.SetSignalState | mono/metadata/w32semaphore-unix.c:48 | the handle table's setter sets the signal flag and counts a broadcast only when it signals with broadcast |
| W32Semaphore.Semaphore.Signal | mono/metadata/w32semaphore-unix.c:30-50 | the record moves as `SemCounter.Signal`, with one broadcast exactly when a unit was added |
| W32Semaphore.Semaphore.Own | mono/metadata/w32semaphore-unix.c:52-69 | returns TRUE and never abandoned; the record moves as `SemCounter.Own`, without a broadcast |
| W32Semaphore.W32Runtime.NewSemHandle | mono/metadata/w32semaphore-unix.c:139-175 | allocation failure gives NULL and ERROR_GEN_FAILURE with the table unchanged; otherwise a fresh id of the given kind holds a fresh record in the initial state, every other entry and the namespace are unchanged, and the invariant holds |
| W32Semaphore.W32Runtime.SemCreate | mono/metadata/w32semaphore-unix.c:177-184 | the same, for the SEM kind, with no stored name |
| W32Semaphore.W32Runtime.NamedSemCreate | mono/metadata/w32semaphore-unix.c:186-229 | a name of another kind gives NULL and ERROR_INVALID_HANDLE; a named semaphore's name gives its handle and ERROR_ALREADY_EXISTS with nothing changed (no re-initialisation); a free name gives a new NAMEDSEM handle with the stored name, registered under its truncated name; allocation failure leaves table and namespace unchanged; a name over MAX_PATH bytes always finds nothing and takes the creation path |
| W32Semaphore.W32Runtime.CreateSemaphore | mono/metadata/w32semaphore-unix.c:231-264 | max <= 0, initial < 0 or initial > max give NULL and ERROR_INVALID_PARAMETER with no state touched; otherwise the error result is the last error left by the creation, ERROR_SUCCESS unless a path set another, per each outcome of the unnamed and named paths; a new record is in the initial state, signaled without a broadcast; a name over MAX_PATH bytes always finds nothing and takes the creation path |
| W32Semaphore.W32Runtime.ReleaseSemaphore | mono/metadata/w32semaphore-unix.c:266-318 | an unknown handle or one of another kind gives FALSE and ERROR_INVALID_HANDLE and no record changes; otherwise the previous count is reported on both paths, and the result, the record and the broadcast follow `SemCounter.Release`; only the target record and the last-error slot can change |
| W32Semaphore.W32Runtime.OpenSemaphore | mono/metadata/w32semaphore-unix.c:320-354 | never creates or changes anything; a free name gives NULL and ERROR_FILE_NOT_FOUND, a name of another kind gives INVALID_HANDLE_VALUE and ERROR_INVALID_HANDLE, and a named semaphore's name gives its live NAMEDSEM handle, whose stored name is the given name and NUL, and ERROR_SUCCESS, each case exactly; a name over MAX_PATH bytes gives NULL and ERROR_FILE_NOT_FOUND |

## Left out

- Locking: the namespace lock and the per-handle locks only bracket the transitions. Each entry point is modelled as one atomic step, and concurrent calls as their sequential interleavings (`RacingReleasesOneWins`).
- Handle table internals: allocation, `lookup_and_ref`, reference counts (`ref`/`unref`) and handle destruction. Handles are ids in a map and are never closed. Allocation failure is the `allocFails` parameter.
- The wait scheduler: the `signal` and `own` callbacks are modelled, but not their callers. `broadcasts` counts the wake-ups the table is asked for; which waiters wake is not modelled.
- The `g_error` aborts after allocation (lines 156-160) cannot happen in the model: the new entry is checked by an `assert`.
- The UTF-16 to UTF-8 conversion of names, including its failure on invalid UTF-16. Names arrive as bytes.
- NamedSemCreate: when a name over MAX_PATH bytes truncates to a name the namespace already holds, the source keeps two objects with one stored name and a later search finds whichever the handle table visits first; the model keeps the earlier holder in the namespace (`Registered`).
- Named objects of other kinds are given to the runtime's constructor; like named semaphores they store at most MAX_PATH bytes of their names, which the constructor requires.
- The namespace code that compares names is not part of this model; it is taken to compare the stored name with the whole converted name, as `mono_w32semaphore_get_namespace` exposes only the stored name.
- The last-error slot is per thread in the runtime; the model has one slot.
- Tracing and warnings (`mono_trace`, `g_warning`), the `details` printers, the typename/typesize helpers and the ops and capability registration of `mono_w32semaphore_init`. None of them changes semaphore state.
- `mono_w32semaphore_get_namespace`: a field accessor used by the namespace search. The model keeps the name in `Semaphore.name`.
- The unused `rights` parameter of OpenSemaphore, and the NULL `prevcount` pointer case (the previous count is always returned when a record was reached).
