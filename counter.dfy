/** The counter payload of a semaphore handle (`MonoW32HandleSemaphore`) and the
    transitions the handle's callbacks and ReleaseSemaphore apply to it, together with
    the handle table's signal flag. All arithmetic is the C arithmetic of the record:
    `val` is a guint32, `max` a gint32, and sums wrap modulo 2^32. */
module SemCounter {

  const TWO_32: int := 0x1_0000_0000

  newtype uint32 = x: int | 0 <= x < 0x1_0000_0000
  newtype int32 = x: int | -0x8000_0000 <= x < 0x8000_0000

  /** C's conversion `(guint32) x` of a gint32: the residue of x modulo 2^32. */
  function ToUnsigned(x: int32): (r: uint32)
    ensures (r as int - x as int) % TWO_32 == 0
    ensures x >= 0 ==> r as int == x as int
  {
    if x < 0 then (x as int + TWO_32) as uint32 else x as uint32
  }

  /** guint32 addition: the mathematical sum, less 2^32 when it does not fit. */
  function AddU32(a: uint32, b: uint32): (r: uint32)
    ensures r as int == if a as int + b as int < TWO_32 then a as int + b as int
                        else a as int + b as int - TWO_32
  {
    ((a as int + b as int) % TWO_32) as uint32
  }

  /** guint32 decrement `val--`: wraps from 0 to 2^32 - 1. */
  function DecU32(a: uint32): (r: uint32)
    ensures a > 0 ==> r as int == a as int - 1
    ensures a == 0 ==> r as int == TWO_32 - 1
  {
    ((a as int - 1) % TWO_32) as uint32
  }

  /** The counter of one semaphore handle and the handle's signal state. */
  datatype SemState = SemState(val: uint32, max: int32, signaled: bool)

  /** The documented counter invariant 0 <= val <= max, with a positive max. */
  predicate Bounded(s: SemState)
  {
    0 < s.max && s.val as int <= s.max as int
  }

  /** The signal state shows whether a waiter may take a unit. */
  predicate Coherent(s: SemState)
  {
    s.signaled <==> s.val > 0
  }

  predicate Inv(s: SemState)
  {
    Bounded(s) && Coherent(s)
  }

  /** Arguments CreateSemaphore accepts: 0 < max and 0 <= initial <= max. */
  predicate ValidArgs(initial: int32, max: int32)
  {
    0 < max && 0 <= initial && initial <= max
  }

  /** A freshly created semaphore: `val = initial`, `max = max`, and the handle is
      signaled exactly when initial != 0. */
  function Init(initial: int32, max: int32): (s: SemState)
    requires ValidArgs(initial, max)
    ensures Inv(s)
    ensures s.val as int == initial as int && s.max == max
  {
    SemState(initial as uint32, max, initial != 0)
  }

  /** The overflow test of ReleaseSemaphore, `val + releaseCount > (guint32)max`
      negated, with the sum computed in guint32. */
  predicate ReleaseFits(s: SemState, n: int32)
  {
    AddU32(s.val, ToUnsigned(n)) <= ToUnsigned(s.max)
  }

  datatype ReleaseResult = ReleaseResult(ok: bool, prev: uint32, after: SemState)

  /** The locked section of ReleaseSemaphore: report the previous count, then either
      refuse (overflow) or add the count and signal. */
  function Release(s: SemState, n: int32): (r: ReleaseResult)
    ensures r.prev == s.val
    ensures r.after.max == s.max
    ensures !r.ok ==> r.after == s
    ensures r.ok ==> r.after.signaled
  {
    if ReleaseFits(s, n) then
      ReleaseResult(true, s.val, SemState(AddU32(s.val, ToUnsigned(n)), s.max, true))
    else
      ReleaseResult(false, s.val, s)
  }

  /** The test of the `signal` callback, `val + 1 > (guint32)max` negated. */
  predicate SignalFits(s: SemState)
  {
    AddU32(s.val, 1) <= ToUnsigned(s.max)
  }

  /** The `signal` callback: add one unit unless that would exceed max. */
  function Signal(s: SemState): (r: SemState)
    ensures r.max == s.max
    ensures r != s ==> r.signaled && r.val == AddU32(s.val, 1) && r.val <= ToUnsigned(s.max)
  {
    if SignalFits(s) then SemState(AddU32(s.val, 1), s.max, true) else s
  }

  /** The `own` callback: take one unit; the handle becomes unsignaled when the
      count reaches zero. */
  function Own(s: SemState): (r: SemState)
    ensures r.max == s.max
    ensures s.val > 0 ==> r.val as int == s.val as int - 1
    ensures r.signaled <==> s.signaled && r.val != 0
  {
    var v := DecU32(s.val);
    SemState(v, s.max, if v == 0 then false else s.signaled)
  }

  /** Release's 32-bit test is exact on bounded states: for every gint32 count, also a
      negative one, the release succeeds iff 0 <= val + n <= max in mathematical
      integers, a success stores exactly val + n, and the previous count is reported
      on both paths. */
  lemma ReleaseExact(s: SemState, n: int32)
    requires Bounded(s)
    ensures Release(s, n).prev == s.val
    ensures Release(s, n).ok <==> 0 <= s.val as int + n as int <= s.max as int
    ensures Release(s, n).ok ==>
      Release(s, n).after.val as int == s.val as int + n as int
      && Release(s, n).after.max == s.max && Release(s, n).after.signaled
    ensures !Release(s, n).ok ==> Release(s, n).after == s
  {
  }

  /** Whatever the count, a release never pushes a bounded counter beyond max. */
  lemma ReleaseKeepsBounded(s: SemState, n: int32)
    requires Bounded(s)
    ensures Bounded(Release(s, n).after)
  {
  }

  /** From a consistent state, a release keeps the signal state consistent unless it
      succeeds with a count that brings val to exactly zero (n == -val, n <= 0). In
      particular every release of a positive count keeps the full invariant. */
  lemma ReleaseCoherence(s: SemState, n: int32)
    requires Inv(s)
    ensures Inv(Release(s, n).after) <==> !(Release(s, n).ok && s.val as int + n as int == 0)
    ensures n >= 1 ==> Inv(Release(s, n).after)
  {
  }

  /** A release of 0 on an empty semaphore succeeds and leaves the handle signaled with
      nothing to take; a waiter that then owns it wraps the count to 2^32 - 1. The
      managed front end rejects counts below 1, so this never reaches the runtime. */
  lemma ZeroReleaseBreaksCoherence()
    ensures var s := SemState(0, 1, false);
      Release(s, 0).ok && Release(s, 0).after.signaled && Release(s, 0).after.val == 0
      && Own(Release(s, 0).after).val as int == TWO_32 - 1
      && !Bounded(Own(Release(s, 0).after))
  {
  }

  /** The `signal` callback adds one unit exactly when val < max and otherwise changes
      nothing; it keeps the invariant. */
  lemma SignalExact(s: SemState)
    requires Bounded(s)
    ensures s.val as int < s.max as int ==>
      Signal(s) == SemState((s.val as int + 1) as uint32, s.max, true)
    ensures s.val as int == s.max as int ==> Signal(s) == s
    ensures Bounded(Signal(s))
    ensures Coherent(s) ==> Coherent(Signal(s))
  {
  }

  /** The `own` callback, run by the scheduler only on a signaled handle, takes exactly
      one unit, keeps the invariant, and leaves the handle signaled iff units remain. */
  lemma OwnExact(s: SemState)
    requires Inv(s) && s.signaled
    ensures Own(s).val as int == s.val as int - 1 && Own(s).max == s.max
    ensures Inv(Own(s))
    ensures Own(s).signaled <==> Own(s).val > 0
  {
  }

  /** Owning a semaphore with no units wraps its count above any max. */
  lemma OwnAtZeroWraps(s: SemState)
    requires Bounded(s) && s.val == 0
    ensures Own(s).val as int == TWO_32 - 1
    ensures !Bounded(Own(s))
  {
  }

  /** Two releases racing on one handle are linearised by the handle's lock. If each
      fits alone but not both together, exactly one of them succeeds in either order,
      and the count never exceeds max. */
  lemma RacingReleasesOneWins(s: SemState, a: int32, b: int32)
    requires Bounded(s) && a >= 1 && b >= 1
    requires s.val as int + a as int <= s.max as int
    requires s.val as int + b as int <= s.max as int
    requires s.val as int + a as int + b as int > s.max as int
    ensures Release(s, a).ok && !Release(Release(s, a).after, b).ok
    ensures Release(s, b).ok && !Release(Release(s, b).after, a).ok
    ensures Bounded(Release(Release(s, a).after, b).after)
    ensures Bounded(Release(Release(s, b).after, a).after)
  {
  }

  /** What happens to one handle over time: releases through ReleaseSemaphore, the
      handle table's `signal` callback, and a waiter owning the handle. */
  datatype Event = Released(n: int32) | Signalled | Owned

  function Step(s: SemState, e: Event): SemState
  {
    match e
    case Released(n) => Release(s, n).after
    case Signalled => Signal(s)
    case Owned => Own(s)
  }

  /** What the surrounding runtime allows: managed callers release at least one unit,
      and the scheduler lets a waiter own only a signaled handle. */
  predicate Allowed(s: SemState, e: Event)
  {
    match e
    case Released(n) => n >= 1
    case Signalled => true
    case Owned => s.signaled
  }

  function Run(s: SemState, es: seq<Event>): SemState
    decreases |es|
  {
    if es == [] then s else Run(Step(s, es[0]), es[1..])
  }

  predicate AllowedRun(s: SemState, es: seq<Event>)
    decreases |es|
  {
    es == [] || (Allowed(s, es[0]) && AllowedRun(Step(s, es[0]), es[1..]))
  }

  /** Every state reachable from a consistent one by allowed events keeps
      0 <= val <= max and a signal state that matches val > 0. */
  lemma {:induction false} RunKeepsInv(s: SemState, es: seq<Event>)
    requires Inv(s) && AllowedRun(s, es)
    ensures Inv(Run(s, es))
    decreases |es|
  {
    if es != [] {
      match es[0] {
        case Released(n) => ReleaseCoherence(s, n);
        case Signalled => SignalExact(s);
        case Owned => OwnExact(s);
      }
      RunKeepsInv(Step(s, es[0]), es[1..]);
    }
  }
}
