/** The Windows-compatible semaphore entry points of the runtime: CreateSemaphore
    (unnamed, or the named create-or-open protocol), ReleaseSemaphore and
    OpenSemaphore, over a handle table, a namespace of named waitable objects and the
    last-error slot. Each call runs under the locks it takes (the namespace lock for
    the named paths, the handle's own lock around a counter update), so it is modelled
    as one sequential step. */
module W32Semaphore {
  import opened SemCounter

  /** Length of the name buffer of a named semaphore, less its terminating NUL. */
  const MAX_PATH: nat := 260

  newtype byte = x: int | 0 <= x < 256

  datatype Option<T> = None | Some(value: T)

  /** The Win32 error codes this core reports (ERROR_SUCCESS, ERROR_FILE_NOT_FOUND, ...). */
  datatype ErrorCode = Success | FileNotFound | InvalidHandle | GenFailure | InvalidParameter | AlreadyExists

  /** Handle kinds of the handle table; every kind other than the two semaphore kinds
      (mutexes, events, ...) is one `TypeOther`. */
  datatype W32Type = TypeSem | TypeNamedSem | TypeOther(tag: nat)

  /** A `gpointer` handle value as the entry points return it. */
  datatype Ptr = Null | InvalidHandleValue | Handle(id: nat)

  /** A namespace entry: the name is held by a named semaphore, or by a named object of
      another kind. The registry knows a named object by the name the object stores
      (for a semaphore, its truncated name without the NUL), and a search compares
      that stored name with the whole name it is given. */
  datatype NsEntry = NamedSemEntry(h: nat) | OtherKind

  /** What a namespace search for a named semaphore finds. */
  datatype Search = NotFound | KindMismatch | Found(h: nat)

  /** A handle-table entry: the handle's type tag and, for the semaphore kinds, the
      semaphore record it carries. */
  datatype HandleData = SemHandle(htype: W32Type, sem: Semaphore) | OtherHandle(htype: W32Type)

  /** The name bytes a named semaphore keeps: at most MAX_PATH of them. */
  function Truncated(name: seq<byte>): (r: seq<byte>)
    ensures |r| == if |name| < MAX_PATH then |name| else MAX_PATH
    ensures r <= name
  {
    if |name| < MAX_PATH then name else name[..MAX_PATH]
  }

  /** The `sharedns.name` buffer of a new named semaphore: the kept bytes, then NUL. */
  function StoredName(name: seq<byte>): (r: seq<byte>)
    ensures |r| == (if |name| < MAX_PATH then |name| else MAX_PATH) + 1
    ensures r[..|r| - 1] == name[..|r| - 1] && r[|r| - 1] == 0
  {
    Truncated(name) + [0]
  }

  /** The namespace after a new named semaphore with handle id h and the given name is
      registered: it is known by its truncated name, which keeps an earlier holder. */
  function Registered(ns: map<seq<byte>, NsEntry>, name: seq<byte>, h: nat): (r: map<seq<byte>, NsEntry>)
    ensures Truncated(name) in r && r.Keys == ns.Keys + {Truncated(name)}
    ensures Truncated(name) !in ns ==> r[Truncated(name)] == NamedSemEntry(h)
    ensures forall n :: n in ns ==> r[n] == ns[n]
  {
    if Truncated(name) in ns then ns else ns[Truncated(name) := NamedSemEntry(h)]
  }

  /** The handle record of one semaphore: the counter (`val`, `max`), the handle
      table's signal state, the number of broadcasts to waiters the record has caused,
      and, for a named semaphore, its stored name (empty for an unnamed one). */
  class Semaphore {
    var val: uint32
    var max: int32
    var signaled: bool
    var broadcasts: nat
    var name: seq<byte>

    function State(): SemState
      reads this
    {
      SemState(val, max, signaled)
    }

    /** The record as created: counter set from the arguments, then signaled without a
        broadcast when the initial count is not zero. */
    constructor (initial: int32, maximum: int32, name: seq<byte>)
      requires ValidArgs(initial, maximum)
      ensures State() == Init(initial, maximum) && this.name == name && broadcasts == 0
    {
      val := initial as uint32;
      max := maximum;
      signaled := false;
      broadcasts := 0;
      this.name := name;
      new;
      if initial != 0 {
        SetSignalState(true, false);
      }
    }

    /** The handle table's signal-state setter; a broadcast wakes every waiter. */
    method SetSignalState(state: bool, broadcast: bool)
      modifies this
      ensures signaled == state
      ensures broadcasts == old(broadcasts) + (if state && broadcast then 1 else 0)
      ensures val == old(val) && max == old(max) && name == old(name)
    {
      signaled := state;
      if state && broadcast {
        broadcasts := broadcasts + 1;
      }
    }

    /** The `signal` callback: one more unit and a broadcast, unless max would be
        exceeded, in which case nothing changes. */
    method Signal()
      modifies this
      ensures State() == SemCounter.Signal(old(State()))
      ensures broadcasts == old(broadcasts) + (if SignalFits(old(State())) then 1 else 0)
      ensures name == old(name)
    {
      if AddU32(val, 1) > ToUnsigned(max) {
      } else {
        val := AddU32(val, 1);
        SetSignalState(true, true);
      }
    }

    /** The `own` callback: take one unit, always successfully and never abandoned;
        unsignaled, without a broadcast, when the count reaches zero. */
    method Own() returns (owned: bool, abandoned: bool)
      modifies this
      ensures owned && !abandoned
      ensures State() == SemCounter.Own(old(State()))
      ensures broadcasts == old(broadcasts) && name == old(name)
    {
      abandoned := false;
      val := DecU32(val);
      if val == 0 {
        SetSignalState(false, false);
      }
      owned := true;
    }
  }

  /** The handle table, the namespace of named objects and the last-error slot. */
  class W32Runtime {
    var handles: map<nat, HandleData>
    var namespace: map<seq<byte>, NsEntry>
    var lastError: ErrorCode
    var nextHandle: nat

    ghost function Sems(): set<Semaphore>
      reads this
    {
      set h | h in handles && handles[h].SemHandle? :: handles[h].sem
    }

    /** Every live handle id is below nextHandle; semaphore records hang only off the
        two semaphore kinds, each handle has its own record, and each record keeps
        0 <= val <= max. Every name the namespace holds is a stored name, so at most
        MAX_PATH bytes long; one it gives to a named semaphore leads to a live NAMEDSEM
        handle whose record stores that name followed by NUL. */
    ghost predicate Valid()
      reads this, Sems()
    {
      && (forall h :: h in handles ==> h < nextHandle)
      && (forall h :: h in handles ==>
            (handles[h].SemHandle? <==> handles[h].htype == TypeSem || handles[h].htype == TypeNamedSem))
      && (forall h :: h in handles && handles[h].SemHandle? ==> Bounded(handles[h].sem.State()))
      && (forall h1, h2 ::
            (h1 in handles && h2 in handles && handles[h1].SemHandle? && handles[h2].SemHandle?
             && handles[h1].sem == handles[h2].sem) ==> h1 == h2)
      && (forall n :: n in namespace ==> |n| <= MAX_PATH)
      && (forall n :: n in namespace && namespace[n].NamedSemEntry? ==>
            namespace[n].h in handles && handles[namespace[n].h].SemHandle?
            && handles[namespace[n].h].htype == TypeNamedSem
            && handles[namespace[n].h].sem.name == n + [0])
    }

    /** A runtime whose namespace holds only the given names of objects of other kinds;
        those objects, too, store at most MAX_PATH bytes of their names. */
    constructor (otherNames: set<seq<byte>>)
      requires forall n :: n in otherNames ==> |n| <= MAX_PATH
      ensures Valid() && handles == map[] && lastError == Success
      ensures namespace == map n | n in otherNames :: OtherKind
    {
      handles := map[];
      namespace := map n | n in otherNames :: OtherKind;
      lastError := Success;
      nextHandle := 0;
    }

    /** The namespace search for a named semaphore, by the whole converted name. */
    function SearchHandle(name: seq<byte>): (r: Search)
      reads this
      ensures r.NotFound? <==> name !in namespace
      ensures r.KindMismatch? <==> name in namespace && namespace[name].OtherKind?
      ensures r.Found? ==> name in namespace && namespace[name] == NamedSemEntry(r.h)
    {
      if name !in namespace then NotFound
      else match namespace[name]
        case OtherKind => KindMismatch
        case NamedSemEntry(h) => Found(h)
    }

    /** The live semaphore record a handle value leads to, if any. */
    function Target(p: Ptr): set<object>
      reads this
    {
      if p.Handle? && p.id in handles && handles[p.id].SemHandle? then {handles[p.id].sem} else {}
    }

    /** sem_handle_create: allocate a handle of the given semaphore kind around a fresh
        record; a failed allocation sets ERROR_GEN_FAILURE and yields NULL. */
    method NewSemHandle(htype: W32Type, initial: int32, maximum: int32, name: seq<byte>, allocFails: bool)
      returns (p: Ptr)
      requires Valid() && ValidArgs(initial, maximum)
      requires htype == TypeSem || htype == TypeNamedSem
      modifies this
      ensures Valid() && namespace == old(namespace)
      ensures allocFails ==>
        p == Null && lastError == GenFailure && handles == old(handles) && nextHandle == old(nextHandle)
      ensures !allocFails ==>
        && p == Handle(old(nextHandle)) && p.id !in old(handles)
        && handles.Keys == old(handles).Keys + {p.id}
        && (forall h :: h in old(handles) ==> handles[h] == old(handles)[h])
        && handles[p.id].SemHandle? && handles[p.id].htype == htype
        && fresh(handles[p.id].sem)
        && handles[p.id].sem.State() == Init(initial, maximum)
        && handles[p.id].sem.name == name && handles[p.id].sem.broadcasts == 0
        && lastError == old(lastError)
    {
      if allocFails {
        lastError := GenFailure;
        return Null;
      }
      var sem := new Semaphore(initial, maximum, name);
      var id := nextHandle;
      handles := handles[id := SemHandle(htype, sem)];
      nextHandle := nextHandle + 1;
      assert handles[id].htype == htype;
      p := Handle(id);
    }

    /** sem_create: an unnamed semaphore. */
    method SemCreate(initial: int32, maximum: int32, allocFails: bool) returns (p: Ptr)
      requires Valid() && ValidArgs(initial, maximum)
      modifies this
      ensures Valid() && namespace == old(namespace)
      ensures allocFails ==> p == Null && lastError == GenFailure && handles == old(handles)
      ensures !allocFails ==>
        && p == Handle(old(nextHandle)) && p.id !in old(handles)
        && handles.Keys == old(handles).Keys + {p.id}
        && (forall h :: h in old(handles) ==> handles[h] == old(handles)[h])
        && handles[p.id].SemHandle? && handles[p.id].htype == TypeSem
        && fresh(handles[p.id].sem) && handles[p.id].sem.State() == Init(initial, maximum)
        && handles[p.id].sem.name == [] && handles[p.id].sem.broadcasts == 0
        && lastError == old(lastError)
    {
      p := NewSemHandle(TypeSem, initial, maximum, [], allocFails);
    }

    /** namedsem_create: the create-or-open protocol. A name held by another kind gives
        NULL and ERROR_INVALID_HANDLE; a name held by a named semaphore gives that
        handle, untouched, with ERROR_ALREADY_EXISTS; a free name gets a new NAMEDSEM
        handle whose record stores the truncated name, and the namespace records it
        under that truncated name unless another object already holds it there. A name
        longer than MAX_PATH bytes is never found again, as no stored name is that long. */
    method NamedSemCreate(initial: int32, maximum: int32, name: seq<byte>, allocFails: bool)
      returns (p: Ptr)
      requires Valid() && ValidArgs(initial, maximum)
      modifies this
      ensures Valid()
      ensures old(SearchHandle(name)).KindMismatch? ==>
        && p == Null && lastError == InvalidHandle
        && handles == old(handles) && namespace == old(namespace)
      ensures old(SearchHandle(name)).Found? ==>
        && p == Handle(old(SearchHandle(name)).h) && lastError == AlreadyExists
        && handles == old(handles) && namespace == old(namespace)
        && p.id in handles && handles[p.id].htype == TypeNamedSem
      ensures old(SearchHandle(name)).NotFound? && allocFails ==>
        && p == Null && lastError == GenFailure
        && handles == old(handles) && namespace == old(namespace)
      ensures old(SearchHandle(name)).NotFound? && !allocFails ==>
        && p == Handle(old(nextHandle)) && p.id !in old(handles)
        && handles.Keys == old(handles).Keys + {p.id}
        && (forall h :: h in old(handles) ==> handles[h] == old(handles)[h])
        && handles[p.id].SemHandle? && handles[p.id].htype == TypeNamedSem
        && fresh(handles[p.id].sem) && handles[p.id].sem.State() == Init(initial, maximum)
        && handles[p.id].sem.name == StoredName(name) && handles[p.id].sem.broadcasts == 0
        && namespace == Registered(old(namespace), name, p.id)
        && lastError == old(lastError)
      ensures |name| > MAX_PATH ==> old(SearchHandle(name)).NotFound?
    {
      var found := SearchHandle(name);
      match found {
        case KindMismatch =>
          p := Null;
          lastError := InvalidHandle;
        case Found(h) =>
          lastError := AlreadyExists;
          p := Handle(h);
        case NotFound =>
          p := NewSemHandle(TypeNamedSem, initial, maximum, StoredName(name), allocFails);
          if p.Handle? {
            namespace := Registered(namespace, name, p.id);
          }
      }
    }

    /** CreateSemaphore. Bad arguments give NULL and ERROR_INVALID_PARAMETER through
        the error result alone, before any state is touched. Otherwise the last error is
        cleared, the unnamed or named creation runs, and the error result is the last
        error it leaves, so ERROR_ALREADY_EXISTS reaches the caller beside a valid
        handle. */
    method CreateSemaphore(initialCount: int32, maximumCount: int32, name: Option<seq<byte>>, allocFails: bool)
      returns (p: Ptr, error: ErrorCode)
      requires Valid()
      modifies this
      ensures Valid()
      ensures !ValidArgs(initialCount, maximumCount) ==>
        && p == Null && error == InvalidParameter
        && handles == old(handles) && namespace == old(namespace)
        && lastError == old(lastError) && nextHandle == old(nextHandle)
      ensures ValidArgs(initialCount, maximumCount) ==> error == lastError
      ensures name.Some? && |name.value| > MAX_PATH ==> old(SearchHandle(name.value)).NotFound?
      ensures ValidArgs(initialCount, maximumCount) && allocFails && (name.None? || old(SearchHandle(name.value)).NotFound?) ==>
        && p == Null && error == GenFailure
        && handles == old(handles) && namespace == old(namespace)
      ensures ValidArgs(initialCount, maximumCount) && !allocFails && name.None? ==>
        && p == Handle(old(nextHandle)) && p.id !in old(handles)
        && handles.Keys == old(handles).Keys + {p.id}
        && (forall h :: h in old(handles) ==> handles[h] == old(handles)[h])
        && handles[p.id].SemHandle? && handles[p.id].htype == TypeSem
        && fresh(handles[p.id].sem) && handles[p.id].sem.State() == Init(initialCount, maximumCount)
        && handles[p.id].sem.name == [] && handles[p.id].sem.broadcasts == 0
        && namespace == old(namespace) && error == Success
      ensures ValidArgs(initialCount, maximumCount) && name.Some? && old(SearchHandle(name.value)).KindMismatch? ==>
        && p == Null && error == InvalidHandle
        && handles == old(handles) && namespace == old(namespace)
      ensures ValidArgs(initialCount, maximumCount) && name.Some? && old(SearchHandle(name.value)).Found? ==>
        && p == Handle(old(SearchHandle(name.value)).h) && error == AlreadyExists
        && handles == old(handles) && namespace == old(namespace)
      ensures ValidArgs(initialCount, maximumCount) && name.Some? && old(SearchHandle(name.value)).NotFound? && !allocFails ==>
        && p == Handle(old(nextHandle)) && p.id !in old(handles)
        && handles.Keys == old(handles).Keys + {p.id}
        && (forall h :: h in old(handles) ==> handles[h] == old(handles)[h])
        && handles[p.id].SemHandle? && handles[p.id].htype == TypeNamedSem
        && fresh(handles[p.id].sem) && handles[p.id].sem.State() == Init(initialCount, maximumCount)
        && handles[p.id].sem.name == StoredName(name.value)
        && handles[p.id].sem.broadcasts == 0
        && namespace == Registered(old(namespace), name.value, p.id)
        && error == Success
    {
      if maximumCount <= 0 {
        return Null, InvalidParameter;
      }
      if initialCount > maximumCount || initialCount < 0 {
        return Null, InvalidParameter;
      }
      lastError := Success;
      if name.None? {
        p := SemCreate(initialCount, maximumCount, allocFails);
      } else {
        p := NamedSemCreate(initialCount, maximumCount, name.value, allocFails);
      }
      error := lastError;
    }

    /** ReleaseSemaphore. A handle value that is not live, or whose kind is not a
        semaphore kind, gives FALSE and ERROR_INVALID_HANDLE and changes no record.
        Otherwise the previous count is reported whatever happens, and the release
        succeeds (adding the count, signaling with a broadcast) exactly as the 32-bit
        overflow test of SemCounter.Release decides; the last error is left alone. */
    method ReleaseSemaphore(handle: Ptr, releaseCount: int32) returns (ok: bool, prevcount: Option<int32>)
      requires Valid()
      modifies this`lastError, Target(handle)
      ensures Valid()
      ensures Target(handle) == {} ==> !ok && prevcount == None && lastError == InvalidHandle
      ensures Target(handle) != {} ==>
        var sem := handles[handle.id].sem;
        var r := SemCounter.Release(old(sem.State()), releaseCount);
        && ok == r.ok && prevcount == Some(r.prev as int32) && sem.State() == r.after
        && sem.broadcasts == old(sem.broadcasts) + (if ok then 1 else 0)
        && sem.name == old(sem.name) && lastError == old(lastError)
    {
      if !(handle.Handle? && handle.id in handles) {
        lastError := InvalidHandle;
        return false, None;
      }
      var data := handles[handle.id];
      if data.htype != TypeSem && data.htype != TypeNamedSem {
        lastError := InvalidHandle;
        return false, None;
      }
      var sem := data.sem;
      prevcount := Some(sem.val as int32);
      if AddU32(sem.val, ToUnsigned(releaseCount)) > ToUnsigned(sem.max) {
        ok := false;
      } else {
        sem.val := AddU32(sem.val, ToUnsigned(releaseCount));
        sem.SetSignalState(true, true);
        ok := true;
      }
    }

    /** OpenSemaphore: a namespace lookup that never creates and changes nothing. A free
        name gives NULL and ERROR_FILE_NOT_FOUND; a name held by another kind gives
        INVALID_HANDLE_VALUE and ERROR_INVALID_HANDLE; a named semaphore's name gives
        its live handle and ERROR_SUCCESS. */
    method OpenSemaphore(name: seq<byte>) returns (p: Ptr, error: ErrorCode)
      requires Valid()
      ensures name !in namespace <==> p == Null
      ensures p == Null ==> error == FileNotFound
      ensures (name in namespace && namespace[name].OtherKind?) <==> p == InvalidHandleValue
      ensures p == InvalidHandleValue ==> error == InvalidHandle
      ensures p.Handle? <==> error == Success
      ensures p.Handle? ==>
        && name in namespace && namespace[name] == NamedSemEntry(p.id)
        && p.id in handles && handles[p.id].htype == TypeNamedSem
        && handles[p.id].sem.name == name + [0]
      ensures |name| > MAX_PATH ==> p == Null && error == FileNotFound
    {
      error := Success;
      var found := SearchHandle(name);
      match found {
        case KindMismatch =>
          p := InvalidHandleValue;
          error := InvalidHandle;
        case NotFound =>
          p := Null;
          error := FileNotFound;
        case Found(h) =>
          p := Handle(h);
      }
    }
  }

  /** A client of the entry points: two creations under one name share one handle
      and one counter, and an open finds that handle and its count. */
  method SharedNameClient()
  {
    var rt := new W32Runtime({});
    var p1, e1 := rt.CreateSemaphore(0, 1, Some([65]), false);
    assert e1 == Success && p1.Handle?;
    var p2, e2 := rt.CreateSemaphore(0, 1, Some([65]), false);
    assert e2 == AlreadyExists && p2 == p1;
    var ok, prev := rt.ReleaseSemaphore(p2, 1);
    assert ok && prev == Some(0);
    var p3, e3 := rt.OpenSemaphore([65]);
    assert p3 == p1 && e3 == Success;
    ok, prev := rt.ReleaseSemaphore(p3, 1);
    assert !ok && prev == Some(1);
  }

  /** A client of the entry points: a name held by another kind is refused by creation
      and by open, an absent name is not found, and bad counts are refused. */
  method RefusalsClient()
  {
    var rt := new W32Runtime({[109, 120]});
    var p1, e1 := rt.CreateSemaphore(0, 1, Some([109, 120]), false);
    assert p1 == Null && e1 == InvalidHandle;
    var p2, e2 := rt.OpenSemaphore([109, 120]);
    assert p2 == InvalidHandleValue && e2 == InvalidHandle;
    var p3, e3 := rt.OpenSemaphore([66]);
    assert p3 == Null && e3 == FileNotFound;
    var p4, e4 := rt.CreateSemaphore(3, 2, None, false);
    assert p4 == Null && e4 == InvalidParameter;
  }

  /** A client of the entry points: a name longer than MAX_PATH bytes is stored
      truncated, so a second creation under it makes a second semaphore and an open
      does not find it; the truncated name does find the first one. */
  method LongNameClient()
  {
    var rt := new W32Runtime({});
    var long: seq<byte> := seq(MAX_PATH + 1, i => 65);
    var p1, e1 := rt.CreateSemaphore(0, 1, Some(long), false);
    assert e1 == Success && p1.Handle?;
    var p2, e2 := rt.CreateSemaphore(0, 1, Some(long), false);
    assert e2 == Success && p2.Handle? && p2 != p1;
    var p3, e3 := rt.OpenSemaphore(long);
    assert p3 == Null && e3 == FileNotFound;
    var p4, e4 := rt.OpenSemaphore(long[..MAX_PATH]);
    assert p4 == p1 && e4 == Success;
  }
}
