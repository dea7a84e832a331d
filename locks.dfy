/**
 * The per-node reader/writer lock with writer priority: a count of granted
 * shared holders, a count of exclusive requests not yet granted, and a flag
 * for a granted exclusive holder. Blocking (`while (...) wait()`) becomes a
 * guard: a grant step may only be taken in a state where the Java loop exits.
 */
module Locks {
  import opened Wrappers

  /** The three fields of one lock: `readReqeust`, `writeRequest`, `isWriting`. */
  datatype LockState = LockState(readRequests: int, writeRequests: int, isWriting: bool)

  /** A lock as the constructor leaves it. */
  const FRESH: LockState := LockState(0, 0, false)

  /** The exit condition of the wait loop in `lockShared`. */
  predicate CanShare(s: LockState)
  {
    s.writeRequests == 0 && !s.isWriting
  }

  /** The exit condition of the wait loop in `lockExclusive`. */
  predicate CanGrantExclusive(s: LockState)
  {
    s.readRequests == 0 && !s.isWriting
  }

  /** `lockShared` once its wait loop has exited. */
  function AcquireShared(s: LockState): LockState
  {
    s.(readRequests := s.readRequests + 1)
  }

  /** First half of `lockExclusive`: register the request before waiting. */
  function RequestExclusive(s: LockState): LockState
  {
    s.(writeRequests := s.writeRequests + 1)
  }

  /** Second half of `lockExclusive`, after its wait loop has exited. */
  function GrantExclusive(s: LockState): LockState
  {
    s.(writeRequests := s.writeRequests - 1, isWriting := true)
  }

  function ReleaseShared(s: LockState): LockState
  {
    s.(readRequests := s.readRequests - 1)
  }

  function ReleaseExclusive(s: LockState): LockState
  {
    s.(isWriting := false)
  }

  /** Never a shared holder and the exclusive holder at once. */
  predicate MutualExclusion(s: LockState)
  {
    !(s.readRequests > 0 && s.isWriting)
  }

  /** The steps a thread can take on one lock. */
  datatype Event = AcquireSharedEvent | ReleaseSharedEvent
                 | RequestExclusiveEvent | GrantExclusiveEvent | ReleaseExclusiveEvent

  /**
   * One step, or None when the step is blocked. A grant of exclusive access
   * is only taken by a thread that has requested it, so it also needs a
   * pending request. Releases never block (the Java code does not check
   * that the caller holds the lock).
   */
  function Step(s: LockState, e: Event): Option<LockState>
  {
    match e
    case AcquireSharedEvent => if CanShare(s) then Some(AcquireShared(s)) else None
    case ReleaseSharedEvent => Some(ReleaseShared(s))
    case RequestExclusiveEvent => Some(RequestExclusive(s))
    case GrantExclusiveEvent =>
      if CanGrantExclusive(s) && s.writeRequests > 0 then Some(GrantExclusive(s)) else None
    case ReleaseExclusiveEvent => Some(ReleaseExclusive(s))
  }

  /** Apply a sequence of steps; None if one of them is blocked. */
  function Run(s: LockState, es: seq<Event>): Option<LockState>
    decreases |es|
  {
    if es == [] then Some(s)
    else match Step(s, es[0])
      case None => None
      case Some(t) => Run(t, es[1..])
  }

  lemma FreshIsIdle()
    ensures FRESH.readRequests == 0 && FRESH.writeRequests == 0 && !FRESH.isWriting
    ensures CanShare(FRESH) && CanGrantExclusive(FRESH)
  {
  }

  /** Writer priority at the level of one state: a pending request blocks every shared grant. */
  lemma PendingWriterBlocksReaders(s: LockState)
    requires s.writeRequests > 0
    ensures Step(s, AcquireSharedEvent) == None
  {
  }

  /** Every step keeps the two kinds of holder apart, whoever issues the release. */
  lemma StepKeepsMutualExclusion(s: LockState, e: Event)
    requires MutualExclusion(s) && Step(s, e).Some?
    ensures MutualExclusion(Step(s, e).value)
  {
  }

  /** Mutual exclusion holds after any run that starts from a state where it holds. */
  lemma {:induction false} RunKeepsMutualExclusion(s: LockState, es: seq<Event>)
    requires MutualExclusion(s) && Run(s, es).Some?
    ensures MutualExclusion(Run(s, es).value)
    decreases |es|
  {
    if es != [] {
      var t := Step(s, es[0]).value;
      assert MutualExclusion(t) by {
        if es[0] == ReleaseSharedEvent {
          assert t.readRequests == s.readRequests - 1;
        }
      }
      RunKeepsMutualExclusion(t, es[1..]);
    }
  }

  /**
   * Writer priority over time: once an exclusive request is pending, no run
   * that has not granted an exclusive request can contain a shared grant.
   */
  lemma {:induction false} WriterPriority(s: LockState, es: seq<Event>)
    requires s.writeRequests > 0
    requires GrantExclusiveEvent !in es
    requires Run(s, es).Some?
    ensures AcquireSharedEvent !in es
    ensures Run(s, es).value.writeRequests >= s.writeRequests
    decreases |es|
  {
    if es != [] {
      var t := Step(s, es[0]).value;
      assert es[0] != AcquireSharedEvent;
      assert t.writeRequests >= s.writeRequests;
      assert es == [es[0]] + es[1..];
      WriterPriority(t, es[1..]);
    }
  }

  /** A pending request count never goes negative: grants only consume requests. */
  lemma {:induction false} RunKeepsRequestsNonNegative(s: LockState, es: seq<Event>)
    requires s.writeRequests >= 0 && Run(s, es).Some?
    ensures Run(s, es).value.writeRequests >= 0
    decreases |es|
  {
    if es != [] {
      RunKeepsRequestsNonNegative(Step(s, es[0]).value, es[1..]);
    }
  }

  /** A shared acquisition followed by its release restores the lock. */
  lemma SharedRoundTrip(s: LockState)
    requires CanShare(s)
    ensures ReleaseShared(AcquireShared(s)) == s
  {
  }

  /** Request, grant and release of exclusive access restore the lock. */
  lemma ExclusiveRoundTrip(s: LockState)
    requires CanGrantExclusive(RequestExclusive(s))
    ensures ReleaseExclusive(GrantExclusive(RequestExclusive(s))) == s
  {
  }

  /**
   * The lock object. Each method changes exactly what the Java method
   * changes; a grant method may only be called when its wait loop would exit.
   */
  class RWLock {
    var readRequests: int
    var writeRequests: int
    var isWriting: bool

    function State(): LockState
      reads this
    {
      LockState(readRequests, writeRequests, isWriting)
    }

    /** What every method keeps: no negative request count, and mutual exclusion. */
    ghost predicate Valid()
      reads this
    {
      writeRequests >= 0 && MutualExclusion(State())
    }

    constructor ()
      ensures Valid() && State() == FRESH
    {
      readRequests, writeRequests, isWriting := 0, 0, false;
    }

    method LockShared()
      requires Valid() && CanShare(State())
      modifies this
      ensures Valid() && State() == AcquireShared(old(State()))
    {
      readRequests := readRequests + 1;
    }

    /** `lockExclusive` up to its wait loop; from here on no shared grant is possible. */
    method LockExclusiveRequest()
      requires Valid()
      modifies this
      ensures Valid() && State() == RequestExclusive(old(State()))
      ensures !CanShare(State())
    {
      writeRequests := writeRequests + 1;
    }

    /** `lockExclusive` after its wait loop. */
    method LockExclusiveGrant()
      requires Valid() && CanGrantExclusive(State()) && writeRequests > 0
      modifies this
      ensures Valid() && State() == GrantExclusive(old(State()))
    {
      writeRequests := writeRequests - 1;
      isWriting := true;
    }

    method UnlockShared()
      requires Valid()
      modifies this
      ensures Valid() && State() == ReleaseShared(old(State()))
    {
      readRequests := readRequests - 1;
    }

    method UnlockExclusive()
      requires Valid()
      modifies this
      ensures Valid() && State() == ReleaseExclusive(old(State()))
    {
      isWriting := false;
    }
  }
}
