/** Admission control of server.go: the capacity check of StartRoutineServer and
    the buffered channel it uses as a counting semaphore (`channels <- struct{}{}`
    before a session starts, `<-ch` when ClientWorker ends). */
module Admission {
  import opened NoteStore

  const MinConn := 1
  const MaxConn := 8
  const CapacityErrorText := "max 8 / min 1"

  /** The check StartRoutineServer makes before it listens or allocates anything. */
  function CheckCapacity(maxConn: int): (r: Option<string>)
    ensures r.None? <==> MinConn <= maxConn <= MaxConn
    ensures r.Some? ==> r.value == CapacityErrorText
  {
    if maxConn > 8 || maxConn < 1 then Some(CapacityErrorText) else None
  }

  /** The channel `make(chan struct{}, max_conn)`: its capacity and how many slots
      (`len(ch)`) are held. */
  class Slots {
    const cap: nat
    var held: nat

    ghost predicate Valid()
      reads this
    {
      MinConn <= cap <= MaxConn && held <= cap
    }

    constructor (maxConn: nat)
      requires CheckCapacity(maxConn).None?
      ensures Valid() && cap == maxConn && held == 0
    {
      cap := maxConn;
      held := 0;
    }

    /** A send into the channel goes through only while a slot is free; otherwise it
        blocks, which the model expresses as this precondition. */
    predicate CanAcquire()
      reads this
    {
      held < cap
    }

    method Acquire()
      requires Valid() && CanAcquire()
      modifies this
      ensures Valid() && held == old(held) + 1
    {
      held := held + 1;
    }

    /** A receive from the channel, made by a session that holds a slot. */
    method Release()
      requires Valid() && held > 0
      modifies this
      ensures Valid() && held == old(held) - 1
    {
      held := held - 1;
    }
  }

  /** What happens to the channel, whatever the interleaving of the sessions: the
      accept loop takes a slot, or a session ends and gives one back. */
  datatype SlotEvent = Take | Give

  /** `len(ch)` after the events, starting from an empty channel. */
  function Held(events: seq<SlotEvent>): (r: int)
    ensures -|events| <= r <= |events|
  {
    if events == [] then 0
    else Held(events[..|events| - 1]) + (if events[|events| - 1].Take? then 1 else -1)
  }

  /** Whatever the order, what is held is the Takes minus the Gives. */
  lemma {:induction false} HeldCounts(events: seq<SlotEvent>)
    ensures Held(events) == multiset(events)[Take] as int - multiset(events)[Give] as int
  {
    if events != [] {
      var n := |events| - 1;
      assert events == events[..n] + [events[n]];
      HeldCounts(events[..n]);
    }
  }

  /** The events a channel of capacity `cap` lets happen: a Take only while a slot is
      free (the accept loop blocks otherwise), a Give only by a session holding one. */
  predicate Admissible(cap: nat, events: seq<SlotEvent>): (r: bool)
    ensures r ==> 0 <= Held(events) <= cap
  {
    events == [] ||
    (var before := events[..|events| - 1];
     && Admissible(cap, before)
     && (if events[|events| - 1].Take? then Held(before) < cap else Held(before) > 0))
  }

  /** Along every admissible history the number of held slots stays within 0..cap. */
  lemma {:induction false} AdmissionBound(cap: nat, events: seq<SlotEvent>, k: nat)
    requires Admissible(cap, events) && k <= |events|
    ensures 0 <= Held(events[..k]) <= cap
  {
    if k < |events| {
      assert events[..|events| - 1][..k] == events[..k];
      AdmissionBound(cap, events[..|events| - 1], k);
    } else if events != [] {
      assert events[..k] == events;
      AdmissionBound(cap, events[..|events| - 1], |events| - 1);
      assert events[..|events| - 1][..|events| - 1] == events[..|events| - 1];
    }
  }

  /** `n` connections accepted in a row, with no session ending in between. */
  function Takes(n: nat): (r: seq<SlotEvent>)
    ensures |r| == n && forall i :: 0 <= i < n ==> r[i] == Take
  {
    if n == 0 then [] else Takes(n - 1) + [Take]
  }

  lemma {:induction false} HeldTakes(n: nat)
    ensures Held(Takes(n)) == n
  {
    if n > 0 {
      assert Takes(n)[..n - 1] == Takes(n - 1);
      HeldTakes(n - 1);
    }
  }

  /** With capacity `cap` exactly `cap` sessions can be admitted back to back; the next
      accept cannot complete until a session gives its slot back. */
  lemma {:induction false} CapacitySessionsAdmitted(cap: nat, n: nat)
    requires n <= cap
    ensures Admissible(cap, Takes(n))
    ensures n == cap ==> !Admissible(cap, Takes(n) + [Take])
    ensures 0 < n == cap ==> Admissible(cap, Takes(n) + [Give, Take])
  {
    if n > 0 {
      assert Takes(n)[..n - 1] == Takes(n - 1);
      CapacitySessionsAdmitted(cap, n - 1);
      HeldTakes(n - 1);
    }
    HeldTakes(n);
    var full := Takes(n) + [Take];
    assert full[..|full| - 1] == Takes(n);
    var freed := Takes(n) + [Give];
    assert freed[..|freed| - 1] == Takes(n);
    assert Held(freed) == n - 1;
    var again := freed + [Take];
    assert again[..|again| - 1] == freed;
    assert Takes(n) + [Give, Take] == again;
  }
}
