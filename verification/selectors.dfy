/** The readiness registration table of `utils/selectors.py`: a map from a
    descriptor to its selector key. The operating system's `select.select`
    call is replaced by an oracle: the sequence of descriptors it reported
    ready, in the order it reported them. */
module Selectors {

  /** `EVENT_READ`, the only interest mask the table keeps. */
  const EVENT_READ: int := 1

  /** A watched socket; the model identifies it by its descriptor number. */
  type Fd = int

  /** `SelectorKey`: the socket, the interest mask and the caller's context. */
  datatype SelectorKey<D> = SelectorKey(sock: Fd, mask: int, data: D)

  /** The private `__rsocklist` dictionary. */
  type Table<D> = map<Fd, SelectorKey<D>>

  /** One `(key, mask)` pair returned by `select`. */
  datatype Event<D> = Event(key: SelectorKey<D>, mask: int)

  /** Every stored key belongs to the descriptor it is stored under and
      watches for reads: the table holds at most one registration per
      descriptor, and only read registrations. */
  predicate Valid<D>(t: Table<D>) {
    forall fd :: fd in t ==> t[fd].sock == fd && t[fd].mask == EVENT_READ
  }

  /** `register(fd, mask, data)`: a mask other than `EVENT_READ` is ignored;
      otherwise the descriptor's single key is inserted or replaced. */
  function Register<D>(t: Table<D>, fd: Fd, mask: int, data: D): (t': Table<D>)
    ensures mask != EVENT_READ ==> t' == t
    ensures mask == EVENT_READ ==> t'.Keys == t.Keys + {fd}
    ensures mask == EVENT_READ ==> t'[fd] == SelectorKey(fd, mask, data)
    ensures forall g :: g in t && g != fd ==> g in t' && t'[g] == t[g]
    ensures Valid(t) ==> Valid(t')
  {
    if mask != EVENT_READ then t else t[fd := SelectorKey(fd, mask, data)]
  }

  /** `unregister(fd)`: removes the descriptor when present, a no-op when
      absent; no other entry changes. */
  function Unregister<D>(t: Table<D>, fd: Fd): (t': Table<D>)
    ensures t'.Keys == t.Keys - {fd}
    ensures forall g :: g in t' ==> t'[g] == t[g]
    ensures fd !in t ==> t' == t
    ensures Valid(t) ==> Valid(t')
  {
    if fd in t then t - {fd} else t
  }

  /** The loop after the `select.select` call: each ready descriptor that is
      still registered yields its key paired with `EVENT_READ`, in the
      oracle's order. */
  function ReadyEvents<D>(t: Table<D>, ready: seq<Fd>): (events: seq<Event<D>>)
    ensures |events| <= |ready|
    ensures Valid(t) ==> forall k :: 0 <= k < |events| ==>
      events[k].key.sock in t && t[events[k].key.sock] == events[k].key && events[k].mask == EVENT_READ
    decreases |ready|
  {
    if ready == [] then []
    else
      var head := if ready[0] in t then [Event(t[ready[0]], EVENT_READ)] else [];
      var rest := ReadyEvents(t, ready[1..]);
      assert Valid(t) && ready[0] in t ==> t[ready[0]].sock == ready[0];
      assert forall k :: |head| <= k < |head + rest| ==> (head + rest)[k] == rest[k - |head|];
      head + rest
  }

  /** `select(timeout)`: an empty table yields no events without polling;
      otherwise the oracle's ready descriptors are filtered against the table. */
  function Select<D>(t: Table<D>, ready: seq<Fd>): (events: seq<Event<D>>)
    ensures |t| == 0 ==> events == []
    ensures |t| > 0 ==> events == ReadyEvents(t, ready)
  {
    if |t| == 0 then [] else ReadyEvents(t, ready)
  }

  /** The filter distributes over concatenation of the oracle's reports:
      together with `ReadyEventsSingle` this pins the result down as the
      order-preserving filter of `ready`. */
  lemma {:induction false} ReadyEventsAppend<D>(t: Table<D>, a: seq<Fd>, b: seq<Fd>)
    ensures ReadyEvents(t, a + b) == ReadyEvents(t, a) + ReadyEvents(t, b)
    decreases |a|
  {
    if a == [] {
      assert a + b == b;
    } else {
      assert (a + b)[0] == a[0];
      assert (a + b)[1..] == a[1..] + b;
      ReadyEventsAppend(t, a[1..], b);
    }
  }

  lemma ReadyEventsSingle<D>(t: Table<D>, fd: Fd)
    ensures fd in t ==> ReadyEvents(t, [fd]) == [Event(t[fd], EVENT_READ)]
    ensures fd !in t ==> ReadyEvents(t, [fd]) == []
  {
    assert [fd][1..] == [];
  }

  /** Every event names a registered descriptor the oracle reported. */
  lemma {:induction false} ReadyEventsSound<D>(t: Table<D>, ready: seq<Fd>, fd: Fd, k: nat)
    requires Valid(t)
    requires k < |ReadyEvents(t, ready)| && ReadyEvents(t, ready)[k].key.sock == fd
    ensures fd in t && fd in ready
    decreases |ready|
  {
    var events := ReadyEvents(t, ready);
    var head := if ready[0] in t then [Event(t[ready[0]], EVENT_READ)] else [];
    var rest := ReadyEvents(t, ready[1..]);
    assert events == head + rest;
    if k >= |head| {
      assert rest[k - |head|].key.sock == fd;
      ReadyEventsSound(t, ready[1..], fd, k - |head|);
      assert fd in ready[1..];
    } else {
      assert events[k] == Event(t[ready[0]], EVENT_READ);
      assert t[ready[0]].sock == ready[0];
    }
  }

  /** Every registered descriptor the oracle reported has an event. */
  lemma {:induction false} ReadyEventsComplete<D>(t: Table<D>, ready: seq<Fd>, fd: Fd) returns (k: nat)
    requires Valid(t)
    requires fd in t && fd in ready
    ensures k < |ReadyEvents(t, ready)| && ReadyEvents(t, ready)[k].key.sock == fd
    decreases |ready|
  {
    var events := ReadyEvents(t, ready);
    var head := if ready[0] in t then [Event(t[ready[0]], EVENT_READ)] else [];
    var rest := ReadyEvents(t, ready[1..]);
    assert events == head + rest;
    if fd == ready[0] {
      k := 0;
    } else {
      assert fd in ready[1..];
      var k' := ReadyEventsComplete(t, ready[1..], fd);
      k := |head| + k';
      assert events[k] == rest[k'];
    }
  }

  /** A descriptor appears among the events exactly when the oracle reported
      it and it is registered. */
  lemma ReadyEventsMembership<D>(t: Table<D>, ready: seq<Fd>, fd: Fd)
    requires Valid(t)
    ensures (exists k :: 0 <= k < |ReadyEvents(t, ready)| && ReadyEvents(t, ready)[k].key.sock == fd)
        <==> (fd in t && fd in ready)
  {
    if exists k :: 0 <= k < |ReadyEvents(t, ready)| && ReadyEvents(t, ready)[k].key.sock == fd {
      var k :| 0 <= k < |ReadyEvents(t, ready)| && ReadyEvents(t, ready)[k].key.sock == fd;
      ReadyEventsSound(t, ready, fd, k);
    }
    if fd in t && fd in ready {
      var k := ReadyEventsComplete(t, ready, fd);
    }
  }

  /** After `unregister(fd)` no poll can report `fd` again until it is
      registered anew: the dispatcher's guarantee that a descriptor is never
      handed to two workers at once. */
  lemma SelectAfterUnregister<D>(t: Table<D>, fd: Fd, ready: seq<Fd>)
    requires Valid(t)
    ensures forall k :: 0 <= k < |Select(Unregister(t, fd), ready)| ==>
      Select(Unregister(t, fd), ready)[k].key.sock != fd
  {
  }

  /** Registering and then unregistering a descriptor leaves the table as
      if only the unregistration had happened. */
  lemma UnregisterAfterRegister<D>(t: Table<D>, fd: Fd, mask: int, data: D)
    ensures Unregister(Register(t, fd, mask, data), fd) == Unregister(t, fd)
  {
  }
}
