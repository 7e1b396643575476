/** The in-memory session provider: a map of sessions and a list ordered by last access, each provider
    method atomic. List elements are known by numbers, which the map of sessions refers to. */
module SessionStore {

  const NANOSECONDS := 1_000_000_000

  function Unix(t: int): int { t / NANOSECONDS }

  type Element = nat

  datatype Session = Session(sid: string, timeAccessed: int)

  // The map holds every session under its own id and nothing else.
  ghost predicate Named(elements: map<Element, Session>, sessions: map<string, Element>) {
    && (forall e | e in elements :: elements[e].sid in sessions && sessions[elements[e].sid] == e)
    && (forall k | k in sessions :: sessions[k] in elements && elements[sessions[k]].sid == k)
  }

  // The list holds every session and nothing else.
  ghost predicate Covers(list: seq<Element>, elements: map<Element, Session>) {
    forall e :: e in list <==> e in elements
  }

  // No element stands in the list twice, and none was used later than one before it.
  ghost predicate Ordered(list: seq<Element>, elements: map<Element, Session>) {
    list == [] || (NotBefore(list[0], list[1..], elements) && Ordered(list[1..], elements))
  }

  ghost predicate NotBefore(e: Element, rest: seq<Element>, elements: map<Element, Session>) {
    && e in elements && e !in rest
    && forall x | x in rest && x in elements :: elements[x].timeAccessed <= elements[e].timeAccessed
  }

  // The provider's data: what the elements hold, the map by id, and the list from front to back.
  datatype Store = Store(elements: map<Element, Session>, sessions: map<string, Element>, list: seq<Element>) {

    ghost predicate Valid() {
      Named(elements, sessions) && Covers(list, elements) && Ordered(list, elements)
    }

    // No session was used later than now: the clock is monotone.
    ghost predicate Past(now: int) {
      forall e | e in elements :: elements[e].timeAccessed <= now
    }
  }

  // ---- the operations on the data ----

  function PushFront(s: Store, e: Element, session: Session): Store {
    Store(s.elements[e := session], s.sessions[session.sid := e], [e] + s.list)
  }

  function Without(list: seq<Element>, e: Element): seq<Element> {
    if list == [] then [] else if list[0] == e then list[1..] else [list[0]] + Without(list[1..], e)
  }

  function Touch(s: Store, e: Element, now: int): Store
    requires e in s.elements
  {
    s.(elements := s.elements[e := s.elements[e].(timeAccessed := now)], list := [e] + Without(s.list, e))
  }

  function Remove(s: Store, e: Element): Store
    requires e in s.elements
  {
    Store(s.elements - {e}, s.sessions - {s.elements[e].sid}, Without(s.list, e))
  }

  function Rename(s: Store, e: Element, sid: string): Store
    requires e in s.elements
  {
    s.(elements := s.elements[e := s.elements[e].(sid := sid)], sessions := s.sessions[sid := e] - {s.elements[e].sid})
  }

  // Taking an element out of the list leaves the others once each, in order.
  lemma {:induction false} WithoutOrdered(list: seq<Element>, elements: map<Element, Session>, e: Element)
    requires Ordered(list, elements)
    ensures Ordered(Without(list, e), elements)
    ensures forall x :: x in Without(list, e) <==> x in list && x != e
  {
    if list != [] && list[0] != e {
      WithoutOrdered(list[1..], elements, e);
      var rest := Without(list[1..], e);
      assert ([list[0]] + rest)[1..] == rest;
    }
  }

  // Whether a list is ordered depends on the access times of its elements alone.
  lemma {:induction false} OrderedSame(list: seq<Element>, a: map<Element, Session>, b: map<Element, Session>)
    requires Ordered(list, a)
    requires forall x | x in list :: (x in a <==> x in b) && (x in a ==> a[x].timeAccessed == b[x].timeAccessed)
    ensures Ordered(list, b)
  {
    if list != [] {
      OrderedSame(list[1..], a, b);
      assert list[0] in list;
    }
  }

  lemma OrderedCons(e: Element, list: seq<Element>, elements: map<Element, Session>)
    requires Ordered(list, elements) && NotBefore(e, list, elements)
    ensures Ordered([e] + list, elements)
  {
    assert ([e] + list)[1..] == list;
  }

  lemma PushFrontValid(s: Store, e: Element, session: Session)
    requires s.Valid() && s.Past(session.timeAccessed) && e !in s.elements && session.sid !in s.sessions
    ensures PushFront(s, e, session).Valid() && PushFront(s, e, session).Past(session.timeAccessed)
  {
    var elements := s.elements[e := session];
    OrderedSame(s.list, s.elements, elements);
    OrderedCons(e, s.list, elements);
  }

  lemma TouchValid(s: Store, e: Element, now: int)
    requires s.Valid() && s.Past(now) && e in s.elements
    ensures Touch(s, e, now).Valid() && Touch(s, e, now).Past(now)
  {
    var elements, rest := s.elements[e := s.elements[e].(timeAccessed := now)], Without(s.list, e);
    WithoutOrdered(s.list, s.elements, e);
    OrderedSame(rest, s.elements, elements);
    OrderedCons(e, rest, elements);
  }

  lemma RemoveValid(s: Store, e: Element)
    requires s.Valid() && e in s.elements
    ensures Remove(s, e).Valid()
  {
    WithoutOrdered(s.list, s.elements, e);
    OrderedSame(Without(s.list, e), s.elements, s.elements - {e});
    RemoveNamed(s.elements, s.sessions, e);
  }

  lemma RemoveNamed(elements: map<Element, Session>, sessions: map<string, Element>, e: Element)
    requires Named(elements, sessions) && e in elements
    ensures Named(elements - {e}, sessions - {elements[e].sid})
  {
  }

  lemma RenameValid(s: Store, e: Element, sid: string)
    requires s.Valid() && e in s.elements && sid !in s.sessions
    ensures Rename(s, e, sid).Valid()
  {
    OrderedSame(s.list, s.elements, Rename(s, e, sid).elements);
  }

  // ---- what using a session means ----

  // The sessions, under their ids, and everything but the access time and the place of element e.
  ghost predicate OnlyUsed(before: Store, after: Store, e: Element) {
    && after.sessions == before.sessions && e in before.elements && e in after.elements
    && after.elements[e].sid == before.elements[e].sid
    && OthersStay(before, after, e)
    && SameOrder(before.list, after.list, e)
  }

  // Every other session is there, as it was, exactly when it was there.
  ghost predicate OthersStay(before: Store, after: Store, e: Element) {
    forall x | x != e :: (x in after.elements <==> x in before.elements) &&
      (x in before.elements ==> after.elements[x] == before.elements[x])
  }

  // One list is the other with e taken from where it stood and put in front.
  ghost predicate SameOrder(before: seq<Element>, after: seq<Element>, e: Element) {
    exists i :: 0 <= i < |before| && before[i] == e && after == [e] + (before[..i] + before[i + 1..])
  }

  lemma {:induction false} WithoutAt(list: seq<Element>, e: Element) returns (i: nat)
    requires e in list
    ensures i < |list| && list[i] == e && e !in list[..i] && Without(list, e) == list[..i] + list[i + 1..]
  {
    if list[0] == e {
      i := 0;
    } else {
      i := WithoutAt(list[1..], e);
      assert list[1..][..i] == list[1..i + 1] && list[1..][i + 1..] == list[i + 2..];
      assert list[..i + 1] == [list[0]] + list[1..i + 1];
      i := i + 1;
    }
  }

  /** A touched session is used now and stands in front; nothing else of it changes, and nothing of the others. */
  lemma TouchUses(s: Store, e: Element, now: int)
    requires s.Valid() && e in s.elements
    ensures var r := Touch(s, e, now);
      OnlyUsed(s, r, e) && r.elements[e].timeAccessed == now && r.list != [] && r.list[0] == e
  {
    var i := WithoutAt(s.list, e);
    assert s.list[i] == e && Touch(s, e, now).list == [e] + (s.list[..i] + s.list[i + 1..]);
  }

  // ---- a run of the provider ----

  datatype Op =
    | Read(sid: string, now: int)
    | Update(sid: string, now: int)
    | Regenerate(oldsid: string, sid: string, now: int)
    | Destroy(sid: string)
    | Collect(now: int)

  // The data and the number of the next element.
  datatype State = State(store: Store, next: Element) {
    ghost predicate Valid() {
      store.Valid() && forall e | e in store.elements :: e < next
    }
  }

  function Opened(s: State, sid: string, now: int): State {
    State(PushFront(s.store, s.next, Session(sid, now)), s.next + 1)
  }

  // The sessions that are left when expired ones are taken from the back.
  ghost function Swept(s: Store, life: int, now: int): Store
    requires s.Valid()
    decreases |s.list|
  {
    if s.list == [] then s
    else
      var e := s.list[|s.list| - 1];
      assert e in s.list;
      if !Expired(s.elements[e], life, now) then s
      else
        RemoveValid(s, e);
        WithoutLast(s.list, s.elements);
        Swept(Remove(s, e), life, now)
  }

  ghost function After(s: State, life: int, op: Op): State
    requires s.Valid()
  {
    match op
    case Read(sid, now) => if sid in s.store.sessions then s else Opened(s, sid, now)
    case Update(sid, now) =>
      if sid in s.store.sessions then s.(store := Touch(s.store, s.store.sessions[sid], now)) else s
    case Regenerate(oldsid, sid, now) =>
      if oldsid in s.store.sessions then s.(store := Rename(s.store, s.store.sessions[oldsid], sid))
      else Opened(s, sid, now)
    case Destroy(sid) => if sid in s.store.sessions then s.(store := Remove(s.store, s.store.sessions[sid])) else s
    case Collect(now) => s.(store := Swept(s.store, life, now))
  }

  // The clock does not run back, and a session is renamed to an id that is not in use.
  ghost predicate Possible(s: State, op: Op) {
    && (op.Read? || op.Update? || op.Regenerate? ==> s.store.Past(op.now))
    && (op.Regenerate? ==> op.sid !in s.store.sessions)
  }

  lemma SweptCollects(s: Store, life: int, now: int)
    requires s.Valid()
    ensures Swept(s, life, now).Valid() && Collected(s, Swept(s, life, now), life, now)
    ensures forall e | e in Swept(s, life, now).elements :: !Expired(s.elements[e], life, now)
    decreases |s.list|
  {
    if s.list != [] {
      var e := s.list[|s.list| - 1];
      assert e in s.list;
      if Expired(s.elements[e], life, now) {
        CollectLast(s, s, e, life, now);
        SweptCollects(Remove(s, e), life, now);
      } else {
        NoneExpired(s, life, now);
      }
    }
  }

  lemma AfterValid(s: State, life: int, op: Op)
    requires s.Valid() && Possible(s, op)
    ensures After(s, life, op).Valid()
  {
    match op
    case Read(sid, now) =>
      if sid !in s.store.sessions {
        PushFrontValid(s.store, s.next, Session(sid, now));
      }
    case Update(sid, now) =>
      if sid in s.store.sessions {
        TouchValid(s.store, s.store.sessions[sid], now);
      }
    case Regenerate(oldsid, sid, now) =>
      if oldsid in s.store.sessions {
        RenameValid(s.store, s.store.sessions[oldsid], sid);
      } else {
        PushFrontValid(s.store, s.next, Session(sid, now));
      }
    case Destroy(sid) =>
      if sid in s.store.sessions {
        RemoveValid(s.store, s.store.sessions[sid]);
      }
    case Collect(now) => SweptCollects(s.store, life, now);
  }

  // Every operation of the run is possible where it stands.
  ghost predicate Runs(s: State, life: int, ops: seq<Op>)
    requires s.Valid()
    decreases ops
  {
    ops == [] ||
    (Possible(s, ops[0]) &&
     (AfterValid(s, life, ops[0]); Runs(After(s, life, ops[0]), life, ops[1..])))
  }

  ghost function AfterAll(s: State, life: int, ops: seq<Op>): State
    requires s.Valid() && Runs(s, life, ops)
    decreases ops
  {
    if ops == [] then s
    else
      AfterValid(s, life, ops[0]);
      AfterAll(After(s, life, ops[0]), life, ops[1..])
  }

  // The session of element e has this id and was not used before the given time.
  ghost predicate InUse(s: State, sid: string, e: Element, since: int) {
    && sid in s.store.sessions && s.store.sessions[sid] == e
    && e in s.store.elements && since <= s.store.elements[e].timeAccessed
  }

  // An operation that neither ends nor renames the session, nor collects more than a lifetime after the given time.
  predicate Spares(op: Op, sid: string, life: int, since: int) {
    match op
    case Destroy(d) => d != sid
    case Regenerate(oldsid, _, _) => oldsid != sid
    case Collect(now) => Unix(now) <= Unix(since) + life
    case _ => true
  }

  lemma SparedOnce(s: State, life: int, op: Op, sid: string, e: Element, since: int)
    requires s.Valid() && Possible(s, op) && InUse(s, sid, e, since) && Spares(op, sid, life, since)
    ensures InUse(After(s, life, op), sid, e, since)
  {
    if op.Collect? {
      SweptCollects(s.store, life, op.now);
      assert Unix(since) <= Unix(s.store.elements[e].timeAccessed);
    }
  }

  /** Once used, a session stays, under its id, through every run whose collections come at most a lifetime later and
      in which it is neither destroyed nor renamed. */
  lemma {:induction false} UsedSessionStays(s: State, life: int, ops: seq<Op>, sid: string, e: Element, since: int)
    requires s.Valid() && Runs(s, life, ops) && InUse(s, sid, e, since)
    requires forall i | 0 <= i < |ops| :: Spares(ops[i], sid, life, since)
    ensures InUse(AfterAll(s, life, ops), sid, e, since)
    decreases ops
  {
    if ops != [] {
      AfterValid(s, life, ops[0]);
      SparedOnce(s, life, ops[0], sid, e, since);
      UsedSessionStays(After(s, life, ops[0]), life, ops[1..], sid, e, since);
    }
  }

  /** An update counts as use: what it found stays for at least a lifetime. */
  lemma UpdatedSessionStays(s: State, life: int, sid: string, now: int, ops: seq<Op>)
    requires s.Valid() && s.store.Past(now) && sid in s.store.sessions
    requires Runs(s, life, [Update(sid, now)] + ops)
    requires forall i | 0 <= i < |ops| :: Spares(ops[i], sid, life, now)
    ensures InUse(AfterAll(s, life, [Update(sid, now)] + ops), sid, s.store.sessions[sid], now)
  {
    var all := [Update(sid, now)] + ops;
    assert all[1..] == ops;
    AfterValid(s, life, all[0]);
    TouchUses(s.store, s.store.sessions[sid], now);
    UsedSessionStays(After(s, life, all[0]), life, ops, sid, s.store.sessions[sid], now);
  }

  /** A collection more than a lifetime after the last use takes a session away. */
  lemma UnusedSessionGoes(s: State, life: int, sid: string, now: int)
    requires s.Valid() && sid in s.store.sessions
    requires Unix(s.store.elements[s.store.sessions[sid]].timeAccessed) + life < Unix(now)
    ensures sid !in After(s, life, Collect(now)).store.sessions
  {
    SweptCollects(s.store, life, now);
  }

  // ---- the provider ----

  class MemProvider {
    var store: Store
    var nextElement: Element
    const maxLifeTime: int

    ghost function Now(): State
      reads this
    {
      State(store, nextElement)
    }

    ghost predicate Valid()
      reads this
    {
      Now().Valid()
    }

    constructor (life: int)
      ensures Valid() && store == Store(map[], map[], []) && maxLifeTime == life
    {
      store, nextElement, maxLifeTime := Store(map[], map[], []), 0, life;
    }

    // The new session of SessionRead and SessionRegenerate.
    method PushNew(sid: string, now: int) returns (e: Element)
      requires Valid() && store.Past(now)
      modifies this
      ensures Valid() <==> old(sid !in store.sessions)
      ensures store.Past(now) && e !in old(store.elements) && Now() == Opened(old(Now()), sid, now)
      ensures store == PushFront(old(store), e, Session(sid, now))
    {
      e := nextElement;
      PushNeedsFreshId(store, e, Session(sid, now));
      store := PushFront(store, e, Session(sid, now));
      nextElement := e + 1;
    }

    /** SessionRead: the session of the id, or a new one in front. The update of a known session is a
        step of its own. */
    method SessionRead(sid: string, now: int) returns (e: Element)
      requires Valid() && store.Past(now)
      modifies this
      ensures Valid() && store.Past(now) && e in store.elements && store.elements[e].sid == sid
      ensures old(sid in store.sessions) ==> store == old(store)
      ensures old(sid !in store.sessions) ==>
        && e !in old(store.elements) && store.list == [e] + old(store.list) && store.elements[e].timeAccessed == now
        && OthersStay(old(store), store, e)
      ensures Now() == After(old(Now()), maxLifeTime, Read(sid, now))
    {
      if sid in store.sessions {
        e := store.sessions[sid];
      } else {
        e := PushNew(sid, now);
      }
    }

    /** SessionUpdate: a known session is used now and moves to the front. */
    method SessionUpdate(sid: string, now: int)
      requires Valid() && store.Past(now)
      modifies this
      ensures Valid() && store.Past(now)
      ensures old(sid !in store.sessions) ==> store == old(store)
      ensures old(sid in store.sessions) ==>
        var e := old(store.sessions[sid]);
        OnlyUsed(old(store), store, e) && store.elements[e].timeAccessed == now && store.list[0] == e
      ensures Now() == After(old(Now()), maxLifeTime, Update(sid, now))
    {
      if sid in store.sessions {
        var e := store.sessions[sid];
        TouchValid(store, e, now);
        TouchUses(store, e, now);
        store := Touch(store, e, now);
      }
    }

    /** SessionRegenerate: the old session goes on under the new id. Map and list still agree exactly when
        the new id was not in use. */
    method SessionRegenerate(oldsid: string, sid: string, now: int) returns (e: Element)
      requires Valid() && store.Past(now)
      modifies this
      ensures Valid() <==> old(sid !in store.sessions)
      ensures store.Past(now) && e in store.elements && store.elements[e].sid == sid
      ensures oldsid != sid ==> oldsid !in store.sessions
      ensures OthersStay(old(store), store, e)
      ensures old(oldsid in store.sessions) ==>
        && e == old(store.sessions[oldsid]) && store.list == old(store.list)
        && store.elements[e].timeAccessed == old(store.elements[store.sessions[oldsid]].timeAccessed)
      ensures old(oldsid !in store.sessions) ==>
        store.list == [e] + old(store.list) && store.elements[e].timeAccessed == now
      ensures Now() == After(old(Now()), maxLifeTime, Regenerate(oldsid, sid, now))
    {
      if oldsid in store.sessions {
        e := store.sessions[oldsid];
        RenameNeedsFreshId(store, e, sid);
        store := Rename(store, e, sid);
      } else {
        e := PushNew(sid, now);
      }
    }

    /** SessionDestroy. */
    method SessionDestroy(sid: string)
      requires Valid()
      modifies this
      ensures Valid() && sid !in store.sessions
      ensures old(sid !in store.sessions) ==> store == old(store)
      ensures store.sessions == old(store.sessions) - {sid}
      ensures old(sid in store.sessions) ==>
        var e := old(store.sessions[sid]);
        e !in store.elements && OthersStay(old(store), store, e) && SameOrder(old(store.list), [e] + store.list, e)
      ensures Now() == After(old(Now()), maxLifeTime, Destroy(sid))
    {
      if sid in store.sessions {
        var e := store.sessions[sid];
        RemoveValid(store, e);
        ghost var i := WithoutAt(store.list, e);
        assert [e] + Without(store.list, e) == [e] + (store.list[..i] + store.list[i + 1..]);
        store := Remove(store, e);
      }
    }

    /** SessionGC: sessions are taken from the back of the list while they are expired; what is left
        is exactly the sessions that are not. */
    method SessionGC(now: int)
      requires Valid()
      modifies this
      ensures Valid() && Collected(old(store), store, maxLifeTime, now)
      ensures forall e | e in store.elements :: !Expired(store.elements[e], maxLifeTime, now)
      ensures Now() == After(old(Now()), maxLifeTime, Collect(now))
    {
      while store.list != []
        invariant Valid() && Collected(old(store), store, maxLifeTime, now)
        invariant nextElement == old(nextElement)
        invariant Swept(store, maxLifeTime, now) == Swept(old(store), maxLifeTime, now)
        decreases |store.list|
      {
        var e := store.list[|store.list| - 1];
        if !Expired(store.elements[e], maxLifeTime, now) {
          NoneExpired(store, maxLifeTime, now);
          return;
        }
        CollectLast(old(store), store, e, maxLifeTime, now);
        store := Remove(store, e);
      }
    }
  }

  // Only expired sessions have gone, from the back of the list; the others are as they were.
  ghost predicate Collected(before: Store, after: Store, life: int, now: int) {
    && after.list <= before.list
    && (forall e | e in after.elements :: e in before.elements && after.elements[e] == before.elements[e])
    && (forall e | e in before.elements && e !in after.elements :: Expired(before.elements[e], life, now))
  }

  lemma NoneExpired(s: Store, life: int, now: int)
    requires s.Valid() && s.list != []
    requires var e := s.list[|s.list| - 1]; e in s.elements && !Expired(s.elements[e], life, now)
    ensures forall e | e in s.elements :: !Expired(s.elements[e], life, now)
  {
    LastIsOldest(s.list, s.elements);
  }

  lemma CollectLast(before: Store, s: Store, e: Element, life: int, now: int)
    requires s.Valid() && s.list != [] && Collected(before, s, life, now)
    requires e == s.list[|s.list| - 1] && e in s.elements && Expired(s.elements[e], life, now)
    ensures Remove(s, e).Valid() && Collected(before, Remove(s, e), life, now) && |Remove(s, e).list| < |s.list|
  {
    WithoutLast(s.list, s.elements);
    RemoveValid(s, e);
  }

  predicate Expired(s: Session, life: int, now: int) {
    Unix(s.timeAccessed) + life < Unix(now)
  }

  // Nothing in the list was used earlier than its last element.
  lemma {:induction false} LastIsOldest(list: seq<Element>, elements: map<Element, Session>)
    requires list != [] && Ordered(list, elements) && forall x | x in list :: x in elements
    ensures forall x | x in list :: elements[list[|list| - 1]].timeAccessed <= elements[x].timeAccessed
  {
    if |list| > 1 {
      LastIsOldest(list[1..], elements);
      assert list[|list| - 1] in list[1..];
    }
  }

  lemma {:induction false} WithoutLast(list: seq<Element>, elements: map<Element, Session>)
    requires list != [] && Ordered(list, elements)
    ensures Without(list, list[|list| - 1]) == list[..|list| - 1]
  {
    if |list| > 1 {
      WithoutLast(list[1..], elements);
      assert list[|list| - 1] in list[1..];
    }
  }

  /** A new session keeps the bijection exactly when its id is not in use. */
  lemma PushNeedsFreshId(s: Store, e: Element, session: Session)
    requires s.Valid() && s.Past(session.timeAccessed) && e !in s.elements
    ensures PushFront(s, e, session).Valid() <==> session.sid !in s.sessions
  {
    if session.sid in s.sessions {
      var r, x := PushFront(s, e, session), s.sessions[session.sid];
      assert x in r.elements && r.elements[x].sid == session.sid && r.sessions[session.sid] == e;
    } else {
      PushFrontValid(s, e, session);
    }
  }

  /** Regeneration keeps the bijection exactly when the new id is not in use, not even by the session itself. */
  lemma RenameNeedsFreshId(s: Store, e: Element, sid: string)
    requires s.Valid() && e in s.elements
    ensures Rename(s, e, sid).Valid() <==> sid !in s.sessions
  {
    if sid in s.sessions {
      var r, x := Rename(s, e, sid), s.sessions[sid];
      assert x in r.elements && r.elements[x].sid == sid;
      assert x == e || r.sessions[sid] == e;
    } else {
      RenameValid(s, e, sid);
    }
  }
}
