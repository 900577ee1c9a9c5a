/**
The HTTP server's list of sessions: bounded, oldest first, edited in place.
 */
module HttpSessions {

  // ---------- The list as values ----------

  /** A session by its socket, and whether it is to be closed. */
  datatype Entry = Entry(socket: int, stop: bool)

  function Kept(e: Entry): seq<Entry> { if e.stop then [] else [e] }

  function Prune(v: seq<Entry>): seq<Entry> {
    if v == [] then [] else Kept(v[0]) + Prune(v[1..])
  }

  /** A deleted session's socket is closed; a socket 0 is left alone. */
  function Closing(e: Entry): seq<int> { if e.stop && e.socket != 0 then [e.socket] else [] }

  /** The sockets that pruning closes. */
  function Doomed(v: seq<Entry>): seq<int> {
    if v == [] then [] else Closing(v[0]) + Doomed(v[1..])
  }

  /** A full list gives up its head. */
  function Evict(v: seq<Entry>, maxSessions: nat): seq<Entry>
    requires maxSessions >= 1
  {
    if |v| >= maxSessions then v[0 := v[0].(stop := true)] else v
  }

  /** A new session at the end, unless it cannot be created. */
  function Add(v: seq<Entry>, maxSessions: nat, socket: int, created: bool): seq<Entry>
    requires maxSessions >= 1
  {
    Prune(Evict(v, maxSessions)) + if created then [Entry(socket, false)] else []
  }

  predicate Live(v: seq<Entry>) {
    forall i :: 0 <= i < |v| ==> !v[i].stop
  }

  lemma {:induction false} PruneIsLive(v: seq<Entry>)
    ensures Live(Prune(v)) && |Prune(v)| <= |v|
    ensures Prune(v) == v <==> Live(v)
  {
    if v != [] {
      PruneIsLive(v[1..]);
      if v[0].stop {
        assert |Prune(v)| < |v|;
      } else {
        assert v == [v[0]] + v[1..];
        assert Live(v) <==> Live(v[1..]);
      }
    }
  }

  /** Pruning keeps exactly the sessions that are not stopped, in their order: the list is cut at any
      place, and what is kept of it is what is kept of the parts. */
  lemma {:induction false} PruneSplits(v: seq<Entry>, w: seq<Entry>)
    ensures Prune(v + w) == Prune(v) + Prune(w)
  {
    hide Kept;
    if v == [] {
      assert v + w == w;
    } else {
      assert (v + w)[1..] == v[1..] + w;
      PruneSplits(v[1..], w);
      assert Kept(v[0]) + (Prune(v[1..]) + Prune(w)) == (Kept(v[0]) + Prune(v[1..])) + Prune(w);
    }
  }

  lemma {:induction false} DoomedSplits(v: seq<Entry>, w: seq<Entry>)
    ensures Doomed(v + w) == Doomed(v) + Doomed(w)
  {
    hide Closing;
    if v == [] {
      assert v + w == w;
    } else {
      assert (v + w)[1..] == v[1..] + w;
      DoomedSplits(v[1..], w);
      assert Closing(v[0]) + (Doomed(v[1..]) + Doomed(w)) == (Closing(v[0]) + Doomed(v[1..])) + Doomed(w);
    }
  }

  lemma {:induction false} PruneLoses(v: seq<Entry>)
    requires v != [] && v[0].stop
    ensures |Prune(v)| < |v|
  {
    PruneIsLive(v[1..]);
  }

  /** A session that is not stopped is kept, behind what is kept of the ones before it. */
  lemma KeptInPlace(v: seq<Entry>, i: nat)
    requires i < |v| && !v[i].stop
    ensures |Prune(v[..i])| < |Prune(v)| && Prune(v)[|Prune(v[..i])|] == v[i]
  {
    assert v == v[..i] + v[i..];
    PruneSplits(v[..i], v[i..]);
    assert Prune(v[i..]) == [v[i]] + Prune(v[i..][1..]);
  }

  /** Taking out the first stopped session does not change what pruning leaves. */
  lemma PruneOneSpec(v: seq<Entry>, at: nat)
    requires at < |v| && v[at].stop && Live(v[..at])
    ensures Prune(v[..at] + v[at + 1..]) == Prune(v)
    ensures Doomed(v) == Closing(v[at]) + Doomed(v[..at] + v[at + 1..])
  {
    hide Prune, Doomed, Closing, Live;
    var head, e, tail := v[..at], v[at], v[at + 1..];
    assert v == head + ([e] + tail);
    PruneSplits(head, [e] + tail);
    PruneSplits([e], tail);
    PruneSplits(head, tail);
    DoomedSplits(head, [e] + tail);
    DoomedSplits([e], tail);
    DoomedSplits(head, tail);
    LiveIsNotDoomed(head);
    OneDoomed(e);
  }

  lemma OneDoomed(e: Entry)
    requires e.stop
    ensures Prune([e]) == [] && Doomed([e]) == Closing(e)
  {}

  // ---------- Any number of accepts and stops ----------

  datatype Event = Accept(socket: int, created: bool) | Stop(at: nat) | Sweep

  function Next(v: seq<Entry>, maxSessions: nat, e: Event): seq<Entry>
    requires maxSessions >= 1
  {
    match e
    case Accept(socket, created) => Add(v, maxSessions, socket, created)
    case Stop(at) => if at < |v| then v[at := v[at].(stop := true)] else v
    case Sweep => Prune(v)
  }

  function After(maxSessions: nat, events: seq<Event>): seq<Entry>
    requires maxSessions >= 1
  {
    if events == [] then []
    else Next(After(maxSessions, events[..|events| - 1]), maxSessions, events[|events| - 1])
  }

  /** A session that is told to stop is gone after the next sweep, and the others are not touched. */
  lemma StopsOne(v: seq<Entry>, maxSessions: nat, at: nat)
    requires maxSessions >= 1 && at < |v|
    ensures Next(Next(v, maxSessions, Stop(at)), maxSessions, Sweep) == Prune(v[..at]) + Prune(v[at + 1..])
  {
    hide Prune;
    var stopped := v[at].(stop := true);
    assert v[at := stopped] == v[..at] + ([stopped] + v[at + 1..]);
    PruneSplits(v[..at], [stopped] + v[at + 1..]);
    PruneSplits([stopped], v[at + 1..]);
    OneDoomed(stopped);
    assert [] + Prune(v[at + 1..]) == Prune(v[at + 1..]);
  }

  /** The list never exceeds its bound, whatever is accepted, stopped or not created. */
  lemma {:induction false} NeverExceeds(maxSessions: nat, events: seq<Event>)
    requires maxSessions >= 1
    ensures |After(maxSessions, events)| <= maxSessions
  {
    if events != [] {
      NeverExceeds(maxSessions, events[..|events| - 1]);
      var v := After(maxSessions, events[..|events| - 1]);
      var e := events[|events| - 1];
      match e
      case Accept(_, _) =>
        PruneIsLive(Evict(v, maxSessions));
        if |v| >= maxSessions { PruneLoses(Evict(v, maxSessions)); }
      case Stop(_) =>
      case Sweep => PruneIsLive(v);
    }
  }

  /** A full list of live sessions loses its oldest and gains the newest at its end; a list with room
      only gains. */
  lemma AddToLive(v: seq<Entry>, maxSessions: nat, socket: int)
    requires maxSessions >= 1 && Live(v) && |v| <= maxSessions
    ensures Add(v, maxSessions, socket, true) == (if |v| == maxSessions then v[1..] else v) + [Entry(socket, false)]
    ensures |v| == maxSessions ==> Doomed(Evict(v, maxSessions)) == if v[0].socket != 0 then [v[0].socket] else []
  {
    hide Prune;
    PruneIsLive(v);
    PruneStopped(Evict(v, maxSessions));
    if |v| == maxSessions {
      var full := Evict(v, maxSessions);
      assert full[1..] == v[1..];
      assert Live(v[1..]);
      PruneIsLive(v[1..]);
      LiveIsNotDoomed(v[1..]);
    }
  }

  lemma PruneStopped(v: seq<Entry>)
    ensures v != [] && v[0].stop ==> Prune(v) == Prune(v[1..])
  {}

  lemma {:induction false} LiveIsNotDoomed(v: seq<Entry>)
    requires Live(v)
    ensures Doomed(v) == []
  {
    if v != [] {
      assert Live(v[1..]);
      LiveIsNotDoomed(v[1..]);
    }
  }

  /** A live oldest session is lost exactly if the list, stopped sessions included, is full: so also
      when pruning alone would have made room. */
  lemma OldestLostIff(v: seq<Entry>, maxSessions: nat, socket: int, created: bool)
    requires maxSessions >= 1 && v != [] && !v[0].stop
    ensures Add(v, maxSessions, socket, created)
      == (if |v| >= maxSessions then Prune(v[1..]) else [v[0]] + Prune(v[1..]))
         + if created then [Entry(socket, false)] else []
  {
    if |v| >= maxSessions {
      assert Evict(v, maxSessions)[1..] == v[1..];
    }
  }

  // ---------- The list as the server links it ----------

  class Session {
    var next: Session?
    var stop: bool
    const s: int

    constructor (s: int)
      ensures next == null && !stop && this.s == s
    {
      next, stop, this.s := null, false, s;
    }
  }

  ghost function Entries(list: seq<Session>): (v: seq<Entry>)
    reads list
    ensures |v| == |list| && forall i :: 0 <= i < |list| ==> v[i] == Entry(list[i].s, list[i].stop)
  {
    if list == [] then [] else Entries(list[..|list| - 1]) + [Entry(list[|list| - 1].s, list[|list| - 1].stop)]
  }

  /** Each session is linked to the next, and the last to none. */
  ghost predicate Linked(list: seq<Session>)
    reads list
  {
    forall i :: 0 <= i < |list| ==> list[i].next == At(list, i + 1)
  }

  /** The session at a place, null after the end. */
  ghost function At(list: seq<Session>, i: nat): Session? {
    if i < |list| then list[i] else null
  }

  lemma AtIs(list: seq<Session>, i: nat)
    ensures At(list, i) == if i < |list| then list[i] else null
  {}

  ghost predicate Distinct(list: seq<Session>) {
    forall i, j :: 0 <= i < j < |list| ==> list[i] != list[j]
  }

  ghost function Without(list: seq<Session>, at: nat): (r: seq<Session>)
    requires at < |list|
    ensures |r| == |list| - 1
    ensures forall i :: 0 <= i < |r| ==> r[i] == list[if i < at then i else i + 1]
  {
    list[..at] + list[at + 1..]
  }

  class Server {
    const maxSessions: nat
    var sessions: Session?
    var closed: seq<int>
    ghost var list: seq<Session>
    ghost var Repr: set<Session>

    ghost predicate Valid()
      reads this, Repr
    {
      && maxSessions >= 1
      && (forall i :: 0 <= i < |list| ==> list[i] in Repr)
      && Distinct(list) && Linked(list) && sessions == At(list, 0)
    }

    ghost function View(): seq<Entry>
      reads this, Repr
      requires Valid()
    {
      Entries(list)
    }

    constructor (maxSessions: nat)
      requires maxSessions >= 1
      ensures Valid() && View() == [] && closed == [] && Repr == {}
    {
      this.maxSessions, sessions, list, closed, Repr := maxSessions, null, [], [], {};
    }

    method NumSessions() returns (num: nat)
      requires Valid()
      ensures num == |View()|
    {
      num := 0;
      var session := sessions;
      while session != null
        invariant num <= |list| && session == At(list, num)
        decreases |list| - num
      {
        num := num + 1;
        session := session.next;
      }
    }

    method RemoveSession(session: Session, ghost at: nat)
      requires Valid() && at < |list| && list[at] == session
      modifies session`stop
      ensures Valid() && View() == old(View())[at := Entry(session.s, true)]
    {
      session.stop := true;
    }

    method DeleteSession(session: Session)
      requires session.stop
      modifies this`closed
      ensures closed == old(closed) + Closing(Entry(session.s, true))
    {
      if session.s != 0 { closed := closed + [session.s]; }
    }

    /** The first stopped session, and the one before it. */
    method FirstStopped() returns (prev: Session?, session: Session?, ghost at: nat)
      requires Valid()
      ensures at <= |list| && session == At(list, at)
      ensures prev == if at == 0 then null else At(list, at - 1)
      ensures session != null ==> session.stop
      ensures Live(View()[..at])
    {
      hide At, Entries, Distinct;
      prev, at := null, 0;
      session := sessions;
      while session != null
        invariant at <= |list| && session == At(list, at)
        invariant prev == if at == 0 then null else At(list, at - 1)
        invariant Live(View()[..at])
        decreases |list| - at
      {
        AtIs(list, at);
        if session.stop { return; }
        prev := session;
        session := session.next;
        at := at + 1;
        assert View()[..at] == View()[..at - 1] + [View()[at - 1]];
      }
    }

    method Unlink(prev: Session?, session: Session, ghost at: nat)
      requires Valid() && at < |list| && session == list[at]
      requires prev == if at == 0 then null else At(list, at - 1)
      modifies this`sessions, this`list, Repr
      ensures Valid() && list == Without(old(list), at) && session.stop == old(session.stop)
      ensures View() == old(View())[..at] + old(View())[at + 1..]
    {
      hide At, Entries, Without;
      ghost var was := list;
      AtIs(was, at + 1);
      if at > 0 { AtIs(was, at - 1); }
      AtIs(was, 0);
      if prev != null {
        prev.next := session.next;
      } else {
        sessions := session.next;
      }
      list := Without(was, at);
      AtIs(list, 0);
      forall i | 0 <= i < |list| ensures list[i] in Repr && list[i].next == At(list, i + 1) {
        var k := if i < at then i else i + 1;
        assert list[i] == was[k] && was[k] in Repr;
        AtIs(was, k + 1);
        AtIs(list, i + 1);
      }
    }

    /** One pass: the first stopped session is unlinked and deleted. */
    method PruneOne() returns (found: bool, ghost at: nat)
      requires Valid()
      modifies this`sessions, this`list, this`closed, Repr
      ensures Valid() && at <= |old(View())| && Live(old(View())[..at])
      ensures !found ==> at == |old(View())| && View() == old(View()) && closed == old(closed) && |list| == |old(list)|
      ensures found ==> at < |old(View())| && old(View())[at].stop && |list| < |old(list)|
      ensures found ==> View() == old(View())[..at] + old(View())[at + 1..]
      ensures found ==> closed == old(closed) + Closing(old(View())[at])
    {
      hide Distinct, Linked, Live, Closing, Entries;
      var prev, session;
      prev, session, at := FirstStopped();
      found := session != null;
      if found {
        Unlink(prev, session, at);
        DeleteSession(session);
      }
    }

    /** Every stopped session is unlinked and its socket closed, oldest first; the others stay in
        their order. */
    method PruneSession()
      requires Valid()
      modifies this`sessions, this`list, this`closed, Repr
      ensures Valid() && View() == Prune(old(View())) && closed == old(closed) + Doomed(old(View()))
    {
      hide Prune, Doomed, Closing, Valid, View, Live;
      var found := true;
      while found
        invariant Valid()
        invariant Prune(View()) == Prune(old(View()))
        invariant closed + Doomed(View()) == old(closed) + Doomed(old(View()))
        invariant !found ==> Live(View())
        decreases |list|, found
      {
        ghost var before := View();
        ghost var at;
        found, at := PruneOne();
        assert before[..|before|] == before;
        if found {
          PruneOneSpec(before, at);
        }
      }
      PruneIsLive(View());
      LiveIsNotDoomed(View());
    }

    /** A new session, in place of the oldest if the list is full; it may fail to be created. */
    method AddSession(s: int, memory: bool) returns (newSession: Session?)
      requires Valid()
      modifies this, Repr
      ensures Valid() && View() == Add(old(View()), maxSessions, s, memory)
      ensures closed == old(closed) + Doomed(Evict(old(View()), maxSessions))
      ensures fresh(Repr - old(Repr))
      ensures (newSession != null <==> memory) && (memory ==> list != [] && newSession == list[|list| - 1])
    {
      hide Prune, Doomed, Linked, Distinct, Entries;
      var num := NumSessions();
      if num >= maxSessions {
        RemoveSession(sessions, 0);
      }
      assert View() == Evict(old(View()), maxSessions);
      PruneSession();
      newSession := null;
      if memory {
        newSession := new Session(s);
        Append(newSession);
      }
    }

    method Last() returns (session: Session)
      requires Valid() && sessions != null
      ensures list != [] && session == list[|list| - 1]
    {
      hide At, Distinct;
      AtIs(list, 0);
      session := sessions;
      ghost var at: nat := 0;
      while session.next != null
        invariant at < |list| && session == list[at]
        decreases |list| - at
      {
        AtIs(list, at + 1);
        session := session.next;
        at := at + 1;
      }
      AtIs(list, at + 1);
    }

    method Append(newSession: Session)
      requires Valid() && newSession.next == null && newSession !in Repr
      modifies this`sessions, this`list, this`Repr, Repr
      ensures Valid() && list == old(list) + [newSession] && Repr == old(Repr) + {newSession}
      ensures View() == old(View()) + [Entry(newSession.s, newSession.stop)]
    {
      hide Entries, At;
      ghost var was := list;
      AtIs(was, 0);
      if sessions == null {
        sessions := newSession;
      } else {
        var session := Last();
        session.next := newSession;
      }
      list := list + [newSession];
      Repr := Repr + {newSession};
      AtIs(list, 0);
      forall i | 0 <= i < |list| ensures list[i].next == At(list, i + 1) {
        AtIs(was, i + 1);
        AtIs(list, i + 1);
      }
    }
  }
}
