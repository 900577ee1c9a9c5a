/**
The wait of one interface: descriptors are translated to the sockets of its table, and those that are
not ready are cleared; and the whole way down and up again.
 */
module SocketNdk {
  import opened Options
  import opened SocketTable
  import opened SocketSelect

  /** What the stack is asked, and what it answers: how many sockets are ready, or an error, and which. */
  datatype Sockets = Sockets(read: set<nat>, write: set<nat>, except: set<nat>)

  datatype Polled = Polled(numFds: int, ready: Sockets)

  type Poll = (nat, Sockets) -> Polled

  /** A descriptor is taken as set if it is, and also if the query is refused: the error is not 0. */
  predicate Taken(fd: nat, m: SdSet) { m.Some? && SdsIsSet(fd, m) != No }

  /** The sockets of the first `n` descriptors that are taken as set. */
  function SocketsOf(table: seq<nat>, m: SdSet, n: nat): set<nat>
    requires n <= |table|
  {
    if n == 0 then {} else SocketsOf(table, m, n - 1) + if Taken(n - 1, m) then {table[n - 1]} else {}
  }

  /** The set without those of the first `n` descriptors that are not ready. */
  function ClearUnready(table: seq<nat>, m: SdSet, ready: set<nat>, n: nat): SdSet
    requires n <= |table|
  {
    if n == 0 then m
    else
      var left := ClearUnready(table, m, ready, n - 1);
      if Taken(n - 1, left) && table[n - 1] !in ready then SdsClr(n - 1, left) else left
  }

  function AllSocketsOf(table: seq<nat>, sds: Sets): Sockets {
    var n := |table|;
    Sockets(SocketsOf(table, sds.read, n), SocketsOf(table, sds.write, n), SocketsOf(table, sds.except, n))
  }

  function NdkSelect(table: seq<nat>, poll: Poll, nfds: nat, sds: Sets): Reply {
    var n := |table|;
    var p := poll(nfds, AllSocketsOf(table, sds));
    if p.numFds < 0 then Reply(p.numFds, sds)
    else
      Reply(p.numFds, Sets(
        ClearUnready(table, sds.read, p.ready.read, n),
        ClearUnready(table, sds.write, p.ready.write, n),
        ClearUnready(table, sds.except, p.ready.except, n)))
  }

  /** What the stack is asked about: the sockets of the descriptors in the set, and besides, in every
      set that is not NULL, those of all descriptors from 32 on. */
  lemma {:induction false} SocketsAsked(table: seq<nat>, m: SdSet, n: nat, socket: nat)
    requires n <= |table|
    ensures socket in SocketsOf(table, m, n) <==>
      exists fd: nat :: fd < n && table[fd] == socket
        && (fd in Members(m) || (m.Some? && fd >= SLNETSOCK_MAX_CONCURRENT_SOCKETS))
  {
    hide Members, SdsIsSet, SdsSet, SdsClr, SdsClrAll;
    if n > 0 {
      SocketsAsked(table, m, n - 1, socket);
      TakenIff(n - 1, m);
    }
  }

  lemma TakenIff(fd: nat, m: SdSet)
    ensures Taken(fd, m) <==> fd in Members(m) || (m.Some? && fd >= SLNETSOCK_MAX_CONCURRENT_SOCKETS)
  {
    SetsRefined(fd, m);
  }

  /** A wait only clears bits: a descriptor stays exactly if it was set and its socket is ready. */
  lemma {:induction false} UnreadyCleared(table: seq<nat>, m: SdSet, ready: set<nat>, n: nat, fd: nat)
    requires n <= |table|
    ensures ClearUnready(table, m, ready, n).Some? == m.Some?
    ensures fd in Members(ClearUnready(table, m, ready, n)) <==>
      fd in Members(m) && (fd < n ==> table[fd] in ready)
  {
    hide Members, SdsIsSet, SdsSet, SdsClr, SdsClrAll, Taken;
    if n > 0 {
      UnreadyCleared(table, m, ready, n - 1, fd);
      var left := ClearUnready(table, m, ready, n - 1);
      TakenIff(n - 1, left);
      SetsRefined(n - 1, left);
      NullIsEmpty(left);
      SmallMembers(left, n - 1);
    }
  }

  lemma NullIsEmpty(m: SdSet)
    ensures m.None? ==> Members(m) == {}
  {}

  lemma SmallMembers(m: SdSet, fd: nat)
    ensures fd in Members(m) ==> fd < SLNETSOCK_MAX_CONCURRENT_SOCKETS
  {}

  lemma NdkOnlyClears(table: seq<nat>, poll: Poll, nfds: nat, sds: Sets)
    ensures OnlyClears(sds, NdkSelect(table, poll, nfds, sds).sets)
  {
    hide Members, ClearUnready, AllSocketsOf;
    var n := |table|;
    var p := poll(nfds, AllSocketsOf(table, sds));
    forall fd: nat
      ensures fd in Members(ClearUnready(table, sds.read, p.ready.read, n)) ==> fd in Members(sds.read)
    {
      UnreadyCleared(table, sds.read, p.ready.read, n, fd);
    }
    forall fd: nat
      ensures fd in Members(ClearUnready(table, sds.write, p.ready.write, n)) ==> fd in Members(sds.write)
    {
      UnreadyCleared(table, sds.write, p.ready.write, n, fd);
    }
    forall fd: nat
      ensures fd in Members(ClearUnready(table, sds.except, p.ready.except, n)) ==> fd in Members(sds.except)
    {
      UnreadyCleared(table, sds.except, p.ready.except, n, fd);
    }
  }

  /** The interface's whole answer: on an error of the stack the sets are as they came; otherwise each keeps
      just the descriptors whose sockets are ready, also when none is. */
  lemma NdkAnswers(table: seq<nat>, poll: Poll, nfds: nat, sds: Sets, polled: Polled, fd: nat)
    requires polled == poll(nfds, AllSocketsOf(table, sds)) && fd < |table|
    ensures NdkSelect(table, poll, nfds, sds).ready == polled.numFds
    ensures polled.numFds < 0 ==> NdkSelect(table, poll, nfds, sds).sets == sds
    ensures polled.numFds >= 0 ==>
      var left := NdkSelect(table, poll, nfds, sds).sets;
      && (fd in Members(left.read) <==> fd in Members(sds.read) && table[fd] in polled.ready.read)
      && (fd in Members(left.write) <==> fd in Members(sds.write) && table[fd] in polled.ready.write)
      && (fd in Members(left.except) <==> fd in Members(sds.except) && table[fd] in polled.ready.except)
  {
    hide Members, ClearUnready, AllSocketsOf;
    UnreadyCleared(table, sds.read, polled.ready.read, |table|, fd);
    UnreadyCleared(table, sds.write, polled.ready.write, |table|, fd);
    UnreadyCleared(table, sds.except, polled.ready.except, |table|, fd);
  }

  // ---------- Down and up ----------

  /** No socket is being closed meanwhile. */
  predicate NoneClosing(slots: seq<Slot>) {
    forall v :: 0 <= v < |slots| ==> !slots[v].Closing?
  }

  lemma NoneShared(n: Net, sds: Sets, nsds: nat)
    requires Inv(n) && NoneClosing(n.slots)
    ensures Unshared(n.slots, sds, nsds)
  {
    hide Asked;
    forall u, v | 0 <= u < v < nsds && Watched(n.slots, sds, u) && Watched(n.slots, sds, v)
      ensures !SameReal(n.slots[u], n.slots[v])
    {
      assert n.slots[u] != n.slots[v];
    }
  }

  /** In every state that creations and closes lead to, with no close under way, a wait that reaches an
      interface and finds something ready reports a virtual socket in the read set exactly if it was
      asked for, is below the bound and open, its real descriptor is below 32, and the stack says that
      the real socket in the interface's table is ready; and the same for the other two sets. */
  lemma SelectThroughNdk(
      n: Net, interfaces: map<nat, Interface>, poll: Poll, memory: nat, nsds: nat, sds: Sets,
      reply: Reply, polled: Polled, v: nat)
    requires Inv(n) && NoneClosing(n.slots) && v < SLNETSOCK_MAX_CONCURRENT_SOCKETS
    requires Ask(n.slots, interfaces, memory, nsds, sds) == Some(reply) && reply.ready > 0
    requires var g := Collect(n.slots, sds, memory, nsds);
      && g.firstIf.value < |n.tables|
      && interfaces[g.firstIf.value](g.nsds, g.below) == NdkSelect(n.tables[g.firstIf.value], poll, g.nsds, g.below)
    requires var g := Collect(n.slots, sds, memory, nsds); var table := n.tables[g.firstIf.value];
      polled == poll(g.nsds, AllSocketsOf(table, g.below))
    ensures Select(n.slots, interfaces, memory, nsds, sds).0 == Returned(polled.numFds)
    ensures var result := Select(n.slots, interfaces, memory, nsds, sds).1;
      && (v in Members(result.read) <==> v in Members(sds.read) && Ready(n, nsds, v, polled.ready.read))
      && (v in Members(result.write) <==> v in Members(sds.write) && Ready(n, nsds, v, polled.ready.write))
      && (v in Members(result.except) <==> v in Members(sds.except) && Ready(n, nsds, v, polled.ready.except))
  {
    hide Members, AllSocketsOf, ClearUnready, Collect, Unshared, Translate, SdsIsSet, SdsClrAll, Select;
    var g := Collect(n.slots, sds, memory, nsds);
    var i := g.firstIf.value;
    NoneShared(n, sds, nsds);
    NdkOnlyClears(n.tables[i], poll, g.nsds, g.below);
    SelectTranslates(n.slots, interfaces, memory, nsds, sds, reply, v);
    if v < nsds && n.slots[v].Open? && Asked(sds, v) {
      OneReady(n, interfaces, memory, nsds, sds, v);
      UnreadyCleared(n.tables[i], g.below.read, polled.ready.read, |n.tables[i]|, n.slots[v].realSd);
      UnreadyCleared(n.tables[i], g.below.write, polled.ready.write, |n.tables[i]|, n.slots[v].realSd);
      UnreadyCleared(n.tables[i], g.below.except, polled.ready.except, |n.tables[i]|, n.slots[v].realSd);
    }
    SetsRefined(v, sds.read);
    SetsRefined(v, sds.write);
    SetsRefined(v, sds.except);
  }

  /** Open below the bound, its real descriptor fits a set, and its real socket is among the ready. */
  predicate Ready(n: Net, nsds: nat, v: nat, ready: set<nat>) {
    && v < nsds && v < |n.slots| && n.slots[v].Open? && n.slots[v].realSd < SLNETSOCK_MAX_CONCURRENT_SOCKETS
    && Valid(n, n.slots[v].netIf, n.slots[v].realSd)
    && n.tables[n.slots[v].netIf][n.slots[v].realSd] in ready
  }

  /** A watched socket is of the interface asked, and each of its bits is in the set handed down. */
  lemma OneReady(n: Net, interfaces: map<nat, Interface>, memory: nat, nsds: nat, sds: Sets, v: nat)
    requires Inv(n) && Ask(n.slots, interfaces, memory, nsds, sds).Some?
    requires v < nsds && v < |n.slots| && n.slots[v].Open? && Asked(sds, v)
    ensures var g := Collect(n.slots, sds, memory, nsds); var fd := n.slots[v].realSd;
      && g.firstIf == Some(n.slots[v].netIf) && Valid(n, n.slots[v].netIf, fd)
      && (v in Members(sds.read) && fd < SLNETSOCK_MAX_CONCURRENT_SOCKETS ==> fd in Members(g.below.read))
      && (v in Members(sds.write) && fd < SLNETSOCK_MAX_CONCURRENT_SOCKETS ==> fd in Members(g.below.write))
      && (v in Members(sds.except) && fd < SLNETSOCK_MAX_CONCURRENT_SOCKETS ==> fd in Members(g.below.except))
      && (fd >= SLNETSOCK_MAX_CONCURRENT_SOCKETS ==>
           fd !in Members(g.below.read) && fd !in Members(g.below.write) && fd !in Members(g.below.except))
  {
    hide Members, Collect, OneInterface, Owned, Asked;
    CollectGathers(n.slots, sds, memory, nsds);
    var g := Collect(n.slots, sds, memory, nsds);
    var fd := n.slots[v].realSd;
    assert Backed(n, v);
    assert Watched(n.slots, sds, v);
    if fd < SLNETSOCK_MAX_CONCURRENT_SOCKETS {
      RealSets(n.slots, sds, memory, nsds, fd);
    }
    SmallMembers(g.below.read, fd);
    SmallMembers(g.below.write, fd);
    SmallMembers(g.below.except, fd);
  }
}
