/**
Waiting for activity on virtual sockets: sets of virtual descriptors are translated to sets of real
ones, handed to the one interface below, and its answer is translated back.
 */
module SocketSelect {
  import opened BitMask
  import opened Options
  import opened SocketTable

  // ---------- Descriptor sets ----------

  /** A pointer to a set, or NULL. */
  type SdSet = Option<Mask>

  datatype Query = No | Yes | InvalidInput

  function SdsIsSet(sd: nat, m: SdSet): Query {
    if m.None? || sd >= SLNETSOCK_MAX_CONCURRENT_SOCKETS then InvalidInput
    else if Has(m.value, sd) then Yes
    else No
  }

  function SdsSet(sd: nat, m: SdSet): SdSet {
    if m.None? || sd >= SLNETSOCK_MAX_CONCURRENT_SOCKETS then m else Some(Or(m.value, Bit(sd)))
  }

  function SdsClr(sd: nat, m: SdSet): SdSet {
    if m.None? || sd >= SLNETSOCK_MAX_CONCURRENT_SOCKETS then m else Some(Clear(m.value, Bit(sd)))
  }

  function SdsClrAll(m: SdSet): SdSet { if m.None? then None else Some(0) }

  /** The members of a set; those of NULL are none. */
  function Members(m: SdSet): set<nat> { if m.None? then {} else Positions(m.value) }

  /** The operations on descriptor sets are those on finite sets, for descriptors below 32; a larger
      one is refused and a NULL set stays NULL. */
  lemma SetsRefined(sd: nat, m: SdSet)
    ensures SdsIsSet(sd, m) == Yes <==> sd in Members(m)
    ensures m.Some? && sd < SLNETSOCK_MAX_CONCURRENT_SOCKETS ==>
      && Members(SdsSet(sd, m)) == Members(m) + {sd}
      && Members(SdsClr(sd, m)) == Members(m) - {sd}
    ensures m.None? || sd >= SLNETSOCK_MAX_CONCURRENT_SOCKETS ==>
      SdsSet(sd, m) == m && SdsClr(sd, m) == m && SdsIsSet(sd, m) == InvalidInput
    ensures Members(SdsClrAll(m)) == {}
    ensures SdsSet(sd, m).Some? == SdsClr(sd, m).Some? == SdsClrAll(m).Some? == m.Some?
  {
    hide And, Or, Clear, Bit, Has;
    ZeroIsEmpty(0);
    if m.Some? && sd < SLNETSOCK_MAX_CONCURRENT_SOCKETS {
      PositionsOfOperations(m.value, Bit(sd));
      PositionsOfBit(sd);
    }
  }

  // ---------- Gathering ----------

  /** The three sets of a call. */
  datatype Sets = Sets(read: SdSet, write: SdSet, except: SdSet)

  datatype Node = Node(realSd: nat, virtualSd: nat)

  datatype Progress = Going | NoMemory | Mixed

  /** What has been gathered: the real sets, the pairs of real and virtual descriptors with the latest
      first, the interface, the bound for the interface. */
  datatype Gather = Gather(below: Sets, nodes: seq<Node>, firstIf: Option<nat>, nsds: nat, progress: Progress)

  predicate IsOpen(slots: seq<Slot>, v: nat) {
    v < |slots| && (slots[v].Open? || slots[v].Closing?)
  }

  predicate Asked(sds: Sets, v: nat) {
    SdsIsSet(v, sds.read) == Yes || SdsIsSet(v, sds.write) == Yes || SdsIsSet(v, sds.except) == Yes
  }

  predicate Watched(slots: seq<Slot>, sds: Sets, v: nat) {
    IsOpen(slots, v) && Asked(sds, v)
  }

  function Mark(below: SdSet, virt: SdSet, v: nat, fd: nat): SdSet {
    if SdsIsSet(v, virt) == Yes then SdsSet(fd, below) else below
  }

  /** One index of the first loop, as long as there was no reason to leave it. */
  function Visit(slots: seq<Slot>, sds: Sets, memory: nat, g: Gather, v: nat): Gather {
    if !Watched(slots, sds, v) then g
    else
      var fd, netIf := slots[v].realSd, slots[v].netIf;
      var below := Sets(Mark(g.below.read, sds.read, v, fd), Mark(g.below.write, sds.write, v, fd),
                       Mark(g.below.except, sds.except, v, fd));
      if |g.nodes| >= memory then g.(below := below, firstIf := None, progress := NoMemory)
      else
        var next := g.(below := below, nodes := [Node(fd, v)] + g.nodes);
        if g.firstIf.Some? && g.firstIf.value != netIf then next.(firstIf := None, progress := Mixed)
        else next.(firstIf := Some(netIf), nsds := if g.nsds <= fd then fd + 1 else g.nsds)
  }

  const Empty := Sets(Some(0), Some(0), Some(0))

  function Collect(slots: seq<Slot>, sds: Sets, memory: nat, n: nat): Gather {
    if n == 0 then Gather(Empty, [], None, 0, Going)
    else
      var g := Collect(slots, sds, memory, n - 1);
      if g.progress == Going then Visit(slots, sds, memory, g, n - 1) else g
  }

  // ---------- Translating back ----------

  /** One of the caller's sets from the interface's answer. */
  function Translate(nodes: seq<Node>, answer: SdSet, virt: SdSet): SdSet {
    if nodes == [] then virt
    else
      Translate(nodes[1..], answer,
                if SdsIsSet(nodes[0].realSd, answer) == Yes then SdsSet(nodes[0].virtualSd, virt) else virt)
  }

  // ---------- The call ----------

  /** What an interface answers: how many descriptors are ready, or an error, and the sets. */
  datatype Reply = Reply(ready: int, sets: Sets)

  type Interface = (nat, Sets) -> Reply

  datatype Code = MALLOC_ERROR | INVALID_INPUT | Returned(ready: int)

  /** The interface's answer, if the call is handed to one. */
  function Ask(slots: seq<Slot>, interfaces: map<nat, Interface>, memory: nat, nsds: nat, sds: Sets): Option<Reply> {
    var g := Collect(slots, sds, memory, nsds);
    if g.firstIf.Some? && g.firstIf.value in interfaces then
      Some(interfaces[g.firstIf.value](g.nsds, g.below))
    else None
  }

  function Select(
      slots: seq<Slot>, interfaces: map<nat, Interface>, memory: nat, nsds: nat, sds: Sets): (Code, Sets)
  {
    var g := Collect(slots, sds, memory, nsds);
    match Ask(slots, interfaces, memory, nsds, sds)
    case Some(reply) =>
      var clear := Sets(SdsClrAll(sds.read), SdsClrAll(sds.write), SdsClrAll(sds.except));
      if reply.ready > 0 then
        (Returned(reply.ready),
         Sets(Translate(g.nodes, reply.sets.read, clear.read), Translate(g.nodes, reply.sets.write, clear.write),
              Translate(g.nodes, reply.sets.except, clear.except)))
      else (Returned(reply.ready), clear)
    case None => (if g.progress == NoMemory then MALLOC_ERROR else INVALID_INPUT, sds)
  }

  // ---------- What is gathered ----------

  /** How many of the first `n` virtual sockets are watched. */
  function Count(slots: seq<Slot>, sds: Sets, n: nat): nat {
    if n == 0 then 0 else Count(slots, sds, n - 1) + if Watched(slots, sds, n - 1) then 1 else 0
  }

  predicate OneInterface(slots: seq<Slot>, sds: Sets, n: nat) {
    forall u, v :: 0 <= u < v < n && Watched(slots, sds, u) && Watched(slots, sds, v) ==>
      slots[u].netIf == slots[v].netIf
  }

  /** The gathering as long as it goes on. */
  ghost predicate Gathered(slots: seq<Slot>, sds: Sets, n: nat, g: Gather) {
    && |g.nodes| == Count(slots, sds, n)
    && (forall v: nat :: v < n && Watched(slots, sds, v) ==>
         Node(slots[v].realSd, v) in g.nodes && g.firstIf == Some(slots[v].netIf))
    && (forall node :: node in g.nodes ==>
         node.virtualSd < n && Watched(slots, sds, node.virtualSd) && node.realSd == slots[node.virtualSd].realSd)
    && (g.firstIf.Some? <==> g.nodes != [])
  }

  lemma VisitGathers(slots: seq<Slot>, sds: Sets, memory: nat, g: Gather, n: nat)
    requires Gathered(slots, sds, n, g) && g.progress == Going
    ensures Visit(slots, sds, memory, g, n).progress == Going ==>
      Gathered(slots, sds, n + 1, Visit(slots, sds, memory, g, n))
  {
    hide Mark, Asked, SdsIsSet;
  }

  /** The loop is left early exactly when memory runs out or a second interface turns up. */
  lemma {:induction false} CollectGathers(slots: seq<Slot>, sds: Sets, memory: nat, n: nat)
    ensures var g := Collect(slots, sds, memory, n);
      && (g.progress == Going <==> Count(slots, sds, n) <= memory && OneInterface(slots, sds, n))
      && (g.progress == Going ==> Gathered(slots, sds, n, g))
      && (g.progress != Going ==> g.firstIf == None)
  {
    hide Mark, Watched, Gathered;
    if n == 0 {
      StartGathers(slots, sds, memory);
    } else {
      CollectGathers(slots, sds, memory, n - 1);
      var g := Collect(slots, sds, memory, n - 1);
      if g.progress == Going {
        VisitGathers(slots, sds, memory, g, n - 1);
        VisitProgress(slots, sds, memory, g, n - 1);
      }
    }
  }

  lemma StartGathers(slots: seq<Slot>, sds: Sets, memory: nat)
    ensures Gathered(slots, sds, 0, Collect(slots, sds, memory, 0))
  {}

  lemma VisitProgress(slots: seq<Slot>, sds: Sets, memory: nat, g: Gather, n: nat)
    requires Gathered(slots, sds, n, g) && g.progress == Going
    requires Count(slots, sds, n) <= memory && OneInterface(slots, sds, n)
    ensures var next := Visit(slots, sds, memory, g, n);
      && (next.progress == Going <==> Count(slots, sds, n + 1) <= memory && OneInterface(slots, sds, n + 1))
      && (next.progress != Going ==> next.firstIf == None)
  {
    hide Mark, Asked, SdsIsSet;
    if g.nodes != [] {
      var node := g.nodes[0];
      assert node in g.nodes;
      assert Watched(slots, sds, node.virtualSd);
    }
  }

  /** The bound for the interface is one more than the greatest watched real descriptor. */
  lemma {:induction false} BoundIsLeast(slots: seq<Slot>, sds: Sets, memory: nat, n: nat)
    requires Collect(slots, sds, memory, n).progress == Going
    ensures var bound := Collect(slots, sds, memory, n).nsds;
      && (forall v: nat :: v < n && Watched(slots, sds, v) ==> slots[v].realSd < bound)
      && (bound > 0 ==> exists v: nat :: v < n && Watched(slots, sds, v) && slots[v].realSd + 1 == bound)
  {
    hide Mark, Asked, SdsIsSet;
    if n > 0 {
      var g := Collect(slots, sds, memory, n - 1);
      BoundIsLeast(slots, sds, memory, n - 1);
      if Watched(slots, sds, n - 1) {
        assert Collect(slots, sds, memory, n).nsds
          == if g.nsds <= slots[n - 1].realSd then slots[n - 1].realSd + 1 else g.nsds;
      }
    }
  }

  /** A gathering that was left early ran out of memory exactly if one more watched socket than there is
      memory for came before any of a second interface. */
  lemma {:induction false} LeftForMemoryIff(slots: seq<Slot>, sds: Sets, memory: nat, n: nat)
    ensures Collect(slots, sds, memory, n).progress == NoMemory <==>
      exists v: nat :: v < n && Watched(slots, sds, v) && Count(slots, sds, v) == memory && OneInterface(slots, sds, v)
  {
    hide Mark, Watched, OneInterface, Gathered, Visit;
    if n > 0 {
      LeftForMemoryIff(slots, sds, memory, n - 1);
      CollectGathers(slots, sds, memory, n - 1);
      var g := Collect(slots, sds, memory, n - 1);
      if g.progress == Going {
        NodesCounted(slots, sds, n - 1, g);
        VisitIsFull(slots, sds, memory, g, n - 1);
      } else {
        TooManyBefore(slots, sds, memory, n - 1);
      }
    }
  }

  lemma NodesCounted(slots: seq<Slot>, sds: Sets, n: nat, g: Gather)
    requires Gathered(slots, sds, n, g)
    ensures |g.nodes| == Count(slots, sds, n)
  {}

  lemma VisitIsFull(slots: seq<Slot>, sds: Sets, memory: nat, g: Gather, v: nat)
    requires g.progress == Going
    ensures Visit(slots, sds, memory, g, v).progress == NoMemory <==> Watched(slots, sds, v) && |g.nodes| >= memory
  {
    hide Mark;
  }

  /** Where the gathering has been left, no later socket is the first too many. */
  lemma TooManyBefore(slots: seq<Slot>, sds: Sets, memory: nat, n: nat)
    requires Count(slots, sds, n) > memory || !OneInterface(slots, sds, n)
    ensures !(Count(slots, sds, n) == memory && OneInterface(slots, sds, n))
  {}

  // ---------- The real sets ----------

  /** The real descriptors that one of the sets stands for. */
  predicate Stands(slots: seq<Slot>, virt: SdSet, n: nat, fd: nat) {
    exists v: nat :: v < n && IsOpen(slots, v) && v in Members(virt) && slots[v].realSd == fd
  }

  lemma {:induction false} RealSets(slots: seq<Slot>, sds: Sets, memory: nat, n: nat, fd: nat)
    requires Collect(slots, sds, memory, n).progress == Going && fd < SLNETSOCK_MAX_CONCURRENT_SOCKETS
    ensures var below := Collect(slots, sds, memory, n).below;
      && below.read.Some? && below.write.Some? && below.except.Some?
      && (fd in Members(below.read) <==> Stands(slots, sds.read, n, fd))
      && (fd in Members(below.write) <==> Stands(slots, sds.write, n, fd))
      && (fd in Members(below.except) <==> Stands(slots, sds.except, n, fd))
  {
    hide Members, SdsSet, Stands, IsOpen, SdsIsSet;
    if n == 0 {
      SetsRefined(0, Some(0));
      NoneStands(slots, sds, fd);
    } else {
      var g := Collect(slots, sds, memory, n - 1);
      RealSets(slots, sds, memory, n - 1, fd);
      MarkStands(slots, g.below.read, sds.read, n - 1, fd);
      MarkStands(slots, g.below.write, sds.write, n - 1, fd);
      MarkStands(slots, g.below.except, sds.except, n - 1, fd);
    }
  }

  lemma NoneStands(slots: seq<Slot>, sds: Sets, fd: nat)
    ensures !Stands(slots, sds.read, 0, fd) && !Stands(slots, sds.write, 0, fd) && !Stands(slots, sds.except, 0, fd)
    ensures Members(Some(0)) == {}
  {
    SetsRefined(0, Some(0));
  }

  lemma MarkStands(slots: seq<Slot>, below: SdSet, virt: SdSet, v: nat, fd: nat)
    requires fd < SLNETSOCK_MAX_CONCURRENT_SOCKETS && below.Some?
    requires fd in Members(below) <==> Stands(slots, virt, v, fd)
    ensures IsOpen(slots, v) ==>
      var next := Mark(below, virt, v, slots[v].realSd);
      next.Some? && (fd in Members(next) <==> Stands(slots, virt, v + 1, fd))
    ensures !IsOpen(slots, v) || SdsIsSet(v, virt) != Yes ==>
      (Stands(slots, virt, v + 1, fd) <==> Stands(slots, virt, v, fd))
  {
    hide Members, SdsSet, SdsIsSet, SdsClr, SdsClrAll;
    SetsRefined(v, virt);
    if IsOpen(slots, v) { SetsRefined(slots[v].realSd, below); }
    if Stands(slots, virt, v, fd) {
      var u: nat :| u < v && IsOpen(slots, u) && u in Members(virt) && slots[u].realSd == fd;
      assert Stands(slots, virt, v + 1, fd);
    }
  }

  // ---------- Back again ----------

  predicate Hit(node: Node, answer: SdSet, v: nat) {
    node.virtualSd == v && SdsIsSet(node.realSd, answer) == Yes
  }

  lemma {:induction false} Translated(nodes: seq<Node>, answer: SdSet, virt: SdSet, v: nat)
    requires v < SLNETSOCK_MAX_CONCURRENT_SOCKETS && virt.Some?
    ensures Translate(nodes, answer, virt).Some?
    ensures v in Members(Translate(nodes, answer, virt)) <==>
      v in Members(virt) || exists node :: node in nodes && Hit(node, answer, v)
    decreases |nodes|
  {
    hide Members, SdsSet, SdsIsSet, SdsClr, SdsClrAll;
    if nodes != [] {
      var node := nodes[0];
      SetsRefined(node.virtualSd, virt);
      var next := if SdsIsSet(node.realSd, answer) == Yes then SdsSet(node.virtualSd, virt) else virt;
      Translated(nodes[1..], answer, next, v);
      assert v in Members(next) <==> v in Members(virt) || Hit(node, answer, v);
      assert nodes == [node] + nodes[1..];
      if m :| m in nodes && Hit(m, answer, v) {
        assert m == node || m in nodes[1..];
      }
      if m :| m in nodes[1..] && Hit(m, answer, v) {
        assert m in nodes;
      }
      assert Hit(node, answer, v) ==> exists m :: m in nodes && Hit(m, answer, v) by { assert node in nodes; }
    }
  }

  lemma {:induction false} TranslateNull(nodes: seq<Node>, answer: SdSet)
    ensures Translate(nodes, answer, None) == None
    decreases |nodes|
  {
    if nodes != [] { TranslateNull(nodes[1..], answer); }
  }

  // ---------- The main result ----------

  /** Watched sockets have real sockets of their own, as is the case unless one of them is being
      closed meanwhile. */
  predicate Unshared(slots: seq<Slot>, sds: Sets, n: nat) {
    forall u, v :: 0 <= u < v < n && Watched(slots, sds, u) && Watched(slots, sds, v) ==> !SameReal(slots[u], slots[v])
  }

  /** A call is handed to an interface exactly if some socket is watched, all watched sockets are of
      one interface, that one can wait, and memory suffices for a node each. */
  lemma DispatchedIff(slots: seq<Slot>, interfaces: map<nat, Interface>, memory: nat, nsds: nat, sds: Sets)
    ensures Select(slots, interfaces, memory, nsds, sds).0.Returned? <==>
      && (exists v: nat :: v < nsds && Watched(slots, sds, v) && slots[v].netIf in interfaces)
      && OneInterface(slots, sds, nsds) && Count(slots, sds, nsds) <= memory
    ensures !Select(slots, interfaces, memory, nsds, sds).0.Returned? ==>
      Select(slots, interfaces, memory, nsds, sds).1 == sds
  {
    hide Watched, Count, OneInterface, Translate, SdsClrAll;
    CollectGathers(slots, sds, memory, nsds);
    var g := Collect(slots, sds, memory, nsds);
    hide Collect;
    if g.progress == Going && g.nodes != [] {
      var node := g.nodes[0];
      assert node in g.nodes;
      assert Watched(slots, sds, node.virtualSd);
    }
  }

  /** A call that reaches no interface tells missing memory from everything else. */
  lemma RefusalCode(slots: seq<Slot>, interfaces: map<nat, Interface>, memory: nat, nsds: nat, sds: Sets)
    requires !Select(slots, interfaces, memory, nsds, sds).0.Returned?
    ensures Select(slots, interfaces, memory, nsds, sds).0 ==
      if exists v: nat ::
        v < nsds && Watched(slots, sds, v) && Count(slots, sds, v) == memory && OneInterface(slots, sds, v)
      then MALLOC_ERROR else INVALID_INPUT
  {
    hide Watched, Count, OneInterface, Translate, SdsClrAll, Collect;
    LeftForMemoryIff(slots, sds, memory, nsds);
  }

  predicate Within(answer: SdSet, asked: SdSet) { Members(answer) <= Members(asked) }

  /** One of the caller's sets after a call: the watched sockets whose real ones are in the answer. */
  lemma OneSet(slots: seq<Slot>, sds: Sets, memory: nat, nsds: nat, virt: SdSet, answer: SdSet, v: nat)
    requires v < SLNETSOCK_MAX_CONCURRENT_SOCKETS
    requires Gathered(slots, sds, nsds, Collect(slots, sds, memory, nsds))
    ensures v in Members(Translate(Collect(slots, sds, memory, nsds).nodes, answer, SdsClrAll(virt))) <==>
      virt.Some? && v < nsds && Watched(slots, sds, v) && slots[v].realSd in Members(answer)
  {
    hide Members, SdsIsSet, SdsSet, SdsClr, SdsClrAll, Collect, Asked;
    var nodes := Collect(slots, sds, memory, nsds).nodes;
    if virt.None? {
      TranslateNull(nodes, answer);
      SetsRefined(v, virt);
      NullHasNone(v);
    } else {
      SetsRefined(v, virt);
      Translated(nodes, answer, SdsClrAll(virt), v);
      forall fd ensures SdsIsSet(fd, answer) == Yes <==> fd in Members(answer) { SetsRefined(fd, answer); }
      if v < nsds && Watched(slots, sds, v) && slots[v].realSd in Members(answer) {
        assert Node(slots[v].realSd, v) in nodes;
        assert Hit(Node(slots[v].realSd, v), answer, v);
      }
    }
  }

  lemma NullHasNone(v: nat)
    ensures v !in Members(None) && SdsClrAll(None) == None
  {}

  /** The interface leaves in each set only what it was given there. */
  predicate OnlyClears(given: Sets, left: Sets) {
    Within(left.read, given.read) && Within(left.write, given.write) && Within(left.except, given.except)
  }

  /** Whatever the interface answers: a virtual descriptor is in a result set exactly if something is
      ready, it was asked for in any of the sets, is below the bound and open, and its real descriptor
      is in the corresponding set of the answer. */
  lemma SelectReports(
      slots: seq<Slot>, interfaces: map<nat, Interface>, memory: nat, nsds: nat, sds: Sets, reply: Reply, v: nat)
    requires v < SLNETSOCK_MAX_CONCURRENT_SOCKETS
    requires Ask(slots, interfaces, memory, nsds, sds) == Some(reply)
    ensures Select(slots, interfaces, memory, nsds, sds).0 == Returned(reply.ready)
    ensures var result := Select(slots, interfaces, memory, nsds, sds).1;
      var some := reply.ready > 0 && v < nsds && Watched(slots, sds, v);
      && (v in Members(result.read) <==>
           sds.read.Some? && some && slots[v].realSd in Members(reply.sets.read))
      && (v in Members(result.write) <==>
           sds.write.Some? && some && slots[v].realSd in Members(reply.sets.write))
      && (v in Members(result.except) <==>
           sds.except.Some? && some && slots[v].realSd in Members(reply.sets.except))
  {
    hide Members, SdsIsSet, Translate, Collect, Gathered, IsOpen, SdsClrAll, Asked;
    CollectGathers(slots, sds, memory, nsds);
    if reply.ready > 0 {
      OneSet(slots, sds, memory, nsds, sds.read, reply.sets.read, v);
      OneSet(slots, sds, memory, nsds, sds.write, reply.sets.write, v);
      OneSet(slots, sds, memory, nsds, sds.except, reply.sets.except, v);
    } else {
      SetsRefined(v, sds.read);
      SetsRefined(v, sds.write);
      SetsRefined(v, sds.except);
    }
  }

  // ---------- Shared real sockets ----------

  /** The set that a watched socket was asked for in: itself, or another one with its real socket. */
  ghost predicate Lent(slots: seq<Slot>, virt: SdSet, nsds: nat, v: nat)
    requires IsOpen(slots, v)
  {
    && v !in Members(virt)
    && exists u: nat ::
      u < nsds && IsOpen(slots, u) && u in Members(virt) && slots[u].realSd == slots[v].realSd
  }

  /** With an interface that only clears, a watched socket is reported in a set it was not asked for in
      if and only if another open socket was asked for there, has the same real descriptor, and that
      descriptor is ready: so never if the watched sockets have real ones of their own. */
  lemma WrongIff(slots: seq<Slot>, sds: Sets, memory: nat, nsds: nat, virt: SdSet, answer: SdSet, v: nat)
    requires v < nsds && v < SLNETSOCK_MAX_CONCURRENT_SOCKETS && Watched(slots, sds, v)
    requires Collect(slots, sds, memory, nsds).progress == Going
    requires var g := Collect(slots, sds, memory, nsds).below;
      || (virt == sds.read && Within(answer, g.read)) || (virt == sds.write && Within(answer, g.write))
      || (virt == sds.except && Within(answer, g.except))
    ensures v in Members(Translate(Collect(slots, sds, memory, nsds).nodes, answer, SdsClrAll(virt)))
        && v !in Members(virt)
      <==> Lent(slots, virt, nsds, v) && slots[v].realSd in Members(answer)
    ensures Unshared(slots, sds, nsds) ==> !Lent(slots, virt, nsds, v)
  {
    hide Members, SdsIsSet, Translate, Collect, SdsClrAll, Gathered, Asked;
    CollectGathers(slots, sds, memory, nsds);
    OneSet(slots, sds, memory, nsds, virt, answer, v);
    var fd := slots[v].realSd;
    if fd in Members(answer) {
      AnswerStands(slots, sds, memory, nsds, virt, answer, fd);
    }
    if Lent(slots, virt, nsds, v) {
      var u: nat :| u < nsds && IsOpen(slots, u) && u in Members(virt) && slots[u].realSd == fd;
      AskedThere(sds, virt, u);
      NullHasNone(u);
    }
  }

  /** It happens in the state that `CloseWindow` reaches: the first slot is being closed, the second has been
      given its real descriptor, and that is ready to read. A wait for the first to read and for the second to
      write reports both as ready to read. */
  lemma SharedIsReported(
      slots: seq<Slot>, i: nat, fd: nat, interfaces: map<nat, Interface>, memory: nat, sds: Sets, reply: Reply)
    requires |slots| >= 2 && slots[0] == Closing(i, fd) && slots[1] == Open(i, fd)
    requires Members(sds.read) == {0} && Members(sds.write) == {1}
    requires Ask(slots, interfaces, memory, 2, sds) == Some(reply)
    requires reply.ready > 0 && fd in Members(reply.sets.read)
    ensures Members(Select(slots, interfaces, memory, 2, sds).1.read) == {0, 1}
  {
    hide Members, SdsIsSet, Select, Ask, Asked;
    SomeHasMembers(sds.read);
    AskedThere(sds, sds.read, 0);
    AskedThere(sds, sds.write, 1);
    var result := Select(slots, interfaces, memory, 2, sds).1.read;
    forall v ensures v in Members(result) <==> v == 0 || v == 1 {
      if v in Members(result) { MembersSmall(result, v); }
      if 0 <= v < SLNETSOCK_MAX_CONCURRENT_SOCKETS {
        SelectReports(slots, interfaces, memory, 2, sds, reply, v);
      }
    }
  }

  lemma SomeHasMembers(m: SdSet)
    requires Members(m) != {}
    ensures m.Some?
  {}

  lemma AskedThere(sds: Sets, virt: SdSet, u: nat)
    requires virt == sds.read || virt == sds.write || virt == sds.except
    requires u in Members(virt)
    ensures Asked(sds, u)
  {
    hide Members, SdsIsSet;
    SetsRefined(u, virt);
  }

  /** What is left in a set stands for a socket that was asked for there. */
  lemma AnswerStands(slots: seq<Slot>, sds: Sets, memory: nat, nsds: nat, virt: SdSet, answer: SdSet, fd: nat)
    requires fd in Members(answer) && Collect(slots, sds, memory, nsds).progress == Going
    requires var g := Collect(slots, sds, memory, nsds).below;
      || (virt == sds.read && Within(answer, g.read)) || (virt == sds.write && Within(answer, g.write))
      || (virt == sds.except && Within(answer, g.except))
    ensures Stands(slots, virt, nsds, fd) && virt.Some?
  {
    hide Members, Collect, Stands;
    MembersSmall(answer, fd);
    RealSets(slots, sds, memory, nsds, fd);
    StandsIsSome(slots, virt, nsds, fd);
  }

  lemma StandsIsSome(slots: seq<Slot>, virt: SdSet, n: nat, fd: nat)
    requires Stands(slots, virt, n, fd)
    ensures virt.Some?
  {}

  /** The call is correct through both translations: a virtual descriptor is in a result set exactly
      if it was asked for there, is below the bound, is open, and the interface has left its real
      descriptor in the corresponding set. Without anything ready, or on an error, the sets are
      empty. */
  lemma SelectTranslates(
      slots: seq<Slot>, interfaces: map<nat, Interface>, memory: nat, nsds: nat, sds: Sets, reply: Reply, v: nat)
    requires v < SLNETSOCK_MAX_CONCURRENT_SOCKETS && Unshared(slots, sds, nsds)
    requires Ask(slots, interfaces, memory, nsds, sds) == Some(reply)
    requires OnlyClears(Collect(slots, sds, memory, nsds).below, reply.sets)
    ensures Select(slots, interfaces, memory, nsds, sds).0 == Returned(reply.ready)
    ensures var result := Select(slots, interfaces, memory, nsds, sds).1;
      var some := reply.ready > 0 && v < nsds && IsOpen(slots, v);
      && (v in Members(result.read) <==>
           some && v in Members(sds.read) && slots[v].realSd in Members(reply.sets.read))
      && (v in Members(result.write) <==>
           some && v in Members(sds.write) && slots[v].realSd in Members(reply.sets.write))
      && (v in Members(result.except) <==>
           some && v in Members(sds.except) && slots[v].realSd in Members(reply.sets.except))
  {
    hide Members, SdsIsSet, Translate, Collect, Within, Unshared, OneInterface, Gathered, IsOpen, SdsClrAll, Select;
    CollectGathers(slots, sds, memory, nsds);
    SelectReports(slots, interfaces, memory, nsds, sds, reply, v);
    if v < nsds && IsOpen(slots, v) {
      OwnSet(slots, sds, memory, nsds, sds.read, reply.sets.read, v);
      OwnSet(slots, sds, memory, nsds, sds.write, reply.sets.write, v);
      OwnSet(slots, sds, memory, nsds, sds.except, reply.sets.except, v);
    }
  }

  /** A socket with a real one of its own, watched and ready in a set, was asked for there. */
  lemma OwnSet(slots: seq<Slot>, sds: Sets, memory: nat, nsds: nat, virt: SdSet, answer: SdSet, v: nat)
    requires v < nsds && v < SLNETSOCK_MAX_CONCURRENT_SOCKETS && IsOpen(slots, v) && Unshared(slots, sds, nsds)
    requires Collect(slots, sds, memory, nsds).progress == Going
    requires var g := Collect(slots, sds, memory, nsds).below;
      || (virt == sds.read && Within(answer, g.read)) || (virt == sds.write && Within(answer, g.write))
      || (virt == sds.except && Within(answer, g.except))
    ensures slots[v].realSd in Members(answer) ==>
      (virt.Some? && Watched(slots, sds, v) <==> v in Members(virt))
  {
    hide Members, SdsIsSet, Translate, Collect, SdsClrAll, Asked, Within, Unshared, Lent, OneInterface;
    NullHasNone(v);
    if v in Members(virt) { AskedThere(sds, virt, v); }
    if Watched(slots, sds, v) && slots[v].realSd in Members(answer) {
      CollectGathers(slots, sds, memory, nsds);
      OneSet(slots, sds, memory, nsds, virt, answer, v);
      WrongIff(slots, sds, memory, nsds, virt, answer, v);
      AnswerStands(slots, sds, memory, nsds, virt, answer, slots[v].realSd);
    }
  }

  lemma MembersSmall(m: SdSet, fd: nat)
    requires fd in Members(m)
    ensures fd < SLNETSOCK_MAX_CONCURRENT_SOCKETS
  {}
}
