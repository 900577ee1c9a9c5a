/**
The table of virtual sockets and the descriptor tables of the interfaces below it, over any
interleaving of creations and closes.
 */
module SocketTable {

  const SLNETSOCK_MAX_CONCURRENT_SOCKETS: nat := 32

  /** A slot of the table: free; allocated but without an interface yet; with a real socket created for
      it but not entered yet; open; or with its real socket already closed but not yet freed. */
  datatype Slot =
    | Free
    | Pending
    | Made(netIf: nat, realSd: nat)
    | Open(netIf: nat, realSd: nat)
    | Closing(netIf: nat, realSd: nat)

  /** The slots, and for each interface its descriptor table, where 0 stands for NULL. */
  datatype Net = Net(slots: seq<Slot>, tables: seq<seq<nat>>)

  function FirstFree(slots: seq<Slot>): (v: nat)
    ensures v <= |slots| && (v < |slots| ==> slots[v] == Free)
    ensures forall u :: 0 <= u < v ==> slots[u] != Free
  {
    if slots == [] || slots[0] == Free then 0 else 1 + FirstFree(slots[1..])
  }

  /** `addSktToTable`: the first descriptor with no socket. */
  function FirstNull(table: seq<nat>): (fd: nat)
    ensures fd <= |table| && (fd < |table| ==> table[fd] == 0)
    ensures forall i :: 0 <= i < fd ==> table[i] != 0
  {
    if table == [] || table[0] == 0 then 0 else 1 + FirstNull(table[1..])
  }

  // ---------- Steps ----------

  datatype Step =
    | Alloc
    | SockCreate(v: nat, netIf: nat, socket: nat)
    | Fill(v: nat)
    | GiveUp(v: nat)
    | SockClose(v: nat)
    | FreeSlot(v: nat)

  predicate Enabled(n: Net, step: Step) {
    match step
    case Alloc => true
    case SockCreate(v, netIf, socket) => v < |n.slots| && n.slots[v] == Pending && netIf < |n.tables| && socket != 0
    case Fill(v) => v < |n.slots| && n.slots[v].Made?
    case GiveUp(v) => v < |n.slots| && n.slots[v] == Pending
    case SockClose(v) => v < |n.slots| && n.slots[v].Open? && Valid(n, n.slots[v].netIf, n.slots[v].realSd)
    case FreeSlot(v) => v < |n.slots| && n.slots[v].Closing?
  }

  predicate Valid(n: Net, netIf: nat, fd: nat) {
    netIf < |n.tables| && fd < |n.tables[netIf]|
  }

  function With(table: seq<nat>, fd: nat, socket: nat): seq<nat>
    requires fd < |table|
  {
    table[fd := socket]
  }

  function Do(n: Net, step: Step): Net
    requires Enabled(n, step)
  {
    match step
    case Alloc =>
      var v := FirstFree(n.slots);
      if v < |n.slots| then n.(slots := n.slots[v := Pending]) else n
    case SockCreate(v, netIf, socket) =>
      var fd := FirstNull(n.tables[netIf]);
      if fd < |n.tables[netIf]| then
        Net(n.slots[v := Made(netIf, fd)], n.tables[netIf := With(n.tables[netIf], fd, socket)])
      else n
    case Fill(v) => n.(slots := n.slots[v := Open(n.slots[v].netIf, n.slots[v].realSd)])
    case GiveUp(v) => n.(slots := n.slots[v := Free])
    case SockClose(v) =>
      var i, fd := n.slots[v].netIf, n.slots[v].realSd;
      Net(n.slots[v := Closing(i, fd)], n.tables[i := With(n.tables[i], fd, 0)])
    case FreeSlot(v) => n.(slots := n.slots[v := Free])
  }

  // ---------- The invariant ----------

  /** A slot has the real socket as its own: it is open, or about to be. */
  predicate Holds(slot: Slot, netIf: nat, fd: nat) {
    (slot.Open? || slot.Made?) && slot.netIf == netIf && slot.realSd == fd
  }

  /** An open socket, or one about to be open, has a real one. */
  predicate Backed(n: Net, v: nat)
    requires v < |n.slots|
  {
    n.slots[v].Open? || n.slots[v].Made? ==>
      Valid(n, n.slots[v].netIf, n.slots[v].realSd) && n.tables[n.slots[v].netIf][n.slots[v].realSd] != 0
  }

  /** A real socket belongs to a slot. */
  ghost predicate Owned(n: Net, netIf: nat, fd: nat)
    requires Valid(n, netIf, fd)
  {
    n.tables[netIf][fd] != 0 ==> exists v :: 0 <= v < |n.slots| && Holds(n.slots[v], netIf, fd)
  }

  ghost predicate Inv(n: Net) {
    && |n.slots| == SLNETSOCK_MAX_CONCURRENT_SOCKETS
    && (forall v :: 0 <= v < |n.slots| ==> Backed(n, v))
    && (forall u, v :: 0 <= u < v < |n.slots| && (n.slots[u].Open? || n.slots[u].Made?) ==>
         !Holds(n.slots[v], n.slots[u].netIf, n.slots[u].realSd))
    && (forall i: nat, fd: nat :: Valid(n, i, fd) ==> Owned(n, i, fd))
  }

  lemma CreateKeepsInv(n: Net, v: nat, netIf: nat, socket: nat)
    requires Inv(n) && Enabled(n, SockCreate(v, netIf, socket))
    ensures Inv(Do(n, SockCreate(v, netIf, socket)))
  {
    var fd := FirstNull(n.tables[netIf]);
    if fd < |n.tables[netIf]| {
      var m := Do(n, SockCreate(v, netIf, socket));
      forall u | 0 <= u < |n.slots| ensures !Holds(n.slots[u], netIf, fd) { assert Backed(n, u); }
      forall i: nat, f: nat | Valid(m, i, f) ensures Owned(m, i, f) {
        assert Owned(n, i, f);
        if i == netIf && f == fd {
          assert Holds(m.slots[v], i, f);
        } else if m.tables[i][f] != 0 {
          var u :| 0 <= u < |n.slots| && Holds(n.slots[u], i, f);
          assert Holds(m.slots[u], i, f);
        }
      }
      forall u | 0 <= u < |m.slots| ensures Backed(m, u) { assert Backed(n, u); }
    }
  }

  lemma CloseKeepsInv(n: Net, v: nat)
    requires Inv(n) && Enabled(n, SockClose(v))
    ensures Inv(Do(n, SockClose(v)))
  {
    var m := Do(n, SockClose(v));
    forall i: nat, f: nat | Valid(m, i, f) ensures Owned(m, i, f) {
      assert Owned(n, i, f);
      if m.tables[i][f] != 0 {
        var u :| 0 <= u < |n.slots| && Holds(n.slots[u], i, f);
        assert Holds(m.slots[u], i, f);
      }
    }
    forall u | 0 <= u < |m.slots| ensures Backed(m, u) { assert Backed(n, u); }
  }

  /** A change of a slot that takes no real socket to it or from it. */
  lemma OtherKeepsInv(n: Net, v: nat, slot: Slot)
    requires Inv(n) && v < |n.slots|
    requires slot.Made? || slot.Open? <==> n.slots[v].Made? || n.slots[v].Open?
    requires slot.Made? || slot.Open? ==> slot.netIf == n.slots[v].netIf && slot.realSd == n.slots[v].realSd
    ensures Inv(n.(slots := n.slots[v := slot]))
  {
    var m := n.(slots := n.slots[v := slot]);
    forall i: nat, f: nat | Valid(m, i, f) ensures Owned(m, i, f) {
      assert Owned(n, i, f);
      if m.tables[i][f] != 0 {
        var u :| 0 <= u < |n.slots| && Holds(n.slots[u], i, f);
        assert Holds(m.slots[u], i, f);
      }
    }
    forall u | 0 <= u < |m.slots| ensures Backed(m, u) { assert Backed(n, u); }
  }

  lemma StepKeepsInv(n: Net, step: Step)
    requires Inv(n) && Enabled(n, step)
    ensures Inv(Do(n, step))
  {
    match step
    case Alloc =>
      var v := FirstFree(n.slots);
      if v < |n.slots| { OtherKeepsInv(n, v, Pending); }
    case SockCreate(v, netIf, socket) => CreateKeepsInv(n, v, netIf, socket);
    case Fill(v) => OtherKeepsInv(n, v, Open(n.slots[v].netIf, n.slots[v].realSd));
    case GiveUp(v) => OtherKeepsInv(n, v, Free);
    case SockClose(v) => CloseKeepsInv(n, v);
    case FreeSlot(v) => OtherKeepsInv(n, v, Free);
  }

  // ---------- Whole runs ----------

  predicate IsStart(n: Net) {
    && |n.slots| == SLNETSOCK_MAX_CONCURRENT_SOCKETS
    && (forall v :: 0 <= v < |n.slots| ==> n.slots[v] == Free)
    && (forall i, fd :: 0 <= i < |n.tables| && 0 <= fd < |n.tables[i]| ==> n.tables[i][fd] == 0)
  }

  ghost predicate Reaches(n: Net, run: seq<Step>, m: Net)
    decreases |run|
  {
    if run == [] then m == n else Enabled(n, run[0]) && Reaches(Do(n, run[0]), run[1..], m)
  }

  lemma {:induction false} RunKeepsInv(n: Net, run: seq<Step>, m: Net)
    requires Inv(n) && Reaches(n, run, m)
    ensures Inv(m)
    decreases |run|
  {
    hide Inv, Enabled, Do;
    if run != [] {
      StepKeepsInv(n, run[0]);
      RunKeepsInv(Do(n, run[0]), run[1..], m);
    }
  }

  /** Whether two slots name the same real socket of the same interface. */
  predicate SameReal(a: Slot, b: Slot) {
    && (a.Open? || a.Made? || a.Closing?) && (b.Open? || b.Made? || b.Closing?)
    && a.netIf == b.netIf && a.realSd == b.realSd
  }

  /** Over every run: open virtual sockets stand for different real ones, and the sockets in the
      interfaces' tables are just theirs and those of creations under way. Two slots can name the same
      real socket only while one of them is being closed. */
  lemma RealSocketsAreUnique(n: Net, run: seq<Step>, m: Net, u: nat, v: nat)
    requires IsStart(n) && Reaches(n, run, m) && u < v < SLNETSOCK_MAX_CONCURRENT_SOCKETS
    ensures |m.slots| == SLNETSOCK_MAX_CONCURRENT_SOCKETS
    ensures SameReal(m.slots[u], m.slots[v]) ==> m.slots[u].Closing? || m.slots[v].Closing?
    ensures forall i: nat, fd: nat :: Valid(m, i, fd) ==>
      (m.tables[i][fd] != 0 <==> exists w :: 0 <= w < |m.slots| && Holds(m.slots[w], i, fd))
  {
    assert Inv(n);
    RunKeepsInv(n, run, m);
    forall i: nat, fd: nat | Valid(m, i, fd)
      ensures m.tables[i][fd] != 0 <==> exists w :: 0 <= w < |m.slots| && Holds(m.slots[w], i, fd)
    {
      assert Owned(m, i, fd);
      forall w | 0 <= w < |m.slots| && Holds(m.slots[w], i, fd) ensures m.tables[i][fd] != 0 { assert Backed(m, w); }
    }
  }

  /** One open socket in the first slot, with the first descriptor of the first interface. */
  function OneOpen(n: Net, socket: nat): Net
    requires |n.slots| > 0 && |n.tables| > 0 && |n.tables[0]| > 0
  {
    Net(n.slots[0 := Open(0, 0)], n.tables[0 := With(n.tables[0], 0, socket)])
  }

  lemma OneOpenReached(n: Net, socket: nat)
    requires IsStart(n) && |n.tables| > 0 && |n.tables[0]| > 0 && socket != 0
    ensures exists run :: Reaches(n, run, OneOpen(n, socket))
  {
    hide Inv, Reaches;
    var n1 := Do(n, Alloc);
    var n2 := Do(n1, SockCreate(0, 0, socket));
    ReachesEnd(n);
    Then(n, [], n, Alloc);
    Then(n, [] + [Alloc], n1, SockCreate(0, 0, socket));
    Then(n, [] + [Alloc] + [SockCreate(0, 0, socket)], n2, Fill(0));
    assert Do(n2, Fill(0)).slots == OneOpen(n, socket).slots;
  }

  /** And they can: a close frees the real descriptor before the slot, and a creation in between is
      given the same one. */
  lemma CloseWindow(n: Net, socket: nat)
    requires IsStart(n) && |n.tables| > 0 && |n.tables[0]| > 0 && socket != 0
    ensures exists run, m :: Reaches(n, run, m) && |m.slots| > 2 && m.slots[..2] == [Closing(0, 0), Open(0, 0)]
  {
    hide Inv, Reaches;
    OneOpenReached(n, socket);
    var m0 := OneOpen(n, socket);
    var run :| Reaches(n, run, m0);
    Then(n, run, m0, SockClose(0));
    var m1 := Do(m0, SockClose(0));
    Then(n, run + [SockClose(0)], m1, Alloc);
    var m2 := Do(m1, Alloc);
    Then(n, run + [SockClose(0)] + [Alloc], m2, SockCreate(1, 0, socket));
    var m3 := Do(m2, SockCreate(1, 0, socket));
    Then(n, run + [SockClose(0)] + [Alloc] + [SockCreate(1, 0, socket)], m3, Fill(1));
  }

  lemma ReachesEnd(n: Net)
    ensures Reaches(n, [], n)
  {}

  lemma {:induction false} Then(n: Net, run: seq<Step>, m: Net, step: Step)
    requires Reaches(n, run, m) && Enabled(m, step)
    ensures Reaches(n, run + [step], Do(m, step))
    decreases |run|
  {
    hide Enabled, Do;
    if run == [] {
      assert run + [step] == [step];
      assert [step][1..] == [];
    } else {
      Then(Do(n, run[0]), run[1..], m, step);
      assert (run + [step])[1..] == run[1..] + [step];
    }
  }
}
