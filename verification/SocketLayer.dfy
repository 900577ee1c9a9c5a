/**
The virtual socket layer as it is updated in place: its table of sockets, and the calls that allocate,
create, close and wait.
 */
module SocketLayer {
  import opened Options
  import opened SocketTable
  import opened SocketSelect
  import SocketNdk

  datatype AllocError = NO_FREE_SPACE | NO_MEMORY

  // ---------- Creation ----------

  /** A creation on the interfaces of the query, in order of priority, with a slot allocated: each that
      has no free descriptor is passed over. The value is the slot, an error, or 0 when the query
      found no interface at all. */
  datatype Value = Descriptor(v: nat) | SockError

  function TryInterfaces(n: Net, v: nat, candidates: seq<nat>, socket: nat, value: Value): (Net, Value)
    requires v < |n.slots| && n.slots[v] == Pending && socket != 0
    requires forall i :: 0 <= i < |candidates| ==> candidates[i] < |n.tables|
    decreases |candidates|
  {
    if candidates == [] then (Do(n, GiveUp(v)), value)
    else
      var m := Do(n, SockCreate(v, candidates[0], socket));
      if m.slots[v] == Pending then TryInterfaces(n, v, candidates[1..], socket, SockError)
      else (Do(m, Fill(v)), Descriptor(v))
  }

  /** Whether an interface has a free descriptor. */
  predicate HasRoom(n: Net, netIf: nat) {
    netIf < |n.tables| && exists fd :: 0 <= fd < |n.tables[netIf]| && n.tables[netIf][fd] == 0
  }

  /** The place of the first candidate with room, or the number of candidates. */
  function FirstWithRoom(n: Net, candidates: seq<nat>): (i: nat)
    ensures i <= |candidates| && (i < |candidates| ==> HasRoom(n, candidates[i]))
    ensures forall j :: 0 <= j < i ==> !HasRoom(n, candidates[j])
  {
    if candidates == [] || HasRoom(n, candidates[0]) then 0 else 1 + FirstWithRoom(n, candidates[1..])
  }

  lemma RoomIff(n: Net, netIf: nat)
    requires netIf < |n.tables|
    ensures HasRoom(n, netIf) <==> FirstNull(n.tables[netIf]) < |n.tables[netIf]|
  {}

  /** All or nothing: either the first candidate with room has given its first free descriptor, or no
      candidate has room, the slot is free again and nothing has changed. */
  lemma {:induction false} CreateAllOrNothing(n: Net, candidates: seq<nat>, socket: nat, value: Value)
    requires FirstFree(n.slots) < |n.slots| && socket != 0
    requires forall i :: 0 <= i < |candidates| ==> candidates[i] < |n.tables|
    ensures var v, i := FirstFree(n.slots), FirstWithRoom(n, candidates);
      var (m, r) := TryInterfaces(Do(n, Alloc), v, candidates, socket, value);
      if i < |candidates| then
        var netIf := candidates[i]; var fd := FirstNull(n.tables[netIf]);
        && r == Descriptor(v) && Valid(n, netIf, fd) && n.tables[netIf][fd] == 0
        && (forall k :: 0 <= k < fd ==> n.tables[netIf][k] != 0)
        && m == Net(n.slots[v := Open(netIf, fd)], n.tables[netIf := With(n.tables[netIf], fd, socket)])
      else m == n && r == if candidates == [] then value else SockError
    decreases |candidates|
  {
    hide HasRoom, Do;
    if candidates == [] {
      GivesUp(n, socket, value);
    } else if HasRoom(n, candidates[0]) {
      TakesFirst(n, candidates, socket, value);
    } else {
      PassesOver(n, candidates, socket, value);
      CreateAllOrNothing(n, candidates[1..], socket, SockError);
    }
  }

  lemma GivesUp(n: Net, socket: nat, value: Value)
    requires FirstFree(n.slots) < |n.slots| && socket != 0
    ensures TryInterfaces(Do(n, Alloc), FirstFree(n.slots), [], socket, value) == (n, value)
  {
    assert n.slots[FirstFree(n.slots) := Pending][FirstFree(n.slots) := Free] == n.slots;
  }

  lemma TakesFirst(n: Net, candidates: seq<nat>, socket: nat, value: Value)
    requires FirstFree(n.slots) < |n.slots| && socket != 0 && candidates != [] && HasRoom(n, candidates[0])
    requires forall i :: 0 <= i < |candidates| ==> candidates[i] < |n.tables|
    ensures var v, netIf := FirstFree(n.slots), candidates[0]; var fd := FirstNull(n.tables[netIf]);
      && FirstWithRoom(n, candidates) == 0 && fd < |n.tables[netIf]|
      && TryInterfaces(Do(n, Alloc), v, candidates, socket, value)
        == (Net(n.slots[v := Open(netIf, fd)], n.tables[netIf := With(n.tables[netIf], fd, socket)]), Descriptor(v))
  {
    var v, netIf := FirstFree(n.slots), candidates[0];
    RoomIff(n, netIf);
    hide HasRoom, With;
    var fd := FirstNull(n.tables[netIf]);
    assert n.slots[v := Pending][v := Made(netIf, fd)][v := Open(netIf, fd)] == n.slots[v := Open(netIf, fd)];
  }

  lemma PassesOver(n: Net, candidates: seq<nat>, socket: nat, value: Value)
    requires FirstFree(n.slots) < |n.slots| && socket != 0 && candidates != [] && !HasRoom(n, candidates[0])
    requires forall i :: 0 <= i < |candidates| ==> candidates[i] < |n.tables|
    ensures var a, v := Do(n, Alloc), FirstFree(n.slots);
      TryInterfaces(a, v, candidates, socket, value) == TryInterfaces(a, v, candidates[1..], socket, SockError)
    ensures FirstWithRoom(n, candidates) == 1 + FirstWithRoom(n, candidates[1..])
  {
    RoomIff(n, candidates[0]);
    hide HasRoom, With;
  }

  /** The three steps of a creation that succeeds. */
  function Created(n: Net, netIf: nat, socket: nat): Net
    requires FirstFree(n.slots) < |n.slots| && netIf < |n.tables| && socket != 0
    requires FirstNull(n.tables[netIf]) < |n.tables[netIf]|
  {
    var v := FirstFree(n.slots);
    Do(Do(Do(n, Alloc), SockCreate(v, netIf, socket)), Fill(v))
  }

  /** A close undoes a creation. */
  lemma CloseUndoesCreate(n: Net, netIf: nat, socket: nat)
    requires Inv(n) && FirstFree(n.slots) < |n.slots| && netIf < |n.tables| && socket != 0
    requires FirstNull(n.tables[netIf]) < |n.tables[netIf]|
    ensures var v := FirstFree(n.slots); var made := Created(n, netIf, socket);
      Enabled(made, SockClose(v)) && Do(Do(made, SockClose(v)), FreeSlot(v)) == n
  {
    var v := FirstFree(n.slots);
    var m := Created(n, netIf, socket);
    var c := Do(Do(m, SockClose(v)), FreeSlot(v));
    assert c.slots == n.slots;
    assert c.tables[netIf] == n.tables[netIf];
    assert c.tables == n.tables;
  }

  class NetSock {
    const VirtualSockets: array<Slot>
    var tables: seq<seq<nat>>

    ghost function View(): Net
      reads this, VirtualSockets
    {
      Net(VirtualSockets[..], tables)
    }

    constructor (tables: seq<seq<nat>>)
      requires forall i, fd :: 0 <= i < |tables| && 0 <= fd < |tables[i]| ==> tables[i][fd] == 0
      ensures IsStart(View()) && this.tables == tables && fresh(VirtualSockets)
    {
      VirtualSockets := new Slot[SLNETSOCK_MAX_CONCURRENT_SOCKETS](_ => Free);
      this.tables := tables;
    }

    /** The first free slot, if there is one and memory for its node. */
    method AllocVirtualSocket(memory: bool) returns (r: Option<nat>, error: AllocError)
      modifies VirtualSockets
      ensures r.Some? <==> FirstFree(old(VirtualSockets[..])) < VirtualSockets.Length && memory
      ensures r.Some? ==> r.value == FirstFree(old(VirtualSockets[..])) && View() == Do(old(View()), Alloc)
      ensures r.None? ==> View() == old(View())
      ensures r.None? ==>
        error == if FirstFree(old(VirtualSockets[..])) == VirtualSockets.Length then NO_FREE_SPACE else NO_MEMORY
    {
      r, error := None, NO_FREE_SPACE;
      var arrayIndex := 0;
      while arrayIndex < VirtualSockets.Length
        invariant 0 <= arrayIndex <= VirtualSockets.Length
        invariant VirtualSockets[..] == old(VirtualSockets[..])
        invariant forall u :: 0 <= u < arrayIndex ==> VirtualSockets[..][u] != Free
      {
        if VirtualSockets[arrayIndex] == Free {
          assert VirtualSockets[..][arrayIndex] == Free;
          assert FirstFree(VirtualSockets[..]) == arrayIndex;
          if !memory { return None, NO_MEMORY; }
          VirtualSockets[arrayIndex] := Pending;
          return Some(arrayIndex), error;
        }
        arrayIndex := arrayIndex + 1;
      }
    }

    /** Free a slot; refused outside of the table and for a free slot. */
    method FreeVirtualSocket(sd: int) returns (ok: bool)
      modifies VirtualSockets
      ensures ok <==> 0 <= sd < VirtualSockets.Length && old(VirtualSockets[..])[sd] != Free
      ensures VirtualSockets[..] == if ok then old(VirtualSockets[..])[sd := Free] else old(VirtualSockets[..])
    {
      if sd >= VirtualSockets.Length || sd < 0 || VirtualSockets[sd] == Free { return false; }
      VirtualSockets[sd] := Free;
      ok := true;
    }

    /** A socket on the first of the candidate interfaces that has room. */
    method Create(candidates: seq<nat>, socket: nat, memory: bool) returns (value: Value)
      requires VirtualSockets.Length > 0 && socket != 0
      requires forall i :: 0 <= i < |candidates| ==> candidates[i] < |tables|
      modifies this`tables, VirtualSockets
      ensures FirstFree(old(VirtualSockets[..])) == VirtualSockets.Length || !memory ==>
        View() == old(View()) && value == SockError
      ensures FirstFree(old(VirtualSockets[..])) < VirtualSockets.Length && memory ==>
        var v := FirstFree(old(VirtualSockets[..]));
        (View(), value) == TryInterfaces(Do(old(View()), Alloc), v, candidates, socket, Descriptor(0))
    {
      var index, error := AllocVirtualSocket(memory);
      if index.None? { return SockError; }
      var v := index.value;
      value := Descriptor(0);
      ghost var n := View();
      var k := 0;
      while k < |candidates|
        invariant 0 <= k <= |candidates| && View() == n
        invariant TryInterfaces(n, v, candidates, socket, Descriptor(0))
          == TryInterfaces(n, v, candidates[k..], socket, value)
      {
        var netIf := candidates[k];
        assert candidates[k..][0] == netIf && candidates[k..][1..] == candidates[k + 1..];
        var created := AddSktToTable(netIf, socket);
        if created.Some? {
          VirtualSockets[v] := Open(netIf, created.value);
          assert View().slots == n.slots[v := Made(netIf, created.value)][v := Open(netIf, created.value)];
          return Descriptor(v);
        }
        value := SockError;
        k := k + 1;
      }
      var _ := FreeVirtualSocket(v);
    }

    /** The first free descriptor of an interface. */
    method AddSktToTable(netIf: nat, socket: nat) returns (r: Option<nat>)
      requires netIf < |tables|
      modifies this`tables
      ensures var fd := FirstNull(old(tables[netIf]));
        if fd < |old(tables[netIf])|
        then r == Some(fd) && tables == old(tables)[netIf := With(old(tables[netIf]), fd, socket)]
        else r == None && tables == old(tables)
    {
      for i := 0 to |tables[netIf]|
        invariant tables == old(tables) && forall j :: 0 <= j < i ==> tables[netIf][j] != 0
      {
        if tables[netIf][i] == 0 {
          assert FirstNull(tables[netIf]) == i;
          tables := tables[netIf := With(tables[netIf], i, socket)];
          return Some(i);
        }
      }
      r := None;
    }

    /** The close of an open socket: its real one is closed, and then its slot is freed. */
    method Close(v: nat)
      requires Enabled(View(), SockClose(v))
      modifies this`tables, VirtualSockets
      ensures View() == Do(Do(old(View()), SockClose(v)), FreeSlot(v))
      ensures old(Inv(View())) ==> Inv(View())
    {
      if Inv(View()) {
        StepKeepsInv(View(), SockClose(v));
        StepKeepsInv(Do(View(), SockClose(v)), FreeSlot(v));
      }
      hide Inv;
      ghost var closing := Do(View(), SockClose(v));
      var netIf, fd := VirtualSockets[v].netIf, VirtualSockets[v].realSd;
      tables := tables[netIf := With(tables[netIf], fd, 0)];
      VirtualSockets[v] := Closing(netIf, fd);
      assert View() == closing;
      var _ := FreeVirtualSocket(v);
    }

    /** What one index adds while the sockets of a wait are gathered. */
    method VisitOne(sds: Sets, memory: nat, g: Gather, v: nat) returns (next: Gather)
      ensures next == Visit(VirtualSockets[..], sds, memory, g, v)
    {
      hide SdsIsSet, SdsSet;
      next := g;
      if v >= VirtualSockets.Length || !(VirtualSockets[v].Open? || VirtualSockets[v].Closing?) { return; }
      var fd, netIf := VirtualSockets[v].realSd, VirtualSockets[v].netIf;
      var below := g.below;
      var skipToNext := true;
      if SdsIsSet(v, sds.read) == Yes {
        below := below.(read := SdsSet(fd, below.read));
        skipToNext := false;
      }
      if SdsIsSet(v, sds.write) == Yes {
        below := below.(write := SdsSet(fd, below.write));
        skipToNext := false;
      }
      if SdsIsSet(v, sds.except) == Yes {
        below := below.(except := SdsSet(fd, below.except));
        skipToNext := false;
      }
      if skipToNext { return; }
      next := g.(below := below);
      if |g.nodes| >= memory { return next.(firstIf := None, progress := NoMemory); }
      next := next.(nodes := [Node(fd, v)] + g.nodes);
      if g.firstIf != Some(netIf) {
        if g.firstIf.None? {
          next := next.(firstIf := Some(netIf));
        } else {
          return next.(firstIf := None, progress := Mixed);
        }
      }
      if next.nsds <= fd { next := next.(nsds := fd + 1); }
    }

    /** The first loop of a wait. */
    method GatherAll(nsds: nat, sds: Sets, memory: nat) returns (g: Gather)
      ensures g == Collect(VirtualSockets[..], sds, memory, nsds)
    {
      hide Visit;
      g := Gather(Empty, [], None, 0, Going);
      var sdIndex := 0;
      while sdIndex < nsds
        invariant 0 <= sdIndex <= nsds && g == Collect(VirtualSockets[..], sds, memory, sdIndex)
        invariant g.progress == Going
      {
        g := VisitOne(sds, memory, g, sdIndex);
        sdIndex := sdIndex + 1;
        if g.progress != Going {
          LeftEarly(VirtualSockets[..], sds, memory, sdIndex, nsds);
          break;
        }
      }
    }

    /** Wait for activity on any of the sockets. */
    method WaitFor(nsds: nat, sds: Sets, interfaces: map<nat, Interface>, memory: nat)
      returns (code: Code, result: Sets)
      ensures (code, result) == Select(VirtualSockets[..], interfaces, memory, nsds, sds)
    {
      hide SdsIsSet, SdsSet, SdsClrAll, Collect;
      var g := GatherAll(nsds, sds, memory);
      if g.firstIf.Some? && g.firstIf.value in interfaces {
        var reply := interfaces[g.firstIf.value](g.nsds, g.below);
        code := Returned(reply.ready);
        result := Sets(SdsClrAll(sds.read), SdsClrAll(sds.write), SdsClrAll(sds.except));
        if reply.ready > 0 {
          ghost var clear := result;
          var nodes := g.nodes;
          while nodes != []
            invariant Translate(g.nodes, reply.sets.read, clear.read) == Translate(nodes, reply.sets.read, result.read)
            invariant Translate(g.nodes, reply.sets.write, clear.write)
              == Translate(nodes, reply.sets.write, result.write)
            invariant Translate(g.nodes, reply.sets.except, clear.except)
              == Translate(nodes, reply.sets.except, result.except)
            decreases |nodes|
          {
            var node := nodes[0];
            if SdsIsSet(node.realSd, reply.sets.read) == Yes {
              result := result.(read := SdsSet(node.virtualSd, result.read));
            }
            if SdsIsSet(node.realSd, reply.sets.write) == Yes {
              result := result.(write := SdsSet(node.virtualSd, result.write));
            }
            if SdsIsSet(node.realSd, reply.sets.except) == Yes {
              result := result.(except := SdsSet(node.virtualSd, result.except));
            }
            nodes := nodes[1..];
          }
        }
      } else {
        code := if g.progress == NoMemory then MALLOC_ERROR else INVALID_INPUT;
        result := sds;
      }
    }
  }

  lemma {:induction false} LeftEarly(slots: seq<Slot>, sds: Sets, memory: nat, m: nat, n: nat)
    requires m <= n && Collect(slots, sds, memory, m).progress != Going
    ensures Collect(slots, sds, memory, n) == Collect(slots, sds, memory, m)
  {
    hide Visit;
    if m < n { LeftEarly(slots, sds, memory, m, n - 1); }
  }

  // ---------- The interface's loops ----------

  /** The sockets that the interface's first loop passes down for one set. */
  method PassDown(table: seq<nat>, m: SdSet) returns (asked: set<nat>)
    ensures asked == SocketNdk.SocketsOf(table, m, |table|)
  {
    hide SdsIsSet;
    asked := {};
    for fd := 0 to |table|
      invariant asked == SocketNdk.SocketsOf(table, m, fd)
    {
      if m.Some? && SdsIsSet(fd, m) != No { asked := asked + {table[fd]}; }
    }
  }

  /** Its second loop for one set. */
  method ClearBack(table: seq<nat>, m: SdSet, ready: set<nat>) returns (left: SdSet)
    ensures left == SocketNdk.ClearUnready(table, m, ready, |table|)
  {
    hide SdsIsSet, SdsClr;
    left := m;
    for fd := 0 to |table|
      invariant left == SocketNdk.ClearUnready(table, m, ready, fd)
    {
      if left.Some? && SdsIsSet(fd, left) != No {
        if table[fd] !in ready { left := SdsClr(fd, left); }
      }
    }
  }
}
