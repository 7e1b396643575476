/** Graceful restarts: offsets of listeners, the file list and arguments handed to the child, and the
    sockets that the child takes over. */
module Grace {
  import opened Wrappers
  import opened Text
  import opened Flags

  type Socket = nat

  // What a process is started with: its inherited files (descriptor 3 and up) and its arguments.
  datatype Launch = Launch(files: seq<Socket>, args: seq<string>)

  // The same once it has read its flags.
  datatype Handover = Handover(isChild: bool, socketOrder: string, files: seq<Socket>, args: seq<string>)

  const GRACEFUL := "-graceful"
  const ORDER_FLAG := "-socketorder="

  ghost predicate Distinct(s: seq<string>) {
    forall i, j | 0 <= i < j < |s| :: s[i] != s[j]
  }

  function Members(s: seq<string>): set<string> {
    set a | a in s
  }

  // ---- the specification ----

  // The addresses by offset: the order handed over, or the order of registration.
  function Slots(h: Handover, regs: seq<string>): seq<string> {
    if h.socketOrder != [] then Split(h.socketOrder, ',') else regs
  }

  ghost predicate OffsetsOf(slots: seq<string>, offsets: map<string, nat>) {
    offsets.Keys == Members(slots) && forall i | 0 <= i < |slots| :: offsets[slots[i]] == i
  }

  // flag.Parse in NewServer; None stands for the exit on a bad command line.
  function Started(fs: FlagSet, l: Launch): Option<Handover> {
    match SeenBy(fs, l.args)
    case None => None
    case Some(seen) => Some(Handover(seen.child, seen.order, l.files, l.args))
  }

  // The arguments up to an earlier -graceful.
  function Cut(args: seq<string>): seq<string> {
    if args == [] || args[0] == GRACEFUL then [] else [args[0]] + Cut(args[1..])
  }

  function NextArgs(args: seq<string>, slots: seq<string>): seq<string> {
    Cut(args) + [GRACEFUL] + if |slots| > 1 then [ORDER_FLAG + Join(slots, ',')] else []
  }

  // The sockets of the addresses, slot by slot.
  function SlotFiles(slots: seq<string>, servers: map<string, Socket>): (r: seq<Socket>)
    requires Members(slots) <= servers.Keys
    ensures |r| == |slots| && forall i | 0 <= i < |slots| :: r[i] == servers[slots[i]]
  {
    seq(|slots|, i requires 0 <= i < |slots| => assert slots[i] in Members(slots); servers[slots[i]])
  }

  function NextLaunch(h: Handover, slots: seq<string>, servers: map<string, Socket>): Launch
    requires Members(slots) <= servers.Keys
  {
    Launch(SlotFiles(slots, servers), NextArgs(h.args, slots))
  }

  // A first process binds a socket. A child takes the file at the offset of the address, and at offset 0 for
  // an address without one.
  function ListenerFor(h: Handover, offsets: map<string, nat>, addr: string, newSocket: Socket): Option<Socket> {
    if !h.isChild then Some(newSocket)
    else
      var i := if addr in offsets then offsets[addr] else 0;
      if i < |h.files| then Some(h.files[i]) else None
  }

  /** A child takes the file in the slot of an address; an address without a slot takes the file of the first slot,
      whichever address that one belongs to. */
  lemma AddressWithoutSlot(h: Handover, slots: seq<string>, offsets: map<string, nat>, a: string, newSocket: Socket)
    requires h.isChild && OffsetsOf(slots, offsets) && |h.files| == |slots| > 0
    ensures a !in slots ==> ListenerFor(h, offsets, a, newSocket) == Some(h.files[0])
    ensures forall i | 0 <= i < |slots| && slots[i] == a :: ListenerFor(h, offsets, a, newSocket) == Some(h.files[i])
  {
    assert a in slots <==> a in Members(slots);
  }

  // ---- one process ----

  class Process {
    const start: Handover
    var order: seq<string>             // runningServersOrder
    var offsets: map<string, nat>      // socketPtrOffsetMap
    var servers: map<string, Socket>   // runningServers, with the socket each one listens on

    ghost predicate Valid()
      reads this
    {
      && Distinct(order) && servers.Keys == Members(order)
      && (order == [] ==> offsets == map[])
      && (order != [] ==> OffsetsOf(Slots(start, order), offsets))
    }

    constructor (h: Handover)
      ensures Valid() && start == h && order == []
    {
      start, order, offsets, servers := h, [], map[], map[];
    }

    // The offset part of NewServer.
    method SetOffsets(addr: string)
      requires Valid() && addr !in order
      requires start.socketOrder != [] ==> Distinct(Split(start.socketOrder, ','))
      modifies this`offsets
      ensures OffsetsOf(Slots(start, order + [addr]), offsets)
    {
      if |start.socketOrder| > 0 {
        ReadOrder(Split(start.socketOrder, ','));
      } else {
        offsets := offsets[addr := |order|];
        assert Members(order + [addr]) == Members(order) + {addr};
      }
    }

    method ReadOrder(addrs: seq<string>)
      requires Distinct(addrs) && offsets.Keys <= Members(addrs)
      modifies this`offsets
      ensures OffsetsOf(addrs, offsets)
    {
      for i := 0 to |addrs|
        invariant Members(addrs[..i]) <= offsets.Keys <= Members(addrs)
        invariant forall j | 0 <= j < i :: addrs[j] in offsets && offsets[addrs[j]] == j
      {
        assert addrs[..i + 1] == addrs[..i] + [addrs[i]];
        offsets := offsets[addrs[i] := i];
      }
      assert addrs[..|addrs|] == addrs;
    }

    /** getListener. None stands for a descriptor that was not handed over. */
    method GetListener(laddr: string, newSocket: Socket) returns (s: Option<Socket>)
      ensures s == ListenerFor(start, offsets, laddr, newSocket)
    {
      if start.isChild {
        var ptrOffset := 0;
        if |offsets| > 0 && laddr in offsets {
          ptrOffset := offsets[laddr];
        }
        s := if ptrOffset < |start.files| then Some(start.files[ptrOffset]) else None;
      } else {
        s := Some(newSocket);
      }
    }

    /** NewServer followed by getListener, for an address that has not been registered yet. */
    method Listen(addr: string, newSocket: Socket) returns (s: Option<Socket>)
      requires Valid() && addr !in order
      requires start.socketOrder != [] ==> Distinct(Split(start.socketOrder, ','))
      modifies this
      ensures order == old(order) + [addr] && OffsetsOf(Slots(start, order), offsets)
      ensures s == ListenerFor(start, offsets, addr, newSocket)
      ensures s.Some? ==> Valid() && servers == old(servers)[addr := s.value]
    {
      SetOffsets(addr);
      order := order + [addr];
      s := GetListener(addr, newSocket);
      if s.Some? {
        servers := servers[addr := s.value];
        assert Members(order) == Members(old(order)) + {addr};
      }
    }

    // The argument loop of fork.
    method CutArgs() returns (r: seq<string>)
      ensures r == Cut(start.args)
    {
      r := [];
      for i := 0 to |start.args|
        invariant Cut(start.args) == r + Cut(start.args[i..])
      {
        if start.args[i] == GRACEFUL {
          return;
        }
        assert start.args[i..][1..] == start.args[i + 1..];
        r := r + [start.args[i]];
      }
    }

    /** fork. The map of servers is walked in any order. */
    method Fork(walk: seq<string>) returns (next: Launch)
      requires Valid() && order != [] && Distinct(walk) && Members(walk) == servers.Keys
      requires Members(Slots(start, order)) == Members(order) && |Slots(start, order)| == |walk|
      ensures next == NextLaunch(start, Slots(start, order), servers)
    {
      ghost var slots := Slots(start, order);
      WalkOffsets(slots, offsets, walk);
      var files, orderArgs := FillSlots(walk, offsets, servers);
      SlotsFilled(slots, offsets, walk, servers, files, orderArgs);
      var args := CutArgs();
      args := args + [GRACEFUL];
      if |walk| > 1 {
        args := args + [ORDER_FLAG + Join(orderArgs, ',')];
      }
      next := Launch(files, args);
    }
  }

  // Every address walked has its own slot within the arrays.
  ghost predicate OwnSlots(walk: seq<string>, offsets: map<string, nat>) {
    && (forall j | 0 <= j < |walk| :: walk[j] in offsets && offsets[walk[j]] < |walk|)
    && (forall i, j | 0 <= i < j < |walk| :: offsets[walk[i]] != offsets[walk[j]])
  }

  lemma WalkOffsets(slots: seq<string>, offsets: map<string, nat>, walk: seq<string>)
    requires OffsetsOf(slots, offsets) && Distinct(walk) && Members(walk) == Members(slots) && |slots| == |walk|
    ensures OwnSlots(walk, offsets)
  {
    forall j | 0 <= j < |walk|
      ensures walk[j] in offsets && offsets[walk[j]] < |walk| && slots[offsets[walk[j]]] == walk[j]
    {
      assert walk[j] in Members(walk) && walk[j] in Members(slots);
      var k :| 0 <= k < |slots| && slots[k] == walk[j];
    }
  }

  /** The loop of fork: files and addresses are put into two arrays by offset. */
  method FillSlots(walk: seq<string>, offsets: map<string, nat>, servers: map<string, Socket>)
    returns (files: seq<Socket>, orderArgs: seq<string>)
    requires OwnSlots(walk, offsets) && Members(walk) <= servers.Keys
    ensures |files| == |orderArgs| == |walk|
    ensures forall j | 0 <= j < |walk| ::
      files[offsets[walk[j]]] == servers[walk[j]] && orderArgs[offsets[walk[j]]] == walk[j]
  {
    var fileSlots := new Socket[|walk|](_ => 0);
    var orderSlots := new string[|walk|](_ => []);
    for i := 0 to |walk|
      invariant forall j | 0 <= j < i :: fileSlots[offsets[walk[j]]] == servers[walk[j]]
      invariant forall j | 0 <= j < i :: orderSlots[offsets[walk[j]]] == walk[j]
    {
      assert walk[i] in Members(walk);
      fileSlots[offsets[walk[i]]] := servers[walk[i]];
      orderSlots[offsets[walk[i]]] := walk[i];
    }
    files, orderArgs := fileSlots[..], orderSlots[..];
  }

  // Every slot is filled, with its own address and socket.
  lemma SlotsFilled(slots: seq<string>, offsets: map<string, nat>, walk: seq<string>, servers: map<string, Socket>,
                    files: seq<Socket>, orderArgs: seq<string>)
    requires OffsetsOf(slots, offsets) && OwnSlots(walk, offsets) && Members(walk) == Members(slots) == servers.Keys
    requires |files| == |orderArgs| == |walk| == |slots|
    requires forall j | 0 <= j < |walk| ::
      files[offsets[walk[j]]] == servers[walk[j]] && orderArgs[offsets[walk[j]]] == walk[j]
    ensures orderArgs == slots && files == SlotFiles(slots, servers)
  {
    forall k | 0 <= k < |slots| ensures orderArgs[k] == slots[k] && files[k] == servers[slots[k]] {
      assert slots[k] in Members(slots) && slots[k] in Members(walk);
      var j :| 0 <= j < |walk| && walk[j] == slots[k];
      assert offsets[walk[j]] == k;
    }
  }

  // ---- generations ----

  // The addresses every generation registers: distinct, not empty and without commas.
  ghost predicate Plain(addrs: seq<string>) {
    addrs != [] && Distinct(addrs) && forall a | a in addrs :: a != [] && ',' !in a
  }

  // A list of the same addresses in some order.
  ghost predicate Reordered(regs: seq<string>, addrs: seq<string>) {
    Distinct(regs) && Members(regs) == Members(addrs)
  }

  // The socket an address listens on: bound by a first process, taken from its slot by a child.
  ghost predicate Served(h: Handover, slots: seq<string>, bound: map<string, Socket>, a: string,
                         servers: map<string, Socket>) {
    a in servers &&
    if h.isChild then exists i :: 0 <= i < |slots| && i < |h.files| && slots[i] == a && servers[a] == h.files[i]
    else a in bound && servers[a] == bound[a]
  }

  // The sockets of a process after registering a list of addresses.
  ghost predicate Serves(h: Handover, regs: seq<string>, bound: map<string, Socket>, servers: map<string, Socket>) {
    servers.Keys == Members(regs) && forall a | a in regs :: Served(h, Slots(h, regs), bound, a, servers)
  }

  lemma {:induction false} CutAgain(args: seq<string>, more: seq<string>)
    ensures Cut(Cut(args) + ([GRACEFUL] + more)) == Cut(args)
  {
    if args == [] || args[0] == GRACEFUL {
      assert [] + ([GRACEFUL] + more) == [GRACEFUL] + more;
    } else {
      CutAgain(args[1..], more);
      assert (Cut(args) + ([GRACEFUL] + more))[1..] == Cut(args[1..]) + ([GRACEFUL] + more);
    }
  }

  lemma {:induction false} DistinctSize(s: seq<string>)
    requires Distinct(s)
    ensures |Members(s)| == |s|
  {
    if s != [] {
      var n := |s| - 1;
      DistinctSize(s[..n]);
      assert Members(s) == Members(s[..n]) + {s[n]};
      assert s[n] !in s[..n];
    }
  }

  // ---- what a child sees ----

  // A process with this order, and no other source of it, has the given slots whatever it registers first.
  predicate OrderFits(order: string, first: seq<string>) {
    if order == [] then |first| == 1 else Split(order, ',') == first
  }

  // The command line before -graceful lets a child see -graceful and the order behind it, or has both itself.
  predicate TakesOver(fs: FlagSet, cut: seq<string>, first: seq<string>) {
    match Parse(fs, cut, FRESH)
    case Open(seen) => |first| > 1 || OrderFits(seen.order, first)
    case Closed(seen, _) => seen.child && OrderFits(seen.order, first)
    case Wants(seen, name) =>
      // -graceful becomes the value of the last flag
      && fs.accepts(name, GRACEFUL) && Assign(seen, name, GRACEFUL).child
      && (|first| > 1 || OrderFits(Assign(seen, name, GRACEFUL).order, first))
    case Rejected => false
  }

  // A process takes over the sockets: it starts, as a child, with the slots of its parent.
  ghost predicate Inherits(h: Option<Handover>, first: seq<string>) {
    h.Some? && h.value.isChild && forall regs | Reordered(regs, first) :: Slots(h.value, regs) == first
  }

  lemma OrderFitsIff(h: Handover, first: seq<string>)
    requires Plain(first)
    ensures OrderFits(h.socketOrder, first) <==> forall regs | Reordered(regs, first) :: Slots(h, regs) == first
  {
    DistinctSize(first);
    forall regs | Reordered(regs, first) && |first| == 1 ensures regs == first {
      DistinctSize(regs);
      assert first[0] in Members(regs);
    }
    if h.socketOrder == [] && |first| > 1 {
      var swapped := [first[1], first[0]] + first[2..];
      assert first == [first[0], first[1]] + first[2..];
      assert Members(swapped) == Members(first);
      assert Reordered(swapped, first) && Slots(h, swapped) != first;
    } else {
      assert Reordered(first, first);
    }
  }

  // The arguments that fork adds.
  function Added(first: seq<string>): seq<string> {
    [GRACEFUL] + AddedOrder(first)
  }

  function AddedOrder(first: seq<string>): seq<string> {
    if |first| > 1 then [ORDER_FLAG + Join(first, ',')] else []
  }

  function OrderAfter(first: seq<string>, order: string): string {
    if |first| > 1 then Join(first, ',') else order
  }

  lemma SeesGraceful(fs: FlagSet, more: seq<string>, seen: Seen)
    requires fs.Valid()
    ensures Parse(fs, [GRACEFUL] + more, seen) == Parse(fs, more, seen.(child := true))
  {
    assert GRACEFUL == "-" + "graceful";
    BareFlag(fs, "graceful", more, seen);
  }

  lemma SeesOrder(fs: FlagSet, order: string, seen: Seen)
    requires fs.Valid()
    ensures Parse(fs, [ORDER_FLAG + order], seen) == Open(seen.(order := order))
  {
    assert ORDER_FLAG + order == "-" + "socketorder" + "=" + order;
    ValuedFlag(fs, "socketorder", order, [], seen);
    assert [ORDER_FLAG + order] + [] == [ORDER_FLAG + order];
    assert Parse(fs, [], seen.(order := order)) == Open(seen.(order := order));
  }

  // What they do to a process that reads them.
  lemma SeesAddedOrder(fs: FlagSet, first: seq<string>, seen: Seen)
    requires fs.Valid()
    ensures Parse(fs, AddedOrder(first), seen) == Open(seen.(order := OrderAfter(first, seen.order)))
  {
    if |first| > 1 {
      SeesOrder(fs, Join(first, ','), seen);
    }
  }

  lemma SeesAdded(fs: FlagSet, first: seq<string>, seen: Seen)
    requires fs.Valid()
    ensures Parse(fs, Added(first), seen) == Open(Seen(true, OrderAfter(first, seen.order)))
  {
    SeesGraceful(fs, AddedOrder(first), seen);
    SeesAddedOrder(fs, first, seen.(child := true));
  }

  /** A child takes over the sockets of its parent exactly when the arguments before -graceful let it see its
      flags, which a caller can tell from the command line. */
  lemma TakesOverIff(fs: FlagSet, args: seq<string>, first: seq<string>, files: seq<Socket>)
    requires fs.Valid() && Plain(first)
    ensures TakesOver(fs, Cut(args), first) <==> Inherits(Started(fs, Launch(files, NextArgs(args, first))), first)
  {
    var cut, child := Cut(args), Started(fs, Launch(files, NextArgs(args, first)));
    assert NextArgs(args, first) == cut + Added(first);
    ParseAppend(fs, cut, Added(first), FRESH);
    JoinedOrderFits(first);
    match Parse(fs, cut, FRESH) {
      case Open(seen) => SeesAdded(fs, first, seen);
      case Wants(seen, name) =>
        assert Added(first)[0] == GRACEFUL && Added(first)[1..] == AddedOrder(first);
        SeesAddedOrder(fs, first, Assign(seen, name, GRACEFUL));
      case _ =>
    }
    if child.Some? {
      OrderFitsIff(child.value, first);
    }
  }

  lemma JoinedOrderFits(first: seq<string>)
    requires Plain(first)
    ensures OrderFits(Join(first, ','), first)
  {
    assert first[0] in first && Join(first, ',') != [];
    SplitJoin(first, ',');
  }

  const SUBCOMMAND := ["serve"]

  lemma SubcommandIsKept()
    ensures Cut(SUBCOMMAND) == SUBCOMMAND
  {
    assert SUBCOMMAND[1..] == [] && Cut([]) == [];
  }

  /** A subcommand hides the flags from the child, which then is none. */
  lemma SubcommandLosesSockets(fs: FlagSet, addr: string, files: seq<Socket>)
    requires fs.Valid()
    ensures !TakesOver(fs, Cut(SUBCOMMAND), [addr])
    ensures Started(fs, Launch(files, NextArgs(SUBCOMMAND, [addr])))
      == Some(Handover(false, [], files, SUBCOMMAND + [GRACEFUL]))
  {
    SubcommandIsKept();
    var args := SUBCOMMAND + [GRACEFUL];
    assert NextArgs(SUBCOMMAND, [addr]) == args;
    assert Parse(fs, args, FRESH) == Closed(FRESH, args);
    assert Parse(fs, SUBCOMMAND, FRESH) == Closed(FRESH, SUBCOMMAND);
  }

  // What the arguments before -graceful make of the next process: none, one that is no child, or a child.
  function NextProcess(fs: FlagSet, cut: seq<string>): Option<bool> {
    match Parse(fs, cut, FRESH)
    case Open(seen) => Some(true)
    case Closed(seen, _) => Some(seen.child)
    case Wants(seen, name) => if fs.accepts(name, GRACEFUL) then Some(Assign(seen, name, GRACEFUL).child) else None
    case Rejected => None
  }

  lemma NextProcessStarts(fs: FlagSet, args: seq<string>, slots: seq<string>, files: seq<Socket>)
    requires fs.Valid()
    ensures var next := Started(fs, Launch(files, NextArgs(args, slots)));
      NextProcess(fs, Cut(args)) == if next.Some? then Some(next.value.isChild) else None
  {
    var cut := Cut(args);
    assert NextArgs(args, slots) == cut + Added(slots);
    ParseAppend(fs, cut, Added(slots), FRESH);
    match Parse(fs, cut, FRESH) {
      case Open(seen) => SeesAdded(fs, slots, seen);
      case Wants(seen, name) =>
        assert Added(slots)[0] == GRACEFUL && Added(slots)[1..] == AddedOrder(slots);
        SeesAddedOrder(fs, slots, Assign(seen, name, GRACEFUL));
      case _ =>
    }
  }

  // ---- any number of generations ----

  // What each generation starts with, the order in which it registers the addresses, the sockets it could
  // bind and those it ends up with. The first process is no child and has no order.
  ghost predicate Generations(fs: FlagSet, addrs: seq<string>, args: seq<string>, bounds: seq<map<string, Socket>>,
                              hs: seq<Handover>, regs: seq<seq<string>>, servers: seq<map<string, Socket>>) {
    && |hs| == |regs| == |servers| == |bounds| > 0
    && Started(fs, Launch([], args)) == Some(hs[0]) && !hs[0].isChild && hs[0].socketOrder == []
    && (forall k | 0 <= k < |hs| :: Reordered(regs[k], addrs) && Serves(hs[k], regs[k], bounds[k], servers[k]))
    && (forall k | 0 <= k < |hs| - 1 :: HandedOver(fs, hs[k], regs[k], servers[k], hs[k + 1]))
  }

  ghost predicate HandedOver(fs: FlagSet, h: Handover, regs: seq<string>, servers: map<string, Socket>,
                             next: Handover) {
    Members(Slots(h, regs)) <= servers.Keys && Started(fs, NextLaunch(h, Slots(h, regs), servers)) == Some(next)
  }

  // A child of a process with these arguments, slots and sockets.
  ghost predicate IsChildOf(fs: FlagSet, args: seq<string>, first: seq<string>, servers: map<string, Socket>,
                            h: Handover) {
    && Members(first) == servers.Keys && Inherits(Some(h), first)
    && h.files == SlotFiles(first, servers) && h.args == NextArgs(args, first)
    && Started(fs, Launch(h.files, h.args)) == Some(h)
  }

  lemma ChildServers(fs: FlagSet, args: seq<string>, first: seq<string>, servers: map<string, Socket>, h: Handover,
                     regs: seq<string>, bound: map<string, Socket>, mine: map<string, Socket>)
    requires IsChildOf(fs, args, first, servers, h) && Reordered(regs, first) && Serves(h, regs, bound, mine)
    ensures mine == servers
  {
    assert Slots(h, regs) == first;
    forall a | a in servers ensures mine[a] == servers[a] {
      assert a in Members(regs);
      var i :| 0 <= i < |first| && i < |h.files| && first[i] == a && mine[a] == h.files[i];
    }
  }

  // The next generation starts exactly like this one.
  lemma ChildHandsOn(fs: FlagSet, args: seq<string>, first: seq<string>, servers: map<string, Socket>, h: Handover,
                     regs: seq<string>, next: Handover)
    requires IsChildOf(fs, args, first, servers, h) && Reordered(regs, first) && HandedOver(fs, h, regs, servers, next)
    ensures next == h
  {
    assert Slots(h, regs) == first;
    assert NextArgs(args, first) == Cut(args) + Added(first);
    CutAgain(args, if |first| > 1 then [ORDER_FLAG + Join(first, ',')] else []);
    assert NextArgs(h.args, first) == h.args;
  }

  lemma FirstHandsOn(fs: FlagSet, args: seq<string>, first: seq<string>, servers: map<string, Socket>, h: Handover,
                     next: Handover)
    requires fs.Valid() && Plain(first) && TakesOver(fs, Cut(args), first) && Members(first) == servers.Keys
    requires h.args == args && h.socketOrder == [] && HandedOver(fs, h, first, servers, next)
    ensures IsChildOf(fs, args, first, servers, next)
  {
    TakesOverIff(fs, args, first, SlotFiles(first, servers));
  }

  lemma FirstServers(h: Handover, addrs: seq<string>, regs: seq<string>, bound: map<string, Socket>,
                     servers: map<string, Socket>)
    requires !h.isChild && Reordered(regs, addrs) && Serves(h, regs, bound, servers)
    ensures Members(regs) == servers.Keys
    ensures forall a | a in addrs :: a in servers && a in bound && servers[a] == bound[a]
  {
    forall a | a in addrs ensures a in servers && a in bound && servers[a] == bound[a] {
      assert a in Members(regs);
    }
  }

  /** Across any number of restarts every address keeps the socket that the first process bound for it, and all
      children start with the same files, order and arguments, provided that a child sees its flags. */
  lemma {:induction false} SocketsSurviveRestarts(
    fs: FlagSet, addrs: seq<string>, args: seq<string>, bounds: seq<map<string, Socket>>,
    hs: seq<Handover>, regs: seq<seq<string>>, servers: seq<map<string, Socket>>, k: nat)
    requires fs.Valid() && Plain(addrs) && Generations(fs, addrs, args, bounds, hs, regs, servers) && k < |hs|
    requires k > 0 ==> TakesOver(fs, Cut(args), regs[0])
    ensures servers[k] == servers[0]
    ensures forall a | a in addrs :: a in servers[k] && a in bounds[0] && servers[k][a] == bounds[0][a]
    ensures k > 0 ==> hs[k] == hs[1] && IsChildOf(fs, args, regs[0], servers[0], hs[k])
  {
    var first := regs[0];
    assert Reordered(first, addrs) && Serves(hs[0], first, bounds[0], servers[0]);
    PlainReordered(first, addrs);
    FirstServers(hs[0], addrs, first, bounds[0], servers[0]);
    if k > 0 {
      SocketsSurviveRestarts(fs, addrs, args, bounds, hs, regs, servers, k - 1);
      assert HandedOver(fs, hs[k - 1], regs[k - 1], servers[k - 1], hs[k]);
      if k == 1 {
        FirstHandsOn(fs, args, first, servers[0], hs[0], hs[1]);
      } else {
        assert Reordered(regs[k - 1], first);
        ChildHandsOn(fs, args, first, servers[0], hs[k - 1], regs[k - 1], hs[k]);
      }
      assert Reordered(regs[k], first);
      ChildServers(fs, args, first, servers[0], hs[k], regs[k], bounds[k], servers[k]);
    }
  }

  lemma NextCut(args: seq<string>, slots: seq<string>)
    ensures Cut(NextArgs(args, slots)) == Cut(args)
  {
    assert NextArgs(args, slots) == Cut(args) + Added(slots);
    CutAgain(args, AddedOrder(slots));
  }

  // No restart changes the arguments before -graceful.
  lemma {:induction false} CutSurvivesRestarts(
    fs: FlagSet, addrs: seq<string>, args: seq<string>, bounds: seq<map<string, Socket>>,
    hs: seq<Handover>, regs: seq<seq<string>>, servers: seq<map<string, Socket>>, k: nat)
    requires Generations(fs, addrs, args, bounds, hs, regs, servers) && k < |hs|
    ensures Cut(hs[k].args) == Cut(args)
  {
    if k > 0 {
      CutSurvivesRestarts(fs, addrs, args, bounds, hs, regs, servers, k - 1);
      assert HandedOver(fs, hs[k - 1], regs[k - 1], servers[k - 1], hs[k]);
      NextCut(hs[k - 1].args, Slots(hs[k - 1], regs[k - 1]));
    }
  }

  /** The other side of surviving: the first command line alone decides whether the processes after a restart are
      children, and all of them are or none is. Where none is, each restart leaves every address on a socket that the
      new process has bound itself. Where the flags are seen and the order is not, the first child has other slots. */
  lemma RestartsLoseSockets(
    fs: FlagSet, addrs: seq<string>, args: seq<string>, bounds: seq<map<string, Socket>>,
    hs: seq<Handover>, regs: seq<seq<string>>, servers: seq<map<string, Socket>>, k: nat)
    requires fs.Valid() && Plain(addrs) && Generations(fs, addrs, args, bounds, hs, regs, servers) && 0 < k < |hs|
    ensures NextProcess(fs, Cut(args)) == Some(hs[k].isChild)
    ensures !hs[k].isChild ==>
      forall a | a in addrs :: a in servers[k] && a in bounds[k] && servers[k][a] == bounds[k][a]
    ensures TakesOver(fs, Cut(args), regs[0]) <==> Inherits(Some(hs[1]), regs[0])
  {
    CutSurvivesRestarts(fs, addrs, args, bounds, hs, regs, servers, k - 1);
    assert HandedOver(fs, hs[k - 1], regs[k - 1], servers[k - 1], hs[k]);
    var slots := Slots(hs[k - 1], regs[k - 1]);
    NextProcessStarts(fs, hs[k - 1].args, slots, SlotFiles(slots, servers[k - 1]));
    assert Reordered(regs[k], addrs) && Serves(hs[k], regs[k], bounds[k], servers[k]);
    if !hs[k].isChild {
      FirstServers(hs[k], addrs, regs[k], bounds[k], servers[k]);
    }
    assert Reordered(regs[0], addrs) && HandedOver(fs, hs[0], regs[0], servers[0], hs[1]);
    PlainReordered(regs[0], addrs);
    TakesOverIff(fs, args, regs[0], SlotFiles(regs[0], servers[0]));
  }

  lemma PlainReordered(regs: seq<string>, addrs: seq<string>)
    requires Plain(addrs) && Reordered(regs, addrs)
    ensures Plain(regs)
  {
    assert addrs[0] in Members(regs);
    forall a | a in regs ensures a != [] && ',' !in a {
      assert a in Members(addrs);
    }
  }

  lemma ServedKept(h: Handover, slots: seq<string>, bound: map<string, Socket>, a: string, b: string,
                   servers: map<string, Socket>, s: Socket)
    requires Served(h, slots, bound, a, servers) && a != b
    ensures Served(h, slots, bound, a, servers[b := s])
  {
  }

  method RegisterAll(h: Handover, regs: seq<string>, bound: map<string, Socket>) returns (p: Process)
    requires Distinct(regs) && regs != []
    requires Distinct(Slots(h, regs)) && Members(Slots(h, regs)) == Members(regs)
    requires if h.isChild then |h.files| == |Slots(h, regs)| else Members(regs) <= bound.Keys
    ensures p.Valid() && p.start == h && p.order == regs && Serves(h, regs, bound, p.servers)
  {
    p := new Process(h);
    ghost var slots := Slots(h, regs);
    for i := 0 to |regs|
      invariant p.Valid() && p.start == h && p.order == regs[..i]
      invariant forall j | 0 <= j < i :: Served(h, slots, bound, regs[j], p.servers)
    {
      assert regs[..i + 1] == regs[..i] + [regs[i]];
      assert regs[i] in Members(regs);
      ghost var before := p.servers;
      var newSocket := if h.isChild then 0 else bound[regs[i]];
      var s := p.Listen(regs[i], newSocket);
      SlotOf(h, regs, i, p.offsets);
      assert Served(h, slots, bound, regs[i], p.servers);
      forall j | 0 <= j < i ensures Served(h, slots, bound, regs[j], p.servers) {
        ServedKept(h, slots, bound, regs[j], regs[i], before, s.value);
      }
    }
    assert regs[..|regs|] == regs;
  }

  /** One generation, from its start to the fork of the next: register every address, then fork. */
  method RunGeneration(h: Handover, regs: seq<string>, bound: map<string, Socket>)
    returns (servers: map<string, Socket>, next: Launch)
    requires Distinct(regs) && regs != []
    requires Distinct(Slots(h, regs)) && Members(Slots(h, regs)) == Members(regs)
    requires if h.isChild then |h.files| == |Slots(h, regs)| else Members(regs) <= bound.Keys
    ensures Serves(h, regs, bound, servers) && Members(Slots(h, regs)) <= servers.Keys
    ensures next == NextLaunch(h, Slots(h, regs), servers)
  {
    var p := RegisterAll(h, regs, bound);
    servers := p.servers;
    DistinctSize(Slots(h, regs));
    DistinctSize(regs);
    next := p.Fork(regs);
  }

  /** Any number of generations, one after the other: each child can run again what its parent ran. */
  method RunGenerations(fs: FlagSet, addrs: seq<string>, args: seq<string>, bound: map<string, Socket>,
                        regs: seq<seq<string>>)
    returns (hs: seq<Handover>, servers: seq<map<string, Socket>>)
    requires fs.Valid() && Plain(addrs) && regs != [] && Members(addrs) <= bound.Keys
    requires forall k | 0 <= k < |regs| :: Reordered(regs[k], addrs)
    requires SeenBy(fs, args) == Some(FRESH) && TakesOver(fs, Cut(args), regs[0])
    ensures Generations(fs, addrs, args, seq(|regs|, _ => bound), hs, regs, servers)
  {
    var first := regs[0];
    PlainReordered(first, addrs);
    var h := Handover(false, [], [], args);
    var mine, next := RunGeneration(h, first, bound);
    hs, servers := [h], [mine];
    UnderwayFirst(fs, addrs, args, bound, regs, mine);
    while |hs| < |regs|
      invariant Underway(fs, addrs, args, bound, regs, mine, hs, servers, next)
    {
      UnderwayNext(fs, addrs, args, bound, regs, mine, hs, servers, next);
      h := Started(fs, next).value;
      var here;
      here, next := RunChild(fs, args, first, mine, h, regs[|hs|], bound);
      UnderwayStep(fs, addrs, args, bound, regs, mine, hs, servers, next, h);
      hs, servers := hs + [h], servers + [here];
    }
    assert regs[..|hs|] == regs;
  }

  lemma UnderwayFirst(fs: FlagSet, addrs: seq<string>, args: seq<string>, bound: map<string, Socket>,
                      regs: seq<seq<string>>, mine: map<string, Socket>)
    requires regs != [] && Reordered(regs[0], addrs) && SeenBy(fs, args) == Some(FRESH)
    requires Serves(Handover(false, [], [], args), regs[0], bound, mine)
    ensures var h := Handover(false, [], [], args);
      && Members(regs[0]) == mine.Keys
      && Underway(fs, addrs, args, bound, regs, mine, [h], [mine], NextLaunch(h, regs[0], mine))
  {
    FirstServers(Handover(false, [], [], args), addrs, regs[0], bound, mine);
    assert regs[..1] == [regs[0]];
  }

  lemma UnderwayStep(fs: FlagSet, addrs: seq<string>, args: seq<string>, bound: map<string, Socket>,
                     regs: seq<seq<string>>, mine: map<string, Socket>,
                     hs: seq<Handover>, servers: seq<map<string, Socket>>, next: Launch, h: Handover)
    requires var n := |hs|;
      && 0 < n < |regs|
      && Generations(fs, addrs, args, seq(n, _ => bound), hs, regs[..n], servers) && Reordered(regs[n], addrs)
      && HandedOver(fs, hs[n - 1], regs[n - 1], servers[n - 1], h) && Serves(h, regs[n], bound, mine)
    requires IsChildOf(fs, args, regs[0], mine, h)
    requires next == NextLaunch(h, regs[0], mine) && Slots(h, regs[|hs|]) == regs[0]
    ensures Underway(fs, addrs, args, bound, regs, mine, hs + [h], servers + [mine], next)
  {
    GenerationsStep(fs, addrs, args, bound, hs, regs, servers, h, mine);
  }

  // Some generations have run, the last of which has launched the next one.
  ghost predicate Underway(fs: FlagSet, addrs: seq<string>, args: seq<string>, bound: map<string, Socket>,
                           regs: seq<seq<string>>, mine: map<string, Socket>,
                           hs: seq<Handover>, servers: seq<map<string, Socket>>, next: Launch) {
    var n := |hs|;
    && 0 < n <= |regs| && Generations(fs, addrs, args, seq(n, _ => bound), hs, regs[..n], servers)
    && (var first, h := regs[0], hs[n - 1];
        && Members(first) == mine.Keys && next == NextLaunch(h, first, mine)
        && Slots(h, regs[n - 1]) == first && servers[n - 1] == mine
        && if n > 1 then IsChildOf(fs, args, first, mine, h) else h.args == args)
  }

  lemma UnderwayNext(fs: FlagSet, addrs: seq<string>, args: seq<string>, bound: map<string, Socket>,
                     regs: seq<seq<string>>, mine: map<string, Socket>,
                     hs: seq<Handover>, servers: seq<map<string, Socket>>, next: Launch)
    requires Underway(fs, addrs, args, bound, regs, mine, hs, servers, next) && |hs| < |regs|
    requires fs.Valid() && Plain(regs[0]) && TakesOver(fs, Cut(args), regs[0])
    requires Reordered(regs[0], addrs) && Reordered(regs[|hs|], addrs)
    ensures Started(fs, next).Some? && IsChildOf(fs, args, regs[0], mine, Started(fs, next).value)
    ensures Reordered(regs[|hs|], regs[0])
    ensures HandedOver(fs, hs[|hs| - 1], regs[|hs| - 1], servers[|hs| - 1], Started(fs, next).value)
  {
    var child := NextGeneration(fs, args, regs[0], mine, hs[|hs| - 1], |hs| > 1);
  }

  // A child registers the same addresses, in any order, and has the sockets of its parent.
  method RunChild(fs: FlagSet, args: seq<string>, first: seq<string>, parents: map<string, Socket>, h: Handover,
                  regs: seq<string>, bound: map<string, Socket>)
    returns (servers: map<string, Socket>, next: Launch)
    requires IsChildOf(fs, args, first, parents, h) && Plain(first) && Reordered(regs, first)
    ensures Serves(h, regs, bound, servers) && servers == parents && Slots(h, regs) == first
    ensures next == NextLaunch(h, first, parents)
  {
    DistinctSize(first);
    DistinctSize(regs);
    servers, next := RunGeneration(h, regs, bound);
    ChildServers(fs, args, first, parents, h, regs, bound, servers);
  }

  lemma GenerationsStep(fs: FlagSet, addrs: seq<string>, args: seq<string>, bound: map<string, Socket>,
                        hs: seq<Handover>, regs: seq<seq<string>>, servers: seq<map<string, Socket>>,
                        h: Handover, here: map<string, Socket>)
    requires var n := |hs|; n < |regs| && Generations(fs, addrs, args, seq(n, _ => bound), hs, regs[..n], servers)
    requires var n := |hs|; Reordered(regs[n], addrs) && Serves(h, regs[n], bound, here)
    requires var n := |hs|; HandedOver(fs, hs[n - 1], regs[n - 1], servers[n - 1], h)
    ensures Generations(fs, addrs, args, seq(|hs| + 1, _ => bound), hs + [h], regs[..|hs| + 1], servers + [here])
  {
    var n := |hs|;
    var hs', rs, ss := hs + [h], regs[..n + 1], servers + [here];
    forall k | 0 <= k < n + 1 ensures Reordered(rs[k], addrs) && Serves(hs'[k], rs[k], bound, ss[k]) {
      if k < n {
        assert Reordered(regs[..n][k], addrs);
      }
    }
    forall k | 0 <= k < n ensures HandedOver(fs, hs'[k], rs[k], ss[k], hs'[k + 1]) {
      if k < n - 1 {
        assert HandedOver(fs, hs[k], regs[..n][k], servers[k], hs[k + 1]);
      }
    }
  }

  lemma NextGeneration(fs: FlagSet, args: seq<string>, first: seq<string>, servers: map<string, Socket>, h: Handover,
                       isChild: bool)
    returns (next: Handover)
    requires fs.Valid() && Plain(first) && TakesOver(fs, Cut(args), first) && Members(first) == servers.Keys
    requires if isChild then IsChildOf(fs, args, first, servers, h) else h.args == args
    ensures Started(fs, NextLaunch(h, first, servers)) == Some(next) && IsChildOf(fs, args, first, servers, next)
  {
    TakesOverIff(fs, args, first, SlotFiles(first, servers));
    next := Started(fs, Launch(SlotFiles(first, servers), NextArgs(args, first))).value;
    if isChild {
      CutAgain(args, if |first| > 1 then [ORDER_FLAG + Join(first, ',')] else []);
      assert NextArgs(args, first) == Cut(args) + Added(first);
      assert NextArgs(h.args, first) == h.args;
    }
  }

  // The offset of an address when it registers is its slot.
  lemma SlotOf(h: Handover, regs: seq<string>, i: nat, offsets: map<string, nat>)
    requires i < |regs| && Distinct(Slots(h, regs)) && Members(Slots(h, regs)) == Members(regs)
    requires OffsetsOf(Slots(h, regs[..i + 1]), offsets)
    ensures regs[i] in offsets && offsets[regs[i]] < |Slots(h, regs)| && Slots(h, regs)[offsets[regs[i]]] == regs[i]
  {
    var slots, now := Slots(h, regs), Slots(h, regs[..i + 1]);
    if h.socketOrder == [] {
      assert now[i] == regs[i];
    } else {
      assert regs[i] in Members(regs) && regs[i] in Members(slots);
      var k :| 0 <= k < |slots| && slots[k] == regs[i];
    }
  }
}
