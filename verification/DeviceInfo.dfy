/**
 * The one shared record a client keeps about itself, and the three kinds of writers that
 * replace it by compare-and-exchange: registration, server address change, status change.
 */
module DeviceInfo {
  import opened Bytes
  import opened Routes

  datatype ConnectStatus = Connecting | Connected

  datatype Info = Info(
    virtualIp: Ipv4Addr,
    netmask: Ipv4Addr,
    gateway: Ipv4Addr,
    network: Ipv4Addr,
    broadcastIp: Ipv4Addr,
    server: SocketAddr,
    status: ConnectStatus)

  const UNSPECIFIED := Ipv4Addr(0)
  const GATEWAY_IP := Ipv4Addr(1)

  /** `CurrentDeviceInfo::new0`. */
  function Unregistered(server: SocketAddr): Info {
    Info(UNSPECIFIED, UNSPECIFIED, UNSPECIFIED, UNSPECIFIED, UNSPECIFIED, server, Connecting)
  }

  function NetworkOf(ip: Ipv4Addr, mask: Ipv4Addr): Ipv4Addr {
    Ipv4Addr(mask.bits & ip.bits)
  }

  function BroadcastOf(ip: Ipv4Addr, mask: Ipv4Addr): Ipv4Addr {
    Ipv4Addr(!mask.bits | ip.bits)
  }

  /** `CurrentDeviceInfo::update`. */
  function Update(d: Info, ip: Ipv4Addr, mask: Ipv4Addr, gateway: Ipv4Addr): Info {
    d.(virtualIp := ip, netmask := mask, gateway := gateway,
       broadcastIp := BroadcastOf(ip, mask), network := NetworkOf(ip, mask))
  }

  predicate NotInNetwork(d: Info, ip: Ipv4Addr) {
    ip.bits & d.netmask.bits != d.network.bits
  }

  predicate IsGatewayIp(d: Info, ip: Ipv4Addr) {
    d.gateway == ip || ip == GATEWAY_IP
  }

  // ----- the writers -----

  datatype Change =
    | Register(ip: Ipv4Addr, mask: Ipv4Addr, gateway: Ipv4Addr)
    | MoveServer(server: SocketAddr)
    | SetStatus(status: ConnectStatus)

  /** The value a writer offers in exchange for the one it has seen. */
  function Changed(d: Info, w: Change): Info {
    match w
    case Register(ip, mask, gateway) => Update(d, ip, mask, gateway).(status := Connected)
    case MoveServer(server) => d.(server := server)
    case SetStatus(status) => d.(status := status)
  }

  /** Where a writer stands: it holds a value it loaded, or must load again, or is through. */
  datatype Writer = Loading(change: Change) | Holding(change: Change, seen: Info) | Done

  /**
   * The cell and its writers; as history, the changes whose exchange succeeded, and every
   * value the cell has held.
   */
  datatype System = System(cell: Info, writers: map<nat, Writer>, applied: seq<Change>, values: set<Info>)

  /** A writer appears, with nothing loaded, or with a value loaded at any earlier time. */
  predicate Arrives(s: System, t: System, i: nat, w: Writer) {
    && (i in s.writers ==> s.writers[i].Done?)
    && (w.Loading? || (w.Holding? && w.seen in s.values))
    && t == s.(writers := s.writers[i := w])
  }

  predicate Loads(s: System, t: System, i: nat) {
    && i in s.writers && s.writers[i].Loading?
    && t == s.(writers := s.writers[i := Holding(s.writers[i].change, s.cell)])
  }

  /** What a writer does when its exchange fails: registration retries with the value returned. */
  function AfterFailure(w: Writer, current: Info): Writer
    requires w.Holding?
  {
    match w.change
    case Register(_, _, _) => Holding(w.change, current)
    case MoveServer(_) => Done
    case SetStatus(_) => Loading(w.change)
  }

  predicate Exchanges(s: System, t: System, i: nat) {
    && i in s.writers && s.writers[i].Holding?
    && var w := s.writers[i];
       var new_ := Changed(w.seen, w.change);
       t == if s.cell == w.seen
            then System(new_, s.writers[i := Done], s.applied + [w.change], s.values + {new_})
            else s.(writers := s.writers[i := AfterFailure(w, s.cell)])
  }

  datatype Event = Arrival(i: nat, w: Writer) | Load(i: nat) | Exchange(i: nat)

  predicate Next(s: System, t: System, e: Event) {
    match e
    case Arrival(i, w) => Arrives(s, t, i, w)
    case Load(i) => Loads(s, t, i)
    case Exchange(i) => Exchanges(s, t, i)
  }

  ghost predicate Run(run: seq<System>, events: seq<Event>, server: SocketAddr) {
    && |run| == |events| + 1
    && run[0] == System(Unregistered(server), map[], [], {Unregistered(server)})
    && forall k :: 0 <= k < |events| ==> Next(run[k], run[k + 1], events[k])
  }

  // ----- what follows -----

  /** A successful exchange is the change applied to the value the cell then had, and touches nothing else. */
  lemma ExchangeChangesOwnFields(s: System, t: System, i: nat)
    requires Exchanges(s, t, i)
    ensures t.cell != s.cell ==> t.cell == Changed(s.cell, s.writers[i].change)
    ensures t.applied != s.applied ==> t.cell == Changed(s.cell, s.writers[i].change)
    ensures match s.writers[i].change
            case Register(_, _, _) => t.cell.server == s.cell.server
            case MoveServer(_) => t.cell == s.cell.(server := t.cell.server)
            case SetStatus(_) => t.cell == s.cell.(status := t.cell.status)
  {}

  function Replay(d: Info, changes: seq<Change>): Info {
    if |changes| == 0 then d else Changed(Replay(d, changes[..|changes| - 1]), changes[|changes| - 1])
  }

  /** The last change of a kind, if any. */
  function LastRegister(changes: seq<Change>): Option<(Ipv4Addr, Ipv4Addr, Ipv4Addr)> {
    if |changes| == 0 then None
    else if changes[|changes| - 1].Register? then
      var w := changes[|changes| - 1];
      Some((w.ip, w.mask, w.gateway))
    else LastRegister(changes[..|changes| - 1])
  }

  function LastServer(changes: seq<Change>): Option<SocketAddr> {
    if |changes| == 0 then None
    else if changes[|changes| - 1].MoveServer? then Some(changes[|changes| - 1].server)
    else LastServer(changes[..|changes| - 1])
  }

  function LastStatus(changes: seq<Change>): Option<ConnectStatus> {
    if |changes| == 0 then None
    else
      var w := changes[|changes| - 1];
      if w.Register? then Some(Connected)
      else if w.SetStatus? then Some(w.status)
      else LastStatus(changes[..|changes| - 1])
  }

  /** Each field is what the last writer that owns it wrote. */
  lemma {:induction false} EachFieldHasItsLastWriter(server: SocketAddr, changes: seq<Change>)
    ensures var d := Replay(Unregistered(server), changes);
            && d.server == (if LastServer(changes).Some? then LastServer(changes).value else server)
            && d.status == (if LastStatus(changes).Some? then LastStatus(changes).value else Connecting)
            && match LastRegister(changes) {
                 case Some((ip, mask, gateway)) =>
                   && d.virtualIp == ip && d.netmask == mask && d.gateway == gateway
                   && d.network == NetworkOf(ip, mask) && d.broadcastIp == BroadcastOf(ip, mask)
                 case _ =>
                   && d.virtualIp.bits == 0 && d.netmask.bits == 0 && d.gateway.bits == 0
                   && d.network.bits == 0 && d.broadcastIp.bits == 0
               }
  {
    hide NetworkOf, BroadcastOf;
    if |changes| != 0 {
      EachFieldHasItsLastWriter(server, changes[..|changes| - 1]);
    }
  }

  /** Either never registered, or network and broadcast belong to address and mask. */
  predicate WellFormed(d: Info) {
    || d == Unregistered(d.server).(status := d.status)
    || (d.network == NetworkOf(d.virtualIp, d.netmask) && d.broadcastIp == BroadcastOf(d.virtualIp, d.netmask))
  }

  lemma ChangedIsWellFormed(d: Info, w: Change)
    requires WellFormed(d)
    ensures WellFormed(Changed(d, w))
  {}

  /** The cell is the successful changes replayed one after the other; all it ever held is well formed. */
  ghost predicate SystemInv(s: System, server: SocketAddr) {
    && s.cell == Replay(Unregistered(server), s.applied)
    && s.cell in s.values
    && (forall v :: v in s.values ==> WellFormed(v))
    && (forall i :: i in s.writers && s.writers[i].Holding? ==> s.writers[i].seen in s.values)
  }

  lemma StepKeepsSystemInv(s: System, t: System, e: Event, server: SocketAddr)
    requires SystemInv(s, server) && Next(s, t, e)
    ensures SystemInv(t, server)
  {
    hide WellFormed, Changed, Replay, Unregistered;
    if e.Exchange? && s.cell == s.writers[e.i].seen {
      var change := s.writers[e.i].change;
      ReplayOneMore(Unregistered(server), s.applied, change);
      ChangedIsWellFormed(s.cell, change);
    }
  }

  lemma ReplayOneMore(d: Info, changes: seq<Change>, w: Change)
    ensures Replay(d, changes + [w]) == Changed(Replay(d, changes), w)
  {}

  lemma {:induction false} EverySystemHasInv(run: seq<System>, events: seq<Event>, server: SocketAddr, k: nat)
    requires Run(run, events, server) && k < |run|
    ensures SystemInv(run[k], server)
    decreases k
  {
    hide SystemInv, Next;
    if k == 0 {
      InitialSystemInv(server);
    } else {
      EverySystemHasInv(run, events, server, k - 1);
      assert Next(run[k - 1], run[k - 1 + 1], events[k - 1]);
      StepKeepsSystemInv(run[k - 1], run[k], events[k - 1], server);
    }
  }

  lemma InitialSystemInv(server: SocketAddr)
    ensures SystemInv(System(Unregistered(server), map[], [], {Unregistered(server)}), server)
  {}

  /** A client's own address and its broadcast address are always inside its network. */
  lemma OwnAddressesAreInNetwork(d: Info)
    requires WellFormed(d)
    ensures !NotInNetwork(d, d.virtualIp) && !NotInNetwork(d, d.broadcastIp)
  {}

  /** Two addresses that differ at most where the mask is zero. */
  predicate AgreeUnder(x: bv32, y: bv32, mask: bv32) {
    (x ^ y) & mask == 0
  }

  /** The ones of `x` are among those of `y`. */
  predicate OnesWithin(x: bv32, y: bv32) {
    x | y == y
  }

  /** In the network of a registered record lie exactly the addresses that agree with its own under the mask. */
  lemma NetworkExactly(d: Info, ip: Ipv4Addr)
    requires d.network == NetworkOf(d.virtualIp, d.netmask)
    ensures NotInNetwork(d, ip) <==> !AgreeUnder(ip.bits, d.virtualIp.bits, d.netmask.bits)
  {
    hide NotInNetwork, NetworkOf, AgreeUnder, SameMasked;
    Compared(d, ip);
    ComparedBack(d, ip);
    Agreement(ip.bits, d.virtualIp.bits, d.netmask.bits);
  }

  predicate SameMasked(x: bv32, y: bv32, mask: bv32) {
    x & mask == mask & y
  }

  lemma Compared(d: Info, ip: Ipv4Addr)
    requires d.network == NetworkOf(d.virtualIp, d.netmask)
    ensures NotInNetwork(d, ip) ==> !SameMasked(ip.bits, d.virtualIp.bits, d.netmask.bits)
  {}

  lemma ComparedBack(d: Info, ip: Ipv4Addr)
    requires d.network == NetworkOf(d.virtualIp, d.netmask)
    ensures !SameMasked(ip.bits, d.virtualIp.bits, d.netmask.bits) ==> NotInNetwork(d, ip)
  {}

  lemma Agreement(x: bv32, y: bv32, mask: bv32)
    ensures SameMasked(x, y, mask) <==> AgreeUnder(x, y, mask)
  {
    assert (x ^ y) & mask == (x & mask) ^ (mask & y);
    SameIsZero(x & mask, mask & y);
  }

  lemma SameIsZero(a: bv32, b: bv32)
    ensures a == b <==> a ^ b == 0
  {}

  /** Its broadcast address is one of them, and has every one that any of them has. */
  lemma BroadcastIsHighest(d: Info, ip: Ipv4Addr)
    requires d.network == NetworkOf(d.virtualIp, d.netmask) && d.broadcastIp == BroadcastOf(d.virtualIp, d.netmask)
    ensures !NotInNetwork(d, d.broadcastIp)
    ensures !NotInNetwork(d, ip) ==> OnesWithin(ip.bits, d.broadcastIp.bits)
  {
    hide NotInNetwork, NetworkOf, BroadcastOf, AgreeUnder, OnesWithin;
    NetworkExactly(d, d.broadcastIp);
    NetworkExactly(d, ip);
    BroadcastBits(d, ip);
  }

  lemma BroadcastBits(d: Info, ip: Ipv4Addr)
    requires d.broadcastIp == BroadcastOf(d.virtualIp, d.netmask)
    ensures AgreeUnder(d.broadcastIp.bits, d.virtualIp.bits, d.netmask.bits)
    ensures AgreeUnder(ip.bits, d.virtualIp.bits, d.netmask.bits) ==> OnesWithin(ip.bits, d.broadcastIp.bits)
  {
    hide AgreeUnder, OnesWithin;
    BroadcastAgrees(ip.bits, d.broadcastIp.bits, d.virtualIp.bits, d.netmask.bits);
  }

  lemma BroadcastAgrees(x: bv32, b: bv32, ip: bv32, mask: bv32)
    requires b == !mask | ip
    ensures AgreeUnder(b, ip, mask)
    ensures AgreeUnder(x, ip, mask) ==> OnesWithin(x, b)
  {
    hide OnesWithin;
    OnesBehindMask(x, ip, mask);
    assert AgreeUnder(!mask | ip, ip, mask);
  }

  lemma OnesBehindMask(x: bv32, ip: bv32, mask: bv32)
    ensures AgreeUnder(x, ip, mask) ==> OnesWithin(x, !mask | ip)
  {
    hide SameMasked;
    Agreement(x, ip, mask);
    OnesOfSame(x, ip, mask);
  }

  lemma OnesOfSame(x: bv32, ip: bv32, mask: bv32)
    ensures SameMasked(x, ip, mask) ==> OnesWithin(x, !mask | ip)
  {
    if SameMasked(x, ip, mask) {
      var common := x & mask;
      OrMasked(x, mask);
      OrOr(x, !mask, ip);
      OrAbsorbs(mask, ip);
    }
  }

  lemma OrMasked(x: bv32, mask: bv32)
    ensures x | !mask == (x & mask) | !mask
  {}

  lemma OrOr(x: bv32, y: bv32, z: bv32)
    ensures x | (y | z) == (x | y) | z
  {}

  lemma OrAbsorbs(mask: bv32, ip: bv32)
    ensures ((mask & ip) | !mask) | ip == !mask | ip
  {}

  /** The same in every state of every interleaving, with the last writer of each field. */
  lemma EveryReachableInfo(run: seq<System>, events: seq<Event>, server: SocketAddr, k: nat)
    requires Run(run, events, server) && k < |run|
    ensures var d := run[k].cell;
            && WellFormed(d)
            && !NotInNetwork(d, d.virtualIp) && !NotInNetwork(d, d.broadcastIp)
            && d.server == (if LastServer(run[k].applied).Some? then LastServer(run[k].applied).value else server)
            && d.status == (if LastStatus(run[k].applied).Some? then LastStatus(run[k].applied).value else Connecting)
            && (LastRegister(run[k].applied).Some? ==>
                  (d.virtualIp, d.netmask, d.gateway) == LastRegister(run[k].applied).value)
  {
    hide NetworkOf, BroadcastOf, WellFormed, NotInNetwork, Next, Replay;
    EverySystemHasInv(run, events, server, k);
    OwnAddressesAreInNetwork(run[k].cell);
    EachFieldHasItsLastWriter(server, run[k].applied);
  }

  // ----- retries -----

  /** An exchange that fails, and one that succeeds. */
  predicate Fails(s: System, e: Event, i: nat) {
    e == Exchange(i) && i in s.writers && s.writers[i].Holding? && s.cell != s.writers[i].seen
  }

  predicate OtherSucceeds(s: System, e: Event, i: nat) {
    && e.Exchange? && e.i != i && e.i in s.writers
    && s.writers[e.i].Holding? && s.cell == s.writers[e.i].seen
  }

  function Failures(run: seq<System>, events: seq<Event>, i: nat, j: nat, k: nat): nat
    requires j <= k <= |events| < |run|
  {
    if j == k then 0
    else Failures(run, events, i, j, k - 1) + if Fails(run[k - 1], events[k - 1], i) then 1 else 0
  }

  function OthersSuccesses(run: seq<System>, events: seq<Event>, i: nat, j: nat, k: nat): nat
    requires j <= k <= |events| < |run|
  {
    if j == k then 0
    else OthersSuccesses(run, events, i, j, k - 1) + if OtherSucceeds(run[k - 1], events[k - 1], i) then 1 else 0
  }

  /** One if the writer holds a value that is no longer the cell's, as a registration may from the start. */
  function Stale(s: System, i: nat): nat {
    if i in s.writers && s.writers[i].Holding? && s.writers[i].seen != s.cell then 1 else 0
  }

  lemma FailureNeedsASuccess(s: System, t: System, e: Event, i: nat)
    requires i in s.writers && Next(s, t, e) && !(e.Arrival? && e.i == i)
    ensures i in t.writers
    ensures (if Fails(s, e, i) then 1 else 0) + Stale(t, i) <= (if OtherSucceeds(s, e, i) then 1 else 0) + Stale(s, i)
  {
    hide Changed;
  }

  /**
   * In every interleaving, while a writer is at one change, its exchanges fail no more often than
   * those of the others succeed, and once more if what it started from was already stale.
   */
  lemma {:induction false} FailuresAreOthersSuccesses(
    run: seq<System>, events: seq<Event>, server: SocketAddr, i: nat, j: nat, k: nat)
    requires Run(run, events, server) && j <= k <= |events| && i in run[j].writers
    requires forall m :: j <= m < k ==> !(events[m].Arrival? && events[m].i == i)
    ensures i in run[k].writers
    ensures Failures(run, events, i, j, k) + Stale(run[k], i) <= OthersSuccesses(run, events, i, j, k) + Stale(run[j], i)
    decreases k
  {
    hide Next, Stale, Fails, OtherSucceeds;
    if j < k {
      FailuresAreOthersSuccesses(run, events, server, i, j, k - 1);
      assert Next(run[k - 1], run[k - 1 + 1], events[k - 1]);
      FailureNeedsASuccess(run[k - 1], run[k], events[k - 1], i);
    }
  }

  /** The change a writer is at. */
  function ChangeOf(w: Writer): Option<Change> {
    if w.Done? then None else Some(w.change)
  }

  /** Whether step `m` is the writer's successful exchange of that change. */
  ghost predicate MakesAt(run: seq<System>, events: seq<Event>, i: nat, change: Change, m: nat)
    requires m < |events| < |run|
  {
    events[m] == Exchange(i) && run[m + 1].applied == run[m].applied + [change]
  }

  lemma StepOfWriter(s: System, t: System, e: Event, i: nat)
    requires i in s.writers && Next(s, t, e) && !(e.Arrival? && e.i == i) && ChangeOf(s.writers[i]).Some?
    ensures i in t.writers
    ensures var change := ChangeOf(s.writers[i]).value;
            || ChangeOf(t.writers[i]) == Some(change)
            || (t.writers[i].Done? && (change.MoveServer? || (e == Exchange(i) && t.applied == s.applied + [change])))
  {
    hide Changed;
  }

  /**
   * And a registration or a status change ends only by being made: as long as it has not been, the
   * writer is still at it. Only a change of server address can be given up.
   */
  lemma {:induction false} OnlyServerChangeIsGivenUp(
    run: seq<System>, events: seq<Event>, server: SocketAddr, i: nat, change: Change, j: nat, k: nat)
    requires Run(run, events, server) && j <= k <= |events|
    requires i in run[j].writers && ChangeOf(run[j].writers[i]) == Some(change) && !change.MoveServer?
    requires forall m :: j <= m < k ==> !(events[m].Arrival? && events[m].i == i)
    ensures i in run[k].writers
    ensures ChangeOf(run[k].writers[i]) == Some(change) || exists m :: j <= m < k && MakesAt(run, events, i, change, m)
    decreases k
  {
    hide Next, ChangeOf;
    if j < k {
      OnlyServerChangeIsGivenUp(run, events, server, i, change, j, k - 1);
      assert Next(run[k - 1], run[k - 1 + 1], events[k - 1]);
      FailureNeedsASuccess(run[k - 1], run[k], events[k - 1], i);
      if m :| j <= m < k - 1 && MakesAt(run, events, i, change, m) {
      } else {
        StepOfWriter(run[k - 1], run[k], events[k - 1], i);
        assert events[k - 1] == Exchange(i) && run[k].applied == run[k - 1].applied + [change]
               ==> MakesAt(run, events, i, change, k - 1);
      }
    }
  }

  // ----- the loops -----

  /** What the cell holds once the first `n` others have come in. */
  function After(d: Info, others: seq<Option<Info>>, n: nat): Info
    requires n <= |others|
  {
    if n == 0 then d else if others[n - 1].Some? then others[n - 1].value else After(d, others, n - 1)
  }

  class AtomicInfo {
    var value: Info

    constructor (server: SocketAddr)
      ensures value == Unregistered(server) && WellFormed(value)
    {
      value := Unregistered(server);
    }

    method CompareExchange(current: Info, new_: Info) returns (r: Option<Info>)
      modifies this
      ensures r == if old(value) == current then None else Some(old(value))
      ensures value == if old(value) == current then new_ else old(value)
    {
      if value == current {
        value := new_;
        return None;
      }
      return Some(value);
    }

    /** Another writer's exchange, if one comes in between. */
    method Meanwhile(other: Option<Info>)
      modifies this
      ensures value == if other.Some? then other.value else old(value)
    {
      if other.Some? {
        value := other.value;
      }
    }

    /**
     * The loop of `service`, which starts from a record loaded when the packet came in.
     * `others` are the writers that come in between before each exchange.
     */
    method RegisterResponse(loaded: Info, ip: Ipv4Addr, mask: Ipv4Addr, gateway: Ipv4Addr, others: seq<Option<Info>>)
      modifies this
      ensures exists n :: 0 <= n <= |others| && value == Changed(After(old(value), others, n), Register(ip, mask, gateway))
    {
      hide NetworkOf, BroadcastOf;
      var cur := loaded;
      var r := 0;
      while true
        invariant 0 <= r <= |others| && value == After(old(value), others, r)
        decreases |others| - r, if value == cur then 0 else 1
      {
        if r < |others| {
          Meanwhile(others[r]);
          r := r + 1;
        }
        var failed := CompareExchange(cur, Update(cur, ip, mask, gateway).(status := Connected));
        if failed.None? {
          assert value == Changed(After(old(value), others, r), Register(ip, mask, gateway));
          break;
        }
        cur := failed.value;
      }
    }

    /** `change_status`, likewise. */
    method ChangeStatus(status: ConnectStatus, others: seq<Option<Info>>) returns (info: Info)
      modifies this
      ensures value == info
      ensures exists n :: 0 <= n <= |others| && value == Changed(After(old(value), others, n), SetStatus(status))
    {
      var r := 0;
      while true
        invariant 0 <= r <= |others| && value == After(old(value), others, r)
        decreases |others| - r
      {
        var cur := value;
        if r < |others| {
          Meanwhile(others[r]);
          r := r + 1;
        }
        info := cur.(status := status);
        var failed := CompareExchange(cur, info);
        if failed.None? {
          assert value == Changed(After(old(value), others, r), SetStatus(status));
          return;
        }
      }
    }

    /** The exchange in `domain_request0`, which is not repeated. */
    method ServerAddressResolved(loaded: Info, server: SocketAddr)
      modifies this
      ensures value == if old(value) == loaded then Changed(old(value), MoveServer(server)) else old(value)
    {
      if server != loaded.server {
        var _ := CompareExchange(loaded, loaded.(server := server));
      }
    }
  }
}
