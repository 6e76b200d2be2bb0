/** Both ends of the hand-over with their own code: the lock holder's and the listener's. */
module SocketHandoverClass {
  import opened Bytes
  import opened SocketHandover

  datatype NatType = SymmetricNat | ConeNat

  class Handover {
    var sub: seq<nat>
    var list: seq<nat>
    var queue: seq<Message>
    var connected: bool
    var addBit: bool
    var stopBit: bool
    var wakePending: bool

    constructor ()
      ensures sub == [] && list == [] && queue == [] && connected && !addBit && !stopBit && !wakePending
    {
      sub, list, queue, connected := [], [], [], true;
      addBit, stopBit, wakePending := false, false, false;
    }

    predicate Agrees()
      reads this
    {
      Applied(list, queue) == sub
    }

    /** `AcceptSocketSender::try_add_socket`; `wakes` says whether the waker works. */
    method TryAddSocket(m: Message, wakes: bool) returns (ok: bool)
      modifies this`queue, this`addBit, this`wakePending
      ensures ok <==> connected && |old(queue)| < QUEUE_BOUND && wakes
      ensures queue == if connected && |old(queue)| < QUEUE_BOUND then old(queue) + [m] else old(queue)
      ensures queue != old(queue) ==> addBit
      ensures ok ==> wakePending
      ensures !ok ==> wakePending == old(wakePending)
      ensures queue == old(queue) ==> addBit == old(addBit)
    {
      if !connected || |queue| >= QUEUE_BOUND {
        return false;
      }
      queue := queue + [m];
      addBit := true;
      ok := wakes;
      if wakes {
        wakePending := true;
      }
    }

    /** `switch`; `bound` is what binding gives, or `None` if it fails. */
    method Switch(natType: NatType, bound: Option<seq<nat>>, wakes: bool) returns (ok: bool)
      requires bound.Some? ==> |bound.value| > 0 && bound.value != sub
      modifies this`sub, this`queue, this`addBit, this`wakePending
      ensures var already, delivers := natType.ConeNat? == (old(sub) == []), connected && |old(queue)| < 64 && wakes;
              && (ok <==> already || (delivers && (natType.ConeNat? || bound.Some?)))
              && (already ==> sub == old(sub) && queue == old(queue))
              && (ok && !already ==> sub == if natType.ConeNat? then [] else bound.value)
      ensures ok ==> (natType.ConeNat? <==> sub == [])
      ensures !ok ==> sub == old(sub)
      ensures sub != old(sub) ==> queue == old(queue) + [if natType.ConeNat? then None else bound] && addBit && wakePending
      ensures old(Agrees()) ==> (Agrees() <==> ok || queue == old(queue))
    {
      match natType
      case SymmetricNat =>
        if sub != [] {
          return true;
        }
        if bound.None? {
          return false;
        }
        ok := TryAddSocket(Some(bound.value), wakes);
        if !ok {
          return;
        }
        sub := bound.value;
      case ConeNat =>
        if sub == [] {
          return true;
        }
        ok := TryAddSocket(None, wakes);
        if !ok {
          return;
        }
        sub := [];
    }

    /** `reset_reconnect_udp_socket`. */
    method ResetReconnect(bound: Option<seq<nat>>, wakes: bool) returns (ok: bool)
      requires bound.Some? ==> |bound.value| > 0 && bound.value != sub
      modifies this`sub, this`queue, this`addBit, this`wakePending
      ensures ok <==> bound.Some? && connected && |old(queue)| < 64 && wakes
      ensures ok ==> bound.Some? && sub == bound.value && queue == old(queue) + [bound] && addBit && wakePending
      ensures !ok ==> sub == old(sub)
      ensures old(Agrees()) ==> (Agrees() <==> ok || queue == old(queue))
    {
      if bound.None? {
        return false;
      }
      ok := TryAddSocket(Some(bound.value), wakes);
      if !ok {
        return;
      }
      sub := bound.value;
    }

    /** One message at the listener; registration of a socket may fail, which ends the thread. */
    method TakeIn(m: Message, refused: set<nat>) returns (ok: bool)
      modifies this`list
      ensures ok <==> forall x :: x in SocketsOf(m) ==> x !in refused
      ensures ok ==> list == SocketsOf(m)
    {
      list := [];
      if m.Some? {
        var i := 0;
        while i < |m.value|
          invariant 0 <= i <= |m.value| && list == m.value[..i]
          invariant forall x :: x in m.value[..i] ==> x !in refused
        {
          if m.value[i] in refused {
            assert m.value[i] in SocketsOf(m);
            return false;
          }
          list := list + [m.value[i]];
          i := i + 1;
        }
      }
      ok := true;
    }

    /** What `sub_udp_listen0` does with a notification. The result says whether the thread goes on. */
    method OnNotify(refused: set<nat>) returns (ok: bool)
      requires connected
      modifies this`list, this`queue, this`addBit, this`connected
      ensures connected <==> ok
      ensures ok <==> !stopBit && (old(addBit) ==> forall m, x :: m in old(queue) && x in SocketsOf(m) ==> x !in refused)
      ensures old(stopBit) ==> !ok && list == old(list)
      ensures ok && old(addBit) ==> queue == [] && list == Applied(old(list), old(queue)) && !addBit
      ensures ok && !old(addBit) ==> queue == old(queue) && list == old(list)
      ensures ok && old(addBit) && old(Agrees()) ==> list == sub
    {
      if stopBit {
        connected := false;
        return false;
      }
      var add := addBit;
      addBit := false;
      if add {
        ghost var n := 0;
        while |queue| > 0
          invariant 0 <= n <= |old(queue)| && queue == old(queue)[n..]
          invariant Applied(list, queue) == Applied(old(list), old(queue))
          invariant connected && !addBit
          invariant forall m, x :: m in old(queue)[..n] && x in SocketsOf(m) ==> x !in refused
        {
          var m := queue[0];
          assert m == old(queue)[n];
          queue := queue[1..];
          n := n + 1;
          var went := TakeIn(m, refused);
          if !went {
            connected := false;
            return false;
          }
        }
      }
      ok := true;
    }
  }
}
