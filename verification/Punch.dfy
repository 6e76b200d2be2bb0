/** The port scan against a symmetric NAT: a budget per round, a cursor per peer into all ports. */
module Punch {
  import opened Bytes

  const PORTS := 65535
  const WINDOW_BUDGET := 60

  /** One datagram of the scan. */
  datatype Probe = Probe(ip: Ipv4Addr, port: nat)

  function Row(port: nat, ips: seq<Ipv4Addr>): (r: seq<Probe>)
    ensures |r| == |ips|
  {
    seq(|ips|, j requires 0 <= j < |ips| => Probe(ips[j], port))
  }

  /** All ports in order, each to all addresses. */
  function AllProbes(ports: seq<nat>, ips: seq<Ipv4Addr>): seq<Probe> {
    if |ports| == 0 then [] else AllProbes(ports[..|ports| - 1], ips) + Row(ports[|ports| - 1], ips)
  }

  /** How many of `n` ports a round completes: the probe that would reach the budget is not sent. */
  function Completed(n: nat, ips: nat, max: nat): (d: nat)
    ensures d <= n
  {
    if ips == 0 || max == 0 then n
    else if (max - 1) / ips < n then (max - 1) / ips
    else n
  }

  /** What a round sends if no send fails: the completed ports, and a part of the next one. */
  function Probes(ports: seq<nat>, ips: seq<Ipv4Addr>, max: nat): seq<Probe> {
    var d := Completed(|ports|, |ips|, max);
    AllProbes(ports[..d], ips) +
    if d < |ports| && |ips| > 0 then
      RemainderIsPart(max, |ips|);
      Row(ports[d], ips)[..(max - 1) % |ips|]
    else []
  }

  lemma RemainderIsPart(max: nat, ips: nat)
    requires ips > 0 && max > 0
    ensures 0 <= (max - 1) % ips < ips
  {}

  /** Quotient and remainder are the only numbers that fit. */
  lemma DivisionIsUnique(a: nat, n: nat, q: nat, r: nat)
    requires a == q * n + r && r < n
    ensures a / n == q && a % n == r
  {
    if a / n < q {
      ProductGrows(a / n + 1, q, n);
    } else if a / n > q {
      ProductGrows(q + 1, a / n, n);
    }
  }

  lemma ProductGrows(a: nat, b: nat, n: nat)
    requires a <= b
    ensures a * n <= b * n
  {}

  /** `punch_symmetric`. `failsAt` is the number of probes after which a send fails, if one does. */
  method PunchSymmetric(ports: seq<nat>, ips: seq<Ipv4Addr>, max: nat, failsAt: Option<nat>)
    returns (done: Option<nat>, sent: seq<Probe>)
    ensures done.Some? ==> done.value == Completed(|ports|, |ips|, max) && sent == Probes(ports, ips, max)
    ensures done.None? <==> failsAt.Some? && failsAt.value < |Probes(ports, ips, max)|
    ensures done.None? ==> sent == Probes(ports, ips, max)[..failsAt.value]
  {
    hide Row, AllProbes;
    var count := 0;
    sent := [];
    var index := 0;
    NoPorts(ports, ips);
    while index < |ports|
      invariant 0 <= index <= |ports|
      invariant count == index * |ips| && (|ips| > 0 && max > 0 ==> count < max)
      invariant sent == AllProbes(ports[..index], ips) && |sent| == count
      invariant failsAt.Some? ==> failsAt.value >= count
    {
      var port := ports[index];
      var j := 0;
      while j < |ips|
        invariant 0 <= j <= |ips|
        invariant count == index * |ips| + j && (|ips| > 0 && max > 0 ==> count < max)
        invariant sent == AllProbes(ports[..index], ips) + Row(port, ips)[..j] && |sent| == count
        invariant failsAt.Some? ==> failsAt.value >= count
      {
        count := count + 1;
        if count == max {
          StoppedAt(ports, ips, max, index, j);
          return Some(index), sent;
        }
        if failsAt == Some(|sent|) {
          FailsInside(ports, ips, max, index, j);
          return None, sent;
        }
        RowAt(port, ips, j);
        sent := sent + [Probe(ips[j], port)];
        j := j + 1;
      }
      OneMorePort(ports, ips, index);
      index := index + 1;
    }
    RanThrough(ports, ips, max);
    assert ports[..index] == ports;
    done := Some(|ports|);
  }

  lemma RowAt(port: nat, ips: seq<Ipv4Addr>, j: nat)
    requires j < |ips|
    ensures Row(port, ips)[..j + 1] == Row(port, ips)[..j] + [Probe(ips[j], port)]
  {}

  lemma OneMorePort(ports: seq<nat>, ips: seq<Ipv4Addr>, i: nat)
    requires i < |ports|
    ensures AllProbes(ports[..i + 1], ips) == AllProbes(ports[..i], ips) + Row(ports[i], ips)
    ensures Row(ports[i], ips)[..|ips|] == Row(ports[i], ips)
    ensures (i + 1) * |ips| == i * |ips| + |ips|
  {
    hide Row;
    assert ports[..i + 1][..i] == ports[..i];
    OneTimesMore(i, |ips|);
  }

  lemma OneTimesMore(i: nat, n: nat)
    ensures (i + 1) * n == i * n + n
  {}

  lemma NoPorts(ports: seq<nat>, ips: seq<Ipv4Addr>)
    ensures AllProbes(ports[..0], ips) == []
  {}

  lemma {:induction false} AllProbesLength(ports: seq<nat>, ips: seq<Ipv4Addr>)
    ensures |AllProbes(ports, ips)| == |ports| * |ips|
  {
    if |ports| > 0 {
      AllProbesLength(ports[..|ports| - 1], ips);
    }
  }

  lemma StoppedAt(ports: seq<nat>, ips: seq<Ipv4Addr>, max: nat, index: nat, j: nat)
    requires index < |ports| && j < |ips| && max == index * |ips| + j + 1
    ensures Completed(|ports|, |ips|, max) == index
    ensures Probes(ports, ips, max) == AllProbes(ports[..index], ips) + Row(ports[index], ips)[..j]
    ensures |Probes(ports, ips, max)| == max - 1
  {
    hide Row, AllProbes;
    DivisionIsUnique(max - 1, |ips|, index, j);
    AllProbesLength(ports[..index], ips);
  }

  lemma RanThrough(ports: seq<nat>, ips: seq<Ipv4Addr>, max: nat)
    requires |ips| > 0 && max > 0 ==> |ports| * |ips| < max
    ensures Completed(|ports|, |ips|, max) == |ports|
    ensures Probes(ports, ips, max) == AllProbes(ports, ips)
    ensures |Probes(ports, ips, max)| == |ports| * |ips|
  {
    hide Row, AllProbes;
    AllProbesLength(ports, ips);
    if |ips| > 0 && max > 0 {
      QuotientAtLeast(max - 1, |ips|, |ports|);
    }
    assert ports[..|ports|] == ports;
  }

  lemma QuotientAtLeast(a: nat, n: nat, q: nat)
    requires n > 0 && q * n <= a
    ensures a / n >= q
  {
    if a / n < q {
      QuotientAndRemainder(a, n);
      OneTimesMore(a / n, n);
      ProductGrows(a / n + 1, q, n);
    }
  }

  /** What was sent before the budget is the beginning of what the round sends. */
  lemma FailsInside(ports: seq<nat>, ips: seq<Ipv4Addr>, max: nat, index: nat, j: nat)
    requires index < |ports| && j < |ips| && (max > 0 ==> index * |ips| + j + 1 < max)
    ensures index * |ips| + j < |Probes(ports, ips, max)|
    ensures Probes(ports, ips, max)[..index * |ips| + j] == AllProbes(ports[..index], ips) + Row(ports[index], ips)[..j]
  {
    hide Row, AllProbes, Probes, Completed;
    ProbesLength(ports, ips, max);
    ProductGrows(index + 1, |ports|, |ips|);
    OneTimesMore(index, |ips|);
    AllProbesLength(ports[..index], ips);
    var d := Completed(|ports|, |ips|, max);
    CompletedIsPast(|ports|, |ips|, max, index, j);
    ProbesStart(ports, ips, max);
    var x, row := AllProbes(ports[..index], ips), Row(ports[index], ips);
    if index < d {
      AllProbesPrefix(ports, ips, index + 1, d);
      OneMorePort(ports, ips, index);
      PrefixOfPrefix(x, row, AllProbes(ports[..d], ips), Probes(ports, ips, max), j);
    } else {
      PrefixOfTail(x, row, Probes(ports, ips, max), (max - 1) % |ips|, j);
    }
  }

  /** A port that is reached is completed, or the next one, and then the probe is among its part. */
  lemma CompletedIsPast(n: nat, ips: nat, max: nat, index: nat, j: nat)
    requires index < n && j < ips && (max > 0 ==> index * ips + j + 1 < max)
    ensures index <= Completed(n, ips, max)
    ensures index == Completed(n, ips, max) ==> max > 0 && j <= (max - 1) % ips < ips
  {
    if max > 0 {
      QuotientAtLeast(max - 1, ips, index);
      QuotientAndRemainder(max - 1, ips);
      RemainderIsPart(max, ips);
    }
  }

  lemma ProbesStart(ports: seq<nat>, ips: seq<Ipv4Addr>, max: nat)
    requires |ips| > 0
    ensures var d := Completed(|ports|, |ips|, max);
            && AllProbes(ports[..d], ips) <= Probes(ports, ips, max)
            && (d < |ports| && max > 0 ==>
                  && (max - 1) % |ips| < |ips|
                  && Probes(ports, ips, max) == AllProbes(ports[..d], ips) + Row(ports[d], ips)[..(max - 1) % |ips|])
  {
    hide Row, AllProbes;
    if max > 0 {
      RemainderIsPart(max, |ips|);
    }
  }

  lemma PrefixOfPrefix(x: seq<Probe>, row: seq<Probe>, whole: seq<Probe>, probes: seq<Probe>, j: nat)
    requires x + row <= whole <= probes && j <= |row|
    ensures probes[..|x| + j] == x + row[..j]
  {
    assert (x + row)[..|x| + j] == x + row[..j];
  }

  lemma PrefixOfTail(x: seq<Probe>, row: seq<Probe>, probes: seq<Probe>, r: nat, j: nat)
    requires j <= r <= |row| && probes == x + row[..r]
    ensures probes[..|x| + j] == x + row[..j]
  {}

  lemma {:induction false} AllProbesPrefix(ports: seq<nat>, ips: seq<Ipv4Addr>, i: nat, d: nat)
    requires i <= d <= |ports|
    ensures AllProbes(ports[..i], ips) <= AllProbes(ports[..d], ips)
    decreases d
  {
    hide Row;
    if i < d {
      AllProbesPrefix(ports, ips, i, d - 1);
      assert ports[..d][..d - 1] == ports[..d - 1];
    }
  }

  lemma ProbesLength(ports: seq<nat>, ips: seq<Ipv4Addr>, max: nat)
    requires |ips| > 0
    ensures |Probes(ports, ips, max)| == if max > 0 && max - 1 < |ports| * |ips| then max - 1 else |ports| * |ips|
  {
    hide Row, AllProbes;
    var d := Completed(|ports|, |ips|, max);
    AllProbesLength(ports[..d], ips);
    if d < |ports| {
      RemainderIsPart(max, |ips|);
      QuotientAndRemainder(max - 1, |ips|);
      ProductGrows(d + 1, |ports|, |ips|);
    } else if max > 0 && max - 1 < |ports| * |ips| {
      QuotientAndRemainder(max - 1, |ips|);
      RemainderIsPart(max, |ips|);
      ProductGrows(|ports|, (max - 1) / |ips|, |ips|);
    }
  }

  lemma QuotientAndRemainder(a: nat, n: nat)
    requires n > 0
    ensures a == (a / n) * n + a % n
  {}

  /** Every completed port has been sent to every address of the round. */
  lemma CompletedPortsAreSent(ports: seq<nat>, ips: seq<Ipv4Addr>, max: nat, i: nat, j: nat)
    requires i < Completed(|ports|, |ips|, max) && j < |ips|
    ensures Probe(ips[j], ports[i]) in Probes(ports, ips, max)
  {
    hide Row;
    var d := Completed(|ports|, |ips|, max);
    AllProbesHas(ports[..d], ips, i, j);
    assert ports[..d][i] == ports[i];
  }

  lemma {:induction false} AllProbesHas(ports: seq<nat>, ips: seq<Ipv4Addr>, i: nat, j: nat)
    requires i < |ports| && j < |ips|
    ensures Probe(ips[j], ports[i]) in AllProbes(ports, ips)
  {
    if i < |ports| - 1 {
      AllProbesHas(ports[..|ports| - 1], ips, i, j);
    } else {
      assert Row(ports[i], ips)[j] == Probe(ips[j], ports[i]);
    }
  }

  lemma {:induction false} AllProbesAt(ports: seq<nat>, ips: seq<Ipv4Addr>, i: nat, j: nat)
    requires i < |ports| && j < |ips|
    ensures i * |ips| + j < |AllProbes(ports, ips)|
    ensures AllProbes(ports, ips)[i * |ips| + j] == Probe(ips[j], ports[i])
  {
    var n := |ports| - 1;
    AllProbesLength(ports, ips);
    AllProbesLength(ports[..n], ips);
    OneTimesMore(i, |ips|);
    ProductGrows(i + 1, |ports|, |ips|);
    if i < n {
      AllProbesAt(ports[..n], ips, i, j);
    }
  }

  /**
   * The order of a round: budget - 1 probes, or all of them if they are fewer; the k-th goes to address
   * k mod n, port k / n, of n addresses.
   */
  lemma ProbesInOrder(ports: seq<nat>, ips: seq<Ipv4Addr>, max: nat, k: nat)
    requires |ips| > 0 && k < |Probes(ports, ips, max)|
    ensures |Probes(ports, ips, max)| == if max > 0 && max - 1 < |ports| * |ips| then max - 1 else |ports| * |ips|
    ensures var i, j := k / |ips|, k % |ips|;
            i < |ports| && j < |ips| && Probes(ports, ips, max)[k] == Probe(ips[j], ports[i])
  {
    hide Row, AllProbes, Probes, Completed;
    var i, j := k / |ips|, k % |ips|;
    var d := Completed(|ports|, |ips|, max);
    QuotientAndRemainder(k, |ips|);
    RemainderIsPart(k + 1, |ips|);
    ProbesLength(ports, ips, max);
    ProbesStart(ports, ips, max);
    AllProbesLength(ports[..d], ips);
    if i >= |ports| {
      ProductGrows(|ports|, i, |ips|);
    }
    if i < d {
      AllProbesAt(ports[..d], ips, i, j);
    } else {
      ProductGrows(d, i, |ips|);
      BehindCompleted(ports, ips, max, d, i, k);
      RowHas(ports[d], ips, j);
    }
  }

  lemma RowHas(port: nat, ips: seq<Ipv4Addr>, j: nat)
    requires j < |ips|
    ensures Row(port, ips)[j] == Probe(ips[j], port)
  {}

  /** Behind the completed ports there is a part of the next one and nothing else. */
  lemma BehindCompleted(ports: seq<nat>, ips: seq<Ipv4Addr>, max: nat, d: nat, i: nat, k: nat)
    requires |ips| > 0 && d == Completed(|ports|, |ips|, max) && i == k / |ips| && i >= d && i < |ports|
    requires k < |Probes(ports, ips, max)|
    ensures i == d < |ports| && max > 0 && k - d * |ips| == k % |ips| < (max - 1) % |ips|
  {
    hide Row, AllProbes, Probes;
    ProbesLength(ports, ips, max);
    QuotientAndRemainder(k, |ips|);
    QuotientAndRemainder(max - 1, |ips|);
    RemainderIsPart(k + 1, |ips|);
    RemainderIsPart(max, |ips|);
    OneTimesMore(d, |ips|);
    if i > d {
      ProductGrows(d + 1, i, |ips|);
    }
  }

  // ----- rounds -----

  /** One call for a peer: its public addresses and the budget of that call, and whether all sends succeed. */
  datatype Round = Round(ips: seq<Ipv4Addr>, budget: nat, ok: bool)

  function SliceEnd(cursor: nat, budget: nat): (e: nat)
    requires cursor <= PORTS
    ensures cursor <= e <= PORTS
  {
    if cursor + budget > PORTS then PORTS else cursor + budget
  }

  function DoneIn(cursor: nat, r: Round): (d: nat)
    requires cursor < PORTS
    ensures cursor + d <= PORTS
  {
    Completed(SliceEnd(cursor, r.budget) - cursor, |r.ips|, r.budget)
  }

  function NextCursor(cursor: nat, r: Round): (c: nat)
    requires cursor < PORTS
    ensures c < PORTS
  {
    if !r.ok then cursor
    else if cursor + DoneIn(cursor, r) >= PORTS then 0
    else cursor + DoneIn(cursor, r)
  }

  function Cursor(rounds: seq<Round>, k: nat): (c: nat)
    requires k <= |rounds|
    ensures c < PORTS
  {
    if k == 0 then 0 else NextCursor(Cursor(rounds, k - 1), rounds[k - 1])
  }

  ghost predicate Scannable(rounds: seq<Round>) {
    forall k :: 0 <= k < |rounds| ==> 1 <= |rounds[k].ips| < rounds[k].budget
  }

  /** A round with fewer addresses than budget completes the whole slice or as many ports as the budget pays for, and at least one. */
  lemma RoundAdvances(cursor: nat, r: Round)
    requires cursor < PORTS && 1 <= |r.ips| < r.budget
    ensures DoneIn(cursor, r) >= 1
    ensures var n, paid := (if r.budget <= 65535 - cursor then r.budget else 65535 - cursor), (r.budget - 1) / |r.ips|;
            DoneIn(cursor, r) == if paid < n then paid else n
  {}

  /** Whether round `m` completes position `p` of the port list. */
  predicate CoversIn(rounds: seq<Round>, m: nat, p: nat)
    requires m < |rounds|
  {
    var c := Cursor(rounds, m);
    rounds[m].ok && c <= p < c + DoneIn(c, rounds[m])
  }

  /** Whether round `m` reaches the end of the port list. */
  predicate WrapsIn(rounds: seq<Round>, m: nat)
    requires m < |rounds|
  {
    var c := Cursor(rounds, m);
    rounds[m].ok && c + DoneIn(c, rounds[m]) >= PORTS
  }

  /** From a visit to cursor 0 on, everything below the cursor is covered, and after a wrap everything. */
  lemma {:induction false} CoveredSoFar(rounds: seq<Round>, i: nat, k: nat, p: nat)
    requires i <= k <= |rounds| && Cursor(rounds, i) == 0 && p < PORTS
    ensures p < Cursor(rounds, k) ==> exists m :: i <= m < k && CoversIn(rounds, m, p)
    ensures (exists m :: i <= m < k && WrapsIn(rounds, m)) ==> exists m :: i <= m < k && CoversIn(rounds, m, p)
    decreases k
  {
    if i < k {
      CoveredSoFar(rounds, i, k - 1, p);
      if WrapsIn(rounds, k - 1) || p < Cursor(rounds, k) {
        if exists m :: i <= m < k - 1 && CoversIn(rounds, m, p) {
          var m :| i <= m < k - 1 && CoversIn(rounds, m, p);
        } else {
          assert CoversIn(rounds, k - 1, p);
        }
      }
    }
  }

  /** The cursor only returns to 0 past the end. */
  lemma {:induction false} ReturnsByWrapping(rounds: seq<Round>, m: nat, k: nat)
    requires Scannable(rounds) && m < k <= |rounds| && rounds[m].ok
    ensures Cursor(rounds, k) > 0 || exists w :: m <= w < k && WrapsIn(rounds, w)
    decreases k
  {
    if k == m + 1 {
      RoundAdvances(Cursor(rounds, m), rounds[m]);
      assert Cursor(rounds, k) == NextCursor(Cursor(rounds, m), rounds[m]);
      if Cursor(rounds, k) == 0 {
        assert WrapsIn(rounds, m);
      }
    } else {
      ReturnsByWrapping(rounds, m, k - 1);
      if w :| m <= w < k - 1 && WrapsIn(rounds, w) {
        assert m <= w < k && WrapsIn(rounds, w);
      } else {
        assert Cursor(rounds, k) == NextCursor(Cursor(rounds, k - 1), rounds[k - 1]);
        assert Cursor(rounds, k - 1) > 0;
        if Cursor(rounds, k) == 0 {
          assert WrapsIn(rounds, k - 1);
        }
      }
    }
  }

  /** The list of ports: a permutation of all of them. */
  ghost predicate AllPorts(portVec: seq<nat>) {
    && |portVec| == PORTS
    && forall port :: 1 <= port <= PORTS ==> port in portVec
  }

  /** What round `m` sends, if no send fails. */
  function SentIn(portVec: seq<nat>, rounds: seq<Round>, m: nat): seq<Probe>
    requires |portVec| == PORTS && m < |rounds|
  {
    var c := Cursor(rounds, m);
    Probes(portVec[c..SliceEnd(c, rounds[m].budget)], rounds[m].ips, rounds[m].budget)
  }

  /**
   * Between two visits to cursor 0 with a successful round in between, budgets and addresses
   * changing as they like and failed rounds anywhere, every port is sent to all addresses of
   * the round that completes it, and none is skipped.
   */
  lemma EveryPortIsTried(portVec: seq<nat>, rounds: seq<Round>, i: nat, j: nat, port: nat)
    requires AllPorts(portVec) && Scannable(rounds) && i < j <= |rounds|
    requires Cursor(rounds, i) == 0 && Cursor(rounds, j) == 0
    requires exists m :: i <= m < j && rounds[m].ok
    requires 1 <= port <= PORTS
    ensures exists m :: i <= m < j && rounds[m].ok
              && forall a :: 0 <= a < |rounds[m].ips| ==> Probe(rounds[m].ips[a], port) in SentIn(portVec, rounds, m)
  {
    hide AllProbes, Probes, Completed, Cursor, NextCursor, WrapsIn;
    var first :| i <= first < j && rounds[first].ok;
    ReturnsByWrapping(rounds, first, j);
    var w :| first <= w < j && WrapsIn(rounds, w);
    assert port in portVec;
    var p :| 0 <= p < PORTS && portVec[p] == port;
    CoveredSoFar(rounds, i, j, p);
    var m :| i <= m < j && CoversIn(rounds, m, p);
    forall a | 0 <= a < |rounds[m].ips| ensures Probe(rounds[m].ips[a], port) in SentIn(portVec, rounds, m) {
      var c := Cursor(rounds, m);
      var slice := portVec[c..SliceEnd(c, rounds[m].budget)];
      CompletedPortsAreSent(slice, rounds[m].ips, rounds[m].budget, p - c, a);
      assert slice[p - c] == port;
    }
  }

  /** And there is such a return: as long as rounds succeed, within as many rounds as there are ports. */
  lemma {:induction false} CursorReturns(rounds: seq<Round>, i: nat, n: nat)
    requires Scannable(rounds) && i + n <= |rounds|
    requires forall k :: i <= k < i + n ==> rounds[k].ok
    ensures Cursor(rounds, i + n) >= Cursor(rounds, i) + n || exists w :: i <= w < i + n && WrapsIn(rounds, w)
    ensures n >= PORTS ==> exists w :: i <= w < i + n && WrapsIn(rounds, w) && Cursor(rounds, w + 1) == 0
    decreases n
  {
    if n > 0 {
      CursorReturns(rounds, i, n - 1);
      if exists w :: i <= w < i + n - 1 && WrapsIn(rounds, w) {
        var w :| i <= w < i + n - 1 && WrapsIn(rounds, w);
        assert Cursor(rounds, w + 1) == 0;
      } else {
        RoundAdvances(Cursor(rounds, i + n - 1), rounds[i + n - 1]);
        if Cursor(rounds, i + n - 1) + DoneIn(Cursor(rounds, i + n - 1), rounds[i + n - 1]) >= PORTS {
          assert WrapsIn(rounds, i + n - 1) && Cursor(rounds, i + n - 1 + 1) == 0;
        }
      }
    }
  }

  // ----- the object -----

  class Puncher {
    const portVec: seq<nat>
    var portIndex: map<Ipv4Addr, nat>
    /** The rounds each peer has had. */
    ghost var rounds: map<Ipv4Addr, seq<Round>>

    ghost predicate Valid()
      reads this
    {
      && AllPorts(portVec)
      && portIndex.Keys == rounds.Keys
      && forall id :: id in rounds ==> portIndex[id] == Cursor(rounds[id], |rounds[id]|)
    }

    /** `Punch::new`, with the shuffled list of all ports. */
    constructor (shuffled: seq<nat>)
      requires AllPorts(shuffled)
      ensures Valid() && portVec == shuffled && portIndex == map[]
    {
      portVec := shuffled;
      portIndex := map[];
      rounds := map[];
    }

    ghost function RoundsOf(id: Ipv4Addr): seq<Round>
      reads this
    {
      if id in rounds then rounds[id] else []
    }

    /** One scan from a cursor: what it sends, and the cursor it leaves. */
    method Scan(start: nat, ips: seq<Ipv4Addr>, budget: nat, failsAt: Option<nat>)
      returns (ok: bool, sent: seq<Probe>, index: nat)
      requires AllPorts(portVec) && start < PORTS
      ensures index == NextCursor(start, Round(ips, budget, ok))
      ensures |portVec| == PORTS
      ensures var probes := Probes(portVec[start..SliceEnd(start, budget)], ips, budget);
              && (ok <==> failsAt.None? || failsAt.value >= |probes|)
              && sent == if ok then probes else probes[..failsAt.value]
    {
      hide Probes, Completed, AllPorts, SliceEnd, NextCursor, DoneIn;
      LengthOfAll(portVec);
      var end := start + budget;
      if end > |portVec| {
        end := |portVec|;
      }
      EndOfSlice(start, budget);
      var done;
      done, sent := PunchSymmetric(portVec[start..end], ips, budget, failsAt);
      ok := done.Some?;
      NextIs(start, Round(ips, budget, ok));
      if !ok {
        return ok, sent, start;
      }
      index := start + done.value;
      if index >= |portVec| {
        index := 0;
      }
    }

    /**
     * The symmetric branch of `punch` behind the predicted window, whose own failure ends the
     * call before this part.
     */
    method SymmetricRound(id: Ipv4Addr, ips: seq<Ipv4Addr>, budget: nat, failsAt: Option<nat>)
      returns (ok: bool, sent: seq<Probe>)
      requires Valid()
      modifies this
      ensures Valid() && RoundsOf(id) == old(RoundsOf(id)) + [Round(ips, budget, ok)]
      ensures forall other :: other != id ==> RoundsOf(other) == old(RoundsOf(other))
      ensures |portVec| == PORTS
      ensures var probes := SentIn(portVec, RoundsOf(id), |RoundsOf(id)| - 1);
              && (ok <==> failsAt.None? || failsAt.value >= |probes|)
              && sent == if ok then probes else probes[..failsAt.value]
      ensures id in portIndex && portIndex[id] < PORTS
    {
      hide Probes, AllPorts, SliceEnd, Cursor, NextCursor, SentIn;
      if id !in portIndex {
        portIndex := portIndex[id := 0];
        rounds := rounds[id := []];
        FirstCursor();
      }
      var start := portIndex[id];
      var index;
      ok, sent, index := Scan(start, ips, budget, failsAt);
      ghost var before, r := rounds[id], Round(ips, budget, ok);
      OneMoreRound(before, r);
      SentIs(portVec, before + [r], |before|);
      rounds := rounds[id := before + [r]];
      portIndex := portIndex[id := index];
    }
  }

  lemma NextIs(start: nat, r: Round)
    requires start < PORTS
    ensures var done := Completed(SliceEnd(start, r.budget) - start, |r.ips|, r.budget);
            NextCursor(start, r) == if !r.ok then start else if start + done >= PORTS then 0 else start + done
  {}

  lemma SentIs(portVec: seq<nat>, rounds: seq<Round>, m: nat)
    requires |portVec| == PORTS && m < |rounds|
    ensures var c := Cursor(rounds, m);
            SentIn(portVec, rounds, m)
            == Probes(portVec[c..SliceEnd(c, rounds[m].budget)], rounds[m].ips, rounds[m].budget)
  {}

  lemma FirstCursor()
    ensures Cursor([], 0) == 0
  {}

  lemma LengthOfAll(portVec: seq<nat>)
    requires AllPorts(portVec)
    ensures |portVec| == PORTS
  {}

  lemma EndOfSlice(start: nat, budget: nat)
    requires start <= PORTS
    ensures SliceEnd(start, budget) == if start + budget > PORTS then PORTS else start + budget
  {}

  lemma OneMoreRound(rounds: seq<Round>, r: Round)
    ensures Cursor(rounds + [r], |rounds|) == Cursor(rounds, |rounds|)
    ensures Cursor(rounds + [r], |rounds| + 1) == NextCursor(Cursor(rounds, |rounds|), r)
  {
    CursorOfPrefix(rounds, r, |rounds|);
  }

  lemma {:induction false} CursorOfPrefix(rounds: seq<Round>, r: Round, k: nat)
    requires k <= |rounds|
    ensures Cursor(rounds + [r], k) == Cursor(rounds, k)
  {
    if k > 0 {
      CursorOfPrefix(rounds, r, k - 1);
    }
  }
}
