/** Routes to networks behind other clients: a list sorted by network address, searched for its first match. */
module ExternalRoute {
  import opened Bytes
  import opened Sorting

  // ----- 32-bit words, bit by bit -----

  /** A `u32` as its bits, the highest first. */
  type Word = w: seq<bool> | |w| == 32 witness seq(32, _ => false)

  function And(a: seq<bool>, b: seq<bool>): (r: seq<bool>)
    requires |a| == |b|
    ensures |r| == |a| && forall i :: 0 <= i < |a| ==> r[i] == (a[i] && b[i])
  {
    seq(|a|, i requires 0 <= i < |a| => a[i] && b[i])
  }

  /** Unsigned order: the first bit that differs decides. */
  predicate AtMost(a: seq<bool>, b: seq<bool>)
    requires |a| == |b|
  {
    |a| == 0 || (!a[0] && b[0]) || (a[0] == b[0] && AtMost(a[1..], b[1..]))
  }

  lemma {:induction false} AtMostIsOrder(a: seq<bool>, b: seq<bool>, c: seq<bool>)
    requires |a| == |b| == |c|
    ensures AtMost(a, b) || AtMost(b, a)
    ensures AtMost(a, b) && AtMost(b, a) ==> a == b
    ensures AtMost(a, b) && AtMost(b, c) ==> AtMost(a, c)
  {
    if |a| > 0 {
      AtMostIsOrder(a[1..], b[1..], c[1..]);
      assert a == [a[0]] + a[1..] && b == [b[0]] + b[1..];
    }
  }

  /** Fewer ones at the same places is less. */
  lemma {:induction false} SubsetIsAtMost(a: seq<bool>, b: seq<bool>)
    requires |a| == |b| && forall i :: 0 <= i < |a| ==> a[i] ==> b[i]
    ensures AtMost(a, b)
  {
    if |a| > 0 {
      SubsetIsAtMost(a[1..], b[1..]);
    }
  }

  // ----- masks -----

  /** The netmask of `m` leading ones. */
  function PrefixMask(m: nat): (mask: Word) {
    seq(32, i => i < m)
  }

  /** How many ones a word starts with. */
  function PrefixLen(mask: seq<bool>): (m: nat)
    ensures m <= |mask|
  {
    if |mask| == 0 || !mask[0] then 0 else 1 + PrefixLen(mask[1..])
  }

  predicate Contiguous(mask: Word) {
    mask == PrefixMask(PrefixLen(mask))
  }

  lemma {:induction false} PrefixLenIs(mask: seq<bool>, m: nat)
    requires m <= |mask| && (forall i :: 0 <= i < |mask| ==> mask[i] == (i < m))
    ensures PrefixLen(mask) == m
  {
    if m > 0 {
      PrefixLenIs(mask[1..], m - 1);
    }
  }

  function DecimalOf(digits: string): Option<nat> {
    if |digits| == 0 then Some(0)
    else
      var rest, last := DecimalOf(digits[..|digits| - 1]), digits[|digits| - 1];
      if rest.None? || !('0' <= last <= '9') then None else Some(10 * rest.value + (last as nat - '0' as nat))
  }

  /** `parse::<u32>`: digits, perhaps behind a plus sign, of a number of 32 bits. */
  function ParseU32(text: string): Option<nat> {
    var digits := if |text| > 0 && text[0] == '+' then text[1..] else text;
    var n := DecimalOf(digits);
    if |digits| == 0 || n.None? || n.value >= 0x1_0000_0000 then None else n
  }

  /** The decimal digits of a number. */
  function Digits(n: nat): (s: string)
    ensures |s| > 0 && forall c :: c in s ==> '0' <= c <= '9'
  {
    (if n < 10 then [] else Digits(n / 10)) + [('0' as nat + n % 10) as char]
  }

  lemma {:induction false} DecimalOfDigits(n: nat)
    ensures DecimalOf(Digits(n)) == Some(n)
    decreases n
  {
    var s := Digits(n);
    if n < 10 {
      assert s[..|s| - 1] == [];
      assert DecimalOf([]) == Some(0);
    } else {
      DecimalOfDigits(n / 10);
      assert s[..|s| - 1] == Digits(n / 10);
    }
  }

  /** Leading zeros change nothing. */
  lemma {:induction false} LeadingZero(s: string)
    ensures DecimalOf("0" + s) == DecimalOf(s)
  {
    if |s| == 0 {
      assert "0" + s == "0" && "0"[..0] == [];
      assert DecimalOf([]) == Some(0);
    } else {
      LeadingZero(s[..|s| - 1]);
      assert ("0" + s)[..|s|] == "0" + s[..|s| - 1];
    }
  }

  lemma {:induction false} OnlyDigits(s: string, i: nat)
    requires i < |s| && !('0' <= s[i] <= '9')
    ensures DecimalOf(s) == None
  {
    if i < |s| - 1 {
      OnlyDigits(s[..|s| - 1], i);
    }
  }

  /** Every number of 32 bits is read back from its digits, with or without a plus sign; greater ones are refused. */
  lemma ParseOfDigits(n: nat)
    ensures ParseU32(Digits(n)) == ParseU32("+" + Digits(n)) == if n < 0x1_0000_0000 then Some(n) else None
  {
    DecimalOfDigits(n);
    assert Digits(n)[0] in Digits(n);
    assert ("+" + Digits(n))[1..] == Digits(n);
  }

  /** And texts without digits, or with anything but digits behind the sign. */
  lemma ParseRefuses(text: string, i: nat)
    requires text == "" || text == "+" || (i < |text| && !('0' <= text[i] <= '9') && !(i == 0 && text[i] == '+'))
    ensures ParseU32(text) == None
  {
    if i < |text| && text != "+" {
      if text[0] == '+' {
        OnlyDigits(text[1..], i - 1);
      } else {
        OnlyDigits(text, i);
      }
    }
  }

  /** `to_ip`: the text of a prefix length to its mask; the loop sets one bit a time. */
  method ToIp(text: string) returns (mask: Option<Word>)
    ensures mask.None? <==> ParseU32(text).None? || ParseU32(text).value > 32
    ensures mask.Some? ==> mask.value == PrefixMask(ParseU32(text).value)
    ensures mask.Some? ==> Contiguous(mask.value) && PrefixLen(mask.value) == ParseU32(text).value
  {
    hide ParseU32;
    var parsed := ParseU32(text);
    if parsed.None? || parsed.value > 32 {
      return None;
    }
    var bits: Word := seq(32, _ => false);
    for i := 0 to parsed.value
      invariant bits == PrefixMask(i)
    {
      // bit 31 - i, counted from the lowest
      bits := bits[i := true];
    }
    PrefixLenIs(bits, parsed.value);
    mask := Some(bits);
  }

  // ----- the table -----

  datatype Entry = Entry(dest: Word, mask: Word, gateway: Ipv4Addr)

  predicate Matches(e: Entry, ip: Word) {
    And(e.mask, ip) == And(e.mask, e.dest)
  }

  /** With a prefix mask, an address matches exactly if it agrees with the entry's on the whole prefix. */
  lemma MatchesExactly(e: Entry, ip: Word)
    requires Contiguous(e.mask)
    ensures Matches(e, ip) <==> forall i :: 0 <= i < PrefixLen(e.mask) ==> ip[i] == e.dest[i]
  {
    hide PrefixLen;
    var a, d, m := And(e.mask, ip), And(e.mask, e.dest), PrefixLen(e.mask);
    assert forall i :: 0 <= i < 32 ==> e.mask[i] == PrefixMask(m)[i];
    if a == d {
      forall i | 0 <= i < m ensures ip[i] == e.dest[i] {
        assert a[i] == d[i];
      }
    }
  }

  function Masked(e: Entry): Entry {
    e.(dest := And(e.mask, e.dest))
  }

  function AllMasked(raw: seq<Entry>): (r: seq<Entry>)
    ensures |r| == |raw|
    ensures forall i :: 0 <= i < |raw| ==> r[i] == Masked(raw[i])
  {
    seq(|raw|, i requires 0 <= i < |raw| => Masked(raw[i]))
  }

  /** Greater network addresses first. */
  predicate Before(a: Entry, b: Entry) {
    AtMost(b.dest, a.dest)
  }

  function Table(raw: seq<Entry>): seq<Entry> {
    SortBy(AllMasked(raw), Before)
  }

  function FirstMatch(table: seq<Entry>, ip: Word): (r: Option<Entry>)
    ensures r.Some? ==> r.value in table && Matches(r.value, ip)
    ensures r.None? <==> forall e :: e in table ==> !Matches(e, ip)
  {
    if |table| == 0 then None
    else if Matches(table[0], ip) then Some(table[0])
    else
      assert table == [table[0]] + table[1..];
      FirstMatch(table[1..], ip)
  }

  /** The reference: a matching entry no other matching entry has a longer mask than. */
  ghost predicate LongestMatch(table: seq<Entry>, ip: Word, e: Entry) {
    e in table && Matches(e, ip) && forall f :: f in table && Matches(f, ip) ==> PrefixLen(f.mask) <= PrefixLen(e.mask)
  }

  lemma MaskedMatchesAlike(e: Entry, ip: Word)
    ensures Matches(Masked(e), ip) <==> Matches(e, ip)
    ensures Matches(Masked(e), ip) ==> Masked(e).dest == And(e.mask, ip)
  {}

  lemma TableElements(raw: seq<Entry>)
    ensures forall e :: e in Table(raw) <==> e in AllMasked(raw)
    ensures forall e :: e in AllMasked(raw) ==> exists r :: r in raw && e == Masked(r)
    ensures forall r :: r in raw ==> Masked(r) in AllMasked(raw)
  {
    SortByKeepsElements(AllMasked(raw), Before);
    forall e | e in AllMasked(raw) ensures exists r :: r in raw && e == Masked(r) {
      var i :| 0 <= i < |raw| && AllMasked(raw)[i] == e;
      assert raw[i] in raw;
    }
    forall r | r in raw ensures Masked(r) in AllMasked(raw) {
      var i :| 0 <= i < |raw| && raw[i] == r;
      assert AllMasked(raw)[i] == Masked(r);
    }
  }

  /** `None` exactly when nothing in the list as it was given matches. */
  lemma NoneExactlyWhenNothingMatches(raw: seq<Entry>, ip: Word)
    ensures FirstMatch(Table(raw), ip).None? <==> forall e :: e in raw ==> !Matches(e, ip)
  {
    TableElements(raw);
    forall e | e in raw ensures Matches(Masked(e), ip) <==> Matches(e, ip) {
      MaskedMatchesAlike(e, ip);
    }
    forall e | e in Table(raw) && Matches(e, ip) ensures exists r :: r in raw && Matches(r, ip) {
      var r :| r in raw && e == Masked(r);
      MaskedMatchesAlike(r, ip);
    }
  }

  lemma BeforeIsComparison()
    ensures Comparison(Before)
  {
    forall x: Entry, y: Entry ensures Before(x, y) || Before(y, x) {
      AtMostIsOrder(x.dest, y.dest, x.dest);
    }
    forall x: Entry, y: Entry, z: Entry | Before(x, y) && Before(y, z) ensures Before(x, z) {
      AtMostIsOrder(z.dest, y.dest, x.dest);
    }
  }

  /** Among prefix masks, the longer one leaves the greater network address. */
  lemma LongerIsGreater(short: Word, long: Word, ip: Word)
    requires PrefixLen(short) <= PrefixLen(long) && Contiguous(short) && Contiguous(long)
    ensures AtMost(And(short, ip), And(long, ip))
  {
    var m, n := PrefixLen(short), PrefixLen(long);
    assert forall i :: 0 <= i < 32 ==> short[i] == PrefixMask(m)[i] && long[i] == PrefixMask(n)[i];
    SubsetIsAtMost(And(short, ip), And(long, ip));
  }

  ghost predicate PrefixTable(raw: seq<Entry>) {
    forall e :: e in raw ==> Contiguous(e.mask)
  }

  lemma {:induction false} FirstMatchIsFirst(table: seq<Entry>, ip: Word, e: Entry)
    requires SortedBy(table, Before) && e in table && Matches(e, ip)
    ensures FirstMatch(table, ip).Some? && AtMost(e.dest, FirstMatch(table, ip).value.dest)
  {
    hide Matches, AtMost;
    if FirstMatch(table, ip) == Some(table[0]) {
      var i :| 0 <= i < |table| && table[i] == e;
      AtMostIsOrder(e.dest, e.dest, e.dest);
      assert i > 0 ==> Before(table[0], table[i]);
    } else {
      assert table == [table[0]] + table[1..];
      FirstMatchIsFirst(table[1..], ip, e);
    }
  }

  /** Every entry of the table carries its own network address. */
  lemma TableIsMasked(raw: seq<Entry>, ip: Word, e: Entry)
    requires PrefixTable(raw) && e in Table(raw) && Matches(e, ip)
    ensures e.dest == And(e.mask, ip) && Contiguous(e.mask)
  {
    TableElements(raw);
    var r :| r in raw && e == Masked(r);
    MaskedMatchesAlike(r, ip);
  }

  /** The first match lies in the same network as every longest match. */
  lemma FirstMatchHasLongestNetwork(raw: seq<Entry>, ip: Word, l: Entry)
    requires PrefixTable(raw) && LongestMatch(Table(raw), ip, l)
    ensures FirstMatch(Table(raw), ip).Some? && FirstMatch(Table(raw), ip).value.dest == l.dest
  {
    hide Matches, Contiguous, AtMost;
    BeforeIsComparison();
    SortByIsStableSort(AllMasked(raw), Before);
    FirstMatchIsFirst(Table(raw), ip, l);
    var e := FirstMatch(Table(raw), ip).value;
    TableIsMasked(raw, ip, e);
    TableIsMasked(raw, ip, l);
    LongerIsGreater(e.mask, l.mask, ip);
    AtMostIsOrder(e.dest, l.dest, e.dest);
  }

  /** Where matching entries have distinct network addresses, the first match is the longest. */
  lemma DistinctNetworksGiveLongest(raw: seq<Entry>, ip: Word, l: Entry)
    requires PrefixTable(raw) && LongestMatch(Table(raw), ip, l)
    requires forall e, f :: e in Table(raw) && f in Table(raw) && Matches(e, ip) && Matches(f, ip) && e.dest == f.dest ==> e == f
    ensures FirstMatch(Table(raw), ip) == Some(l)
  {
    hide Matches, Contiguous, Table, AtMost;
    FirstMatchHasLongestNetwork(raw, ip, l);
  }

  /** A longest match exists whenever anything matches. */
  lemma {:induction false} LongestMatchExists(table: seq<Entry>, ip: Word) returns (l: Entry)
    requires exists e :: e in table && Matches(e, ip)
    ensures LongestMatch(table, ip, l)
  {
    hide Matches;
    assert table == [table[0]] + table[1..];
    if exists e :: e in table[1..] && Matches(e, ip) {
      l := LongestMatchExists(table[1..], ip);
      if Matches(table[0], ip) && PrefixLen(l.mask) <= PrefixLen(table[0].mask) {
        l := table[0];
      }
    } else {
      l := table[0];
    }
  }

  // ----- equal network addresses -----

  lemma {:induction false} FirstMatchAmongAlike(table: seq<Entry>, ip: Word, x: Entry)
    requires FirstMatch(table, ip).Some? && FirstMatch(table, ip).value.dest == x.dest
    ensures FirstMatch(Alike(table, Before, x), ip) == FirstMatch(table, ip)
  {
    hide Matches, AtMost, FirstMatch;
    if |table| == 0 {
      NoMatchInNothing(ip);
    }
    var rest, last := table[..|table| - 1], table[|table| - 1];
    assert table == rest + [last];
    FirstMatchOfExtended(rest, last, ip);
    FirstMatchOfExtended(Alike(rest, Before, x), last, ip);
    AtMostIsOrder(x.dest, last.dest, x.dest);
    if FirstMatch(rest, ip).Some? {
      FirstMatchAmongAlike(rest, ip, x);
    } else {
      AlikeElements(rest, x);
      assert Before(x, last) && Before(last, x);
    }
    assert Alike(rest, Before, x) + [] == Alike(rest, Before, x);
  }

  lemma NoMatchInNothing(ip: Word)
    ensures FirstMatch([], ip) == None
  {}

  lemma {:induction false} FirstMatchOfExtended(table: seq<Entry>, e: Entry, ip: Word)
    ensures FirstMatch(table + [e], ip) ==
            if FirstMatch(table, ip).Some? then FirstMatch(table, ip) else if Matches(e, ip) then Some(e) else None
  {
    hide Matches;
    if |table| > 0 {
      FirstMatchOfExtended(table[1..], e, ip);
      assert (table + [e])[1..] == table[1..] + [e];
    }
  }

  lemma {:induction false} AlikeElements(table: seq<Entry>, x: Entry)
    ensures forall e :: e in Alike(table, Before, x) ==> e in table
  {
    if |table| > 0 {
      AlikeElements(table[..|table| - 1], x);
    }
  }

  /**
   * Where they have not, the answer is the first in the order they were given: the first match
   * is a longest one exactly if, of all entries with the longest match's network address, the
   * first listed that matches already has the longest mask.
   */
  lemma TiesGoToFirstListed(raw: seq<Entry>, ip: Word, l: Entry)
    requires PrefixTable(raw) && LongestMatch(Table(raw), ip, l)
    ensures var listed := FirstMatch(Alike(AllMasked(raw), Before, l), ip);
            && FirstMatch(Table(raw), ip) == listed && listed.Some?
            && (LongestMatch(Table(raw), ip, FirstMatch(Table(raw), ip).value) <==> PrefixLen(listed.value.mask) == PrefixLen(l.mask))
  {
    hide Matches, Contiguous, AtMost;
    FirstMatchHasLongestNetwork(raw, ip, l);
    FirstMatchAmongAlike(Table(raw), ip, l);
    BeforeIsComparison();
    SortByIsStableSort(AllMasked(raw), Before);
  }

  /** So a shorter prefix listed before a longer one with the same address hides it. */
  lemma ShorterListedFirstWins(dest: Word, short: Word, long: Word, wide: Ipv4Addr, narrow: Ipv4Addr)
    requires PrefixLen(short) < PrefixLen(long) && Contiguous(short) && Contiguous(long)
    requires forall i :: PrefixLen(short) <= i < 32 ==> !dest[i]
    ensures var raw := [Entry(dest, short, wide), Entry(dest, long, narrow)];
            && FirstMatch(Table(raw), dest) == Some(raw[0])
            && LongestMatch(Table(raw), dest, raw[1]) && !LongestMatch(Table(raw), dest, raw[0])
  {
    hide PrefixLen, AtMost;
    var raw := [Entry(dest, short, wide), Entry(dest, long, narrow)];
    assert And(short, dest) == dest && And(long, dest) == dest by {
      var m, n := PrefixLen(short), PrefixLen(long);
      assert forall i :: 0 <= i < 32 ==> short[i] == PrefixMask(m)[i] && long[i] == PrefixMask(n)[i];
    }
    assert AllMasked(raw) == raw;
    AtMostIsOrder(dest, dest, dest);
    SortByOfSorted(raw, Before);
    assert raw[0] in raw && raw[1] in raw;
  }

  // ----- the objects -----

  class ExternalRoutes {
    const routeTable: seq<Entry>
    ghost const raw: seq<Entry>

    ghost predicate Valid() {
      routeTable == Table(raw)
    }

    /** `ExternalRoute::new`: masks in place, then sorts. */
    constructor (given: seq<Entry>)
      ensures Valid() && raw == given
    {
      var table := given;
      var i := 0;
      while i < |table|
        invariant 0 <= i <= |table| == |given|
        invariant forall j :: 0 <= j < |table| ==> table[j] == if j < i then Masked(given[j]) else given[j]
      {
        table := table[i := table[i].(dest := And(table[i].mask, table[i].dest))];
        i := i + 1;
      }
      assert table == AllMasked(given);
      routeTable := SortBy(table, Before);
      raw := given;
    }

    method Route(ip: Word) returns (gateway: Option<Ipv4Addr>)
      requires Valid()
      ensures gateway == match FirstMatch(routeTable, ip) case None => None case Some(e) => Some(e.gateway)
      ensures gateway.None? <==> forall e :: e in raw ==> !Matches(e, ip)
    {
      NoneExactlyWhenNothingMatches(raw, ip);
      hide Matches, Table;
      for i := 0 to |routeTable|
        invariant FirstMatch(routeTable, ip) == FirstMatch(routeTable[i..], ip)
      {
        assert routeTable[i..][1..] == routeTable[i + 1..];
        if And(routeTable[i].mask, ip) == routeTable[i].dest {
          StoredIsMasked(raw, routeTable, i, ip);
          return Some(routeTable[i].gateway);
        }
        StoredIsMasked(raw, routeTable, i, ip);
      }
      return None;
    }
  }

  /** The source compares with the stored address, which is already masked. */
  lemma StoredIsMasked(raw: seq<Entry>, table: seq<Entry>, i: nat, ip: Word)
    requires table == Table(raw) && i < |table|
    ensures And(table[i].mask, ip) == table[i].dest <==> Matches(table[i], ip)
  {
    TableElements(raw);
    assert table[i] in Table(raw);
    var r :| r in raw && table[i] == Masked(r);
    assert And(r.mask, And(r.mask, r.dest)) == And(r.mask, r.dest);
  }

  /** `AllowExternalRoute::allow`: whether anything in the list matches. */
  method Allow(routeTable: seq<Entry>, ip: Word) returns (ok: bool)
    ensures ok <==> exists e :: e in routeTable && Matches(e, ip)
  {
    for i := 0 to |routeTable|
      invariant forall j :: 0 <= j < i ==> !Matches(routeTable[j], ip)
    {
      if And(routeTable[i].mask, ip) == And(routeTable[i].mask, routeTable[i].dest) {
        assert routeTable[i] in routeTable;
        return true;
      }
    }
    return false;
  }
}
