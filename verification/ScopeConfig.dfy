/** Building the pool of a scope: `ip_reserved` and `ip_assigned`. */
module ScopeConfig {
  import opened Basics
  import opened Address
  import opened Pool
  import opened PoolRuns

  /** One comma-separated part of `ip_reserved`, after parsing. */
  datatype Part = Unparsed | One(ip: u32) | Span(first: u32, last: u32)

  /** Every span ascends; a descending one would make the source count through all addresses. */
  predicate Ascending(parts: seq<Part>) {
    forall k :: 0 <= k < |parts| && parts[k].Span? ==> parts[k].first <= parts[k].last
  }

  predicate Covers(part: Part, a: u32) {
    match part
    case Unparsed => false
    case One(ip) => a == ip
    case Span(first, last) => first <= a <= last
  }

  function SpanList(first: int, last: u32): (r: seq<Option<u32>>)
    requires 0 <= first <= last + 1
    decreases last + 1 - first
  {
    if first > last then [] else [Some(first as u32)] + SpanList(first + 1, last)
  }

  function PartList(part: Part): seq<Option<u32>>
    requires part.Span? ==> part.first <= part.last
  {
    match part
    case Unparsed => [None]
    case One(ip) => [Some(ip)]
    case Span(first, last) => SpanList(first, last)
  }

  function Expand(parts: seq<Part>): seq<Option<u32>>
    requires Ascending(parts)
  {
    if parts == [] then []
    else Expand(parts[..|parts| - 1]) + PartList(parts[|parts| - 1])
  }

  lemma {:induction false} SpanListMembers(first: int, last: u32, a: u32)
    requires 0 <= first <= last + 1
    ensures Some(a) in SpanList(first, last) <==> first <= a <= last
    decreases last + 1 - first
  {
    if first <= last {
      SpanListMembers(first + 1, last, a);
    }
  }

  lemma PartListMembers(part: Part, a: u32)
    requires part.Span? ==> part.first <= part.last
    ensures Some(a) in PartList(part) <==> Covers(part, a)
  {
    if part.Span? {
      SpanListMembers(part.first, part.last, a);
    }
  }

  /** Some part covers the address. */
  ghost predicate Reserved(parts: seq<Part>, a: u32) {
    exists k :: 0 <= k < |parts| && Covers(parts[k], a)
  }

  lemma ReservedSnoc(parts: seq<Part>, part: Part, a: u32)
    ensures Reserved(parts + [part], a) <==> Reserved(parts, a) || Covers(part, a)
  {
    var all := parts + [part];
    if Reserved(parts, a) {
      var k :| 0 <= k < |parts| && Covers(parts[k], a);
      assert Covers(all[k], a);
    }
    if Covers(part, a) {
      assert Covers(all[|parts|], a);
    }
  }

  /** The expansion lists exactly the addresses some part covers. */
  lemma {:induction false} ExpandMembers(parts: seq<Part>, a: u32)
    requires Ascending(parts)
    ensures Some(a) in Expand(parts) <==> Reserved(parts, a)
  {
    if parts != [] {
      var n := |parts| - 1;
      ExpandMembers(parts[..n], a);
      PartListMembers(parts[n], a);
      assert parts == parts[..n] + [parts[n]];
      ReservedSnoc(parts[..n], parts[n], a);
    }
  }

  lemma {:induction false} SpanListSnoc(first: int, n: u32)
    requires 0 <= first <= n
    ensures SpanList(first, n) == (if first == n then [] else SpanList(first, n - 1)) + [Some(n)]
    decreases n - first
  {
    if first < n {
      SpanListSnoc(first + 1, n);
    }
  }

  lemma {:induction false} SpanListAt(first: int, last: u32, k: nat)
    requires 0 <= first <= last + 1
    ensures |SpanList(first, last)| == last + 1 - first
    ensures first + k <= last ==> SpanList(first, last)[k] == Some(first + k)
    decreases last + 1 - first
  {
    if first <= last {
      SpanListAt(first + 1, last, if k == 0 then 0 else k - 1);
    }
  }

  /** How many list entries a part has: one for an address or an unreadable part, one for each address of a span. */
  function PartSize(part: Part): int {
    if part.Span? then part.last - part.first + 1 else 1
  }

  function Sizes(parts: seq<Part>): int {
    if parts == [] then 0 else Sizes(parts[..|parts| - 1]) + PartSize(parts[|parts| - 1])
  }

  /** Entry k of a part. */
  function EntryAt(part: Part, k: nat): Option<u32>
    requires k < PartSize(part)
  {
    match part
    case Unparsed => None
    case One(ip) => Some(ip)
    case Span(first, last) => Some(first + k)
  }

  lemma PartListAt(part: Part, k: nat)
    requires part.Span? ==> part.first <= part.last
    ensures |PartList(part)| == PartSize(part)
    ensures k < PartSize(part) ==> PartList(part)[k] == EntryAt(part, k)
  {
    if part.Span? {
      SpanListAt(part.first, part.last, k);
    }
  }

  lemma ExpandLast(parts: seq<Part>, k: nat)
    requires parts != [] && Ascending(parts) && k < PartSize(parts[|parts| - 1])
    ensures var x := Sizes(parts[..|parts| - 1]) + k;
            0 <= x < |Expand(parts)| && Expand(parts)[x] == EntryAt(parts[|parts| - 1], k)
  {
    ExpandSize(parts[..|parts| - 1]);
    PartListAt(parts[|parts| - 1], k);
  }

  lemma ExpandEarlier(parts: seq<Part>, x: nat)
    requires parts != [] && Ascending(parts) && x < |Expand(parts[..|parts| - 1])|
    ensures x < |Expand(parts)| && Expand(parts)[x] == Expand(parts[..|parts| - 1])[x]
  {
  }

  /** Entry k of part n stands after the entries of the parts before. */
  lemma {:induction false} ExpandAt(parts: seq<Part>, n: nat, k: nat)
    requires Ascending(parts) && n < |parts| && k < PartSize(parts[n])
    ensures var x := Sizes(parts[..n]) + k; 0 <= x < |Expand(parts)| && Expand(parts)[x] == EntryAt(parts[n], k)
  {
    var l := |parts| - 1;
    if n < l {
      ExpandAt(parts[..l], n, k);
      assert parts[..l][..n] == parts[..n];
      ExpandEarlier(parts, Sizes(parts[..n]) + k);
    } else {
      ExpandLast(parts, k);
    }
  }

  lemma {:induction false} ExpandSize(parts: seq<Part>)
    requires Ascending(parts)
    ensures |Expand(parts)| == Sizes(parts)
  {
    if parts != [] {
      ExpandSize(parts[..|parts| - 1]);
      PartListAt(parts[|parts| - 1], 0);
    }
  }

  /** The list of all addresses and its length. */
  method IPsFromRange(parts: seq<Part>) returns (iplist: seq<Option<u32>>, count: nat)
    requires Ascending(parts)
    ensures iplist == Expand(parts)
    ensures count == |iplist| == Sizes(parts)
  {
    iplist := [];
    for k := 0 to |parts|
      invariant iplist == Expand(parts[..k])
    {
      assert parts[..k + 1][..k] == parts[..k];
      match parts[k]
      case Unparsed => iplist := iplist + [None];
      case One(ip) => iplist := iplist + [Some(ip)];
      case Span(first, last) =>
        var span := CountUp(first, last);
        iplist := iplist + span;
    }
    assert parts[..|parts|] == parts;
    ExpandSize(parts);
    count := |iplist|;
  }

  /** The addresses of one span, by incrementing. */
  method CountUp(first: u32, last: u32) returns (iplist: seq<Option<u32>>)
    requires first <= last
    ensures iplist == SpanList(first, last)
  {
    var cur := first;
    iplist := [Some(cur)];
    SpanListSnoc(first, cur);
    while cur != last
      invariant first <= cur <= last
      invariant iplist == SpanList(first, cur)
      decreases last - cur
    {
      cur := cur + 1;
      SpanListSnoc(first, cur);
      iplist := iplist + [Some(cur)];
    }
  }

  /** A wish to own an index. */
  datatype Claim = Claim(index: nat, mac: Mac)

  function ReserveAll(p: PoolState, claims: seq<Claim>): PoolState {
    if claims == [] then p
    else
      var n := |claims| - 1;
      ReserveAll(p, claims[..n]).Reserve(claims[n].index, claims[n].mac)
  }

  /** Who claimed index i first. */
  function FirstClaim(claims: seq<Claim>, i: nat): Option<Mac> {
    if claims == [] then None
    else
      var n := |claims| - 1;
      var earlier := FirstClaim(claims[..n], i);
      if earlier.Some? then earlier else if claims[n].index == i then Some(claims[n].mac) else None
  }

  function Lookup(m: map<nat, Mac>, i: nat): Option<Mac> {
    if i in m then Some(m[i]) else None
  }

  /** The first claim on an index wins, indexes outside the pool change nothing. */
  lemma {:induction false} FirstClaimWins(p: PoolState, claims: seq<Claim>, i: nat)
    requires p.Valid() && p.mac == map[]
    ensures ReserveAll(p, claims).Valid() && ReserveAll(p, claims).capacity == p.capacity
    ensures Lookup(ReserveAll(p, claims).mac, i) == if i < p.capacity then FirstClaim(claims, i) else None
  {
    if claims != [] {
      FirstClaimWins(p, claims[..|claims| - 1], i);
    }
  }

  lemma {:induction false} FirstClaimExists(claims: seq<Claim>, i: nat)
    ensures FirstClaim(claims, i).Some? <==> exists k :: 0 <= k < |claims| && claims[k].index == i
  {
    if claims != [] {
      var n := |claims| - 1;
      FirstClaimExists(claims[..n], i);
      assert forall k :: 0 <= k < n ==> claims[..n][k] == claims[k];
    }
  }

  lemma ReserveAllSnoc(p: PoolState, claims: seq<Claim>, c: Claim)
    ensures ReserveAll(p, claims + [c]) == ReserveAll(p, claims).Reserve(c.index, c.mac)
  {
  }

  lemma {:induction false} ReserveAllAppend(p: PoolState, a: seq<Claim>, b: seq<Claim>)
    ensures ReserveAll(p, a + b) == ReserveAll(ReserveAll(p, a), b)
  {
    if b == [] {
      assert a + b == a;
    } else {
      var n := |b| - 1;
      assert (a + b)[..|a + b| - 1] == a + b[..n];
      ReserveAllAppend(p, a, b[..n]);
    }
  }

  function ExcludeClaims(start: u32, ips: seq<Option<u32>>): seq<Claim> {
    if ips == [] then []
    else
      var n := |ips| - 1;
      var before := ExcludeClaims(start, ips[..n]);
      if ips[n].None? then before else before + [Claim(Position(start, ips[n].value), FAKE_MAC)]
  }

  /** `ip_assigned` after parsing: a MAC and an address, None for a part of the wrong format. */
  type Assignments = seq<Option<(Mac, u32)>>

  function AssignClaims(start: u32, pairs: Assignments): seq<Claim> {
    if pairs == [] then []
    else
      var n := |pairs| - 1;
      var before := AssignClaims(start, pairs[..n]);
      if pairs[n].None? then before
      else before + [Claim(Position(start, pairs[n].value.1), pairs[n].value.0)]
  }

  /** The position recorded for each MAC: its last assignment. */
  function Couples(start: u32, pairs: Assignments): map<Mac, u32> {
    if pairs == [] then map[]
    else
      var n := |pairs| - 1;
      var before := Couples(start, pairs[..n]);
      if pairs[n].None? then before
      else before[pairs[n].value.0 := Position(start, pairs[n].value.1)]
  }

  lemma ExcludeSnoc(p: PoolState, start: u32, ips: seq<Option<u32>>, k: nat)
    requires k < |ips|
    ensures var before := ReserveAll(p, ExcludeClaims(start, ips[..k]));
            ReserveAll(p, ExcludeClaims(start, ips[..k + 1])) ==
            if ips[k].None? then before else before.Reserve(Position(start, ips[k].value), FAKE_MAC)
  {
    assert ips[..k + 1][..k] == ips[..k];
    if ips[k].Some? {
      ReserveAllSnoc(p, ExcludeClaims(start, ips[..k]), Claim(Position(start, ips[k].value), FAKE_MAC));
    }
  }

  method ExcludeIP(pool: DHCPPool, start: u32, parts: seq<Part>)
    requires Ascending(parts)
    modifies pool
    ensures pool.View() == ReserveAll(old(pool.View()), ExcludeClaims(start, Expand(parts)))
  {
    var ips, _ := IPsFromRange(parts);
    ghost var p := pool.View();
    for k := 0 to |ips|
      invariant pool.View() == ReserveAll(p, ExcludeClaims(start, ips[..k]))
    {
      ExcludeSnoc(p, start, ips, k);
      if ips[k].Some? {
        var position := Position(start, ips[k].value);
        var _, _ := pool.ReserveIPIndex(position, FAKE_MAC);
      }
    }
    assert ips[..|ips|] == ips;
  }

  /** Pair k assigns an address to the client. */
  predicate Assigns(pairs: Assignments, k: nat, mac: Mac) {
    k < |pairs| && pairs[k].Some? && pairs[k].value.0 == mac
  }

  /** Pair k is the client's last assignment. */
  ghost predicate LastAssignment(pairs: Assignments, k: nat, mac: Mac) {
    Assigns(pairs, k, mac) && forall j: nat :: Assigns(pairs, j, mac) ==> j <= k
  }

  /** The recorded positions: exactly the assigned clients have one, and it leads to the address of the client's
      last assignment. */
  ghost predicate RecordsLast(start: u32, pairs: Assignments, couple: map<Mac, u32>) {
    && (forall mac :: mac in couple <==> exists k: nat :: Assigns(pairs, k, mac))
    && (forall k: nat, mac :: LastAssignment(pairs, k, mac) ==>
          && mac in couple && couple[mac] == (pairs[k].value.1 - start) % TWO_32
          && IPAdd(start, couple[mac]) == pairs[k].value.1)
  }

  lemma AssignsBefore(pairs: Assignments, n: nat, k: nat, mac: Mac)
    requires n <= |pairs|
    ensures Assigns(pairs[..n], k, mac) <==> k < n && Assigns(pairs, k, mac)
  {
  }

  lemma StillLast(pairs: Assignments, n: nat, k: nat, mac: Mac)
    requires k < n <= |pairs| && LastAssignment(pairs, k, mac)
    ensures LastAssignment(pairs[..n], k, mac)
  {
    AssignsBefore(pairs, n, k, mac);
    forall j: nat
      ensures Assigns(pairs[..n], j, mac) ==> j <= k
    {
      AssignsBefore(pairs, n, j, mac);
    }
  }

  /** The last pair records its own client and leaves the others. */
  lemma CouplesSnoc(start: u32, pairs: Assignments, mac: Mac)
    requires pairs != []
    ensures var n := |pairs| - 1;
            var before, after := Couples(start, pairs[..n]), Couples(start, pairs);
            if Assigns(pairs, n, mac) then mac in after && after[mac] == Position(start, pairs[n].value.1)
            else (mac in after <==> mac in before) && (mac in before ==> after[mac] == before[mac])
  {
  }

  lemma {:induction false} CouplesAt(start: u32, pairs: Assignments, k: nat, mac: Mac)
    requires LastAssignment(pairs, k, mac)
    ensures mac in Couples(start, pairs) && Couples(start, pairs)[mac] == Position(start, pairs[k].value.1)
  {
    var n := |pairs| - 1;
    CouplesSnoc(start, pairs, mac);
    if k < n {
      StillLast(pairs, n, k, mac);
      CouplesAt(start, pairs[..n], k, mac);
    }
  }

  lemma {:induction false} CouplesNone(start: u32, pairs: Assignments, mac: Mac)
    requires forall k: nat :: !Assigns(pairs, k, mac)
    ensures mac !in Couples(start, pairs)
  {
    if pairs != [] {
      var n := |pairs| - 1;
      CouplesSnoc(start, pairs, mac);
      forall k: nat
        ensures !Assigns(pairs[..n], k, mac)
      {
        AssignsBefore(pairs, n, k, mac);
      }
      CouplesNone(start, pairs[..n], mac);
    }
  }

  lemma {:induction false} FindLast(pairs: Assignments, mac: Mac, n: nat) returns (k: nat)
    requires n <= |pairs| && (exists j: nat :: j < n && Assigns(pairs, j, mac))
    requires forall j: nat :: Assigns(pairs, j, mac) ==> j < n
    ensures LastAssignment(pairs, k, mac)
  {
    k := n - 1;
    if !Assigns(pairs, k, mac) {
      k := FindLast(pairs, mac, n - 1);
    }
  }

  lemma CouplesDomain(start: u32, pairs: Assignments, mac: Mac)
    ensures mac in Couples(start, pairs) <==> exists k: nat :: Assigns(pairs, k, mac)
  {
    if exists k: nat :: Assigns(pairs, k, mac) {
      var k := FindLast(pairs, mac, |pairs|);
      CouplesAt(start, pairs, k, mac);
    } else {
      CouplesNone(start, pairs, mac);
    }
  }

  lemma CouplesRecordLast(start: u32, pairs: Assignments)
    ensures RecordsLast(start, pairs, Couples(start, pairs))
  {
    forall mac
      ensures mac in Couples(start, pairs) <==> exists k: nat :: Assigns(pairs, k, mac)
    {
      CouplesDomain(start, pairs, mac);
    }
    forall k: nat, mac | LastAssignment(pairs, k, mac)
      ensures mac in Couples(start, pairs) && Couples(start, pairs)[mac] == (pairs[k].value.1 - start) % TWO_32
      ensures IPAdd(start, Couples(start, pairs)[mac]) == pairs[k].value.1
    {
      CouplesAt(start, pairs, k, mac);
      IndexArithmetic(start, start, pairs[k].value.1);
    }
  }

  method AssignIP(pool: DHCPPool, start: u32, pairs: Assignments) returns (couple: map<Mac, u32>)
    modifies pool
    ensures pool.View() == ReserveAll(old(pool.View()), AssignClaims(start, pairs))
    ensures couple == Couples(start, pairs)
    ensures RecordsLast(start, pairs, couple)
  {
    couple := map[];
    for k := 0 to |pairs|
      invariant pool.View() == ReserveAll(old(pool.View()), AssignClaims(start, pairs[..k]))
      invariant couple == Couples(start, pairs[..k])
    {
      assert pairs[..k + 1][..k] == pairs[..k];
      if pairs[k].Some? {
        var (mac, ip) := pairs[k].value;
        var position := Position(start, ip);
        var _, _ := pool.ReserveIPIndex(position, mac);
        couple := couple[mac := position];
        ReserveAllSnoc(old(pool.View()), AssignClaims(start, pairs[..k]), Claim(position, mac));
      }
    }
    assert pairs[..|pairs|] == pairs;
    CouplesRecordLast(start, pairs);
  }

  /** The pool a scope starts with. */
  function Configured(start: u32, capacity: nat, algorithm: int, clock: nat -> int,
                      parts: seq<Part>, pairs: Assignments): PoolState
    requires Ascending(parts)
  {
    ReserveAll(New(capacity, algorithm, clock), AllClaims(start, parts, pairs))
  }

  function AllClaims(start: u32, parts: seq<Part>, pairs: Assignments): seq<Claim>
    requires Ascending(parts)
  {
    ExcludeClaims(start, Expand(parts)) + AssignClaims(start, pairs)
  }

  method ConfigurePool(start: u32, end: u32, algorithm: int, clock: nat -> int,
                       parts: seq<Part>, pairs: Assignments)
    returns (pool: DHCPPool, couple: map<Mac, u32>)
    requires start <= end && Ascending(parts)
    ensures fresh(pool)
    ensures pool.View() == Configured(start, IPRange(start, end), algorithm, clock, parts, pairs)
    ensures couple == Couples(start, pairs)
    ensures RecordsLast(start, pairs, couple)
  {
    pool := new DHCPPool(IPRange(start, end), algorithm, clock);
    ExcludeIP(pool, start, parts);
    couple := AssignIP(pool, start, pairs);
    ReserveAllAppend(New(IPRange(start, end), algorithm, clock), ExcludeClaims(start, Expand(parts)), AssignClaims(start, pairs));
  }

  /** An address is listed when some reserved part covers it or some assignment names it. */
  ghost predicate ListedAddress(parts: seq<Part>, pairs: Assignments, a: u32) {
    || Reserved(parts, a)
    || (exists k :: 0 <= k < |pairs| && pairs[k].Some? && pairs[k].value.1 == a)
  }

  lemma {:induction false} ExcludeClaimsMembers(start: u32, ips: seq<Option<u32>>, c: Claim)
    ensures c in ExcludeClaims(start, ips) <==>
            exists k :: 0 <= k < |ips| && ips[k].Some? && c == Claim(Position(start, ips[k].value), FAKE_MAC)
  {
    if ips != [] {
      var n := |ips| - 1;
      ExcludeClaimsMembers(start, ips[..n], c);
      assert forall k :: 0 <= k < n ==> ips[..n][k] == ips[k];
    }
  }

  lemma {:induction false} AssignClaimsMembers(start: u32, pairs: Assignments, c: Claim)
    ensures c in AssignClaims(start, pairs) <==>
            exists k :: 0 <= k < |pairs| && pairs[k].Some? && c == Claim(Position(start, pairs[k].value.1), pairs[k].value.0)
  {
    if pairs != [] {
      var n := |pairs| - 1;
      AssignClaimsMembers(start, pairs[..n], c);
      assert forall k :: 0 <= k < n ==> pairs[..n][k] == pairs[k];
    }
  }

  /** An index is claimed exactly when its address is listed. */
  lemma ClaimedIffListed(start: u32, parts: seq<Part>, pairs: Assignments, a: u32)
    requires Ascending(parts)
    ensures FirstClaim(AllClaims(start, parts, pairs), Position(start, a)).Some? <==> ListedAddress(parts, pairs, a)
  {
    var claims, i, ips := AllClaims(start, parts, pairs), Position(start, a), Expand(parts);
    FirstClaimExists(claims, i);
    ExpandMembers(parts, a);
    if k :| 0 <= k < |claims| && claims[k].index == i {
      ExcludeClaimsMembers(start, ips, claims[k]);
      AssignClaimsMembers(start, pairs, claims[k]);
      assert claims[k] in ExcludeClaims(start, ips) || claims[k] in AssignClaims(start, pairs);
      SamePosition(start, ips, pairs, a, claims[k]);
    }
    if ListedAddress(parts, pairs, a) {
      var c := ListedClaim(start, parts, pairs, a);
    }
  }

  lemma SamePosition(start: u32, ips: seq<Option<u32>>, pairs: Assignments, a: u32, c: Claim)
    requires c.index == Position(start, a)
    requires c in ExcludeClaims(start, ips) || c in AssignClaims(start, pairs)
    ensures Some(a) in ips || exists k :: 0 <= k < |pairs| && pairs[k].Some? && pairs[k].value.1 == a
  {
    ExcludeClaimsMembers(start, ips, c);
    AssignClaimsMembers(start, pairs, c);
    if k :| 0 <= k < |ips| && ips[k].Some? && c == Claim(Position(start, ips[k].value), FAKE_MAC) {
      PositionInjective(start, a, ips[k].value);
    } else {
      var k :| 0 <= k < |pairs| && pairs[k].Some? && c == Claim(Position(start, pairs[k].value.1), pairs[k].value.0);
      PositionInjective(start, a, pairs[k].value.1);
    }
  }

  lemma PositionInjective(start: u32, a: u32, b: u32)
    requires Position(start, a) == Position(start, b)
    ensures a == b
  {
  }

  lemma ListedClaim(start: u32, parts: seq<Part>, pairs: Assignments, a: u32) returns (c: Claim)
    requires Ascending(parts) && ListedAddress(parts, pairs, a)
    ensures c in AllClaims(start, parts, pairs) && c.index == Position(start, a)
  {
    var ips := Expand(parts);
    ExpandMembers(parts, a);
    if Some(a) in ips {
      var k :| 0 <= k < |ips| && ips[k] == Some(a);
      c := Claim(Position(start, a), FAKE_MAC);
      ExcludeClaimsMembers(start, ips, c);
    } else {
      var k :| 0 <= k < |pairs| && pairs[k].Some? && pairs[k].value.1 == a;
      c := Claim(Position(start, a), pairs[k].value.0);
      AssignClaimsMembers(start, pairs, c);
    }
  }

  /** After configuration the taken indexes are exactly the in-scope positions of the listed
      addresses, each owned by its first claimant. */
  lemma ConfiguredOwners(start: u32, end: u32, algorithm: int, clock: nat -> int,
                         parts: seq<Part>, pairs: Assignments, i: nat)
    requires start <= end && Ascending(parts)
    ensures var p := Configured(start, IPRange(start, end), algorithm, clock, parts, pairs);
            && p.Valid() && p.capacity == IPRange(start, end)
            && (i in p.mac <==> start + i <= end && ListedAddress(parts, pairs, start + i))
            && (i in p.mac ==> FirstClaim(AllClaims(start, parts, pairs), i) == Some(p.mac[i]))
  {
    var claims := AllClaims(start, parts, pairs);
    FirstClaimWins(New(IPRange(start, end), algorithm, clock), claims, i);
    if start + i <= end {
      ClaimedIffListed(start, parts, pairs, start + i);
      PositionOf(start, i);
    }
  }

  lemma {:induction false} FirstClaimAppend(a: seq<Claim>, b: seq<Claim>, i: nat)
    ensures FirstClaim(a + b, i) == if FirstClaim(a, i).Some? then FirstClaim(a, i) else FirstClaim(b, i)
  {
    if b == [] {
      assert a + b == a;
    } else {
      assert (a + b)[..|a + b| - 1] == a + b[..|b| - 1];
      FirstClaimAppend(a, b[..|b| - 1], i);
    }
  }

  lemma {:induction false} ExcludeClaimOwner(start: u32, ips: seq<Option<u32>>, i: nat)
    ensures FirstClaim(ExcludeClaims(start, ips), i).Some? ==> FirstClaim(ExcludeClaims(start, ips), i).value == FAKE_MAC
  {
    if ips != [] {
      var before, n := ExcludeClaims(start, ips[..|ips| - 1]), |ips| - 1;
      ExcludeClaimOwner(start, ips[..n], i);
      if ips[n].Some? {
        assert (before + [Claim(Position(start, ips[n].value), FAKE_MAC)])[..|before|] == before;
      }
    }
  }

  lemma {:induction false} AssignClaimOwner(start: u32, pairs: Assignments, i: nat)
    ensures var o := FirstClaim(AssignClaims(start, pairs), i); o.Some? ==> o.value in Couples(start, pairs)
  {
    if pairs != [] {
      var before, n := AssignClaims(start, pairs[..|pairs| - 1]), |pairs| - 1;
      AssignClaimOwner(start, pairs[..n], i);
      if pairs[n].Some? {
        assert (before + [Claim(Position(start, pairs[n].value.1), pairs[n].value.0)])[..|before|] == before;
      }
    }
  }

  lemma PositionOf(start: u32, i: nat)
    requires start + i < TWO_32
    ensures Position(start, start + i) == i
  {
  }

  lemma NoAssignments(start: u32, parts: seq<Part>)
    requires Ascending(parts)
    ensures AllClaims(start, parts, []) == ExcludeClaims(start, Expand(parts))
  {
  }

  lemma OnlyReserved(parts: seq<Part>, a: u32)
    ensures ListedAddress(parts, [], a) <==> Reserved(parts, a)
  {
  }

  lemma ReservedClaimed(start: u32, parts: seq<Part>, i: nat)
    requires start + i < TWO_32 && Ascending(parts)
    ensures FirstClaim(ExcludeClaims(start, Expand(parts)), i).Some? <==> Reserved(parts, start + i)
  {
    NoAssignments(start, parts);
    OnlyReserved(parts, start + i);
    PositionOf(start, i);
    ClaimedIffListed(start, parts, [], start + i);
  }

  lemma ClaimKinds(start: u32, parts: seq<Part>, pairs: Assignments, i: nat)
    requires start + i < TWO_32 && Ascending(parts)
    ensures var o := FirstClaim(AllClaims(start, parts, pairs), i);
            if Reserved(parts, start + i) then o == Some(FAKE_MAC) else o.Some? ==> o.value in Couples(start, pairs)
  {
    var ips := Expand(parts);
    FirstClaimAppend(ExcludeClaims(start, ips), AssignClaims(start, pairs), i);
    ExcludeClaimOwner(start, ips, i);
    AssignClaimOwner(start, pairs, i);
    ReservedClaimed(start, parts, i);
  }

  /** A reserved address belongs to the marker address even when it is also assigned; every other
      taken address belongs to a client with a static assignment. */
  lemma ConfiguredKinds(start: u32, end: u32, algorithm: int, clock: nat -> int,
                        parts: seq<Part>, pairs: Assignments, i: nat)
    requires start + i <= end && Ascending(parts)
    requires i in Configured(start, IPRange(start, end), algorithm, clock, parts, pairs).mac
    ensures var o := Configured(start, IPRange(start, end), algorithm, clock, parts, pairs).mac[i];
            if Reserved(parts, start + i) then o == FAKE_MAC else o in Couples(start, pairs)
  {
    ConfiguredOwners(start, end, algorithm, clock, parts, pairs, i);
    ClaimKinds(start, parts, pairs, i);
  }

  /** Exactly the distinct listed in-scope addresses are missing from the free count. */
  lemma ConfiguredFreeCount(start: u32, end: u32, algorithm: int, clock: nat -> int,
                            parts: seq<Part>, pairs: Assignments, listed: set<u32>)
    requires start <= end && Ascending(parts)
    requires forall a :: a in listed <==> start <= a <= end && ListedAddress(parts, pairs, a)
    ensures |Configured(start, IPRange(start, end), algorithm, clock, parts, pairs).free| == IPRange(start, end) - |listed|
  {
    var p := Configured(start, IPRange(start, end), algorithm, clock, parts, pairs);
    ConfiguredKeys(start, end, algorithm, clock, parts, pairs, listed);
    ConfiguredOwners(start, end, algorithm, clock, parts, pairs, 0);
    ShiftedSize(start, listed);
    PartitionSize(p);
  }

  lemma ConfiguredKeys(start: u32, end: u32, algorithm: int, clock: nat -> int,
                       parts: seq<Part>, pairs: Assignments, listed: set<u32>)
    requires start <= end && Ascending(parts)
    requires forall a :: a in listed <==> start <= a <= end && ListedAddress(parts, pairs, a)
    ensures Configured(start, IPRange(start, end), algorithm, clock, parts, pairs).mac.Keys == Shifted(start, listed)
  {
    var p := Configured(start, IPRange(start, end), algorithm, clock, parts, pairs);
    forall i: int
      ensures i in p.mac.Keys <==> i in Shifted(start, listed)
    {
      ShiftedMember(start, listed, i);
      if i >= 0 {
        ConfiguredOwners(start, end, algorithm, clock, parts, pairs, i);
      }
    }
  }

  ghost function Shifted(start: u32, listed: set<u32>): set<int> {
    set a | a in listed :: a - start
  }

  lemma ShiftedMember(start: u32, listed: set<u32>, x: int)
    ensures x in Shifted(start, listed) <==> 0 <= x + start < TWO_32 && x + start in listed
  {
  }

  lemma {:induction false} ShiftedSize(start: u32, listed: set<u32>)
    ensures |Shifted(start, listed)| == |listed|
  {
    if listed != {} {
      var a :| a in listed;
      ShiftedSize(start, listed - {a});
      forall x: int
        ensures x in Shifted(start, listed) <==> x in Shifted(start, listed - {a}) + {a - start}
      {
        ShiftedMember(start, listed, x);
        ShiftedMember(start, listed - {a}, x);
      }
      ShiftedMember(start, listed - {a}, a - start);
      assert Shifted(start, listed) == Shifted(start, listed - {a}) + {a - start};
    }
  }
}
