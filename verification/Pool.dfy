/** The address pool of one scope: which indexes are free, who owns the others, and when
    each index was last released. */
module Pool {
  import opened Basics

  /** The value of a pool. `free` and `mac` are the two maps of the implementation, the
      first reduced to its keys. */
  datatype PoolState = PoolState(capacity: nat, algorithm: int,
                                 free: set<nat>, mac: map<nat, Mac>, released: map<nat, int>)
  {
    /** Free and owned indexes partition the capacity, and every index has a release time. */
    ghost predicate Valid() {
      && (forall i :: i in free ==> i < capacity && i !in mac)
      && (forall i :: i in mac ==> i < capacity)
      && (forall i: nat :: i < capacity ==> i in free || i in mac)
      && (forall i: nat :: i < capacity <==> i in released)
    }

    /** What `GetMACIndex` reports: the owner, or FREE_MAC when free or out of the pool. */
    function Owner(i: nat): Mac {
      if i >= capacity || i in free then FREE_MAC
      else if i in mac then mac[i] else ""
    }

    predicate CanReserve(i: nat) {
      i < capacity && i in free
    }

    function Taken(i: nat, m: Mac): PoolState {
      this.(free := free - {i}, mac := mac[i := m])
    }

    function Reserve(i: nat, m: Mac): PoolState {
      if CanReserve(i) then Taken(i, m) else this
    }

    predicate CanFree(i: nat) {
      i < capacity && i !in free
    }

    function Free(i: nat, now: int): PoolState {
      if CanFree(i) then this.(free := free + {i}, mac := mac - {i}, released := released[i := now])
      else this
    }

    /** The indexes `GetFreeIPIndex` may hand out: under algorithm 2 those released longest
        ago, otherwise any free one. */
    ghost predicate MayPick(i: nat) {
      && i in free
      && (algorithm == 2 ==>
            && i in released
            && forall j :: j in free && j in released ==> released[i] <= released[j])
    }
  }

  /** A new pool; `clock(i)` is the time read when index i is entered. */
  function New(capacity: nat, algorithm: int, clock: nat -> int): (p: PoolState)
    ensures p.Valid()
  {
    PoolState(capacity, algorithm, Indexes(capacity), map[], map i | i in Indexes(capacity) :: clock(i))
  }

  /** A pool with a free index has one its policy may pick. */
  lemma PickExists(p: PoolState) returns (i: nat)
    requires p.Valid() && p.free != {}
    ensures p.MayPick(i)
  {
    i := OldestIn(p, p.free);
  }

  lemma {:induction false} OldestIn(p: PoolState, among: set<nat>) returns (i: nat)
    requires p.Valid() && among <= p.free && among != {}
    ensures i in among && forall j :: j in among ==> p.released[i] <= p.released[j]
  {
    i :| i in among;
    if among != {i} {
      var j := OldestIn(p, among - {i});
      if p.released[j] < p.released[i] {
        i := j;
      }
    }
  }

  datatype Released = Released(key: nat, value: int)

  class DHCPPool {
    const capacity: nat
    const algorithm: int
    var free: map<nat, bool>
    var mac: map<nat, Mac>
    var released: map<nat, int>

    ghost function View(): PoolState
      reads this
    {
      PoolState(capacity, algorithm, free.Keys, mac, released)
    }

    constructor (capacity: nat, algorithm: int, clock: nat -> int)
      ensures View() == New(capacity, algorithm, clock)
    {
      this.capacity := capacity;
      this.algorithm := algorithm;
      free, mac, released := map[], map[], map[];
      new;
      for i := 0 to capacity
        invariant free.Keys == released.Keys == Indexes(i) && mac == map[]
        invariant forall k :: k in released ==> released[k] == clock(k)
      {
        free := free[i := true];
        released := released[i := clock(i)];
      }
    }

    method ReserveIPIndex(index: nat, m: Mac) returns (ok: bool, returned: Mac)
      modifies this`free, this`mac
      ensures View() == old(View()).Reserve(index, m)
      ensures ok == old(View()).CanReserve(index)
      ensures returned == if ok then m else FREE_MAC
      ensures ok <==> index < capacity && index in old(free)
      ensures ok ==> free.Keys == old(free.Keys) - {index} && mac == old(mac)[index := m]
      ensures !ok ==> free == old(free) && mac == old(mac)
    {
      if index >= capacity {
        return false, FREE_MAC;
      }
      if index in free {
        free := free - {index};
        mac := mac[index := m];
        return true, m;
      }
      return false, FREE_MAC;
    }

    method FreeIPIndex(index: nat, now: int) returns (ok: bool)
      modifies this`free, this`mac, this`released
      ensures View() == old(View()).Free(index, now)
      ensures ok == old(View()).CanFree(index)
      ensures ok <==> index < capacity && index !in old(free)
      ensures ok ==> free.Keys == old(free.Keys) + {index} && mac == old(mac) - {index} && released == old(released)[index := now]
      ensures !ok ==> free == old(free) && mac == old(mac) && released == old(released)
    {
      if !IndexInPool(index) {
        return false;
      }
      if index in free {
        return false;
      }
      free := free[index := true];
      released := released[index := now];
      mac := mac - {index};
      return true;
    }

    method IsFreeIPAtIndex(index: nat) returns (r: bool)
      ensures r <==> View().CanReserve(index)
      ensures r <==> index < capacity && index in free
    {
      if !IndexInPool(index) {
        return false;
      }
      return index in free;
    }

    method GetMACIndex(index: nat) returns (returned: Mac, ok: bool)
      ensures returned == View().Owner(index)
      ensures ok <==> View().CanFree(index)
      ensures ok <==> index < capacity && index !in free
      ensures !ok ==> returned == FREE_MAC
      ensures ok && index in mac ==> returned == mac[index]
    {
      if !IndexInPool(index) {
        return FREE_MAC, false;
      }
      if index in free {
        return FREE_MAC, false;
      }
      return if index in mac then mac[index] else "", true;
    }

    /** `draw` is the random number of the default policy; both policies also depend on the
        order in which Go visits a map, which is left open. */
    method GetFreeIPIndex(m: Mac, draw: nat) returns (index: nat, ok: bool)
      requires View().Valid()
      requires free != map[] ==> draw < |free|
      modifies this`free, this`mac
      ensures ok <==> old(View()).free != {}
      ensures !ok ==> index == 0 && View() == old(View())
      ensures ok ==> old(View()).MayPick(index) && View() == old(View()).Taken(index, m)
      ensures ok <==> old(free) != map[]
      ensures ok ==> index in old(free) && free.Keys == old(free.Keys) - {index} && mac == old(mac)[index := m]
      ensures ok && algorithm == 2 ==> forall j :: j in old(free) ==> released[index] <= released[j]
    {
      if free == map[] {
        return 0, false;
      }
      assert free.Keys != {};
      if algorithm == 2 {
        index := OldestReleased();
      } else {
        index := DrawnKey(draw);
      }
      free := free - {index};
      mac := mac[index := m];
      ok := true;
    }

    /** Collects the free indexes with their release times, sorts and takes the first. */
    method OldestReleased() returns (available: nat)
      requires View().Valid() && free.Keys != {}
      ensures available in free
      ensures forall j :: j in free ==> released[available] <= released[j]
    {
      var ss: seq<Released> := [];
      var rest := released.Keys;
      while rest != {}
        invariant rest <= released.Keys
        invariant forall e :: e in ss <==> e.key in free && e.key in released && e.key !in rest && e.value == released[e.key]
      {
        var k :| k in rest;
        if k in free {
          ss := ss + [Released(k, released[k])];
        }
        rest := rest - {k};
      }
      ghost var all := ss;
      ss := SortByValue(ss);
      var some :| some in free.Keys;
      assert Released(some, released[some]) in multiset(all);
      assert ss[0] in multiset(ss);
      available := ss[0].key;
      forall j | j in free
        ensures released[available] <= released[j]
      {
        assert Released(j, released[j]) in multiset(ss);
      }
    }

    /** Walks the free keys in some order and stops after `draw` of them. */
    method DrawnKey(draw: nat) returns (available: nat)
      requires draw < |free|
      ensures available in free
    {
      var index := draw;
      var rest := free.Keys;
      assert free.Keys != {};
      available :| available in rest;
      while index != 0
        invariant rest <= free.Keys && 0 <= index < |rest|
        invariant available in rest
        decreases index
      {
        assert rest == (rest - {available}) + {available};
        rest := rest - {available};
        index := index - 1;
        assert rest != {};
        available :| available in rest;
      }
    }

    predicate IndexInPool(index: nat) {
      index < capacity
    }

    method FreeIPsRemaining() returns (n: nat)
      ensures n == |View().free|
      ensures n > 0 <==> View().free != {}
    {
      n := |free.Keys|;
    }
  }

  ghost predicate SortedByValue(s: seq<Released>) {
    forall i, j :: 0 <= i < j < |s| ==> s[i].value <= s[j].value
  }

  /** Stands for `sort.Slice`: a sorted rearrangement, ties in any order. */
  method SortByValue(s: seq<Released>) returns (r: seq<Released>)
    ensures SortedByValue(r)
    ensures multiset(r) == multiset(s)
  {
    r := [];
    for n := 0 to |s|
      invariant SortedByValue(r) && multiset(r) == multiset(s[..n])
    {
      assert s[..n + 1] == s[..n] + [s[n]];
      InsertSorted(r, s[n]);
      r := InsertByValue(r, s[n]);
    }
    assert s[..|s|] == s;
  }

  function InsertByValue(s: seq<Released>, x: Released): (r: seq<Released>)
    ensures multiset(r) == multiset(s) + multiset{x}
  {
    if s == [] || s[|s| - 1].value <= x.value then s + [x]
    else
      assert s == s[..|s| - 1] + [s[|s| - 1]];
      InsertByValue(s[..|s| - 1], x) + [s[|s| - 1]]
  }

  lemma {:induction false} InsertSorted(s: seq<Released>, x: Released)
    requires SortedByValue(s)
    ensures SortedByValue(InsertByValue(s, x))
  {
    if s != [] && s[|s| - 1].value > x.value {
      var init, last := s[..|s| - 1], s[|s| - 1];
      var r := InsertByValue(init, x);
      InsertSorted(init, x);
      forall i | 0 <= i < |r|
        ensures r[i].value <= last.value
      {
        assert r[i] in multiset(r);
        assert r[i] in init || r[i] == x;
      }
    }
  }
}
