/** The options of a reply: shuffled DNS servers and routers, then the overrides. An OFFER and the ACK
    that follows it carry the same options. */
module ReplyOptions {
  import opened Basics
  import opened IpText
  import opened Overrides
  import opened OverrideStore

  const OPTION_ROUTER: u8 := 3
  const OPTION_DNS: u8 := 6

  /** The random numbers: the draw at position i when n blocks are shuffled with a given seed. */
  type Random = (int, nat, nat) -> nat

  /** Draws for position i lie between 0 and i. */
  ghost predicate InRange(random: Random) {
    forall seed: int, n: nat, i: nat :: random(seed, n, i) <= i
  }

  function Swap<T>(s: seq<T>, i: nat, j: nat): (r: seq<T>)
    requires i < |s| && j < |s|
    ensures |r| == |s|
  {
    s[i := s[j]][j := s[i]]
  }

  /** The exchanges from position i down to 1. */
  function Shuffled<T>(s: seq<T>, i: nat, seed: int, random: Random): (r: seq<T>)
    requires i < |s| || i == 0
    ensures |r| == |s|
    decreases i
  {
    if i == 0 then s
    else Shuffled(Swap(s, i, if random(seed, |s|, i) < |s| then random(seed, |s|, i) else 0), i - 1, seed, random)
  }

  function ShuffleAll<T>(s: seq<T>, seed: int, random: Random): (r: seq<T>)
    ensures |r| == |s|
  {
    if s == [] then s else Shuffled(s, |s| - 1, seed, random)
  }

  lemma SwapPermutes<T>(s: seq<T>, i: nat, j: nat)
    requires i < |s| && j < |s|
    ensures multiset(Swap(s, i, j)) == multiset(s)
  {
  }

  lemma {:induction false} ShuffledPermutes<T>(s: seq<T>, i: nat, seed: int, random: Random)
    requires i < |s| || i == 0
    ensures multiset(Shuffled(s, i, seed, random)) == multiset(s)
    decreases i
  {
    if i > 0 {
      var j := if random(seed, |s|, i) < |s| then random(seed, |s|, i) else 0;
      SwapPermutes(s, i, j);
      ShuffledPermutes(Swap(s, i, j), i - 1, seed, random);
    }
  }

  /** The draws that put `want` at the top position and leave the rest to later draws. */
  lemma {:induction false} OrderReached<T>(s: seq<T>, want: seq<T>, i: nat) returns (draws: seq<nat>)
    requires |s| == |want| && (i < |s| || i == 0) && multiset(s) == multiset(want)
    requires forall k :: i < k < |s| ==> s[k] == want[k]
    ensures |draws| == i + 1 && forall k :: 0 <= k <= i ==> draws[k] <= k
    ensures forall seed: int, random: Random ::
              (forall k: nat :: k <= i ==> random(seed, |s|, k) == draws[k]) ==> Shuffled(s, i, seed, random) == want
    decreases i
  {
    if i == 0 {
      draws := [0];
      SameButFirst(s, want);
    } else {
      var j := WantedAt(s, want, i);
      SwapPermutes(s, i, j);
      var rest := OrderReached(Swap(s, i, j), want, i - 1);
      draws := rest + [j];
      forall seed: int, random: Random | forall k: nat :: k <= i ==> random(seed, |s|, k) == draws[k]
        ensures Shuffled(s, i, seed, random) == want
      {
        assert random(seed, |s|, i) == draws[i] == j;
        assert forall k: nat :: k <= i - 1 ==> random(seed, |Swap(s, i, j)|, k) == draws[k] == rest[k];
      }
    }
  }

  /** Where the wanted element is among the positions still open. */
  lemma WantedAt<T>(s: seq<T>, want: seq<T>, i: nat) returns (j: nat)
    requires |s| == |want| && i < |s| && multiset(s) == multiset(want)
    requires forall k :: i < k < |s| ==> s[k] == want[k]
    ensures j <= i && s[j] == want[i]
  {
    OpenPart(s, want, i + 1);
    assert want[i] in multiset(want[..i + 1]);
    assert want[i] in s[..i + 1];
    j :| 0 <= j < i + 1 && s[..i + 1][j] == want[i];
  }

  /** Sequences that agree from n on have the same elements before n. */
  lemma OpenPart<T>(s: seq<T>, want: seq<T>, n: nat)
    requires |s| == |want| && n <= |s| && multiset(s) == multiset(want)
    requires forall k :: n <= k < |s| ==> s[k] == want[k]
    ensures multiset(s[..n]) == multiset(want[..n])
  {
    assert s == s[..n] + s[n..] && want == want[..n] + want[n..] && s[n..] == want[n..];
    assert multiset(s) == multiset(s[..n]) + multiset(s[n..]);
    assert multiset(want) == multiset(want[..n]) + multiset(want[n..]);
    forall x
      ensures multiset(s[..n])[x] == multiset(want[..n])[x]
    {
      assert multiset(s)[x] == multiset(s[..n])[x] + multiset(s[n..])[x];
    }
  }

  lemma SameButFirst<T>(s: seq<T>, want: seq<T>)
    requires |s| == |want| && multiset(s) == multiset(want)
    requires forall k :: 0 < k < |s| ==> s[k] == want[k]
    ensures s == want
  {
    if s != [] {
      var j := WantedAt(s, want, 0);
    }
  }

  /** Every order of the blocks can come out: for each arrangement there are draws in range that lead to it. */
  lemma EveryOrderPossible<T>(s: seq<T>, want: seq<T>, seed: int) returns (random: Random)
    requires multiset(s) == multiset(want)
    ensures InRange(random) && ShuffleAll(s, seed, random) == want
  {
    assert |multiset(s)| == |s| && |multiset(want)| == |want|;
    if s == [] {
      random := (_, _, _) => 0;
    } else {
      var draws := OrderReached(s, want, |s| - 1);
      random := (_: int, _: nat, i: nat) => if i < |draws| && draws[i] <= i then draws[i] else 0;
    }
  }

  /** The seed: the given one, or the clock when that is zero. */
  function SeedOf(randSrc: int, clock: int): int {
    if randSrc == 0 then clock else randSrc
  }

  /** The blocks of an option value in shuffled order; trailing bytes are dropped. */
  function ShuffledBlocks(b: Bytes, seed: int, random: Random): seq<Quad> {
    ShuffleAll(Quads(b), seed, random)
  }

  function ShuffledBytes(b: Bytes, seed: int, random: Random): Bytes {
    FlattenBack(ShuffledBlocks(b, seed, random))
  }

  /** Shuffling an option value permutes its four-byte blocks. */
  lemma ShuffleKeepsBlocks(b: Bytes, seed: int, random: Random)
    ensures multiset(Quads(ShuffledBytes(b, seed, random))) == multiset(Quads(b))
    ensures |ShuffledBytes(b, seed, random)| == |b| - |b| % 4
  {
    var q := Quads(b);
    if q != [] {
      ShuffledPermutes(q, |q| - 1, seed, random);
    }
    QuadsOfFlatten(ShuffledBlocks(b, seed, random));
  }

  /** Shuffles the addresses in place and concatenates them. */
  method ShuffleNetIP(a: array<Quad>, randSrc: int, clock: int, random: Random) returns (r: Bytes)
    requires InRange(random)
    modifies a
    ensures a[..] == ShuffleAll(old(a[..]), SeedOf(randSrc, clock), random)
    ensures r == FlattenBack(a[..])
  {
    var seed := if randSrc == 0 then clock else randSrc;
    var i: nat := if a.Length == 0 then 0 else a.Length - 1;
    while i > 0
      invariant i < a.Length || i == 0
      invariant ShuffleAll(old(a[..]), seed, random) == Shuffled(a[..], i, seed, random)
    {
      var j := random(seed, a.Length, i);
      ghost var before := a[..];
      a[i], a[j] := a[j], a[i];
      assert a[..] == Swap(before, i, j);
      i := i - 1;
    }
    r := [];
    for k := 0 to a.Length
      invariant r == FlattenBack(a[..k])
    {
      assert a[..k + 1][..k] == a[..k];
      r := r + a[k];
    }
    assert a[..a.Length] == a[..];
  }

  method ShuffleIP(b: Bytes, randSrc: int, clock: int, random: Random) returns (r: Bytes)
    requires InRange(random)
    ensures r == ShuffledBytes(b, SeedOf(randSrc, clock), random)
  {
    var list: seq<Quad> := [];
    var rest := b;
    while |rest| >= 4
      invariant list + Quads(rest) == Quads(b)
      decreases |rest|
    {
      list := list + [rest[..4]];
      rest := rest[4..];
    }
    var a := new Quad[|list|](k requires 0 <= k < |list| => list[k]);
    assert a[..] == list == Quads(b);
    r := ShuffleNetIP(a, randSrc, clock, random);
  }

  predicate IsShuffled(code: u8) {
    code == OPTION_ROUTER || code == OPTION_DNS
  }

  function BaseValue(b: Bytes, lastByte: u8, clock: u8 -> int, random: Random, code: u8): Bytes {
    if IsShuffled(code) then ShuffledBytes(b, SeedOf(lastByte, clock(code)), random) else b
  }

  /** What the reply holds for a code: the override, else the base value, shuffled for DNS and router. */
  function ReplyOption(v6: string -> Option<Quad>, base: Options, network: Row, own: Row,
                       lastByte: u8, clock: u8 -> int, random: Random, code: u8): Option<Bytes>
  {
    var m := LayerFor(v6, own, code);
    var n := LayerFor(v6, network, code);
    if m.Some? then m
    else if n.Some? then n
    else if code in base then Some(BaseValue(base[code], lastByte, clock, random, code))
    else None
  }

  /** The base options with DNS servers and routers shuffled. */
  method ShuffleBase(base: Options, lastByte: u8, clock: u8 -> int, random: Random) returns (shuffled: Options)
    requires InRange(random)
    ensures shuffled.Keys == base.Keys
    ensures forall code :: code in base ==> shuffled[code] == BaseValue(base[code], lastByte, clock, random, code)
  {
    shuffled := map[];
    var keys := base.Keys;
    while keys != {}
      invariant keys <= base.Keys && shuffled.Keys == base.Keys - keys
      invariant forall code :: code in shuffled ==> shuffled[code] == BaseValue(base[code], lastByte, clock, random, code)
    {
      var key :| key in keys;
      if key == OPTION_DNS || key == OPTION_ROUTER {
        var r := ShuffleIP(base[key], lastByte, clock(key), random);
        shuffled := shuffled[key := r];
      } else {
        shuffled := shuffled[key := base[key]];
      }
      keys := keys - {key};
    }
  }

  /** The code has the value the MAC row gives it, else the network row's, else the base value, which is
      shuffled for routers (3) and DNS servers (6), seeded by the last byte of the MAC or else the clock. */
  ghost predicate Replied(v6: string -> Option<Quad>, base: Options, network: Row, own: Row,
                          lastByte: u8, clock: u8 -> int, random: Random, code: u8, found: Option<Bytes>)
  {
    && (forall value :: Gives(v6, own, code, value) ==> found == Some(value))
    && (forall value :: Gives(v6, network, code, value) && Leaves(v6, own, code) ==> found == Some(value))
    && (Leaves(v6, own, code) && Leaves(v6, network, code) ==>
          found ==
          if code !in base then None
          else if code == 3 || code == 6 then
            Some(ShuffledBytes(base[code], if lastByte == 0 then clock(code) else lastByte, random))
          else Some(base[code]))
  }

  /** `lastByte` is the last byte of the client's MAC; `clock` is the time at which an option is shuffled. */
  method BuildReplyOptions(store: Store, v6: string -> Option<Quad>, base: Options, networkIP: string, mac: string, dbOk: bool,
                           lastByte: u8, clock: u8 -> int, random: Random)
    returns (options: Options, ghost network: Row, ghost own: Row)
    requires store.Coherent() && InRange(random)
    modifies store`cache
    ensures store.Coherent()
    ensures dbOk && networkIP != "" ==> network == RowOf(store.table, Key("network", networkIP))
    ensures dbOk && mac != "" ==> own == RowOf(store.table, Key("mac", mac))
    ensures forall code: u8 :: Lookup(options, code) == ReplyOption(v6, base, network, own, lastByte, clock, random, code)
    ensures forall code: u8 :: Replied(v6, base, network, own, lastByte, clock, random, code, Lookup(options, code))
  {
    var shuffled := ShuffleBase(base, lastByte, clock, random);
    options, network, own := store.ApplyOptionOverrides(v6, shuffled, networkIP, mac, dbOk);
    forall code: u8
      ensures Replied(v6, base, network, own, lastByte, clock, random, code, Lookup(options, code))
    {
      assert StackedAt(v6, shuffled, network, own, code, Lookup(options, code));
    }
  }

  /** OFFER and ACK agree: with unchanged overrides every code has the same value in both, except that DNS
      and router values may differ in the order of their addresses, and even they are equal when the
      last byte of the MAC is not zero. */
  lemma OfferAndAckAgree(v6: string -> Option<Quad>, base: Options, network: Row, own: Row,
                         lastByte: u8, offerClock: u8 -> int, ackClock: u8 -> int, random: Random, code: u8)
    ensures var offer := ReplyOption(v6, base, network, own, lastByte, offerClock, random, code);
            var ack := ReplyOption(v6, base, network, own, lastByte, ackClock, random, code);
            && (offer.Some? <==> ack.Some?)
            && (!IsShuffled(code) || lastByte != 0 || LayerFor(v6, own, code).Some? || LayerFor(v6, network, code).Some? ==>
                  offer == ack)
            && (offer.Some? ==> multiset(Quads(offer.value)) == multiset(Quads(ack.value)) && |offer.value| == |ack.value|)
  {
    if code in base {
      ShuffleKeepsBlocks(base[code], SeedOf(lastByte, offerClock(code)), random);
      ShuffleKeepsBlocks(base[code], SeedOf(lastByte, ackClock(code)), random);
    }
  }

  /** Whatever the options, the overrides, the clocks and the draws, OFFER and ACK are equal. */
  ghost predicate AlwaysAgree(lastByte: u8) {
    forall v6: string -> Option<Quad>, base: Options, network: Row, own: Row,
      offerClock: u8 -> int, ackClock: u8 -> int, random: Random, code: u8 ::
      InRange(random) ==>
        ReplyOption(v6, base, network, own, lastByte, offerClock, random, code) ==
        ReplyOption(v6, base, network, own, lastByte, ackClock, random, code)
  }

  /** For a MAC ending in 00 the clock is the seed, and two DNS servers can change places in between. */
  lemma OrderCanChange(v6: string -> Option<Quad>) returns (base: Options, offerClock: u8 -> int, ackClock: u8 -> int, random: Random)
    ensures InRange(random)
    ensures ReplyOption(v6, base, None, None, 0, offerClock, random, OPTION_DNS) !=
            ReplyOption(v6, base, None, None, 0, ackClock, random, OPTION_DNS)
  {
    var a: Quad, b: Quad := [1, 1, 1, 1], [2, 2, 2, 2];
    base := map[OPTION_DNS := a + b];
    offerClock, ackClock := (_: u8) => 1, (_: u8) => 2;
    random := (seed: int, n: nat, i: nat) => if seed == 1 then 0 else i;
    TwoBlocks(a, b, random);
  }

  lemma TwoBlocks(a: Quad, b: Quad, random: Random)
    requires random(1, 2, 1) == 0 && random(2, 2, 1) == 1
    ensures ShuffledBytes(a + b, 1, random) == b + a && ShuffledBytes(a + b, 2, random) == a + b
  {
    assert a + b == a + b && (a + b)[..4] == a && (a + b)[4..] == b && b[..4] == b && b[4..] == [];
    assert Quads(a + b) == [a, b];
    assert Swap([a, b], 1, 0) == [b, a] && Swap([a, b], 1, 1) == [a, b];
    FlattenTwo(b, a);
    FlattenTwo(a, b);
  }

  lemma FlattenTwo(a: Quad, b: Quad)
    ensures FlattenBack([a, b]) == a + b
  {
    assert [a, b][..1] == [a] && [a][..0] == [];
    assert FlattenBack([a]) == [] + a;
  }

  /** OFFER and ACK are always equal if and only if the last byte of the MAC is not zero. */
  lemma AlwaysAgreeIff(lastByte: u8)
    ensures AlwaysAgree(lastByte) <==> lastByte != 0
  {
    if lastByte == 0 {
      var v6: string -> Option<Quad> := _ => None;
      var base, offerClock, ackClock, random := OrderCanChange(v6);
    }
  }
}
