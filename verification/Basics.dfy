/** Types and constants shared by every part of the model. */
module Basics {

  datatype Option<+T> = None | Some(value: T)

  const TWO_8: int := 0x100
  const TWO_16: int := 0x1_0000
  const TWO_32: int := 0x1_0000_0000

  type u8 = x: int | 0 <= x < TWO_8
  type u16 = x: int | 0 <= x < TWO_16
  type u32 = x: int | 0 <= x < TWO_32

  /** A hardware address in the textual form that Go's `HardwareAddr.String` prints. */
  type Mac = string

  const FREE_MAC: Mac := "00:00:00:00:00:00"
  const FAKE_MAC: Mac := "ff:ff:ff:ff:ff:ff"

  /** An address a real client can have: neither of the two marker addresses. */
  predicate ClientMac(mac: Mac) {
    mac != FREE_MAC && mac != FAKE_MAC
  }

  /** The indexes 0, ..., n-1. */
  function Indexes(n: nat): (r: set<nat>)
    ensures forall i: int :: i in r <==> 0 <= i < n
  {
    if n == 0 then {} else Indexes(n - 1) + {n - 1}
  }

  lemma {:induction false} IndexesSize(n: nat)
    ensures |Indexes(n)| == n
  {
    if n > 0 {
      IndexesSize(n - 1);
    }
  }

  lemma SubsetSize<T>(a: set<T>, b: set<T>)
    requires a <= b
    ensures |a| <= |b|
  {
    assert b == a + (b - a);
  }

  /** No value occurs twice. */
  ghost predicate Distinct<T(!new)>(s: seq<T>) {
    forall i, j :: 0 <= i < j < |s| ==> s[i] != s[j]
  }

  ghost function Elements<T>(s: seq<T>): set<T> {
    set i | 0 <= i < |s| :: s[i]
  }

  lemma {:induction false} DistinctSize<T(!new)>(s: seq<T>)
    requires Distinct(s)
    ensures |Elements(s)| == |s|
  {
    if s != [] {
      var t := s[..|s| - 1];
      DistinctSize(t);
      assert Elements(s) == Elements(t) + {s[|s| - 1]};
      assert s[|s| - 1] !in Elements(t);
    }
  }
}
