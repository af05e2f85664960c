/** Lists of IPv4 addresses as text: the printer of the option dictionary and the parser of the
    option overrides undo each other. A Go string is a Dafny string whose characters are bytes. */
module IpText {
  import opened Basics
  import opened Decimal

  type Bytes = seq<u8>
  type Quad = b: Bytes | |b| == 4 witness [0, 0, 0, 0]

  // ---------- Splitting and joining ----------

  /** `strings.Split` at one character. */
  function Split(s: string, sep: char): (r: seq<string>)
    ensures |r| >= 1
  {
    if s == [] then [[]]
    else
      var r := Split(s[1..], sep);
      if s[0] == sep then [[]] + r else [[s[0]] + r[0]] + r[1..]
  }

  function Join(parts: seq<string>, sep: char): string {
    if parts == [] then []
    else if |parts| == 1 then parts[0]
    else parts[0] + [sep] + Join(parts[1..], sep)
  }

  lemma {:induction false} JoinOfSplit(s: string, sep: char)
    ensures Join(Split(s, sep), sep) == s
  {
    if s != [] {
      var r := Split(s[1..], sep);
      JoinOfSplit(s[1..], sep);
      var t := Split(s, sep);
      if s[0] == sep {
        assert t[1..] == r;
      } else {
        assert t[1..] == r[1..];
      }
      assert [s[0]] + s[1..] == s;
    }
  }

  lemma {:induction false} SplitPrefix(a: string, s: string, sep: char)
    requires sep !in a
    ensures Split(a + s, sep) == [a + Split(s, sep)[0]] + Split(s, sep)[1..]
  {
    if a == [] {
      assert a + s == s;
      assert a + Split(s, sep)[0] == Split(s, sep)[0];
    } else {
      SplitPrefix(a[1..], s, sep);
      assert (a + s)[1..] == a[1..] + s;
      assert [a[0]] + (a[1..] + Split(s, sep)[0]) == a + Split(s, sep)[0];
    }
  }

  lemma {:induction false} SplitOfJoin(parts: seq<string>, sep: char)
    requires |parts| >= 1 && forall k :: 0 <= k < |parts| ==> sep !in parts[k]
    ensures Split(Join(parts, sep), sep) == parts
  {
    if |parts| == 1 {
      SplitPrefix(parts[0], [], sep);
      assert parts[0] + [] == parts[0];
    } else {
      var tail := [sep] + Join(parts[1..], sep);
      SplitOfJoin(parts[1..], sep);
      SplitPrefix(parts[0], tail, sep);
      assert tail[1..] == Join(parts[1..], sep);
      assert Join(parts, sep) == parts[0] + tail;
      assert parts[0] + [] == parts[0];
    }
  }

  // ---------- One address ----------

  predicate Octet(s: string) {
    Canonical(s) && Value(s) < TWO_8
  }

  /** The dotted form of `net.ParseIP`: four decimal octets without leading zeros. */
  function ParseV4(t: string): Option<Quad> {
    var p := Split(t, '.');
    if |p| == 4 && Octet(p[0]) && Octet(p[1]) && Octet(p[2]) && Octet(p[3])
    then Some([Value(p[0]), Value(p[1]), Value(p[2]), Value(p[3])])
    else None
  }

  function Octets(b: Quad): (r: seq<string>)
    ensures |r| == 4
  {
    [Text(b[0]), Text(b[1]), Text(b[2]), Text(b[3])]
  }

  /** `net.IP.String` of a four-byte address. */
  function PrintV4(b: Quad): string {
    Join(Octets(b), '.')
  }

  lemma JoinTwo(a: string, b: string)
    ensures Join([a, b], '.') == a + ['.'] + b
  {
    assert [a, b][1..] == [b];
  }

  /** An address prints as its four decimal octets with dots between them. */
  lemma PrintV4Is(b: Quad)
    ensures PrintV4(b) == Text(b[0]) + "." + (Text(b[1]) + "." + (Text(b[2]) + "." + Text(b[3])))
  {
    var o := Octets(b);
    JoinTwo(o[2], o[3]);
    assert [o[1], o[2], o[3]][1..] == [o[2], o[3]];
    assert Join([o[1], o[2], o[3]], '.') == o[1] + ['.'] + Join([o[2], o[3]], '.');
    assert o[1..] == [o[1], o[2], o[3]];
    assert Join(o, '.') == o[0] + ['.'] + Join(o[1..], '.');
  }

  lemma TextClean(n: nat, ch: char)
    requires !IsDigit(ch)
    ensures ch !in Text(n)
  {
  }

  lemma ParseOfPrint(b: Quad)
    ensures ParseV4(PrintV4(b)) == Some(b)
  {
    forall k | 0 <= k < 4
      ensures '.' !in Octets(b)[k] && Octet(Octets(b)[k]) && Value(Octets(b)[k]) == b[k]
    {
      TextClean(b[k], '.');
      ValueOfText(b[k]);
    }
    SplitOfJoin(Octets(b), '.');
    var p := Split(PrintV4(b), '.');
    assert p[0] == Octets(b)[0] && p[1] == Octets(b)[1] && p[2] == Octets(b)[2] && p[3] == Octets(b)[3];
    assert b == [b[0], b[1], b[2], b[3]];
  }

  /** Leading zeros are rejected, so a dotted address has one spelling. */
  lemma PrintOfParse(t: string)
    requires ParseV4(t).Some?
    ensures PrintV4(ParseV4(t).value) == t
  {
    var p := Split(t, '.');
    TextOfValue(p[0]);
    TextOfValue(p[1]);
    TextOfValue(p[2]);
    TextOfValue(p[3]);
    assert Octets(ParseV4(t).value) == p;
    JoinOfSplit(t, '.');
  }

  /** Digits and dots only. */
  predicate DigitsAndDots(s: string) {
    forall i :: 0 <= i < |s| ==> IsDigit(s[i]) || s[i] == '.'
  }

  lemma {:induction false} JoinClean(parts: seq<string>)
    requires forall k :: 0 <= k < |parts| ==> AllDigits(parts[k])
    ensures DigitsAndDots(Join(parts, '.'))
  {
    if |parts| > 1 {
      JoinClean(parts[1..]);
    }
  }

  lemma PrintClean(b: Quad)
    ensures DigitsAndDots(PrintV4(b)) && |PrintV4(b)| > 0
  {
    ValueOfText(b[0]);
    ValueOfText(b[1]);
    ValueOfText(b[2]);
    ValueOfText(b[3]);
    JoinClean(Octets(b));
  }

  // ---------- Parsing a list ----------

  predicate IsSpace(ch: char) {
    ch == ' ' || ('\t' <= ch <= '\r')
  }

  function TrimLeft(s: string): string {
    if s != [] && IsSpace(s[0]) then TrimLeft(s[1..]) else s
  }

  function TrimRight(s: string): string {
    if s != [] && IsSpace(s[|s| - 1]) then TrimRight(s[..|s| - 1]) else s
  }

  /** `strings.TrimSpace`. */
  function TrimSpace(s: string): string {
    TrimRight(TrimLeft(s))
  }

  /** The first character that decides how `net.ParseIP` reads the text. */
  function Mark(t: string): Option<char> {
    if t == [] then None else if t[0] in {'.', ':', '%'} then Some(t[0]) else Mark(t[1..])
  }

  /** `net.ParseIP(t).To4()`; `v6` is the reading of texts in IPv6 form, which is left open. */
  function ParseTo4(v6: string -> Option<Quad>, t: string): Option<Quad> {
    if Mark(t) == Some(':') then v6(t) else ParseV4(t)
  }

  /** Blanks, tabs and line ends: the characters 9 to 13 and 32. */
  ghost predicate Blank(s: string) {
    forall i :: 0 <= i < |s| ==> s[i] as int == 32 || 9 <= s[i] as int <= 13
  }

  lemma {:induction false} TrimLeftIs(s: string) returns (lead: string)
    ensures s == lead + TrimLeft(s) && Blank(lead)
    ensures TrimLeft(s) == [] || !Blank([TrimLeft(s)[0]])
  {
    lead := [];
    if s != [] && IsSpace(s[0]) {
      var rest := TrimLeftIs(s[1..]);
      lead := [s[0]] + rest;
      assert s == [s[0]] + (rest + TrimLeft(s[1..]));
      assert lead + TrimLeft(s) == [s[0]] + (rest + TrimLeft(s[1..]));
    } else if s != [] {
      assert [s[0]][0] == s[0];
    }
  }

  lemma {:induction false} TrimRightIs(s: string) returns (trail: string)
    ensures s == TrimRight(s) + trail && Blank(trail)
    ensures TrimRight(s) == [] || !Blank([TrimRight(s)[|TrimRight(s)| - 1]])
  {
    trail := [];
    if s != [] && IsSpace(s[|s| - 1]) {
      var rest := TrimRightIs(s[..|s| - 1]);
      trail := rest + [s[|s| - 1]];
      assert s == s[..|s| - 1] + [s[|s| - 1]];
    } else if s != [] {
      assert [s[|s| - 1]][0] == s[|s| - 1];
    }
  }

  /** Trimming takes away exactly the blanks at both ends. */
  lemma TrimSpaceIs(s: string) returns (lead: string, trail: string)
    ensures s == lead + TrimSpace(s) + trail && Blank(lead) && Blank(trail)
    ensures var t := TrimSpace(s); t == [] || (!Blank([t[0]]) && !Blank([t[|t| - 1]]))
  {
    lead := TrimLeftIs(s);
    trail := TrimRightIs(TrimLeft(s));
    var t, l := TrimSpace(s), TrimLeft(s);
    assert l == t + trail;
    assert lead + t + trail == lead + l;
    if t != [] {
      assert l[0] == t[0];
    }
  }

  /** The text is read as an IPv6 address if the first of its dots, colons and percent signs is a colon, and as
      a dotted address otherwise. */
  lemma {:induction false} ParseTo4Is(v6: string -> Option<Quad>, t: string)
    ensures ParseTo4(v6, t) ==
            if exists k: nat :: k < |t| && t[k] == ':' && forall j: nat :: j < k ==> t[j] != '.' && t[j] != ':' && t[j] != '%'
            then v6(t) else ParseV4(t)
  {
    MarkIs(t);
  }

  lemma {:induction false} MarkIs(t: string)
    ensures Mark(t) == Some(':') <==>
            exists k: nat :: k < |t| && t[k] == ':' && forall j: nat :: j < k ==> t[j] != '.' && t[j] != ':' && t[j] != '%'
  {
    if t != [] && t[0] != '.' && t[0] != ':' && t[0] != '%' {
      MarkIs(t[1..]);
      if Mark(t[1..]) == Some(':') {
        var k: nat :| k < |t[1..]| && t[1..][k] == ':' && forall j: nat :: j < k ==> t[1..][j] != '.' && t[1..][j] != ':' && t[1..][j] != '%';
        assert t[k + 1] == ':';
        forall j: nat | j < k + 1
          ensures t[j] != '.' && t[j] != ':' && t[j] != '%'
        {
          if j > 0 {
            assert t[j] == t[1..][j - 1];
          }
        }
      } else if k: nat :| k < |t| && t[k] == ':' && forall j: nat :: j < k ==> t[j] != '.' && t[j] != ':' && t[j] != '%' {
        assert t[1..][k - 1] == ':';
        assert forall j: nat :: j < k - 1 ==> t[1..][j] == t[j + 1];
      }
    }
  }

  /** The address bytes of the parts, or None if one cannot be read. */
  function PartsToBytes(v6: string -> Option<Quad>, parts: seq<string>): Option<Bytes> {
    if parts == [] then Some([])
    else
      var n := |parts| - 1;
      var before := PartsToBytes(v6, parts[..n]);
      var last := ParseTo4(v6, TrimSpace(parts[n]));
      if before.None? || last.None? then None else Some(before.value + last.value)
  }

  function ListToBytes(v6: string -> Option<Quad>, s: string): Option<Bytes> {
    PartsToBytes(v6, Split(s, ','))
  }

  /** A part that cannot be read makes the whole list unreadable. */
  lemma {:induction false} BadPartFails(v6: string -> Option<Quad>, parts: seq<string>, k: nat)
    requires k < |parts| && ParseTo4(v6, TrimSpace(parts[k])).None?
    ensures PartsToBytes(v6, parts).None?
  {
    if k < |parts| - 1 {
      BadPartFails(v6, parts[..|parts| - 1], k);
    }
  }

  /** Type "ips" of an option override. */
  method ParseList(v6: string -> Option<Quad>, s: string) returns (r: Option<Bytes>)
    ensures r == ListToBytes(v6, s)
  {
    var ipList := Split(s, ',');
    var result: Bytes := [];
    for k := 0 to |ipList|
      invariant PartsToBytes(v6, ipList[..k]) == Some(result)
    {
      assert ipList[..k + 1][..k] == ipList[..k];
      var ip := ParseTo4(v6, TrimSpace(ipList[k]));
      if ip.None? {
        BadPartFails(v6, ipList, k);
        return None;
      }
      result := result + ip.value;
    }
    assert ipList[..|ipList|] == ipList;
    return Some(result);
  }

  // ---------- Printing a list ----------

  function Quads(a: Bytes): (r: seq<Quad>)
    ensures |r| == |a| / 4
  {
    if |a| < 4 then [] else [a[..4]] + Quads(a[4..])
  }

  function Printed(q: seq<Quad>): (r: seq<string>)
    ensures |r| == |q| && forall k :: 0 <= k < |q| ==> r[k] == PrintV4(q[k])
  {
    if q == [] then [] else [PrintV4(q[0])] + Printed(q[1..])
  }

  /** The dotted addresses of the whole four-byte blocks, separated by commas. */
  function PrintList(a: Bytes): string {
    Join(Printed(Quads(a)), ',')
  }

  lemma {:induction false} QuadsSnoc(a: Bytes, q: Quad)
    requires |a| % 4 == 0
    ensures Quads(a + q) == Quads(a) + [q]
  {
    if a == [] {
      assert a + q == q;
      assert q[..4] == q && q[4..] == [];
    } else {
      QuadsSnoc(a[4..], q);
      assert (a + q)[..4] == a[..4] && (a + q)[4..] == a[4..] + q;
    }
  }

  lemma {:induction false} JoinSnoc(parts: seq<string>, p: string, sep: char)
    ensures Join(parts + [p], sep) == if parts == [] then p else Join(parts, sep) + [sep] + p
  {
    if |parts| > 1 {
      JoinSnoc(parts[1..], p, sep);
      assert (parts + [p])[1..] == parts[1..] + [p];
    } else if |parts| == 1 {
      assert (parts + [p])[1..] == [p];
    }
  }

  lemma PrintListSnoc(a: Bytes, q: Quad)
    requires |a| % 4 == 0
    ensures PrintList(a + q) == if a == [] then PrintV4(q) else PrintList(a) + "," + PrintV4(q)
  {
    QuadsSnoc(a, q);
    assert Printed(Quads(a) + [q]) == Printed(Quads(a)) + [PrintV4(q)];
    JoinSnoc(Printed(Quads(a)), PrintV4(q), ',');
    assert a == [] <==> Printed(Quads(a)) == [];
  }

  lemma {:induction false} PrintListIgnoresTail(a: Bytes, tail: Bytes)
    requires |a| % 4 == 0 && |tail| < 4
    ensures Quads(a + tail) == Quads(a)
  {
    if a == [] {
      assert a + tail == tail;
    } else {
      PrintListIgnoresTail(a[4..], tail);
      assert (a + tail)[..4] == a[..4] && (a + tail)[4..] == a[4..] + tail;
    }
  }

  lemma PrintBlock(a: Bytes, m: nat, q: Quad)
    requires 4 * m + 4 <= |a| && q == a[4 * m..4 * m + 4]
    ensures PrintList(a[..4 * m + 4]) == if m == 0 then PrintV4(q) else PrintList(a[..4 * m]) + "," + PrintV4(q)
  {
    assert a[..4 * m + 4] == a[..4 * m] + q;
    PrintListSnoc(a[..4 * m], q);
  }

  lemma PrintWhole(a: Bytes, m: nat)
    requires 4 * m <= |a| < 4 * m + 4
    ensures PrintList(a[..4 * m]) == PrintList(a)
  {
    PrintListIgnoresTail(a[..4 * m], a[4 * m..]);
    assert a == a[..4 * m] + a[4 * m..];
  }

  /** The printer of address options, with its reused four-byte buffer. */
  method PrintAddresses(a: Bytes) returns (ips: string)
    ensures ips == PrintList(a)
  {
    ips := "";
    var temp := new u8[4];
    var i, j := 0, 0;
    ghost var m := 0;
    for n := 0 to |a|
      invariant 0 <= i < 4 && n == 4 * m + i
      invariant temp[..i] == a[4 * m..n]
      invariant ips == PrintList(a[..4 * m])
      invariant j == 0 <==> m == 0
    {
      temp[i] := a[n];
      i := i + 1;
      assert temp[..i] == a[4 * m..n + 1];
      if i == 4 {
        var ip := temp[..];
        PrintBlock(a, m, ip);
        if j == 0 {
          ips := PrintV4(ip);
          j := j + 1;
        } else {
          ips := ips + "," + PrintV4(ip);
        }
        i := 0;
        m := m + 1;
      }
    }
    PrintWhole(a, m);
  }

  // ---------- Round trips ----------

  lemma {:induction false} MarkOfPrinted(s: string)
    requires DigitsAndDots(s)
    ensures Mark(s) != Some(':') && ',' !in s && TrimSpace(s) == s
  {
    if s != [] {
      MarkOfPrinted(s[1..]);
    }
  }

  lemma {:induction false} PrintedToBytes(v6: string -> Option<Quad>, q: seq<Quad>)
    ensures PartsToBytes(v6, Printed(q)) == Some(FlattenBack(q))
  {
    if q != [] {
      var n := |q| - 1;
      PrintedToBytes(v6, q[..n]);
      assert Printed(q)[..n] == Printed(q[..n]);
      PrintClean(q[n]);
      MarkOfPrinted(PrintV4(q[n]));
      ParseOfPrint(q[n]);
    }
  }

  function FlattenBack(q: seq<Quad>): Bytes {
    if q == [] then [] else FlattenBack(q[..|q| - 1]) + q[|q| - 1]
  }

  lemma {:induction false} FlattenQuads(a: Bytes)
    ensures FlattenBack(Quads(a)) == a[..|a| / 4 * 4]
  {
    if |a| >= 4 {
      var n := |a| / 4 - 1;
      var before: Bytes, q: Quad := a[..n * 4], a[n * 4..n * 4 + 4];
      FlattenQuads(before);
      QuadsSnoc(before, q);
      PrintListIgnoresTail(before + q, a[n * 4 + 4..]);
      assert a == before + q + a[n * 4 + 4..];
      assert before[..|before| / 4 * 4] == before;
      assert (Quads(before) + [q])[..n] == Quads(before);
      assert a[..|a| / 4 * 4] == before + q;
    }
  }

  lemma EmptyIsUnreadable(v6: string -> Option<Quad>)
    ensures ListToBytes(v6, "").None?
  {
  }

  lemma PrintedSplits(q: seq<Quad>)
    requires q != []
    ensures Split(Join(Printed(q), ','), ',') == Printed(q)
  {
    var parts := Printed(q);
    forall k | 0 <= k < |parts|
      ensures ',' !in parts[k]
    {
      PrintClean(q[k]);
      MarkOfPrinted(parts[k]);
    }
    SplitOfJoin(parts, ',');
  }

  lemma ReadBackQuads(v6: string -> Option<Quad>, q: seq<Quad>)
    requires q != []
    ensures ListToBytes(v6, Join(Printed(q), ',')) == Some(FlattenBack(q))
  {
    PrintedSplits(q);
    PrintedToBytes(v6, q);
  }

  /** Printing and reading back: a list of whole addresses survives, other lengths lose exactly the
      trailing bytes, and fewer than four bytes print as a text that cannot be read. */
  lemma ReadBackPrinted(v6: string -> Option<Quad>, a: Bytes)
    ensures ListToBytes(v6, PrintList(a)) == if |a| < 4 then None else Some(a[..|a| / 4 * 4])
  {
    if |a| < 4 {
      EmptyIsUnreadable(v6);
    } else {
      ReadBackQuads(v6, Quads(a));
      FlattenQuads(a);
    }
  }

  /** The trimmed parts of a list. */
  function Trimmed(parts: seq<string>): (r: seq<string>)
    ensures |r| == |parts| && forall k :: 0 <= k < |parts| ==> r[k] == TrimSpace(parts[k])
  {
    if parts == [] then [] else [TrimSpace(parts[0])] + Trimmed(parts[1..])
  }

  lemma {:induction false} PartsReadAsQuads(v6: string -> Option<Quad>, parts: seq<string>) returns (q: seq<Quad>)
    requires PartsToBytes(v6, parts).Some?
    ensures |q| == |parts| && PartsToBytes(v6, parts) == Some(FlattenBack(q))
    ensures forall k :: 0 <= k < |q| ==> ParseTo4(v6, TrimSpace(parts[k])) == Some(q[k])
  {
    if parts == [] {
      q := [];
    } else {
      var n := |parts| - 1;
      var before := PartsReadAsQuads(v6, parts[..n]);
      q := before + [ParseTo4(v6, TrimSpace(parts[n])).value];
      assert q[..n] == before;
    }
  }

  lemma {:induction false} QuadsOfFlatten(q: seq<Quad>)
    ensures |FlattenBack(q)| == 4 * |q| && Quads(FlattenBack(q)) == q
  {
    if q != [] {
      var n := |q| - 1;
      QuadsOfFlatten(q[..n]);
      QuadsSnoc(FlattenBack(q[..n]), q[n]);
    }
  }

  /** No part of the list is in IPv6 form. */
  ghost predicate AllDotted(parts: seq<string>) {
    forall k :: 0 <= k < |parts| ==> Mark(TrimSpace(parts[k])) != Some(':')
  }

  lemma DottedPrintBack(v6: string -> Option<Quad>, parts: seq<string>, q: seq<Quad>)
    requires AllDotted(parts) && |q| == |parts|
    requires forall k :: 0 <= k < |q| ==> ParseTo4(v6, TrimSpace(parts[k])) == Some(q[k])
    ensures Printed(q) == Trimmed(parts)
  {
    forall k | 0 <= k < |parts|
      ensures Printed(q)[k] == Trimmed(parts)[k]
    {
      PrintOfParse(TrimSpace(parts[k]));
    }
  }

  /** Reading and printing back: a readable list gives four bytes per part; printing them gives the
      canonical list, which reads as the same bytes, and if no part is in IPv6 form it is the list
      itself without the spaces around its parts. */
  lemma PrintBackRead(v6: string -> Option<Quad>, s: string)
    requires ListToBytes(v6, s).Some?
    ensures var b := ListToBytes(v6, s).value;
            && |b| == 4 * |Split(s, ',')|
            && ListToBytes(v6, PrintList(b)) == Some(b)
            && (AllDotted(Split(s, ',')) ==> PrintList(b) == Join(Trimmed(Split(s, ',')), ','))
  {
    var parts, b := Split(s, ','), ListToBytes(v6, s).value;
    var q := PartsReadAsQuads(v6, parts);
    QuadsOfFlatten(q);
    ReadBackPrinted(v6, b);
    assert b[..|b| / 4 * 4] == b;
    if AllDotted(parts) {
      DottedPrintBack(v6, parts, q);
    }
  }
}
