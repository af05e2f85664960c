/** Option overrides: converting a configured value to wire bytes, and layering MAC options over
    network options over the base options. */
module Overrides {
  import opened Basics
  import opened Decimal
  import opened IpText

  datatype DHCPOption = DHCPOption(code: int, value: string, kind: string)

  type Options = map<u8, Bytes>

  // ---------- Conversion ----------

  function StringBytes(s: string): (b: Bytes)
    ensures |b| == |s|
  {
    seq(|s|, i requires 0 <= i < |s| => s[i] as int % TWO_8)
  }

  /** `strconv.ParseUint` in base ten, for values below the bound. */
  function ParseUint(s: string, bound: nat): Option<nat> {
    if s != [] && AllDigits(s) && Value(s) < bound then Some(Value(s)) else None
  }

  function PutBigEndian(n: nat, width: nat): (b: Bytes)
    ensures |b| == width
  {
    if width == 0 then [] else PutBigEndian(n / TWO_8, width - 1) + [n % TWO_8]
  }

  function GetBigEndian(b: Bytes): nat {
    if b == [] then 0 else GetBigEndian(b[..|b| - 1]) * TWO_8 + b[|b| - 1]
  }

  function IntegerBytes(s: string, bound: nat, width: nat): Option<Bytes> {
    var n := ParseUint(s, bound);
    if n.Some? then Some(PutBigEndian(n.value, width)) else None
  }

  /** Removes "0x", "0X" and the separators, scanning from the left. */
  function CleanHex(s: string): string {
    if |s| >= 2 && s[0] == '0' && (s[1] == 'x' || s[1] == 'X') then CleanHex(s[2..])
    else if s == [] then []
    else if s[0] in {':', '-', ' '} then CleanHex(s[1..])
    else [s[0]] + CleanHex(s[1..])
  }

  function HexValue(ch: char): Option<nat> {
    if '0' <= ch <= '9' then Some(ch as int - '0' as int)
    else if 'a' <= ch <= 'f' then Some(ch as int - 'a' as int + 10)
    else if 'A' <= ch <= 'F' then Some(ch as int - 'A' as int + 10)
    else None
  }

  /** `hex.DecodeString`. */
  function DecodeHex(s: string): Option<Bytes> {
    if s == [] then Some([])
    else if |s| == 1 then None
    else
      var high, low, rest := HexValue(s[0]), HexValue(s[1]), DecodeHex(s[2..]);
      if high.Some? && low.Some? && rest.Some? && high.value < 16 && low.value < 16
      then Some([high.value * 16 + low.value] + rest.value) else None
  }

  function ValueBytes(v6: string -> Option<Quad>, kind: string, value: string): Option<Bytes> {
    if kind == "ip" then ParseTo4(v6, value)
    else if kind == "ips" then ListToBytes(v6, value)
    else if kind == "string" then Some(StringBytes(value))
    else if kind == "uint32" then IntegerBytes(value, TWO_32, 4)
    else if kind == "uint16" then IntegerBytes(value, TWO_16, 2)
    else if kind == "uint8" then IntegerBytes(value, TWO_8, 1)
    else if kind == "hex" then DecodeHex(CleanHex(value))
    else None
  }

  /** The option code is cut to a byte; None is a conversion error. */
  function Convert(v6: string -> Option<Quad>, o: DHCPOption): Option<(u8, Bytes)> {
    var b := ValueBytes(v6, o.kind, o.value);
    if b.Some? then Some((o.code % TWO_8, b.value)) else None
  }

  /** Which texts a type can hold. */
  predicate Readable(v6: string -> Option<Quad>, kind: string, value: string) {
    if kind == "ip" then ParseTo4(v6, value).Some?
    else if kind == "ips" then
      var parts := Split(value, ',');
      forall k :: 0 <= k < |parts| ==> ParseTo4(v6, TrimSpace(parts[k])).Some?
    else if kind == "string" then true
    else if kind == "uint32" then Numeral(value, TWO_32)
    else if kind == "uint16" then Numeral(value, TWO_16)
    else if kind == "uint8" then Numeral(value, TWO_8)
    else kind == "hex" && HexDigits(CleanHex(value))
  }

  predicate Numeral(s: string, bound: nat) {
    s != [] && AllDigits(s) && Value(s) < bound
  }

  predicate HexDigits(s: string) {
    |s| % 2 == 0 && forall k :: 0 <= k < |s| ==> HexValue(s[k]).Some?
  }

  /** How many bytes a text takes on the wire. */
  function WireLength(kind: string, value: string): int {
    if kind == "ip" || kind == "uint32" then 4
    else if kind == "ips" then 4 * |Split(value, ',')|
    else if kind == "string" then |value|
    else if kind == "uint16" then 2
    else if kind == "uint8" then 1
    else |CleanHex(value)| / 2
  }

  lemma {:induction false} PartsReadable(v6: string -> Option<Quad>, parts: seq<string>)
    ensures PartsToBytes(v6, parts).Some? <==> forall k :: 0 <= k < |parts| ==> ParseTo4(v6, TrimSpace(parts[k])).Some?
    ensures PartsToBytes(v6, parts).Some? ==> |PartsToBytes(v6, parts).value| == 4 * |parts|
  {
    if parts != [] {
      var n := |parts| - 1;
      PartsReadable(v6, parts[..n]);
      assert forall k :: 0 <= k < n ==> parts[..n][k] == parts[k];
    }
  }

  lemma {:induction false} HexReadable(s: string)
    ensures DecodeHex(s).Some? <==> HexDigits(s)
    ensures DecodeHex(s).Some? ==> |DecodeHex(s).value| == |s| / 2
  {
    if |s| >= 2 {
      HexReadable(s[2..]);
      assert forall k :: 2 <= k < |s| ==> s[2..][k - 2] == s[k];
      assert HexDigits(s) <==> HexValue(s[0]).Some? && HexValue(s[1]).Some? && HexDigits(s[2..]);
    }
  }

  /** An option converts exactly when its type can hold its text, and then to as many bytes as that takes. */
  lemma ConvertsIffReadable(v6: string -> Option<Quad>, o: DHCPOption)
    ensures Convert(v6, o).Some? <==> Readable(v6, o.kind, o.value)
    ensures Convert(v6, o).Some? ==> |Convert(v6, o).value.1| == WireLength(o.kind, o.value)
  {
    PartsReadable(v6, Split(o.value, ','));
    HexReadable(CleanHex(o.value));
  }

  /** Converts the text of an option by its type; the code is cut to a byte. */
  method ConvertOptionToDHCP(v6: string -> Option<Quad>, o: DHCPOption) returns (r: Option<(u8, Bytes)>)
    ensures r == Convert(v6, o)
    ensures r.Some? <==> Readable(v6, o.kind, o.value)
    ensures r.Some? ==> r.value.0 == o.code % TWO_8 && |r.value.1| == WireLength(o.kind, o.value)
    ensures o.kind == "string" ==>
              r.Some? && |r.value.1| == |o.value| && forall i :: 0 <= i < |o.value| ==> r.value.1[i] == o.value[i] as int % 256
  {
    ConvertsIffReadable(v6, o);
    var code := o.code % TWO_8;
    match o.kind
    case "ip" =>
      var ip := ParseTo4(v6, o.value);
      return if ip.None? then None else Some((code, ip.value));
    case "ips" =>
      var list := ParseList(v6, o.value);
      return if list.None? then None else Some((code, list.value));
    case "string" => return Some((code, StringBytes(o.value)));
    case "uint32" =>
      var val := ParseUint(o.value, TWO_32);
      return if val.None? then None else Some((code, PutBigEndian(val.value, 4)));
    case "uint16" =>
      var val := ParseUint(o.value, TWO_16);
      return if val.None? then None else Some((code, PutBigEndian(val.value, 2)));
    case "uint8" =>
      var val := ParseUint(o.value, TWO_8);
      return if val.None? then None else Some((code, PutBigEndian(val.value, 1)));
    case "hex" =>
      var decoded := DecodeHex(CleanHex(o.value));
      return if decoded.None? then None else Some((code, decoded.value));
    case _ => return None;
  }

  function Power256(width: nat): nat {
    if width == 0 then 1 else TWO_8 * Power256(width - 1)
  }

  lemma {:induction false} BigEndianRoundTrip(n: nat, width: nat)
    requires n < Power256(width)
    ensures GetBigEndian(PutBigEndian(n, width)) == n
  {
    if width > 0 {
      BigEndianRoundTrip(n / TWO_8, width - 1);
      var b := PutBigEndian(n, width);
      assert b[..|b| - 1] == PutBigEndian(n / TWO_8, width - 1);
    }
  }

  /** An integer option converts exactly when it is a numeral in range, and a receiver reads the number
      back; the decimal text of every number in range converts. */
  lemma IntegerOption(s: string, width: nat)
    ensures var b := IntegerBytes(s, Power256(width), width);
            && (b.Some? <==> s != [] && AllDigits(s) && Value(s) < Power256(width))
            && (b.Some? ==> |b.value| == width && GetBigEndian(b.value) == Value(s))
    ensures forall n: nat :: n < Power256(width) ==> IntegerBytes(Text(n), Power256(width), width) == Some(PutBigEndian(n, width))
  {
    if ParseUint(s, Power256(width)).Some? {
      BigEndianRoundTrip(Value(s), width);
    }
    forall n: nat | n < Power256(width)
      ensures IntegerBytes(Text(n), Power256(width), width) == Some(PutBigEndian(n, width))
    {
      ValueOfText(n);
    }
  }

  /** Neither a separator nor the letter of a prefix. */
  predicate Plain(ch: char) {
    ch != ':' && ch != '-' && ch != ' ' && ch != 'x' && ch != 'X'
  }

  function HexDigit(n: nat): (r: char)
    requires n < 16
    ensures HexValue(r) == Some(n) && Plain(r)
  {
    if n < 10 then ('0' as int + n) as char else ('a' as int + n - 10) as char
  }

  /** Two hexadecimal digits a byte, each byte followed by the separator text. */
  function HexText(b: Bytes, sep: string): string {
    if b == [] then [] else [HexDigit(b[0] / 16)] + ([HexDigit(b[0] % 16)] + (sep + HexText(b[1..], sep)))
  }

  lemma CleanPair(d0: char, d1: char, tail: string)
    requires Plain(d0) && Plain(d1)
    requires tail == [] || (tail[0] != 'x' && tail[0] != 'X')
    ensures CleanHex([d0] + ([d1] + tail)) == [d0] + ([d1] + CleanHex(tail))
  {
  }

  lemma DecodeByte(x: u8, rest: string)
    requires DecodeHex(rest).Some?
    ensures DecodeHex([HexDigit(x / 16)] + ([HexDigit(x % 16)] + rest)) == Some([x] + DecodeHex(rest).value)
  {
    var t := [HexDigit(x / 16)] + ([HexDigit(x % 16)] + rest);
    assert t[2..] == rest;
  }

  lemma CleanFirst(b: Bytes, sep: string)
    requires b != [] && (sep == "" || sep == ":" || sep == "-" || sep == " ")
    ensures CleanHex(HexText(b, sep)) ==
            [HexDigit(b[0] / 16)] + ([HexDigit(b[0] % 16)] + CleanHex(HexText(b[1..], sep)))
  {
    var rest := HexText(b[1..], sep);
    FirstIsNotX(b[1..], sep);
    CleanPair(HexDigit(b[0] / 16), HexDigit(b[0] % 16), sep + rest);
    SeparatorVanishes(sep, rest);
  }

  /** Hexadecimal text converts to its bytes, with any of the separators or none between them. */
  lemma {:induction false} HexRoundTrip(b: Bytes, sep: string)
    requires sep == "" || sep == ":" || sep == "-" || sep == " "
    ensures DecodeHex(CleanHex(HexText(b, sep))) == Some(b)
  {
    if b != [] {
      HexRoundTrip(b[1..], sep);
      CleanFirst(b, sep);
      DecodeByte(b[0], CleanHex(HexText(b[1..], sep)));
      assert [b[0]] + b[1..] == b;
    }
  }

  lemma SeparatorVanishes(sep: string, rest: string)
    requires sep == "" || sep == ":" || sep == "-" || sep == " "
    ensures CleanHex(sep + rest) == CleanHex(rest)
  {
    if sep == "" {
      assert sep + rest == rest;
    } else {
      assert (sep + rest)[1..] == rest;
    }
  }

  lemma FirstIsNotX(b: Bytes, sep: string)
    requires sep == "" || sep == ":" || sep == "-" || sep == " "
    ensures var t := sep + HexText(b, sep); t == [] || (t[0] != 'x' && t[0] != 'X')
  {
  }

  /** Every address has a text that converts to it. */
  lemma AddressInverts(v6: string -> Option<Quad>, code: int, q: Quad)
    ensures Convert(v6, DHCPOption(code, PrintV4(q), "ip")) == Some((code % TWO_8, q))
  {
    PrintClean(q);
    MarkOfPrinted(PrintV4(q));
    ParseOfPrint(q);
  }

  /** So has every non-empty list of addresses. */
  lemma ListInverts(v6: string -> Option<Quad>, code: int, list: Bytes)
    requires |list| >= 4 && |list| % 4 == 0
    ensures Convert(v6, DHCPOption(code, PrintList(list), "ips")) == Some((code % TWO_8, list))
  {
    ReadBackPrinted(v6, list);
    assert list[..|list| / 4 * 4] == list;
  }

  /** So has every number in range. */
  lemma NumberInverts(v6: string -> Option<Quad>, code: int, n: nat)
    ensures n < TWO_32 ==> Convert(v6, DHCPOption(code, Text(n), "uint32")) == Some((code % TWO_8, PutBigEndian(n, 4)))
    ensures n < TWO_16 ==> Convert(v6, DHCPOption(code, Text(n), "uint16")) == Some((code % TWO_8, PutBigEndian(n, 2)))
    ensures n < TWO_8 ==> Convert(v6, DHCPOption(code, Text(n), "uint8")) == Some((code % TWO_8, PutBigEndian(n, 1)))
  {
    ValueOfText(n);
  }

  /** So has every byte sequence, in hexadecimal with any separator. */
  lemma HexInverts(v6: string -> Option<Quad>, code: int, b: Bytes, sep: string)
    requires sep == "" || sep == ":" || sep == "-" || sep == " "
    ensures Convert(v6, DHCPOption(code, HexText(b, sep), "hex")) == Some((code % TWO_8, b))
  {
    HexRoundTrip(b, sep);
  }

  /** The text whose characters are the given bytes. */
  function TextOf(b: Bytes): (t: string)
    ensures |t| == |b| && forall i :: 0 <= i < |b| ==> t[i] as int == b[i]
  {
    seq(|b|, i requires 0 <= i < |b| => b[i] as char)
  }

  /** Every byte sequence is the conversion of its own text. */
  lemma StringInverts(v6: string -> Option<Quad>, code: int, b: Bytes)
    ensures Convert(v6, DHCPOption(code, TextOf(b), "string")) == Some((code % TWO_8, b))
  {
    assert StringBytes(TextOf(b)) == b;
  }

  /** A prefix "0x" or "0X" makes no difference. */
  lemma HexPrefix(v6: string -> Option<Quad>, code: int, value: string)
    ensures Convert(v6, DHCPOption(code, "0x" + value, "hex")) == Convert(v6, DHCPOption(code, value, "hex"))
    ensures Convert(v6, DHCPOption(code, "0X" + value, "hex")) == Convert(v6, DHCPOption(code, value, "hex"))
  {
    assert ("0x" + value)[2..] == value && ("0X" + value)[2..] == value;
  }

  /** The small letter of a capital digit. */
  function Small(ch: char): char {
    if 'A' <= ch <= 'F' then (ch as int - 'A' as int + 'a' as int) as char else ch
  }

  function SmallText(s: string): (t: string)
    ensures |t| == |s| && forall i :: 0 <= i < |s| ==> t[i] == Small(s[i])
  {
    seq(|s|, i requires 0 <= i < |s| => Small(s[i]))
  }

  lemma {:induction false} SmallDecodes(s: string)
    ensures DecodeHex(SmallText(s)) == DecodeHex(s)
  {
    if |s| >= 2 {
      SmallDecodes(s[2..]);
      assert SmallText(s)[2..] == SmallText(s[2..]);
    }
  }

  lemma {:induction false} SmallCleans(s: string)
    ensures CleanHex(SmallText(s)) == SmallText(CleanHex(s))
    decreases |s|
  {
    if s != [] {
      var t := SmallText(s);
      assert t[1..] == SmallText(s[1..]);
      SmallCleans(s[1..]);
      if |s| >= 2 {
        assert t[2..] == SmallText(s[2..]);
        SmallCleans(s[2..]);
      }
      assert SmallText([s[0]] + CleanHex(s[1..])) == [Small(s[0])] + SmallText(CleanHex(s[1..]));
    }
  }

  /** Capital digits read like small ones. */
  lemma HexCapitals(v6: string -> Option<Quad>, code: int, value: string)
    ensures Convert(v6, DHCPOption(code, SmallText(value), "hex")) == Convert(v6, DHCPOption(code, value, "hex"))
  {
    SmallCleans(value);
    SmallDecodes(CleanHex(value));
  }

  // ---------- Layers ----------

  function Lookup(m: Options, code: u8): Option<Bytes> {
    if code in m then Some(m[code]) else None
  }

  /** The value of the last option of the list that converts to this code. */
  function LastFor(v6: string -> Option<Quad>, options: seq<DHCPOption>, code: u8): Option<Bytes> {
    if options == [] then None
    else
      var n := |options| - 1;
      var r := Convert(v6, options[n]);
      if r.Some? && r.value.0 == code then Some(r.value.1) else LastFor(v6, options[..n], code)
  }

  /** A row of the override table, or no row. */
  type Row = Option<seq<DHCPOption>>

  function LayerFor(v6: string -> Option<Quad>, row: Row, code: u8): Option<Bytes> {
    if row.Some? then LastFor(v6, row.value, code) else None
  }

  /** Option k of the list converts to this code and value. */
  predicate Sets(v6: string -> Option<Quad>, options: seq<DHCPOption>, k: nat, code: u8, value: Bytes) {
    k < |options| && Convert(v6, options[k]) == Some((code, value))
  }

  /** The row's last convertible option for the code has this value. */
  ghost predicate Gives(v6: string -> Option<Quad>, row: Row, code: u8, value: Bytes) {
    row.Some? && exists k: nat :: Sets(v6, row.value, k, code, value) &&
                  forall j: nat, other :: Sets(v6, row.value, j, code, other) ==> j <= k
  }

  ghost predicate Leaves(v6: string -> Option<Quad>, row: Row, code: u8) {
    row.Some? ==> forall k: nat, value :: !Sets(v6, row.value, k, code, value)
  }

  lemma SetsBefore(v6: string -> Option<Quad>, options: seq<DHCPOption>, n: nat, k: nat, code: u8, value: Bytes)
    requires n <= |options|
    ensures Sets(v6, options[..n], k, code, value) <==> k < n && Sets(v6, options, k, code, value)
  {
  }

  /** The last option of the list converts to the code. */
  lemma LastSets(v6: string -> Option<Quad>, options: seq<DHCPOption>, code: u8, value: Bytes)
    requires options != [] && Sets(v6, options, |options| - 1, code, value)
    ensures Gives(v6, Some(options), code, value)
  {
  }

  /** The last option of the list does not, so the shorter list decides. */
  lemma EarlierSets(v6: string -> Option<Quad>, options: seq<DHCPOption>, code: u8)
    requires options != [] && (Convert(v6, options[|options| - 1]).None? || Convert(v6, options[|options| - 1]).value.0 != code)
    ensures forall value :: Gives(v6, Some(options[..|options| - 1]), code, value) ==> Gives(v6, Some(options), code, value)
    ensures Leaves(v6, Some(options[..|options| - 1]), code) ==> Leaves(v6, Some(options), code)
  {
    var n := |options| - 1;
    forall k: nat, value
      ensures Sets(v6, options[..n], k, code, value) <==> Sets(v6, options, k, code, value)
    {
      SetsBefore(v6, options, n, k, code, value);
    }
  }

  lemma {:induction false} LastForIs(v6: string -> Option<Quad>, options: seq<DHCPOption>, code: u8)
    ensures LastFor(v6, options, code).Some? ==> Gives(v6, Some(options), code, LastFor(v6, options, code).value)
    ensures LastFor(v6, options, code).None? ==> Leaves(v6, Some(options), code)
  {
    if options != [] {
      var n := |options| - 1;
      var r := Convert(v6, options[n]);
      if r.Some? && r.value.0 == code {
        LastSets(v6, options, code, r.value.1);
      } else {
        LastForIs(v6, options[..n], code);
        EarlierSets(v6, options, code);
      }
    }
  }

  /** A layer is the last convertible option of its row, and there is none exactly if no option converts to the
      code. */
  lemma LayerIs(v6: string -> Option<Quad>, row: Row, code: u8)
    ensures LayerFor(v6, row, code).Some? ==> Gives(v6, row, code, LayerFor(v6, row, code).value)
    ensures LayerFor(v6, row, code).None? <==> Leaves(v6, row, code)
  {
    if row.Some? {
      LastForIs(v6, row.value, code);
    }
  }

  lemma GivesOnce(v6: string -> Option<Quad>, row: Row, code: u8, a: Bytes, b: Bytes)
    requires Gives(v6, row, code, a) && Gives(v6, row, code, b)
    ensures a == b
  {
  }

  /** The meaning of overrides: the MAC layer, else the network layer, else the base value. */
  function Layered(v6: string -> Option<Quad>, base: Options, network: Row, mac: Row, code: u8): Option<Bytes> {
    var m := LayerFor(v6, mac, code);
    var n := LayerFor(v6, network, code);
    if m.Some? then m else if n.Some? then n else Lookup(base, code)
  }

  /** Writes the convertible options of a row over the result. */
  method ApplyRow(v6: string -> Option<Quad>, base: Options, row: Row) returns (result: Options)
    ensures forall code: u8 :: Lookup(result, code) ==
              if LayerFor(v6, row, code).Some? then LayerFor(v6, row, code) else Lookup(base, code)
  {
    result := base;
    if row.None? {
      return;
    }
    var options := row.value;
    for k := 0 to |options|
      invariant forall code: u8 :: Lookup(result, code) ==
                  if LastFor(v6, options[..k], code).Some? then LastFor(v6, options[..k], code) else Lookup(base, code)
    {
      assert options[..k + 1][..k] == options[..k];
      var r := ConvertOptionToDHCP(v6, options[k]);
      if r.Some? {
        result := result[r.value.0 := r.value.1];
      }
    }
    assert options[..|options|] == options;
  }

  /** The two layers of `ApplyOptionOverrides`; a layer that could not be read is None. */
  method ApplyRows(v6: string -> Option<Quad>, base: Options, network: Row, mac: Row) returns (result: Options)
    ensures forall code: u8 :: Lookup(result, code) == Layered(v6, base, network, mac, code)
    ensures Stacked(v6, base, network, mac, result)
  {
    var middle := ApplyRow(v6, base, network);
    result := ApplyRow(v6, middle, mac);
    LayeredIs(v6, base, network, mac, result);
  }

  /** The code has the value the MAC row gives it, else the one the network row gives it, else the base value. */
  ghost predicate StackedAt(v6: string -> Option<Quad>, base: Options, network: Row, mac: Row, code: u8, found: Option<Bytes>) {
    && (forall value :: Gives(v6, mac, code, value) ==> found == Some(value))
    && (forall value :: Gives(v6, network, code, value) && Leaves(v6, mac, code) ==> found == Some(value))
    && (Leaves(v6, mac, code) && Leaves(v6, network, code) ==> found == if code in base then Some(base[code]) else None)
  }

  ghost predicate Stacked(v6: string -> Option<Quad>, base: Options, network: Row, mac: Row, result: Options) {
    forall code: u8 :: StackedAt(v6, base, network, mac, code, Lookup(result, code))
  }

  lemma LayeredIs(v6: string -> Option<Quad>, base: Options, network: Row, mac: Row, result: Options)
    requires forall code: u8 :: Lookup(result, code) == Layered(v6, base, network, mac, code)
    ensures Stacked(v6, base, network, mac, result)
  {
    forall code: u8
      ensures StackedAt(v6, base, network, mac, code, Lookup(result, code))
    {
      assert Lookup(result, code) == Layered(v6, base, network, mac, code);
      LayerIs(v6, mac, code);
      LayerIs(v6, network, code);
      LayerValue(v6, mac, code);
      LayerValue(v6, network, code);
    }
  }

  lemma LayerValue(v6: string -> Option<Quad>, row: Row, code: u8)
    ensures forall value :: Gives(v6, row, code, value) ==> LayerFor(v6, row, code) == Some(value)
  {
    LayerIs(v6, row, code);
    forall value | Gives(v6, row, code, value)
      ensures LayerFor(v6, row, code) == Some(value)
    {
      assert !Leaves(v6, row, code);
      GivesOnce(v6, row, code, value, LayerFor(v6, row, code).value);
    }
  }
}
