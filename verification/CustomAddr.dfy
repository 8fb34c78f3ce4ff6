/**
 * Custom transport addresses: the inline/heap representation, the binary encoding
 * (8-byte little-endian id, then the data) and the text encoding `<hex id>_<hex data>`.
 */
module CustomAddr {
  import opened Wrappers
  import opened Digits
  import opened Bytes

  const INLINE_CAPACITY: nat := 30

  datatype AddrBytes =
    | Inline(size: byte, data: seq<byte>)
    | Heap(bytes: seq<byte>)

  datatype Addr = Addr(id: u64, data: AddrBytes)

  datatype ParseError = MissingSeparator | InvalidId | InvalidData

  // Representation --------------------------------------------------------------------------

  /** The short form is a zero-padded buffer with its length, the long form is the data itself. */
  function CopyFromSlice(data: seq<byte>): (r: AddrBytes)
    ensures WellFormedBytes(r) && AsBytes(r) == data
    ensures r.Inline? <==> |data| <= 30
  {
    if |data| <= INLINE_CAPACITY
    then Inline(|data|, data + seq(INLINE_CAPACITY - |data|, _ => 0))
    else Heap(data)
  }

  ghost predicate WellFormedBytes(b: AddrBytes) {
    match b
    case Inline(size, data) =>
      && size <= INLINE_CAPACITY == |data|
      && forall i | size <= i < INLINE_CAPACITY :: data[i] == 0
    case Heap(bytes) => |bytes| > INLINE_CAPACITY
  }

  function AsBytes(b: AddrBytes): (s: seq<byte>)
    requires WellFormedBytes(b)
  {
    match b
    case Inline(size, data) => data[..size]
    case Heap(bytes) => bytes
  }

  ghost predicate WellFormed(a: Addr) {
    WellFormedBytes(a.data)
  }

  function FromParts(id: u64, data: seq<byte>): (a: Addr)
    ensures WellFormed(a) && a.id == id && AsBytes(a.data) == data
  {
    Addr(id, CopyFromSlice(data))
  }

  /** Derived equality on the representation is equality of id and data, and nothing else. */
  lemma EqualIffSameParts(a: Addr, b: Addr)
    requires WellFormed(a) && WellFormed(b)
    ensures a == b <==> a.id == b.id && AsBytes(a.data) == AsBytes(b.data)
    ensures a == FromParts(a.id, AsBytes(a.data))
  {
    var s := AsBytes(a.data);
    assert a.data == CopyFromSlice(s) by {
      if a.data.Inline? {
        assert a.data.data == s + seq(INLINE_CAPACITY - |s|, _ => 0);
      }
    }
    var t := AsBytes(b.data);
    assert b.data == CopyFromSlice(t) by {
      if b.data.Inline? {
        assert b.data.data == t + seq(INLINE_CAPACITY - |t|, _ => 0);
      }
    }
  }

  // Binary encoding -------------------------------------------------------------------------

  method ToVec(a: Addr) returns (out: seq<byte>)
    requires WellFormed(a)
    ensures out == ToLe(a.id, 8) + AsBytes(a.data)
  {
    out := Fill(ToLe(a.id, 8), AsBytes(a.data));
  }

  /** Allocates a zeroed buffer and copies the head and then the tail into it. */
  method Fill(head: seq<byte>, tail: seq<byte>) returns (out: seq<byte>)
    ensures out == head + tail
  {
    var buf := new byte[|head| + |tail|](_ => 0);
    for i := 0 to |head|
      invariant forall k | 0 <= k < i :: buf[k] == head[k]
    {
      buf[i] := head[i];
    }
    for i := 0 to |tail|
      invariant forall k | 0 <= k < |head| + i :: buf[k] == (head + tail)[k]
    {
      buf[|head| + i] := tail[i];
    }
    out := buf[..];
  }

  function FromBytes(s: seq<byte>): (r: Result<Addr, string>)
    ensures r.Ok? <==> |s| >= 8
    ensures r.Ok? ==> WellFormed(r.value)
  {
    if |s| < 8 then Err("data too short")
    else
      Widths();
      BeOfBytes(Reverse(s[..8]));
      Ok(FromParts(FromLe(s[..8]), s[8..]))
  }

  lemma DecodeEncoded(a: Addr)
    requires WellFormed(a)
    ensures FromBytes(ToLe(a.id, 8) + AsBytes(a.data)) == Ok(a)
  {
    var s := ToLe(a.id, 8) + AsBytes(a.data);
    assert s[..8] == ToLe(a.id, 8) && s[8..] == AsBytes(a.data);
    Widths();
    LeRoundTrip(a.id, 8);
    EqualIffSameParts(a, a);
  }

  lemma EncodeDecoded(s: seq<byte>)
    requires |s| >= 8
    ensures FromBytes(s).Ok?
    ensures var a := FromBytes(s).value; ToLe(a.id, 8) + AsBytes(a.data) == s
  {
    LeOfBytes(s[..8]);
  }

  // Text encoding ---------------------------------------------------------------------------

  const HEX: string := "0123456789abcdef"

  function HexChar(d: nat): (c: char)
    requires d < 16
    ensures LowerDigit(c) == Some(d)
  {
    HEX[d]
  }

  /** A lower-case hexadecimal digit. */
  function LowerDigit(c: char): (d: Option<nat>)
    ensures d.Some? ==> d.value < 16 && HEX[d.value] == c
  {
    if '0' <= c <= '9' then Some(c as nat - '0' as nat)
    else if 'a' <= c <= 'f' then Some(c as nat - 'a' as nat + 10)
    else None
  }

  /** `char::to_digit(16)`, which takes upper case as well. */
  function ToDigit16(c: char): (d: Option<nat>)
    ensures d.Some? ==> d.value < 16
  {
    if 'A' <= c <= 'F' then Some(c as nat - 'A' as nat + 10) else LowerDigit(c)
  }

  function PrintDigits(d: seq<nat>): (s: string)
    requires AreDigits(d, 16)
    ensures |s| == |d| && forall i | 0 <= i < |d| :: LowerDigit(s[i]) == Some(d[i])
  {
    seq(|d|, i requires 0 <= i < |d| => HexChar(d[i]))
  }

  predicate AllDigits(s: string) {
    forall i | 0 <= i < |s| :: ToDigit16(s[i]).Some?
  }

  function ReadDigits(s: string): (d: seq<nat>)
    requires AllDigits(s)
    ensures AreDigits(d, 16) && |d| == |s|
    ensures forall i | 0 <= i < |s| :: d[i] == ToDigit16(s[i]).value
  {
    seq(|s|, i requires 0 <= i < |s| => ToDigit16(s[i]).value)
  }

  /** `u64::from_str_radix(_, 16)`: one optional `+`, then at least one digit, no overflow. */
  function ParseId(s: string): (r: Option<u64>) {
    var digits := if |s| >= 1 && s[0] == '+' then s[1..] else s;
    if digits == [] || !AllDigits(digits) then None
    else
      var n := Value(ReadDigits(digits), 16);
      if n < U64_LIMIT then Some(n) else None
  }

  /** A hexadecimal digit in either case. */
  predicate IsHexDigit(c: char, d: nat) {
    || (d < 10 && c as int == '0' as int + d)
    || (10 <= d < 16 && (c as int == 'a' as int + d - 10 || c as int == 'A' as int + d - 10))
  }

  predicate AreHexDigits(s: string, d: seq<nat>) {
    |s| == |d| && forall i | 0 <= i < |s| :: IsHexDigit(s[i], d[i])
  }

  lemma ToDigit16Means(c: char, d: nat)
    ensures ToDigit16(c) == Some(d) <==> IsHexDigit(c, d)
    ensures IsHexDigit(c, d) ==> c != '+'
  {}

  lemma ReadHexDigits(s: string, d: seq<nat>)
    requires AreHexDigits(s, d)
    ensures AllDigits(s) && ReadDigits(s) == d && AreDigits(d, 16)
    ensures s != [] ==> s[0] != '+'
  {
    forall i | 0 <= i < |s| ensures ToDigit16(s[i]) == Some(d[i]) && s[i] != '+' {
      ToDigit16Means(s[i], d[i]);
    }
  }

  /** Digits in either case, with or without a plus sign, are the number they stand for. */
  lemma ParseIdMeans(s: string, d: seq<nat>)
    requires s != [] && AreHexDigits(s, d)
    ensures AreDigits(d, 16)
    ensures ParseId(s) == ParseId(['+'] + s)
            == if Value(d, 16) < U64_LIMIT then Some(Value(d, 16)) else None
  {
    ReadHexDigits(s, d);
    assert (['+'] + s)[1..] == s;
  }

  /** And nothing else is an id. */
  lemma ParseIdOnly(s: string) returns (t: string, d: seq<nat>)
    requires ParseId(s).Some?
    ensures (s == t || s == ['+'] + t) && t != [] && AreHexDigits(t, d)
  {
    t := if s != [] && s[0] == '+' then s[1..] else s;
    d := ReadDigits(t);
    forall i | 0 <= i < |t| ensures IsHexDigit(t[i], d[i]) {
      ToDigit16Means(t[i], d[i]);
    }
  }

  /** `HEXLOWER.encode`: two digits for each byte. */
  function HexLower(b: seq<byte>): (s: string)
    ensures |s| == 2 * |b|
  {
    if b == [] then [] else [HexChar(b[0] / 16), HexChar(b[0] % 16)] + HexLower(b[1..])
  }

  /** `HEXLOWER.decode`: an even number of lower-case digits. */
  function HexDecode(s: string): (r: Option<seq<byte>>) {
    if s == [] then Some([])
    else if |s| == 1 then None
    else
      var hi, lo, rest := LowerDigit(s[0]), LowerDigit(s[1]), HexDecode(s[2..]);
      if hi.Some? && lo.Some? && rest.Some?
      then Some([16 * hi.value + lo.value] + rest.value)
      else None
  }

  function Print(a: Addr): (s: string)
    requires WellFormed(a)
  {
    PrintDigits(Shortest(a.id, 16)) + ['_'] + HexLower(AsBytes(a.data))
  }

  function Parse(s: string): (r: Result<Addr, ParseError>)
    ensures r.Ok? ==> WellFormed(r.value) && '_' in s
  {
    var i := IndexOf(s, '_');
    if i == |s| then Err(MissingSeparator)
    else
      var id := ParseId(s[..i]);
      if id.None? then Err(InvalidId)
      else
        var data := HexDecode(s[i + 1..]);
        if data.None? then Err(InvalidData) else Ok(FromParts(id.value, data.value))
  }

  /** Which error is reported: the separator, then the id, then the data. */
  lemma ParseMeans(id: string, data: string)
    requires '_' !in id
    ensures Parse(id) == Err(MissingSeparator)
    ensures Parse(id + ['_'] + data)
            == if ParseId(id).None? then Err(InvalidId)
               else if HexDecode(data).None? then Err(InvalidData)
               else Ok(FromParts(ParseId(id).value, HexDecode(data).value))
  {
    FirstField(id, '_', data);
    assert IndexOf(id, '_') == |id|;
  }

  lemma {:induction false} DecodeHexLower(b: seq<byte>)
    ensures HexDecode(HexLower(b)) == Some(b)
    decreases |b|
  {
    if b != [] {
      DecodeHexLower(b[1..]);
      var hi, lo, rest := b[0] / 16, b[0] % 16, HexLower(b[1..]);
      var s := [HexChar(hi), HexChar(lo)] + rest;
      assert HexLower(b) == s && s[2..] == rest;
      assert LowerDigit(s[0]) == Some(hi) && LowerDigit(s[1]) == Some(lo);
      assert b == [16 * hi + lo] + b[1..];
    }
  }

  lemma {:induction false} HexLowerOfDecoded(s: string)
    requires HexDecode(s).Some?
    ensures HexLower(HexDecode(s).value) == s
    decreases |s|
  {
    if s != [] {
      HexLowerOfDecoded(s[2..]);
      var hi, lo, rest := LowerDigit(s[0]).value, LowerDigit(s[1]).value, HexDecode(s[2..]).value;
      Nibbles(hi, lo);
      var b: seq<byte> := [16 * hi + lo] + rest;
      assert HexDecode(s) == Some(b) && b[1..] == rest;
      assert HexLower(b) == [s[0], s[1]] + s[2..];
    }
  }

  lemma Nibbles(hi: nat, lo: nat)
    requires hi < 16 && lo < 16
    ensures (16 * hi + lo) / 16 == hi && (16 * hi + lo) % 16 == lo
  {}

  lemma ReadPrinted(d: seq<nat>)
    requires AreDigits(d, 16)
    ensures var s := PrintDigits(d); '_' !in s && '+' !in s && AllDigits(s) && ReadDigits(s) == d
  {
    var s := PrintDigits(d);
    forall i | 0 <= i < |s| ensures s[i] != '_' && s[i] != '+' && ToDigit16(s[i]) == Some(d[i]) {
      assert LowerDigit(s[i]) == Some(d[i]);
    }
  }

  lemma PrintedId(n: u64)
    ensures var s := PrintDigits(Shortest(n, 16));
            '_' !in s && ParseId(s) == Some(n)
  {
    var d := Shortest(n, 16);
    ReadPrinted(d);
    assert PrintDigits(d)[0] != '+';
    ValueOfShortest(n, 16);
  }

  /** Parsing what was printed gives the address back, for every id and every data. */
  lemma ParsePrinted(a: Addr)
    requires WellFormed(a)
    ensures Parse(Print(a)) == Ok(a)
  {
    var id := PrintDigits(Shortest(a.id, 16));
    PrintedId(a.id);
    FirstField(id, '_', HexLower(AsBytes(a.data)));
    DecodeHexLower(AsBytes(a.data));
    EqualIffSameParts(a, a);
  }

  lemma {:induction false} HexLowerHasNoEquals(b: seq<byte>)
    ensures '=' !in HexLower(b)
    decreases |b|
  {
    if b != [] {
      HexLowerHasNoEquals(b[1..]);
      assert LowerDigit('=') == None;
    }
  }

  lemma PrintedHasNoEquals(a: Addr)
    requires WellFormed(a)
    ensures '=' !in Print(a)
  {
    HexLowerHasNoEquals(AsBytes(a.data));
    assert LowerDigit('=') == None;
  }

  /** How `Display` writes an id: lower case, no sign, no leading zero. */
  predicate CanonicalId(s: string) {
    && s != [] && (s[0] == '0' ==> |s| == 1)
    && forall i | 0 <= i < |s| :: LowerDigit(s[i]).Some?
  }

  /**
   * `FromStr` also takes `+1_`, `01_` and `A_`. Printing what was parsed gives the text back
   * exactly when the part before the separator is written the way `Display` writes it.
   */
  lemma PrintParsed(s: string)
    requires Parse(s).Ok?
    ensures Print(Parse(s).value) == s <==> CanonicalId(s[..IndexOf(s, '_')])
  {
    var i := IndexOf(s, '_');
    ParsedParts(s);
    PrintParts(Parse(s).value, s[..i], s[i + 1..]);
    SplitAt(s, i);
  }

  lemma ParsedParts(s: string)
    requires Parse(s).Ok?
    ensures var a, i := Parse(s).value, IndexOf(s, '_');
            ParseId(s[..i]) == Some(a.id) && HexLower(AsBytes(a.data)) == s[i + 1..]
  {
    var rest := s[IndexOf(s, '_') + 1..];
    assert HexDecode(rest) == Some(AsBytes(Parse(s).value.data));
    HexLowerOfDecoded(rest);
  }

  lemma PrintParts(a: Addr, id: string, rest: string)
    requires WellFormed(a) && ParseId(id) == Some(a.id) && HexLower(AsBytes(a.data)) == rest
    ensures Print(a) == id + ['_'] + rest <==> CanonicalId(id)
  {
    PrintParsedId(id);
    SameHead(PrintDigits(Shortest(a.id, 16)), id, rest);
  }

  lemma SameHead(x: string, y: string, rest: string)
    ensures x + ['_'] + rest == y + ['_'] + rest <==> x == y
  {
    var a, b := x + ['_'] + rest, y + ['_'] + rest;
    if a == b {
      assert a[..|x|] == x && b[..|y|] == y;
    }
  }

  lemma PrintedIdIsCanonical(n: u64)
    ensures CanonicalId(PrintDigits(Shortest(n, 16)))
  {
    var d := Shortest(n, 16);
    assert LowerDigit(PrintDigits(d)[0]) == Some(d[0]);
  }

  lemma CanonicalDigits(id: string)
    requires CanonicalId(id)
    ensures id[0] != '+' && AllDigits(id) && Canonical(ReadDigits(id))
    ensures PrintDigits(ReadDigits(id)) == id
  {
    forall i | 0 <= i < |id| ensures ToDigit16(id[i]) == LowerDigit(id[i]) != None {}
    var printed := PrintDigits(ReadDigits(id));
    forall i | 0 <= i < |id| ensures printed[i] == id[i] {
      assert LowerDigit(printed[i]) == LowerDigit(id[i]);
    }
  }

  lemma PrintParsedId(id: string)
    requires ParseId(id).Some?
    ensures PrintDigits(Shortest(ParseId(id).value, 16)) == id <==> CanonicalId(id)
  {
    PrintedIdIsCanonical(ParseId(id).value);
    if CanonicalId(id) {
      CanonicalDigits(id);
      ShortestOfValue(ReadDigits(id), 16);
    }
  }
}
