/**
 * Pkarr signed packets: the wire layout `<32 key><64 signature><8 timestamp><DNS packet>`, the
 * byte string that is signed (BEP 44, "signature verification"), the order of recency and
 * the normalisation of record names.
 */
module Pkarr {
  import opened Wrappers
  import opened Digits
  import opened Bytes

  const KEY_SIZE: nat := 32
  const SIGNATURE_SIZE: nat := 64
  const HEADER_SIZE: nat := 104
  const MAX_DNS_PACKET_SIZE: nat := 1000
  const MAX_SIGNED_PACKET_SIZE: nat := HEADER_SIZE + MAX_DNS_PACKET_SIZE

  datatype SignedPacket = SignedPacket(bytes: seq<byte>)

  datatype VerifyError =
    | TooShort(len: nat)
    | TooLarge(len: nat)
    | InvalidKey
    | SignatureError
    | DnsError

  /** The signature scheme and the DNS parser, which are libraries. */
  datatype Crypto = Crypto(
    publicKey: seq<byte> -> seq<byte>,
    sign: (seq<byte>, seq<byte>) -> seq<byte>,
    validKey: seq<byte> -> bool,
    verify: (seq<byte>, seq<byte>, seq<byte>) -> bool,
    parses: seq<byte> -> bool)

  /** What a signature scheme promises: keys are valid and own signatures verify. */
  ghost predicate Sound(c: Crypto) {
    forall secret, message ::
      var key, signature := c.publicKey(secret), c.sign(secret, message);
      && |key| == KEY_SIZE && |signature| == SIGNATURE_SIZE
      && c.validKey(key) && c.verify(key, message, signature)
  }

  // Signed bytes ----------------------------------------------------------------------------

  predicate IsAscii(s: string) {
    forall i | 0 <= i < |s| :: s[i] as int < 128
  }

  function Ascii(s: string): (b: seq<byte>)
    requires IsAscii(s)
    ensures |b| == |s|
  {
    seq(|s|, i requires 0 <= i < |s| => s[i] as int)
  }

  /** A number printed in decimal. */
  function Decimal(n: nat): (b: seq<byte>)
    ensures forall i | 0 <= i < |b| :: '0' as int <= b[i] <= '9' as int
  {
    var d := Shortest(n, 10);
    seq(|d|, i requires 0 <= i < |d| => '0' as int + d[i])
  }

  function Signable(timestamp: u64, v: seq<byte>): (b: seq<byte>) {
    Ascii("3:seqi") + Decimal(timestamp) + Ascii("e1:v") + Decimal(|v|) + Ascii(":") + v
  }

  /** Digits are printed as themselves, and a number as its tens followed by its last digit. */
  lemma DecimalDigits(n: nat, d: nat)
    requires d < 10
    ensures Decimal(d) == ['0' as int + d]
    ensures n > 0 ==> Decimal(10 * n + d) == Decimal(n) + ['0' as int + d]
  {
    if n > 0 {
      DivMod(n, d, 10);
      assert Shortest(10 * n + d, 10) == Shortest(n, 10) + [d];
    }
  }

  /** What is signed, as text. */
  lemma SignableText(t: u64, v: string, time: string, size: string)
    requires IsAscii(v) && IsAscii(time) && IsAscii(size)
    requires Decimal(t) == Ascii(time) && Decimal(|v|) == Ascii(size)
    ensures IsAscii("3:seqi" + time + "e1:v" + size + ":" + v)
    ensures Signable(t, Ascii(v)) == Ascii("3:seqi" + time + "e1:v" + size + ":" + v)
  {
    AsciiOfSum("3:seqi", time);
    AsciiOfSum("3:seqi" + time, "e1:v");
    AsciiOfSum("3:seqi" + time + "e1:v", size);
    AsciiOfSum("3:seqi" + time + "e1:v" + size, ":");
    AsciiOfSum("3:seqi" + time + "e1:v" + size + ":", v);
  }

  /** The example of BEP 44: the first version of the value `Hello World!`. */
  lemma SignableExample()
    ensures IsAscii("3:seqi" + "1" + "e1:v" + "12" + ":" + "Hello World!")
    ensures Signable(1, Ascii("Hello World!"))
            == Ascii("3:seqi" + "1" + "e1:v" + "12" + ":" + "Hello World!")
  {
    DecimalDigits(1, 1);
    DecimalDigits(1, 2);
    SignableText(1, "Hello World!", "1", "12");
  }

  lemma AsciiOfSum(a: string, b: string)
    requires IsAscii(a) && IsAscii(b)
    ensures IsAscii(a + b) && Ascii(a + b) == Ascii(a) + Ascii(b)
  {}

  lemma DecimalInjective(m: nat, n: nat)
    requires Decimal(m) == Decimal(n)
    ensures m == n
  {
    var c, d := Shortest(m, 10), Shortest(n, 10);
    assert |c| == |Decimal(m)| && |d| == |Decimal(n)|;
    forall i | 0 <= i < |c| ensures c[i] == d[i] {
      assert Decimal(m)[i] == '0' as int + c[i] && Decimal(n)[i] == '0' as int + d[i];
    }
    assert c == d;
    ValueOfShortest(m, 10);
    ValueOfShortest(n, 10);
  }

  lemma SameField(m: nat, x: seq<byte>, n: nat, y: seq<byte>, sep: byte)
    requires sep > '9' as int
    requires Decimal(m) + [sep] + x == Decimal(n) + [sep] + y
    ensures m == n && x == y
  {
    FirstField(Decimal(m), sep, x);
    FirstField(Decimal(n), sep, y);
    DecimalInjective(m, n);
  }

  /** The signed string without its constant head, cut where the timestamp ends. */
  lemma SignableFields(timestamp: u64, v: seq<byte>, tail: seq<byte>)
    ensures var rest := Ascii("1:v") + (Decimal(|v|) + Ascii(":") + (v + tail));
            Signable(timestamp, v) + tail
            == Ascii("3:seqi") + (Decimal(timestamp) + ['e' as int] + rest)
  {
    assert Ascii("e1:v") == ['e' as int] + Ascii("1:v");
  }

  /**
   * The signed string determines what was signed. It is even self-delimiting: whatever bytes
   * follow two signed strings, equal results come from the same timestamp and payload.
   */
  lemma SignableInjective(t: u64, v: seq<byte>, x: seq<byte>, t': u64, v': seq<byte>, x': seq<byte>)
    requires Signable(t, v) + x == Signable(t', v') + x'
    ensures t == t' && v == v' && x == x'
  {
    SignableFields(t, v, x);
    SignableFields(t', v', x');
    var head, mid := Ascii("3:seqi"), Ascii("1:v");
    var a := mid + (Decimal(|v|) + Ascii(":") + (v + x));
    var a' := mid + (Decimal(|v'|) + Ascii(":") + (v' + x'));
    var r, r' := Decimal(t) + ['e' as int] + a, Decimal(t') + ['e' as int] + a';
    assert (head + r)[|head|..] == r && (head + r')[|head|..] == r';
    SameField(t, a, t', a', 'e' as int);
    assert a[|mid|..] == Decimal(|v|) + Ascii(":") + (v + x);
    assert a'[|mid|..] == Decimal(|v'|) + Ascii(":") + (v' + x');
    assert Ascii(":") == [':' as int];
    SameField(|v|, v + x, |v'|, v' + x', ':' as int);
    assert (v + x)[..|v|] == v && (v + x)[|v|..] == x;
    assert (v' + x')[..|v|] == v' && (v' + x')[|v|..] == x';
  }

  // Wire format -----------------------------------------------------------------------------

  predicate Framed(p: SignedPacket) {
    HEADER_SIZE <= |p.bytes| <= MAX_SIGNED_PACKET_SIZE
  }

  function PublicKey(p: SignedPacket): (k: seq<byte>)
    requires Framed(p)
    ensures |k| == KEY_SIZE
  {
    p.bytes[..32]
  }

  function Signature(p: SignedPacket): (s: seq<byte>)
    requires Framed(p)
  {
    p.bytes[32..96]
  }

  function Timestamp(p: SignedPacket): (t: u64)
    requires Framed(p)
  {
    Widths();
    BeOfBytes(p.bytes[96..104]);
    FromBe(p.bytes[96..104])
  }

  function EncodedPacket(p: SignedPacket): (v: seq<byte>)
    requires Framed(p)
  {
    p.bytes[104..]
  }

  function FromBytesUnchecked(c: Crypto, bytes: seq<byte>): (r: Result<SignedPacket, VerifyError>)
    ensures r.Ok? <==> Framed(SignedPacket(bytes)) && c.parses(bytes[HEADER_SIZE..])
    ensures r.Ok? ==> r.value.bytes == bytes
  {
    if |bytes| < HEADER_SIZE then Err(TooShort(|bytes|))
    else if |bytes| > MAX_SIGNED_PACKET_SIZE then Err(TooLarge(|bytes|))
    else if !c.parses(bytes[104..]) then Err(DnsError)
    else Ok(SignedPacket(bytes))
  }

  /** The key is one, and the signature is its owner's, over the timestamp and the payload. */
  predicate Authentic(c: Crypto, p: SignedPacket)
    requires Framed(p)
  {
    && c.validKey(PublicKey(p))
    && c.verify(PublicKey(p), Signable(Timestamp(p), EncodedPacket(p)), Signature(p))
  }

  function FromBytes(c: Crypto, bytes: seq<byte>): (r: Result<SignedPacket, VerifyError>)
    ensures r.Ok? <==> FromBytesUnchecked(c, bytes).Ok? && Authentic(c, SignedPacket(bytes))
    ensures r.Ok? ==> r == FromBytesUnchecked(c, bytes)
  {
    if |bytes| < HEADER_SIZE then Err(TooShort(|bytes|))
    else if |bytes| > MAX_SIGNED_PACKET_SIZE then Err(TooLarge(|bytes|))
    else
      var p := SignedPacket(bytes);
      if !c.validKey(PublicKey(p)) then Err(InvalidKey)
      else if !c.verify(PublicKey(p), Signable(Timestamp(p), EncodedPacket(p)), Signature(p))
      then Err(SignatureError)
      else if !c.parses(EncodedPacket(p)) then Err(DnsError)
      else Ok(p)
  }

  /** Which error is reported: the length, then the key, the signature and the DNS packet. */
  lemma FromBytesErrors(c: Crypto, bytes: seq<byte>)
    ensures FromBytes(c, bytes) == Err(TooShort(|bytes|)) <==> |bytes| < 104
    ensures FromBytes(c, bytes) == Err(TooLarge(|bytes|)) <==> |bytes| > 1104
    ensures FromBytes(c, bytes) == Err(InvalidKey) <==>
      104 <= |bytes| <= 1104 && !c.validKey(bytes[..32])
    ensures FromBytes(c, bytes) == Err(SignatureError) <==>
      && 104 <= |bytes| <= 1104 && c.validKey(bytes[..32])
      && !c.verify(bytes[..32], Signable(Timestamp(SignedPacket(bytes)), bytes[104..]), bytes[32..96])
    ensures FromBytesUnchecked(c, bytes) == Err(DnsError) <==>
      104 <= |bytes| <= 1104 && !c.parses(bytes[104..])
    ensures |bytes| < 104 || |bytes| > 1104 ==> FromBytesUnchecked(c, bytes) == FromBytes(c, bytes)
  {}

  function FromPartsUnchecked(
    c: Crypto, key: seq<byte>, signature: seq<byte>, timestamp: u64, encoded: seq<byte>)
    : (r: Result<SignedPacket, VerifyError>)
  {
    FromBytesUnchecked(c, key + signature + ToBe(timestamp, 8) + encoded)
  }

  /** Signing: the last part of `from_txt_strings`, once the DNS packet is encoded. */
  function Build(c: Crypto, secret: seq<byte>, timestamp: u64, encoded: seq<byte>)
    : (r: Option<SignedPacket>)
  {
    if |encoded| > MAX_DNS_PACKET_SIZE then None
    else
      Some(SignedPacket(
        c.publicKey(secret) + c.sign(secret, Signable(timestamp, encoded))
        + ToBe(timestamp, 8) + encoded))
  }

  function ToRelayPayload(p: SignedPacket): (s: seq<byte>)
    requires Framed(p)
  {
    p.bytes[32..]
  }

  function FromRelayPayload(c: Crypto, key: seq<byte>, payload: seq<byte>)
    : (r: Result<SignedPacket, VerifyError>)
  {
    FromBytes(c, key + payload)
  }

  /** A packet taken to pieces and put together again, both ways the code offers. */
  lemma PartsRoundTrip(c: Crypto, p: SignedPacket)
    requires Framed(p)
    ensures FromRelayPayload(c, PublicKey(p), ToRelayPayload(p)) == FromBytes(c, p.bytes)
    ensures FromPartsUnchecked(c, PublicKey(p), Signature(p), Timestamp(p), EncodedPacket(p))
            == FromBytesUnchecked(c, p.bytes)
  {
    assert PublicKey(p) + ToRelayPayload(p) == p.bytes;
    PartsMakeUpBytes(p);
  }

  lemma PartsMakeUpBytes(p: SignedPacket)
    requires Framed(p)
    ensures PublicKey(p) + Signature(p) + ToBe(Timestamp(p), 8) + EncodedPacket(p) == p.bytes
  {
    BeOfBytes(p.bytes[96..104]);
    assert PublicKey(p) + Signature(p) + p.bytes[96..104] + EncodedPacket(p) == p.bytes;
  }

  /** The parts of a packet are where the accessors look for them. */
  lemma Layout(key: seq<byte>, signature: seq<byte>, timestamp: u64, encoded: seq<byte>)
    requires |key| == KEY_SIZE && |signature| == SIGNATURE_SIZE
    requires |encoded| <= MAX_DNS_PACKET_SIZE
    ensures var p := SignedPacket(key + signature + ToBe(timestamp, 8) + encoded);
            && Framed(p) && PublicKey(p) == key && Signature(p) == signature
            && Timestamp(p) == timestamp && EncodedPacket(p) == encoded
  {
    var p := SignedPacket(key + signature + ToBe(timestamp, 8) + encoded);
    assert p.bytes[..32] == key;
    assert p.bytes[32..96] == signature;
    assert p.bytes[96..104] == ToBe(timestamp, 8);
    assert p.bytes[104..] == encoded;
    Widths();
    BeRoundTrip(timestamp, 8);
  }

  /** What is signed is accepted, and says what was put in; only its size can stop it. */
  lemma BuiltIsAccepted(c: Crypto, secret: seq<byte>, timestamp: u64, encoded: seq<byte>)
    requires Sound(c) && c.parses(encoded)
    ensures Build(c, secret, timestamp, encoded).Some? <==> |encoded| <= MAX_DNS_PACKET_SIZE
    ensures Build(c, secret, timestamp, encoded).Some? ==>
      var p := Build(c, secret, timestamp, encoded).value;
      && FromBytes(c, p.bytes) == Ok(p) && PublicKey(p) == c.publicKey(secret)
      && Timestamp(p) == timestamp && EncodedPacket(p) == encoded
  {
    if |encoded| <= MAX_DNS_PACKET_SIZE {
      var message := Signable(timestamp, encoded);
      var key, signature := c.publicKey(secret), c.sign(secret, message);
      Layout(key, signature, timestamp, encoded);
    }
  }

  // Storage format --------------------------------------------------------------------------

  /** A stored row is the time of storing, then the packet. */
  function Serialize(p: SignedPacket, now: u64): (row: seq<byte>) {
    ToBe(now, 8) + p.bytes
  }

  /** Reads a row, falling back to the older format without the leading time. */
  function Deserialize(c: Crypto, row: seq<byte>): (r: Result<SignedPacket, VerifyError>) {
    if |row| >= 8 && FromBytesUnchecked(c, row[8..]).Ok?
    then FromBytesUnchecked(c, row[8..])
    else FromBytesUnchecked(c, row)
  }

  lemma StoredRoundTrip(c: Crypto, p: SignedPacket, now: u64)
    requires FromBytesUnchecked(c, p.bytes) == Ok(p)
    ensures Deserialize(c, Serialize(p, now)) == Ok(p)
    ensures FromBe(Serialize(p, now)[..8]) == now
  {
    assert Serialize(p, now)[8..] == p.bytes;
    assert Serialize(p, now)[..8] == ToBe(now, 8);
    Widths();
    BeRoundTrip(now, 8);
  }

  /**
   * A row of the older format is read correctly exactly when it cannot be taken for a newer
   * one: when its DNS part is shorter than eight bytes or does not parse without them.
   */
  lemma OldFormat(c: Crypto, p: SignedPacket)
    requires FromBytesUnchecked(c, p.bytes) == Ok(p)
    ensures Deserialize(c, p.bytes) == Ok(p) <==>
            |EncodedPacket(p)| < 8 || !c.parses(EncodedPacket(p)[8..])
  {
    var shifted := p.bytes[8..];
    if |shifted| >= HEADER_SIZE {
      assert shifted[104..] == EncodedPacket(p)[8..];
    }
    assert |shifted| != |p.bytes|;
  }

  function Zeros(n: nat): (b: seq<byte>)
    ensures |b| == n
  {
    seq(n, _ => 0)
  }

  /**
   * With a parser that takes any DNS header without sections (section 4.1.1 of RFC 1035) and
   * ignores what follows it, a packet of the older format is read as another one.
   */
  lemma OldFormatMisread() returns (c: Crypto, p: SignedPacket)
    ensures forall b :: c.parses(b) <==> |b| >= 12 && b[4..12] == Zeros(8)
    ensures FromBytesUnchecked(c, p.bytes) == Ok(p)
    ensures Deserialize(c, p.bytes).Ok? && Deserialize(c, p.bytes) != Ok(p)
  {
    c := Crypto(s => s, (s, m) => s, k => true, (k, m, s) => true,
                b => |b| >= 12 && b[4..12] == Zeros(8));
    p := SignedPacket(Zeros(HEADER_SIZE + 20));
    var shifted := p.bytes[8..];
    assert EncodedPacket(p)[4..12] == Zeros(8) && shifted[104..][4..12] == Zeros(8);
    assert |shifted| != |p.bytes|;
  }

  // Recency ---------------------------------------------------------------------------------

  /** Order of byte slices: the first difference decides, a proper prefix is smaller. */
  predicate LexLess(a: seq<byte>, b: seq<byte>) {
    && b != []
    && (a == [] || a[0] < b[0] || (a[0] == b[0] && LexLess(a[1..], b[1..])))
  }

  /** What recency depends on: the timestamp, then the encoded packet. */
  datatype Stamp = Stamp(timestamp: u64, encoded: seq<byte>)

  function StampOf(p: SignedPacket): (s: Stamp)
    requires Framed(p)
  {
    Stamp(Timestamp(p), EncodedPacket(p))
  }

  predicate MoreRecent(a: Stamp, b: Stamp) {
    if a.timestamp == b.timestamp then LexLess(b.encoded, a.encoded)
    else a.timestamp > b.timestamp
  }

  /** The first byte that differs decides, and what is longer comes after what it begins with. */
  lemma {:induction false} LexFirstDifference(
    head: seq<byte>, x: byte, a: seq<byte>, y: byte, b: seq<byte>)
    ensures x != y ==> (LexLess(head + [x] + a, head + [y] + b) <==> x < y)
    ensures LexLess(head, head + [y] + b)
    decreases |head|
  {
    if head == [] {
      assert [x] + a == head + [x] + a && [y] + b == head + [y] + b;
    } else {
      LexFirstDifference(head[1..], x, a, y, b);
      assert (head + [x] + a)[1..] == head[1..] + [x] + a;
      assert (head + [y] + b)[1..] == head[1..] + [y] + b;
    }
  }

  /**
   * The later timestamp is the more recent one, whatever the payloads; at the same time it is
   * the payload with the larger byte where they first differ, or the one that goes on.
   */
  lemma RecencyMeans(
    a: Stamp, b: Stamp, t: u64, head: seq<byte>, x: byte, v: seq<byte>, y: byte, w: seq<byte>)
    ensures a.timestamp > b.timestamp ==> MoreRecent(a, b)
    ensures x > y ==> MoreRecent(Stamp(t, head + [x] + v), Stamp(t, head + [y] + w))
    ensures MoreRecent(Stamp(t, head + [x] + v), Stamp(t, head))
  {
    LexFirstDifference(head, y, w, x, v);
  }

  lemma {:induction false} LexSnoc(a: seq<byte>, x: byte, b: seq<byte>, y: byte)
    requires |a| == |b|
    ensures LexLess(a + [x], b + [y]) <==> LexLess(a, b) || (a == b && x < y)
    decreases |a|
  {
    if a != [] {
      LexSnoc(a[1..], x, b[1..], y);
      assert (a + [x])[1..] == a[1..] + [x] && (b + [y])[1..] == b[1..] + [y];
      assert a == [a[0]] + a[1..] && b == [b[0]] + b[1..];
    }
  }

  /** Numbers as big-endian bytes are in numeric order, so a range of the index is one of times. */
  lemma {:induction false} BigEndianOrder(m: nat, n: nat, w: nat)
    requires m < Pow(256, w) && n < Pow(256, w)
    ensures LexLess(ToBe(m, w), ToBe(n, w)) <==> m < n
    decreases w
  {
    if w > 0 {
      Quotient(m, 256);
      Quotient(n, 256);
      QuotientBelow(m, 256, Pow(256, w - 1));
      QuotientBelow(n, 256, Pow(256, w - 1));
      BigEndianOrder(m / 256, n / 256, w - 1);
      BigEndianOrder(n / 256, m / 256, w - 1);
      LexSnoc(ToBe(m / 256, w - 1), m % 256, ToBe(n / 256, w - 1), n % 256);
      BeRoundTrip(m / 256, w - 1);
      BeRoundTrip(n / 256, w - 1);
    }
  }

  lemma {:induction false} LexTotal(a: seq<byte>, b: seq<byte>)
    ensures !LexLess(a, a)
    ensures a == b || LexLess(a, b) || LexLess(b, a)
    decreases |a|
  {
    if a != [] {
      LexTotal(a[1..], if b == [] then [] else b[1..]);
      if b != [] && a[0] == b[0] && a[1..] == b[1..] {
        assert a == [a[0]] + a[1..] && b == [b[0]] + b[1..];
      }
    }
  }

  lemma {:induction false} LexTransitive(a: seq<byte>, b: seq<byte>, c: seq<byte>)
    requires LexLess(a, b) && LexLess(b, c)
    ensures LexLess(a, c)
    decreases |a|
  {
    if a != [] && a[0] == b[0] == c[0] {
      LexTransitive(a[1..], b[1..], c[1..]);
    }
  }

  /** Recency is a strict total order on timestamp and payload. */
  lemma RecencyIsStrictTotalOrder(a: Stamp, b: Stamp, c: Stamp)
    ensures !MoreRecent(a, a)
    ensures a == b || MoreRecent(a, b) || MoreRecent(b, a)
    ensures MoreRecent(a, b) ==> !MoreRecent(b, a)
    ensures MoreRecent(a, b) && MoreRecent(b, c) ==> MoreRecent(a, c)
  {
    LexTotal(a.encoded, b.encoded);
    if LexLess(a.encoded, b.encoded) && LexLess(b.encoded, a.encoded) {
      LexTransitive(a.encoded, b.encoded, a.encoded);
    }
    if LexLess(c.encoded, b.encoded) && LexLess(b.encoded, a.encoded) {
      LexTransitive(c.encoded, b.encoded, a.encoded);
    }
  }

  // Names -----------------------------------------------------------------------------------

  /** The text after the last dot. */
  function LastLabel(s: string): (l: string) {
    if s == [] || s[|s| - 1] == '.' then [] else LastLabel(s[..|s| - 1]) + [s[|s| - 1]]
  }

  /** What comes before the last label is nothing, or ends in a dot. */
  lemma {:induction false} LastLabelEnds(s: string) returns (head: string)
    ensures s == head + LastLabel(s) && '.' !in LastLabel(s)
    ensures head == [] || head[|head| - 1] == '.'
    decreases |s|
  {
    if s == [] || s[|s| - 1] == '.' {
      head := s;
    } else {
      var init, c := s[..|s| - 1], s[|s| - 1];
      head := LastLabelEnds(init);
      assert s == init + [c];
      assert head + LastLabel(init) + [c] == head + (LastLabel(init) + [c]);
    }
  }

  /** And that is the only way to split a text so. */
  lemma {:induction false} LastLabelIs(head: string, l: string)
    requires '.' !in l && (head == [] || head[|head| - 1] == '.')
    ensures LastLabel(head + l) == l
    decreases |l|
  {
    if l == [] {
      assert head + l == head;
    } else {
      var init, c := l[..|l| - 1], l[|l| - 1];
      LastLabelIs(head, init);
      assert l == init + [c] && (head + l)[..|head + l| - 1] == head + init;
    }
  }

  function WithoutTrailingDot(name: string): (n: string) {
    if name != [] && name[|name| - 1] == '.' then name[..|name| - 1] else name
  }

  /** A record name relative to the zone of a key, as an absolute name in that zone. */
  function NormalizeName(origin: string, name: string): (r: string) {
    var n := WithoutTrailingDot(name);
    var last := LastLabel(n);
    if last == origin then n
    else if last == "@" || last == [] then origin
    else n + "." + origin
  }

  lemma NameInZone(origin: string, n: string)
    requires origin != [] && '.' !in origin
    ensures LastLabel(origin) == origin && LastLabel(n + "." + origin) == origin
    ensures WithoutTrailingDot(origin) == origin
    ensures WithoutTrailingDot(n + "." + origin) == n + "." + origin
  {
    LastLabelIs([], origin);
    assert [] + origin == origin;
    var full := n + "." + origin;
    LastLabelIs(n + ".", origin);
    assert full[|full| - 1] == origin[|origin| - 1];
  }

  /** A normalised name lies in the zone, and normalising it again changes nothing. */
  lemma NormalizedName(origin: string, name: string)
    requires origin != [] && '.' !in origin
    ensures LastLabel(NormalizeName(origin, name)) == origin
    ensures NormalizeName(origin, NormalizeName(origin, name)) == NormalizeName(origin, name)
    ensures NormalizeName(origin, name + "." + origin) == name + "." + origin
  {
    NameInZone(origin, name);
    var n := WithoutTrailingDot(name);
    NameInZone(origin, n);
    assert LastLabel(n) == origin ==> n[|n| - 1] == origin[|origin| - 1];
  }

  /** The relative, dotted and absolute spellings of a name normalise to the same text. */
  lemma Spellings(origin: string, name: string)
    requires origin != [] && '.' !in origin
    requires LastLabel(name) != origin && LastLabel(name) != "@" && LastLabel(name) != []
    ensures NormalizeName(origin, name) == name + "." + origin
    ensures NormalizeName(origin, name + ".") == name + "." + origin
    ensures NormalizeName(origin, name + "." + origin) == name + "." + origin
  {
    assert WithoutTrailingDot(name) == name;
    TrailingDot(name);
    NameInZone(origin, name);
  }

  /**
   * The zone itself can be written as nothing, as a dot, as its own label or as an at sign,
   * and whatever stands before an at sign is dropped.
   */
  lemma ApexSpellings(origin: string, head: string)
    requires origin != [] && '.' !in origin && origin != "@"
    requires head == [] || head[|head| - 1] == '.'
    ensures NormalizeName(origin, "") == NormalizeName(origin, ".") == origin
    ensures NormalizeName(origin, origin) == NormalizeName(origin, origin + ".") == origin
    ensures NormalizeName(origin, head + "@") == NormalizeName(origin, head + "@.") == origin
  {
    NameInZone(origin, "");
    assert (origin + ".")[..|origin|] == origin && "."[..0] == "";
    AtSpellings(origin, head);
  }

  lemma AtSpellings(origin: string, head: string)
    requires origin != "@" && (head == [] || head[|head| - 1] == '.')
    ensures NormalizeName(origin, head + "@") == NormalizeName(origin, head + "@.") == origin
  {
    var at := head + "@";
    LastLabelIs(head, "@");
    TrailingDot(at);
    AtDot(head);
    assert at[|at| - 1] == '@';
  }

  lemma AtDot(head: string)
    ensures head + "@." == head + "@" + "."
  {}

  lemma TrailingDot(name: string)
    ensures WithoutTrailingDot(name + ".") == name
  {
    var dotted := name + ".";
    assert dotted[|dotted| - 1] == '.' && dotted[..|name|] == name;
  }
}
