/**
 * Endpoint data, kept without duplicate addresses, and its translation to TXT attributes and
 * back, directly and through the printed strings.
 */
module EndpointInfo {
  import opened Wrappers
  import opened Bytes
  import opened Sequences
  import opened TxtAttrs
  import CustomAddr

  /** URLs and socket addresses stand for their canonical text. */
  datatype TransportAddr =
    | Relay(url: string)
    | Ip(sock: string)
    | Custom(addr: CustomAddr.Addr)

  datatype EndpointInfo = EndpointInfo(
    id: nat, addrs: seq<TransportAddr>, userData: Option<string>)

  datatype IrohAttr = RelayAttr | AddrAttr | UserDataAttr

  const MAX_USER_DATA: nat := 245

  // Duplicates ------------------------------------------------------------------------------

  /** The elements of a sequence, each where it first occurs. */
  function FirstOccurrences<T(==)>(s: seq<T>): (r: seq<T>)
    ensures NoDuplicates(r)
    ensures (forall x | x in r :: x in s) && (forall x | x in s :: x in r)
    decreases |s|
  {
    if s == [] then []
    else
      var init, last := s[..|s| - 1], s[|s| - 1];
      assert s == init + [last];
      var r := FirstOccurrences(init);
      if last in init then r else r + [last]
  }

  lemma {:induction false} FirstOccurrencesOfDistinct<T>(s: seq<T>)
    requires NoDuplicates(s)
    ensures FirstOccurrences(s) == s
    decreases |s|
  {
    if s != [] {
      FirstOccurrencesOfDistinct(s[..|s| - 1]);
    }
  }

  lemma FirstOccurrencesSnoc<T>(s: seq<T>, x: T)
    ensures FirstOccurrences(s + [x])
            == if x in s then FirstOccurrences(s) else FirstOccurrences(s) + [x]
  {
    assert (s + [x])[..|s|] == s;
  }

  lemma {:induction false} IndexOfSnoc<T>(s: seq<T>, last: T, x: T)
    ensures x in s ==> IndexOf(s + [last], x) == IndexOf(s, x) < |s|
    ensures x !in s && x == last ==> IndexOf(s + [last], x) == |s|
    decreases |s|
  {
    if s != [] {
      assert (s + [last])[0] == s[0] && (s + [last])[1..] == s[1..] + [last];
      IndexOfSnoc(s[1..], last, x);
    }
  }

  /** What is kept is in the order in which it first occurs. */
  lemma {:induction false} FirstOccurrencesOrder<T>(s: seq<T>, i: nat, j: nat)
    requires i < j < |FirstOccurrences(s)|
    ensures IndexOf(s, FirstOccurrences(s)[i]) < IndexOf(s, FirstOccurrences(s)[j])
    decreases |s|
  {
    var init, last := s[..|s| - 1], s[|s| - 1];
    var r, all := FirstOccurrences(init), FirstOccurrences(s);
    assert s == init + [last];
    assert r <= all && all[i] == r[i] && r[i] in init;
    IndexOfSnoc(init, last, all[i]);
    IndexOfSnoc(init, last, all[j]);
    if j < |r| {
      assert all[j] == r[j] && r[j] in init;
      FirstOccurrencesOrder(init, i, j);
    }
  }

  lemma FirstOccurrencesNext<T>(s: seq<T>, more: seq<T>, i: nat)
    requires i < |more|
    ensures s + more[..i + 1] == s + more[..i] + [more[i]]
    ensures var r := FirstOccurrences(s + more[..i]);
      FirstOccurrences(s + more[..i + 1]) == if more[i] in s + more[..i] then r else r + [more[i]]
  {
    FirstOccurrencesSnoc(s + more[..i], more[i]);
    assert s + more[..i + 1] == s + more[..i] + [more[i]];
  }

  /** `retain` with a set of the elements seen so far; the set is returned for further use. */
  method Dedup<T(==)>(items: seq<T>) returns (kept: seq<T>, seen: set<T>)
    ensures kept == FirstOccurrences(items)
    ensures forall x :: x in seen <==> x in items
  {
    kept, seen := [], {};
    for i := 0 to |items|
      invariant kept == FirstOccurrences(items[..i])
      invariant forall x :: x in seen <==> x in items[..i]
    {
      assert items[..i + 1][..i] == items[..i];
      if items[i] !in seen {
        seen := seen + {items[i]};
        kept := kept + [items[i]];
      }
    }
    assert items[..|items|] == items;
  }

  class EndpointData {
    var addrs: seq<TransportAddr>
    var userData: Option<string>

    ghost predicate Valid()
      reads this
    {
      NoDuplicates(addrs)
    }

    constructor (addrs: seq<TransportAddr>)
      ensures Valid() && this.addrs == FirstOccurrences(addrs) && userData == None
    {
      var kept, _ := Dedup(addrs);
      this.addrs, userData := kept, None;
    }

    /** Adds addresses at the end, in order, leaving out those already there. */
    method AddAddrs(more: seq<TransportAddr>)
      modifies this`addrs
      ensures Valid() && addrs == FirstOccurrences(old(addrs) + more)
    {
      var before := addrs;
      var kept, present := Dedup(before);
      assert before + more[..0] == before;
      for i := 0 to |more|
        invariant kept == FirstOccurrences(before + more[..i])
        invariant forall a :: a in present <==> a in before + more[..i]
      {
        FirstOccurrencesNext(before, more, i);
        if more[i] !in present {
          kept := kept + [more[i]];
          present := present + {more[i]};
        }
      }
      assert before + more[..|more|] == before + more;
      addrs := kept;
    }

    method AddRelayUrl(url: string)
      requires Valid()
      modifies this`addrs
      ensures Valid() && addrs == FirstOccurrences(old(addrs) + [Relay(url)])
    {
      FirstOccurrencesOfDistinct(addrs);
      assert (addrs + [Relay(url)])[..|addrs|] == addrs;
      if Relay(url) !in addrs {
        addrs := addrs + [Relay(url)];
      }
    }

    method SetUserData(data: Option<string>)
      modifies this`userData
      ensures userData == data
    {
      userData := data;
    }
  }

  // Attributes ------------------------------------------------------------------------------

  /** How the keys are written: in kebab case. */
  function ShowAttr(a: IrohAttr): (s: string)
    ensures '=' !in s && ParseAttr(s) == Some(a)
  {
    match a
    case RelayAttr => "relay"
    case AddrAttr => "addr"
    case UserDataAttr => "user-data"
  }

  function ParseAttr(s: string): (r: Option<IrohAttr>) {
    if s == "relay" then Some(RelayAttr)
    else if s == "addr" then Some(AddrAttr)
    else if s == "user-data" then Some(UserDataAttr)
    else None
  }

  lemma ParseAttrExactly(s: string)
    ensures ParseAttr(s).Some? <==> s in {"relay", "addr", "user-data"}
    ensures ParseAttr("relay") == Some(RelayAttr) && ParseAttr("addr") == Some(AddrAttr)
  {}

  const ATTR_TEXT: Text<IrohAttr> := Text(ShowAttr, ParseAttr)

  /** The parsers of URLs and of socket addresses, which are libraries. */
  datatype Libs = Libs(parseUrl: string -> Option<string>, parseSock: string -> Option<string>)

  /** A socket address has no underscore, and its canonical text no equals sign. */
  ghost predicate Sound(libs: Libs) {
    forall s ::
      && ('_' in s ==> libs.parseSock(s).None?)
      && (libs.parseSock(s).Some? ==> '=' !in libs.parseSock(s).value)
  }

  /**
   * What is left of a canonical URL that was cut at its first equals sign does not parse to a
   * URL with an equals sign. (Other texts may: in a host, `%3D` stands for one.)
   */
  ghost predicate CutUrlsStayCut(libs: Libs) {
    forall url | libs.parseUrl(url) == Some(url) ::
      libs.parseUrl(Cut(url)).Some? ==> '=' !in libs.parseUrl(Cut(url)).value
  }

  ghost predicate CanonicalUrls(libs: Libs, vs: seq<string>) {
    forall i | 0 <= i < |vs| :: libs.parseUrl(vs[i]) == Some(vs[i])
  }

  /** Length in UTF-8. */
  function Utf8Len(s: string): (n: nat) {
    if s == [] then 0
    else
      var c := s[0] as int;
      (if c < 0x80 then 1 else if c < 0x800 then 2 else if c < 0x1_0000 then 3 else 4)
      + Utf8Len(s[1..])
  }

  /** One to four bytes for a character: section 3 of RFC 3629. */
  lemma {:induction false} Utf8LenMeans(s: string, t: string, c: char)
    ensures Utf8Len(s + t) == Utf8Len(s) + Utf8Len(t)
    ensures Utf8Len([c]) == 1 <==> c <= '\U{7F}'
    ensures Utf8Len([c]) == 2 <==> '\U{80}' <= c <= '\U{7FF}'
    ensures Utf8Len([c]) == 3 <==> '\U{800}' <= c <= '\U{FFFF}'
    ensures Utf8Len([c]) == 4 <==> '\U{10000}' <= c
    decreases |s|
  {
    assert [c][1..] == [];
    if s == [] {
      assert s + t == t;
    } else {
      assert (s + t)[0] == s[0] && (s + t)[1..] == s[1..] + t;
      Utf8LenMeans(s[1..], t, c);
    }
  }

  ghost predicate ValidAddr(libs: Libs, a: TransportAddr) {
    match a
    case Relay(url) => libs.parseUrl(url) == Some(url)
    case Ip(sock) => libs.parseSock(sock) == Some(sock)
    case Custom(addr) => CustomAddr.WellFormed(addr)
  }

  ghost predicate ValidInfo(libs: Libs, info: EndpointInfo) {
    && NoDuplicates(info.addrs)
    && AllValid(libs, info.addrs)
    && (info.userData.Some? ==> Utf8Len(info.userData.value) <= MAX_USER_DATA)
  }

  function AddrPair(a: TransportAddr): (p: (IrohAttr, string))
    requires a.Custom? ==> CustomAddr.WellFormed(a.addr)
  {
    match a
    case Relay(url) => (RelayAttr, url)
    case Ip(sock) => (AddrAttr, sock)
    case Custom(addr) => (AddrAttr, CustomAddr.Print(addr))
  }

  ghost predicate Printable(addrs: seq<TransportAddr>) {
    forall i | 0 <= i < |addrs| :: addrs[i].Custom? ==> CustomAddr.WellFormed(addrs[i].addr)
  }

  function AddrPairs(addrs: seq<TransportAddr>): (pairs: seq<(IrohAttr, string)>)
    requires Printable(addrs)
    ensures |pairs| == |addrs| && forall i | 0 <= i < |addrs| :: pairs[i] == AddrPair(addrs[i])
  {
    seq(|addrs|, i requires 0 <= i < |addrs| => AddrPair(addrs[i]))
  }

  function UserPairs(userData: Option<string>): (pairs: seq<(IrohAttr, string)>) {
    if userData.Some? then [(UserDataAttr, userData.value)] else []
  }

  method InfoToAttrs(info: EndpointInfo) returns (attrs: Attrs<IrohAttr>)
    requires Printable(info.addrs)
    ensures Groups(attrs, AddrPairs(info.addrs) + UserPairs(info.userData))
  {
    var pairs := [];
    for i := 0 to |info.addrs|
      invariant pairs == AddrPairs(info.addrs)[..i]
    {
      match info.addrs[i] {
        case Relay(url) => pairs := pairs + [(RelayAttr, url)];
        case Ip(sock) => pairs := pairs + [(AddrAttr, sock)];
        case Custom(addr) => pairs := pairs + [(AddrAttr, CustomAddr.Print(addr))];
      }
    }
    if info.userData.Some? {
      pairs := pairs + [(UserDataAttr, info.userData.value)];
    }
    assert pairs == AddrPairs(info.addrs) + UserPairs(info.userData);
    attrs := FromParts(pairs);
  }

  function Values(attrs: Attrs<IrohAttr>, a: IrohAttr): (vs: seq<string>) {
    if a in attrs then attrs[a] else []
  }

  function ParseRelay(libs: Libs, s: string): (r: Option<TransportAddr>) {
    match libs.parseUrl(s)
    case Some(url) => Some(Relay(url))
    case None => None
  }

  /** A socket address if it is one, else a custom address if it is one. */
  function ParseAddr(libs: Libs, s: string): (r: Option<TransportAddr>) {
    match libs.parseSock(s)
    case Some(sock) => Some(Ip(sock))
    case None =>
      match CustomAddr.Parse(s)
      case Ok(addr) => Some(Custom(addr))
      case Err(_) => None
  }

  function FilterMap<T>(parse: string -> Option<T>, vs: seq<string>): (r: seq<T>)
    decreases |vs|
  {
    if vs == [] then []
    else
      var last := parse(vs[|vs| - 1]);
      FilterMap(parse, vs[..|vs| - 1]) + (if last.Some? then [last.value] else [])
  }

  function ParsedAddrs(libs: Libs, attrs: Attrs<IrohAttr>): (addrs: seq<TransportAddr>) {
    FilterMap(s => ParseRelay(libs, s), Values(attrs, RelayAttr))
    + FilterMap(s => ParseAddr(libs, s), Values(attrs, AddrAttr))
  }

  function ParsedUserData(attrs: Attrs<IrohAttr>): (r: Option<string>) {
    var vs := Values(attrs, UserDataAttr);
    if vs != [] && Utf8Len(vs[0]) <= MAX_USER_DATA then Some(vs[0]) else None
  }

  /** Values that do not parse are left out, and the others stay in order. */
  lemma {:induction false} FilterMapMeans<T>(
    parse: string -> Option<T>, v: string, xs: seq<string>, ys: seq<string>)
    ensures FilterMap(parse, [v]) == if parse(v).Some? then [parse(v).value] else []
    ensures FilterMap(parse, xs + ys) == FilterMap(parse, xs) + FilterMap(parse, ys)
    decreases |ys|
  {
    assert [v][..0] == [];
    if ys == [] {
      assert xs + ys == xs;
    } else {
      assert (xs + ys)[..|xs + ys| - 1] == xs + ys[..|ys| - 1];
      FilterMapMeans(parse, v, xs, ys[..|ys| - 1]);
    }
  }

  /** What a single value is read as. */
  lemma ValueMeans(libs: Libs, s: string, text: string, addr: CustomAddr.Addr)
    ensures ParseRelay(libs, s) == Some(Relay(text)) <==> libs.parseUrl(s) == Some(text)
    ensures ParseRelay(libs, s).None? <==> libs.parseUrl(s).None?
    ensures ParseAddr(libs, s) == Some(Ip(text)) <==> libs.parseSock(s) == Some(text)
    ensures ParseAddr(libs, s) == Some(Custom(addr)) <==>
      libs.parseSock(s).None? && CustomAddr.Parse(s) == Ok(addr)
    ensures ParseAddr(libs, s).None? <==> libs.parseSock(s).None? && CustomAddr.Parse(s).Err?
  {}

  /** The first user data counts, if it is not too long, and no other one. */
  lemma UserDataMeans(attrs: Attrs<IrohAttr>, v: string, more: seq<string>)
    ensures UserDataAttr !in attrs ==> ParsedUserData(attrs) == None
    ensures UserDataAttr in attrs && attrs[UserDataAttr] == [v] + more ==>
      ParsedUserData(attrs) == if Utf8Len(v) <= 245 then Some(v) else None
  {}

  method InfoFromAttrs(libs: Libs, id: nat, attrs: Attrs<IrohAttr>) returns (info: EndpointInfo)
    ensures info == EndpointInfo(
      id, FirstOccurrences(ParsedAddrs(libs, attrs)), ParsedUserData(attrs))
  {
    var data := new EndpointData([]);
    data.SetUserData(ParsedUserData(attrs));
    data.AddAddrs(ParsedAddrs(libs, attrs));
    assert [] + ParsedAddrs(libs, attrs) == ParsedAddrs(libs, attrs);
    info := EndpointInfo(id, data.addrs, data.userData);
  }

  // Round trip ------------------------------------------------------------------------------

  /** The addresses of one kind, relays or the others, in order. */
  function OfKind(addrs: seq<TransportAddr>, relay: bool): (r: seq<TransportAddr>)
    ensures forall i | 0 <= i < |r| :: r[i].Relay? == relay && r[i] in addrs
    decreases |addrs|
  {
    if addrs == [] then []
    else
      var init, last := addrs[..|addrs| - 1], addrs[|addrs| - 1];
      assert addrs == init + [last];
      OfKind(init, relay) + (if last.Relay? == relay then [last] else [])
  }

  function RelaysFirst(addrs: seq<TransportAddr>): (r: seq<TransportAddr>) {
    OfKind(addrs, true) + OfKind(addrs, false)
  }

  /** No other address comes before a relay. */
  ghost predicate RelaysComeFirst(addrs: seq<TransportAddr>) {
    forall i, j | 0 <= i < j < |addrs| :: addrs[j].Relay? ==> addrs[i].Relay?
  }

  function Texts(addrs: seq<TransportAddr>): (ts: seq<string>)
    requires Printable(addrs)
    ensures |ts| == |addrs| && forall i | 0 <= i < |addrs| :: ts[i] == AddrPair(addrs[i]).1
  {
    seq(|addrs|, i requires 0 <= i < |addrs| => AddrPair(addrs[i]).1)
  }

  lemma AddrText(libs: Libs, a: TransportAddr)
    requires Sound(libs) && ValidAddr(libs, a)
    ensures (if a.Relay? then ParseRelay(libs, AddrPair(a).1) else ParseAddr(libs, AddrPair(a).1))
            == Some(a)
    ensures !a.Relay? ==> '=' !in AddrPair(a).1
  {
    if a.Custom? {
      var s := CustomAddr.Print(a.addr);
      CustomAddr.ParsePrinted(a.addr);
      assert '_' in s;
      CustomAddr.PrintedHasNoEquals(a.addr);
    }
  }

  ghost predicate AllValid(libs: Libs, addrs: seq<TransportAddr>) {
    forall i | 0 <= i < |addrs| :: ValidAddr(libs, addrs[i])
  }

  lemma {:induction false} TextsOfKind(addrs: seq<TransportAddr>, relay: bool)
    requires Printable(addrs)
    ensures Printable(OfKind(addrs, relay))
    ensures ValuesOf(AddrPairs(addrs), if relay then RelayAttr else AddrAttr)
            == Texts(OfKind(addrs, relay))
    decreases |addrs|
  {
    if addrs != [] {
      var init, last := addrs[..|addrs| - 1], addrs[|addrs| - 1];
      TextsOfKind(init, relay);
      assert AddrPairs(addrs)[..|addrs| - 1] == AddrPairs(init);
      if last.Relay? == relay {
        assert Texts(OfKind(init, relay) + [last])
            == Texts(OfKind(init, relay)) + [AddrPair(last).1];
      } else {
        assert OfKind(addrs, relay) == OfKind(init, relay);
      }
    }
  }

  lemma {:induction false} FilterMapOfAll<T>(
    parse: string -> Option<T>, ts: seq<string>, xs: seq<T>)
    requires |ts| == |xs| && forall i | 0 <= i < |ts| :: parse(ts[i]) == Some(xs[i])
    ensures FilterMap(parse, ts) == xs
    decreases |ts|
  {
    if ts != [] {
      FilterMapOfAll(parse, ts[..|ts| - 1], xs[..|xs| - 1]);
    }
  }

  lemma TextsParse(libs: Libs, addrs: seq<TransportAddr>, relay: bool)
    requires Sound(libs) && AllValid(libs, addrs) && Printable(addrs)
    requires forall i | 0 <= i < |addrs| :: addrs[i].Relay? == relay
    ensures relay ==> FilterMap(s => ParseRelay(libs, s), Texts(addrs)) == addrs
    ensures !relay ==> FilterMap(s => ParseAddr(libs, s), Texts(addrs)) == addrs
  {
    forall i | 0 <= i < |addrs|
      ensures (if relay then ParseRelay(libs, Texts(addrs)[i]) else ParseAddr(libs, Texts(addrs)[i]))
              == Some(addrs[i])
    {
      AddrText(libs, addrs[i]);
    }
    if relay {
      FilterMapOfAll(s => ParseRelay(libs, s), Texts(addrs), addrs);
    } else {
      FilterMapOfAll(s => ParseAddr(libs, s), Texts(addrs), addrs);
    }
  }

  /** Both kinds of addresses, printed and parsed, without the duplicates there are not. */
  lemma AddrsParse(libs: Libs, addrs: seq<TransportAddr>, attrs: Attrs<IrohAttr>)
    requires Sound(libs) && AllValid(libs, addrs) && NoDuplicates(addrs)
    requires Printable(OfKind(addrs, true)) && Printable(OfKind(addrs, false))
    requires Values(attrs, RelayAttr) == Texts(OfKind(addrs, true))
    requires Values(attrs, AddrAttr) == Texts(OfKind(addrs, false))
    ensures FirstOccurrences(ParsedAddrs(libs, attrs)) == RelaysFirst(addrs)
  {
    TextsParse(libs, OfKind(addrs, true), true);
    TextsParse(libs, OfKind(addrs, false), false);
    RelaysFirstDistinct(addrs);
  }

  lemma ValuesOfUserPairs(userData: Option<string>, a: IrohAttr)
    ensures ValuesOf(UserPairs(userData), a)
            == if userData.Some? && a == UserDataAttr then [userData.value] else []
  {
    if userData.Some? {
      assert UserPairs(userData)[..0] == [];
    }
  }

  lemma {:induction false} NoUserPairs(addrs: seq<TransportAddr>)
    requires Printable(addrs)
    ensures ValuesOf(AddrPairs(addrs), UserDataAttr) == []
    decreases |addrs|
  {
    if addrs != [] {
      assert AddrPairs(addrs)[..|addrs| - 1] == AddrPairs(addrs[..|addrs| - 1]);
      NoUserPairs(addrs[..|addrs| - 1]);
    }
  }

  /** The three value lists of an endpoint. */
  lemma InfoValues(libs: Libs, info: EndpointInfo, attrs: Attrs<IrohAttr>)
    requires ValidInfo(libs, info) && Printable(info.addrs)
    requires Groups(attrs, AddrPairs(info.addrs) + UserPairs(info.userData))
    ensures Printable(OfKind(info.addrs, true)) && Printable(OfKind(info.addrs, false))
    ensures Values(attrs, RelayAttr) == Texts(OfKind(info.addrs, true))
    ensures Values(attrs, AddrAttr) == Texts(OfKind(info.addrs, false))
    ensures Values(attrs, UserDataAttr)
            == if info.userData.Some? then [info.userData.value] else []
  {
    TextsOfKind(info.addrs, true);
    TextsOfKind(info.addrs, false);
    NoUserPairs(info.addrs);
    forall a ensures Values(attrs, a)
                     == ValuesOf(AddrPairs(info.addrs), a) + ValuesOf(UserPairs(info.userData), a)
    {
      ValuesOfSum(AddrPairs(info.addrs), UserPairs(info.userData), a);
    }
    forall a ensures ValuesOf(UserPairs(info.userData), a)
                     == if info.userData.Some? && a == UserDataAttr
                        then [info.userData.value] else []
    {
      ValuesOfUserPairs(info.userData, a);
    }
  }

  lemma {:induction false} OfKindDistinct(addrs: seq<TransportAddr>, relay: bool)
    requires NoDuplicates(addrs)
    ensures NoDuplicates(OfKind(addrs, relay))
    decreases |addrs|
  {
    if addrs != [] {
      var init := addrs[..|addrs| - 1];
      OfKindDistinct(init, relay);
      assert addrs[|addrs| - 1] !in init;
    }
  }

  lemma RelaysFirstDistinct(addrs: seq<TransportAddr>)
    requires NoDuplicates(addrs)
    ensures NoDuplicates(RelaysFirst(addrs))
    ensures FirstOccurrences(RelaysFirst(addrs)) == RelaysFirst(addrs)
  {
    OfKindDistinct(addrs, true);
    OfKindDistinct(addrs, false);
    FirstOccurrencesOfDistinct(RelaysFirst(addrs));
  }

  /**
   * Attributes and back: id and user data are kept, and so are the addresses, with the relays
   * moved to the front and otherwise in order.
   */
  lemma AttrsRoundTrip(libs: Libs, info: EndpointInfo, attrs: Attrs<IrohAttr>)
    requires Sound(libs) && ValidInfo(libs, info) && Printable(info.addrs)
    requires Groups(attrs, AddrPairs(info.addrs) + UserPairs(info.userData))
    ensures FirstOccurrences(ParsedAddrs(libs, attrs)) == RelaysFirst(info.addrs)
    ensures ParsedUserData(attrs) == info.userData
  {
    InfoValues(libs, info, attrs);
    AddrsParse(libs, info.addrs, attrs);
  }

  lemma {:induction false} OfKindOfOneKind(s: seq<TransportAddr>, relay: bool)
    requires forall i | 0 <= i < |s| :: s[i].Relay? == relay
    ensures OfKind(s, relay) == s && OfKind(s, !relay) == []
    decreases |s|
  {
    if s != [] {
      var init, last := s[..|s| - 1], s[|s| - 1];
      OfKindOfOneKind(init, relay);
      assert OfKind(s, relay) == OfKind(init, relay) + [last];
      assert OfKind(s, !relay) == OfKind(init, !relay) + [];
      assert s == init + [last];
    }
  }

  lemma {:induction false} PartitionKeepsAll(addrs: seq<TransportAddr>)
    ensures multiset(RelaysFirst(addrs)) == multiset(addrs)
    decreases |addrs|
  {
    if addrs != [] {
      var init, last := addrs[..|addrs| - 1], addrs[|addrs| - 1];
      assert addrs == init + [last];
      PartitionKeepsAll(init);
    }
  }

  lemma {:induction false} SortedByKindIsFixed(addrs: seq<TransportAddr>)
    requires RelaysComeFirst(addrs)
    ensures RelaysFirst(addrs) == addrs
    decreases |addrs|
  {
    if addrs != [] {
      var init, last := addrs[..|addrs| - 1], addrs[|addrs| - 1];
      SortedByKindIsFixed(init);
      if last.Relay? {
        OfKindOfOneKind(addrs, true);
      } else {
        var a, b := OfKind(init, true), OfKind(init, false);
        assert OfKind(addrs, true) == a && OfKind(addrs, false) == b + [last];
        assert a + (b + [last]) == (a + b) + [last];
      }
    }
  }

  /**
   * Moving the relays to the front loses and repeats nothing, changes nothing exactly when
   * they are there already, and changes nothing the second time.
   */
  lemma RelaysFirstLaws(addrs: seq<TransportAddr>)
    ensures multiset(RelaysFirst(addrs)) == multiset(addrs)
    ensures RelaysFirst(addrs) == addrs <==> RelaysComeFirst(addrs)
    ensures RelaysFirst(RelaysFirst(addrs)) == RelaysFirst(addrs)
  {
    PartitionKeepsAll(addrs);
    var r := RelaysFirst(addrs);
    assert RelaysComeFirst(r);
    SortedByKindIsFixed(r);
    if RelaysComeFirst(addrs) {
      SortedByKindIsFixed(addrs);
    }
  }

  // Through the printed strings -------------------------------------------------------------

  lemma CutAllIsIdentity(vs: seq<string>)
    requires forall i | 0 <= i < |vs| :: '=' !in vs[i]
    ensures CutAll(vs) == vs
  {}

  ghost predicate NoEqualsInRelays(addrs: seq<TransportAddr>) {
    forall i | 0 <= i < |addrs| :: addrs[i].Relay? ==> '=' !in addrs[i].url
  }

  lemma TextsHaveNoEquals(libs: Libs, addrs: seq<TransportAddr>)
    requires Sound(libs) && AllValid(libs, addrs) && Printable(addrs) && NoEqualsInRelays(addrs)
    ensures CutAll(Texts(addrs)) == Texts(addrs)
  {
    forall i | 0 <= i < |addrs| ensures '=' !in Texts(addrs)[i] {
      AddrText(libs, addrs[i]);
    }
    CutAllIsIdentity(Texts(addrs));
  }

  /** What comes back is what was printed, except for the values that are cut. */
  lemma TextValues(attrs: Attrs<IrohAttr>, order: seq<IrohAttr>, back: Attrs<IrohAttr>, a: IrohAttr)
    requires Enumerates(order, attrs) && forall k | k in attrs :: attrs[k] != []
    requires AllParse(ATTR_TEXT, ToTxtStrings(ATTR_TEXT, attrs, order))
    requires Groups(back, PairsOf(ATTR_TEXT, ToTxtStrings(ATTR_TEXT, attrs, order)))
    ensures Values(back, a) == CutAll(Values(attrs, a))
  {
    PrintedParses(ATTR_TEXT, attrs, order, back);
  }

  /** Printed as TXT strings and parsed again, user data is cut at its first `=`. */
  lemma TextUserData(
    libs: Libs, info: EndpointInfo, attrs: Attrs<IrohAttr>, order: seq<IrohAttr>,
    back: Attrs<IrohAttr>)
    requires ValidInfo(libs, info) && Printable(info.addrs)
    requires Groups(attrs, AddrPairs(info.addrs) + UserPairs(info.userData))
    requires Enumerates(order, attrs)
    requires AllParse(ATTR_TEXT, ToTxtStrings(ATTR_TEXT, attrs, order))
    requires Groups(back, PairsOf(ATTR_TEXT, ToTxtStrings(ATTR_TEXT, attrs, order)))
    ensures ParsedUserData(back)
            == if info.userData.Some? then Some(Cut(info.userData.value)) else None
  {
    InfoValues(libs, info, attrs);
    TextValues(attrs, order, back, UserDataAttr);
    if info.userData.Some? {
      PrefixIsShorter(info.userData.value, IndexOf(info.userData.value, '='));
    }
  }

  /**
   * The addresses that come through: what the parser makes of the relay URLs cut at their first
   * `=`, and all others as they were.
   */
  lemma TextAddrsCut(
    libs: Libs, info: EndpointInfo, attrs: Attrs<IrohAttr>, order: seq<IrohAttr>,
    back: Attrs<IrohAttr>)
    requires Sound(libs) && ValidInfo(libs, info) && Printable(info.addrs)
    requires Groups(attrs, AddrPairs(info.addrs) + UserPairs(info.userData))
    requires Enumerates(order, attrs)
    requires AllParse(ATTR_TEXT, ToTxtStrings(ATTR_TEXT, attrs, order))
    requires Groups(back, PairsOf(ATTR_TEXT, ToTxtStrings(ATTR_TEXT, attrs, order)))
    ensures Printable(OfKind(info.addrs, true))
    ensures ParsedAddrs(libs, back)
            == FilterMap(s => ParseRelay(libs, s), CutAll(Texts(OfKind(info.addrs, true))))
               + OfKind(info.addrs, false)
  {
    InfoValues(libs, info, attrs);
    TextValues(attrs, order, back, RelayAttr);
    TextValues(attrs, order, back, AddrAttr);
    var others := OfKind(info.addrs, false);
    OfKindIsValid(libs, info.addrs, false);
    TextsHaveNoEquals(libs, others);
    TextsParse(libs, others, false);
  }

  lemma OfKindIsValid(libs: Libs, addrs: seq<TransportAddr>, relay: bool)
    requires AllValid(libs, addrs)
    ensures AllValid(libs, OfKind(addrs, relay))
  {
    var kind := OfKind(addrs, relay);
    forall i | 0 <= i < |kind| ensures ValidAddr(libs, kind[i]) {
      var j :| 0 <= j < |addrs| && addrs[j] == kind[i];
    }
  }

  /** When no relay URL contains `=` the addresses come through, with the relays in front. */
  lemma TextAddrs(
    libs: Libs, info: EndpointInfo, attrs: Attrs<IrohAttr>, order: seq<IrohAttr>,
    back: Attrs<IrohAttr>)
    requires Sound(libs) && ValidInfo(libs, info) && Printable(info.addrs)
    requires NoEqualsInRelays(info.addrs)
    requires Groups(attrs, AddrPairs(info.addrs) + UserPairs(info.userData))
    requires Enumerates(order, attrs)
    requires AllParse(ATTR_TEXT, ToTxtStrings(ATTR_TEXT, attrs, order))
    requires Groups(back, PairsOf(ATTR_TEXT, ToTxtStrings(ATTR_TEXT, attrs, order)))
    ensures FirstOccurrences(ParsedAddrs(libs, back)) == RelaysFirst(info.addrs)
  {
    InfoValues(libs, info, attrs);
    TextValues(attrs, order, back, RelayAttr);
    TextValues(attrs, order, back, AddrAttr);
    OfKindIsSound(libs, info.addrs, true);
    OfKindIsSound(libs, info.addrs, false);
    TextsHaveNoEquals(libs, OfKind(info.addrs, true));
    TextsHaveNoEquals(libs, OfKind(info.addrs, false));
    AddrsParse(libs, info.addrs, back);
  }

  lemma {:induction false} FilterMapSource<T>(parse: string -> Option<T>, vs: seq<string>, x: T)
    returns (i: nat)
    requires x in FilterMap(parse, vs)
    ensures i < |vs| && parse(vs[i]) == Some(x)
    decreases |vs|
  {
    if parse(vs[|vs| - 1]) == Some(x) {
      i := |vs| - 1;
    } else {
      i := FilterMapSource(parse, vs[..|vs| - 1], x);
    }
  }

  /** No relay URL that was read from printed TXT strings contains `=`. */
  lemma ReadRelaysHaveNoEquals(libs: Libs, vs: seq<string>, back: Attrs<IrohAttr>, url: string)
    requires CutUrlsStayCut(libs) && CanonicalUrls(libs, vs)
    requires Values(back, RelayAttr) == CutAll(vs)
    requires Relay(url) in ParsedAddrs(libs, back)
    ensures '=' !in url
  {
    if Relay(url) in FilterMap(s => ParseAddr(libs, s), Values(back, AddrAttr)) {
      var i := FilterMapSource(s => ParseAddr(libs, s), Values(back, AddrAttr), Relay(url));
      assert false;
    } else {
      var i := FilterMapSource(s => ParseRelay(libs, s), CutAll(vs), Relay(url));
      assert libs.parseUrl(vs[i]) == Some(vs[i]) && CutAll(vs)[i] == Cut(vs[i]);
    }
  }

  /**
   * So an endpoint survives the TXT strings exactly when its relays come first and neither
   * they nor its user data contain `=`.
   */
  lemma TextRoundTripExactly(
    libs: Libs, info: EndpointInfo, attrs: Attrs<IrohAttr>, order: seq<IrohAttr>,
    back: Attrs<IrohAttr>)
    requires Sound(libs) && CutUrlsStayCut(libs) && ValidInfo(libs, info) && Printable(info.addrs)
    requires Groups(attrs, AddrPairs(info.addrs) + UserPairs(info.userData))
    requires Enumerates(order, attrs)
    requires AllParse(ATTR_TEXT, ToTxtStrings(ATTR_TEXT, attrs, order))
    requires Groups(back, PairsOf(ATTR_TEXT, ToTxtStrings(ATTR_TEXT, attrs, order)))
    ensures EndpointInfo(info.id, FirstOccurrences(ParsedAddrs(libs, back)), ParsedUserData(back))
            == info
            <==> && RelaysComeFirst(info.addrs) && NoEqualsInRelays(info.addrs)
                 && (info.userData.Some? ==> '=' !in info.userData.value)
  {
    TextUserData(libs, info, attrs, order, back);
    if NoEqualsInRelays(info.addrs) {
      TextAddrs(libs, info, attrs, order, back);
      RelaysFirstLaws(info.addrs);
    } else {
      var i :| 0 <= i < |info.addrs| && info.addrs[i].Relay? && '=' in info.addrs[i].url;
      InfoValues(libs, info, attrs);
      RelaysAreCanonical(libs, info.addrs);
      TextValues(attrs, order, back, RelayAttr);
      if info.addrs[i] in ParsedAddrs(libs, back) {
        ReadRelaysHaveNoEquals(libs, Values(attrs, RelayAttr), back, info.addrs[i].url);
      }
      assert info.addrs[i] !in FirstOccurrences(ParsedAddrs(libs, back));
    }
  }

  lemma RelaysAreCanonical(libs: Libs, addrs: seq<TransportAddr>)
    requires AllValid(libs, addrs)
    ensures Printable(OfKind(addrs, true)) && CanonicalUrls(libs, Texts(OfKind(addrs, true)))
  {
    OfKindIsValid(libs, addrs, true);
  }

  lemma OfKindIsSound(libs: Libs, addrs: seq<TransportAddr>, relay: bool)
    requires AllValid(libs, addrs) && NoEqualsInRelays(addrs)
    ensures AllValid(libs, OfKind(addrs, relay)) && NoEqualsInRelays(OfKind(addrs, relay))
  {
    forall a | a in OfKind(addrs, relay)
      ensures ValidAddr(libs, a) && (a.Relay? ==> '=' !in a.url)
    {
      var i :| 0 <= i < |addrs| && addrs[i] == a;
    }
  }

  lemma {:induction false} PrefixIsShorter(s: string, i: nat)
    requires i <= |s|
    ensures Utf8Len(s[..i]) <= Utf8Len(s)
    decreases i
  {
    if i > 0 {
      assert s[..i][1..] == s[1..][..i - 1];
      PrefixIsShorter(s[1..], i - 1);
    }
  }
}
