/**
 * Attributes of an endpoint as `key=value` strings in TXT records (RFC 1464), for any type of
 * keys that can be printed and parsed, and the record name that carries the endpoint id.
 */
module TxtAttrs {
  import opened Wrappers
  import opened Bytes

  datatype ParseError =
    | UnexpectedFormat(s: string)
    | AttrFromString(key: string)
    | NumLabels(num: nat)
    | NotAnIrohRecord(first: string)
    | DecodingError

  /** `Display` and `FromStr` of a type. */
  datatype Text<!K> = Text(show: K -> string, parse: string -> Option<K>)

  type Attrs<K> = map<K, seq<string>>

  // Grouping pairs --------------------------------------------------------------------------

  /** The values paired with a key, in order. */
  function ValuesOf<K(==)>(pairs: seq<(K, string)>, k: K): (vs: seq<string>)
    decreases |pairs|
  {
    if pairs == [] then []
    else
      var last := pairs[|pairs| - 1];
      ValuesOf(pairs[..|pairs| - 1], k) + (if last.0 == k then [last.1] else [])
  }

  ghost predicate Groups<K(!new)>(attrs: Attrs<K>, pairs: seq<(K, string)>) {
    forall k :: (k in attrs <==> ValuesOf(pairs, k) != [])
                && (k in attrs ==> attrs[k] == ValuesOf(pairs, k))
  }

  /** `entry(k).or_default().push(v)` */
  function Push<K>(attrs: Attrs<K>, k: K, v: string): (attrs': Attrs<K>) {
    attrs[k := (if k in attrs then attrs[k] else []) + [v]]
  }

  lemma PushGroups<K(!new)>(attrs: Attrs<K>, pairs: seq<(K, string)>, k: K, v: string)
    requires Groups(attrs, pairs)
    ensures Groups(Push(attrs, k, v), pairs + [(k, v)])
  {
    assert (pairs + [(k, v)])[..|pairs|] == pairs;
  }

  method FromParts<K(==, !new)>(pairs: seq<(K, string)>) returns (attrs: Attrs<K>)
    ensures Groups(attrs, pairs)
  {
    attrs := map[];
    for i := 0 to |pairs|
      invariant Groups(attrs, pairs[..i])
    {
      var (k, v) := pairs[i];
      PushGroups(attrs, pairs[..i], k, v);
      assert pairs[..i + 1] == pairs[..i] + [(k, v)];
      attrs := Push(attrs, k, v);
    }
    assert pairs[..|pairs|] == pairs;
  }

  // Parsing strings -------------------------------------------------------------------------

  /** The text before the first `=`. */
  function Cut(v: string): (p: string)
    ensures '=' !in p
    ensures p == v <==> '=' !in v
  {
    v[..IndexOf(v, '=')]
  }

  /** The first two of the parts that `=` splits a string into, the first one parsed. */
  function PairOf<K>(text: Text<K>, s: string): (r: Result<(K, string), ParseError>) {
    var i := IndexOf(s, '=');
    if i == |s| then Err(UnexpectedFormat(s))
    else
      match text.parse(s[..i])
      case None => Err(AttrFromString(s[..i]))
      case Some(k) => Ok((k, Cut(s[i + 1..])))
  }

  lemma CutMeans(a: string, b: string)
    requires '=' !in a
    ensures Cut(a) == a && Cut(a + ['='] + b) == a
  {
    FirstField(a, '=', b);
  }

  /**
   * How a string is read: what stands before the first `=` is the key, what follows it, up to
   * the next one, the value. The two errors are those of a string without `=` and of a key that
   * does not parse.
   */
  lemma PairOfMeans<K>(text: Text<K>, key: string, v: string)
    requires '=' !in key
    ensures PairOf(text, key) == Err(UnexpectedFormat(key))
    ensures PairOf(text, key + ['='] + v)
            == match text.parse(key)
               case None => Err(AttrFromString(key))
               case Some(k) => Ok((k, Cut(v)))
  {
    FirstField(key, '=', v);
    assert IndexOf(key, '=') == |key|;
  }

  ghost predicate AllParse<K>(text: Text<K>, strings: seq<string>) {
    forall i | 0 <= i < |strings| :: PairOf(text, strings[i]).Ok?
  }

  function PairsOf<K>(text: Text<K>, strings: seq<string>): (pairs: seq<(K, string)>)
    requires AllParse(text, strings)
    ensures |pairs| == |strings|
    ensures forall i | 0 <= i < |strings| :: PairOf(text, strings[i]) == Ok(pairs[i])
  {
    seq(|strings|, i requires 0 <= i < |strings| => PairOf(text, strings[i]).value)
  }

  lemma PairsOfNext<K>(text: Text<K>, strings: seq<string>, n: nat, pair: (K, string))
    requires n < |strings| && AllParse(text, strings[..n])
    requires PairOf(text, strings[n]) == Ok(pair)
    ensures AllParse(text, strings[..n + 1])
    ensures PairsOf(text, strings[..n + 1]) == PairsOf(text, strings[..n]) + [pair]
  {
    assert strings[..n + 1] == strings[..n] + [strings[n]];
  }

  /** Succeeds when every string parses, and otherwise reports the first that does not. */
  method FromStrings<K(==, !new)>(text: Text<K>, strings: seq<string>)
    returns (r: Result<Attrs<K>, ParseError>)
    ensures r.Ok? <==> AllParse(text, strings)
    ensures r.Ok? ==> Groups(r.value, PairsOf(text, strings))
    ensures r.Err? ==> exists i | 0 <= i < |strings| ::
      PairOf(text, strings[i]) == Err(r.error) && AllParse(text, strings[..i])
  {
    var attrs: Attrs<K> := map[];
    for n := 0 to |strings|
      invariant AllParse(text, strings[..n])
      invariant Groups(attrs, PairsOf(text, strings[..n]))
    {
      var s := strings[n];
      var i := IndexOf(s, '=');
      if i == |s| {
        assert PairOf(text, strings[n]) == Err(UnexpectedFormat(s));
        return Err(UnexpectedFormat(s));
      }
      var attr := text.parse(s[..i]);
      if attr.None? {
        assert PairOf(text, strings[n]) == Err(AttrFromString(s[..i]));
        return Err(AttrFromString(s[..i]));
      }
      var value := Cut(s[i + 1..]);
      PushGroups(attrs, PairsOf(text, strings[..n]), attr.value, value);
      PairsOfNext(text, strings, n, (attr.value, value));
      attrs := Push(attrs, attr.value, value);
    }
    assert strings[..|strings|] == strings;
    return Ok(attrs);
  }

  // Printing --------------------------------------------------------------------------------

  function Lines(key: string, vs: seq<string>): (lines: seq<string>)
    ensures |lines| == |vs| && forall i | 0 <= i < |vs| :: lines[i] == key + ['='] + vs[i]
  {
    seq(|vs|, i requires 0 <= i < |vs| => key + ['='] + vs[i])
  }

  /** Every key once: the order in which a map is iterated. */
  ghost predicate Enumerates<K>(order: seq<K>, attrs: Attrs<K>) {
    && (forall i | 0 <= i < |order| :: order[i] in attrs)
    && (forall k | k in attrs :: k in order)
    && forall i, j | 0 <= i < j < |order| :: order[i] != order[j]
  }

  function ToTxtStrings<K>(text: Text<K>, attrs: Attrs<K>, order: seq<K>): (strings: seq<string>)
    requires forall i | 0 <= i < |order| :: order[i] in attrs
  {
    if order == [] then []
    else Lines(text.show(order[0]), attrs[order[0]]) + ToTxtStrings(text, attrs, order[1..])
  }

  // Round trip ------------------------------------------------------------------------------

  function CutAll(vs: seq<string>): (cs: seq<string>)
    ensures |cs| == |vs| && forall i | 0 <= i < |vs| :: cs[i] == Cut(vs[i])
  {
    seq(|vs|, i requires 0 <= i < |vs| => Cut(vs[i]))
  }

  function PairUp<K>(k: K, vs: seq<string>): (pairs: seq<(K, string)>)
    ensures |pairs| == |vs| && forall i | 0 <= i < |vs| :: pairs[i] == (k, vs[i])
  {
    seq(|vs|, i requires 0 <= i < |vs| => (k, vs[i]))
  }

  ghost function AllPairs<K>(attrs: Attrs<K>, order: seq<K>): (pairs: seq<(K, string)>)
    requires forall i | 0 <= i < |order| :: order[i] in attrs
  {
    if order == [] then []
    else PairUp(order[0], CutAll(attrs[order[0]])) + AllPairs(attrs, order[1..])
  }

  lemma LineParses<K>(text: Text<K>, k: K, v: string)
    requires text.parse(text.show(k)) == Some(k) && '=' !in text.show(k)
    ensures PairOf(text, text.show(k) + ['='] + v) == Ok((k, Cut(v)))
  {
    FirstField(text.show(k), '=', v);
  }

  lemma LinesParse<K>(text: Text<K>, k: K, vs: seq<string>)
    requires text.parse(text.show(k)) == Some(k) && '=' !in text.show(k)
    ensures AllParse(text, Lines(text.show(k), vs))
    ensures PairsOf(text, Lines(text.show(k), vs)) == PairUp(k, CutAll(vs))
  {
    var lines := Lines(text.show(k), vs);
    forall i | 0 <= i < |lines| ensures PairOf(text, lines[i]) == Ok((k, Cut(vs[i]))) {
      LineParses(text, k, vs[i]);
    }
  }

  lemma PairsOfSum<K>(text: Text<K>, xs: seq<string>, ys: seq<string>)
    requires AllParse(text, xs) && AllParse(text, ys)
    ensures AllParse(text, xs + ys)
    ensures PairsOf(text, xs + ys) == PairsOf(text, xs) + PairsOf(text, ys)
  {}

  lemma {:induction false} PrintedPairs<K>(text: Text<K>, attrs: Attrs<K>, order: seq<K>)
    requires forall i | 0 <= i < |order| :: order[i] in attrs
    requires forall i | 0 <= i < |order| ::
      text.parse(text.show(order[i])) == Some(order[i]) && '=' !in text.show(order[i])
    ensures AllParse(text, ToTxtStrings(text, attrs, order))
    ensures PairsOf(text, ToTxtStrings(text, attrs, order)) == AllPairs(attrs, order)
    decreases |order|
  {
    if order != [] {
      var k, rest := order[0], order[1..];
      PrintedPairs(text, attrs, rest);
      LinesParse(text, k, attrs[k]);
      PairsOfSum(text, Lines(text.show(k), attrs[k]), ToTxtStrings(text, attrs, rest));
    }
  }

  lemma {:induction false} ValuesOfSum<K>(xs: seq<(K, string)>, ys: seq<(K, string)>, k: K)
    ensures ValuesOf(xs + ys, k) == ValuesOf(xs, k) + ValuesOf(ys, k)
    decreases |ys|
  {
    if ys == [] {
      assert xs + ys == xs;
    } else {
      assert (xs + ys)[..|xs + ys| - 1] == xs + ys[..|ys| - 1];
      ValuesOfSum(xs, ys[..|ys| - 1], k);
    }
  }

  lemma {:induction false} ValuesOfPairUp<K>(j: K, vs: seq<string>, k: K)
    ensures ValuesOf(PairUp(j, vs), k) == if j == k then vs else []
    decreases |vs|
  {
    if vs != [] {
      var init := vs[..|vs| - 1];
      assert PairUp(j, vs)[..|vs| - 1] == PairUp(j, init);
      ValuesOfPairUp(j, init, k);
    }
  }

  lemma {:induction false} ValuesOfAllPairs<K>(attrs: Attrs<K>, order: seq<K>, k: K)
    requires forall i | 0 <= i < |order| :: order[i] in attrs
    requires forall i, j | 0 <= i < j < |order| :: order[i] != order[j]
    ensures ValuesOf(AllPairs(attrs, order), k) == if k in order then CutAll(attrs[k]) else []
    decreases |order|
  {
    if order != [] {
      var first, rest := order[0], order[1..];
      assert order == [first] + rest;
      ValuesOfAllPairs(attrs, rest, k);
      ValuesOfPairUp(first, CutAll(attrs[first]), k);
      ValuesOfSum(PairUp(first, CutAll(attrs[first])), AllPairs(attrs, rest), k);
    }
  }

  /**
   * Parsing what was printed succeeds and gives back the same keys, each value cut short at
   * its first `=`, in whatever order the keys were printed.
   */
  lemma PrintedParses<K(!new)>(text: Text<K>, attrs: Attrs<K>, order: seq<K>, back: Attrs<K>)
    requires Enumerates(order, attrs)
    requires forall k | k in attrs :: attrs[k] != []
    requires forall k | k in attrs ::
      text.parse(text.show(k)) == Some(k) && '=' !in text.show(k)
    ensures AllParse(text, ToTxtStrings(text, attrs, order))
    ensures Groups(back, PairsOf(text, ToTxtStrings(text, attrs, order))) ==>
      back == map k | k in attrs :: CutAll(attrs[k])
  {
    PrintedPairs(text, attrs, order);
    var strings := ToTxtStrings(text, attrs, order);
    if Groups(back, PairsOf(text, strings)) {
      forall k
        ensures k in back <==> k in attrs
        ensures k in back ==> back[k] == CutAll(attrs[k])
      {
        ValuesOfAllPairs(attrs, order, k);
      }
    }
  }

  ghost predicate NoEquals<K>(attrs: Attrs<K>) {
    forall k, i | k in attrs && 0 <= i < |attrs[k]| :: '=' !in attrs[k][i]
  }

  /** So the round trip is the identity exactly when no value contains `=`. */
  lemma RoundTripIsIdentityExactly<K(!new)>(
    text: Text<K>, attrs: Attrs<K>, order: seq<K>, back: Attrs<K>)
    requires Enumerates(order, attrs)
    requires forall k | k in attrs :: attrs[k] != []
    requires forall k | k in attrs ::
      text.parse(text.show(k)) == Some(k) && '=' !in text.show(k)
    requires AllParse(text, ToTxtStrings(text, attrs, order))
    requires Groups(back, PairsOf(text, ToTxtStrings(text, attrs, order)))
    ensures back == attrs <==> NoEquals(attrs)
  {
    PrintedParses(text, attrs, order, back);
    if NoEquals(attrs) {
      forall k | k in attrs ensures back[k] == attrs[k] {}
    }
    if back == attrs {
      forall k, i | k in attrs && 0 <= i < |attrs[k]| ensures '=' !in attrs[k][i] {
        assert back[k][i] == Cut(attrs[k][i]);
      }
    }
  }

  /** The smallest example: the value `a=b` comes back as `a`. */
  lemma ValueIsCut()
    ensures PairOf(Text((k: string) => k, (s: string) => Some(s)), "k=a=b") == Ok(("k", "a"))
  {
    var line := "k" + ['='] + "a=b";
    FirstField("k", '=', "a=b");
    FirstField("a", '=', "b");
    assert "a" + ['='] + "b" == "a=b" && line == "k=a=b";
  }

  /**
   * With text for keys, as in `TxtAttrs<String>`, keys are cut as well: the round trip is the
   * identity exactly when neither keys nor values contain `=`.
   */
  lemma TextKeysRoundTripExactly(
    attrs: Attrs<string>, order: seq<string>, back: Attrs<string>)
    requires Enumerates(order, attrs)
    requires forall k | k in attrs :: attrs[k] != []
    requires var text := Text((k: string) => k, (s: string) => Some(s));
      && AllParse(text, ToTxtStrings(text, attrs, order))
      && Groups(back, PairsOf(text, ToTxtStrings(text, attrs, order)))
    ensures back == attrs <==> NoEquals(attrs) && forall k | k in attrs :: '=' !in k
  {
    var text := Text((k: string) => k, (s: string) => Some(s));
    if forall k | k in attrs :: '=' !in k {
      RoundTripIsIdentityExactly(text, attrs, order, back);
    } else {
      var pairs := PairsOf(text, ToTxtStrings(text, attrs, order));
      forall k | k in back ensures '=' !in k {
        assert ValuesOf(pairs, k) != [];
        var i := OccursWith(pairs, k);
        assert PairOf(text, ToTxtStrings(text, attrs, order)[i]) == Ok(pairs[i]);
      }
    }
  }

  lemma {:induction false} OccursWith<K>(pairs: seq<(K, string)>, k: K) returns (i: nat)
    requires ValuesOf(pairs, k) != []
    ensures i < |pairs| && pairs[i].0 == k
    decreases |pairs|
  {
    if pairs[|pairs| - 1].0 == k {
      i := |pairs| - 1;
    } else {
      assert ValuesOf(pairs, k) == ValuesOf(pairs[..|pairs| - 1], k);
      i := OccursWith(pairs[..|pairs| - 1], k);
    }
  }

  // Record names ----------------------------------------------------------------------------

  const IROH_TXT_NAME: string := "_iroh"

  function CountLabels(name: string): (n: nat)
    ensures n >= 1
    ensures n >= 2 <==> '.' in name
  {
    if name == [] then 1 else (if name[0] == '.' then 1 else 0) + CountLabels(name[1..])
  }

  /** The id in the second label of a name whose first label is `_iroh`. */
  function EndpointIdFromTxtName<Id>(z32: Text<Id>, name: string): (r: Result<Id, ParseError>) {
    var n := CountLabels(name);
    if n < 2 then Err(NumLabels(n))
    else
      var i := IndexOf(name, '.');
      if name[..i] != IROH_TXT_NAME then Err(NotAnIrohRecord(name[..i]))
      else
        var rest := name[i + 1..];
        match z32.parse(rest[..IndexOf(rest, '.')])
        case None => Err(DecodingError)
        case Some(id) => Ok(id)
  }

  /**
   * How a name is read: without a dot it has too few labels; otherwise its first label has to
   * be `_iroh`, and the second one is the id, whatever follows.
   */
  lemma TxtNameMeans<Id>(
    z32: Text<Id>, first: string, second: string, tail: string, rest: string)
    requires '.' !in first && '.' !in second
    requires rest == second || rest == second + ['.'] + tail
    ensures EndpointIdFromTxtName(z32, first) == Err(NumLabels(1))
    ensures EndpointIdFromTxtName(z32, first + ['.'] + rest)
            == if first != "_iroh" then Err(NotAnIrohRecord(first))
               else if z32.parse(second).None? then Err(DecodingError)
               else Ok(z32.parse(second).value)
  {
    FirstField(first, '.', rest);
    FirstLabel(second, tail, rest);
    OneLabel(first);
    var name := first + ['.'] + rest;
    assert name[|first|] == '.';
  }

  lemma FirstLabel(second: string, tail: string, rest: string)
    requires '.' !in second && (rest == second || rest == second + ['.'] + tail)
    ensures rest[..IndexOf(rest, '.')] == second
  {
    FirstField(second, '.', tail);
    assert second[..|second|] == second;
  }

  lemma {:induction false} OneLabel(name: string)
    requires '.' !in name
    ensures CountLabels(name) == 1
    decreases |name|
  {
    if name != [] {
      OneLabel(name[1..]);
    }
  }

  /** The name under which an endpoint publishes gives its id back, whatever the origin. */
  lemma TxtNameRoundTrip<Id>(z32: Text<Id>, id: Id, origin: string)
    requires z32.parse(z32.show(id)) == Some(id) && '.' !in z32.show(id)
    ensures EndpointIdFromTxtName(z32, IROH_TXT_NAME + ['.'] + (z32.show(id) + ['.'] + origin))
            == Ok(id)
  {
    var rest := z32.show(id) + ['.'] + origin;
    var name := IROH_TXT_NAME + ['.'] + rest;
    FirstField(IROH_TXT_NAME, '.', rest);
    FirstField(z32.show(id), '.', origin);
    assert name[|IROH_TXT_NAME|] == '.';
  }
}
