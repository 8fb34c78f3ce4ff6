/**
 * `resolve_host_all`: the addresses of a host, streamed as the two lookups complete. The
 * stream is an object polled for one item after another.
 */
module HostStream {
  import opened Wrappers
  import opened Sequences

  datatype IpAddr = V4(bits: nat) | V6(bits: nat)

  datatype DnsError =
    | Timeout
    | NoResponse
    | ResolveBoth(ipv4: DnsError, ipv6: DnsError)
    | MissingHost
    | Resolve(reason: string)

  datatype Host = Missing | Literal(ip: IpAddr) | Domain(name: string)

  /** How a lookup ends: with address bits, in the resolver's order, or with an error. */
  type Lookup = Result<seq<nat>, DnsError>

  type Item = Result<IpAddr, DnsError>

  function AsV4(bits: seq<nat>): (r: seq<IpAddr>)
    ensures |r| == |bits| && forall i | 0 <= i < |bits| :: r[i] == V4(bits[i])
  {
    seq(|bits|, i requires 0 <= i < |bits| => V4(bits[i]))
  }

  function AsV6(bits: seq<nat>): (r: seq<IpAddr>)
    ensures |r| == |bits| && forall i | 0 <= i < |bits| :: r[i] == V6(bits[i])
  {
    seq(|bits|, i requires 0 <= i < |bits| => V6(bits[i]))
  }

  function Oks(addrs: seq<IpAddr>): (r: seq<Item>)
    ensures |r| == |addrs| && forall i | 0 <= i < |addrs| :: r[i] == Ok(addrs[i])
  {
    seq(|addrs|, i requires 0 <= i < |addrs| => Ok(addrs[i]))
  }

  lemma OksOfCons(first: IpAddr, rest: seq<IpAddr>)
    ensures Oks([first] + rest) == [Ok(first)] + Oks(rest)
  {}

  /** The addresses a lookup contributes. */
  function Found(lookup: Lookup): (bits: seq<nat>) {
    match lookup
    case Ok(bits) => bits
    case Err(_) => []
  }

  /**
   * What the stream of a domain yields in all: the addresses of the family that completes
   * first, then those of the other one, or a single error when there are none.
   */
  function Expected(v4: Lookup, v6: Lookup, v6First: bool): (items: seq<Item>) {
    var a4, a6 := AsV4(Found(v4)), AsV6(Found(v6));
    var addrs := InOrder(v6First, a4, a6);
    if addrs != [] then Oks(addrs)
    else if v4.Err? && v6.Err? then [Err(ResolveBoth(v4.error, v6.error))]
    else [Err(NoResponse)]
  }

  function InOrder(v6First: bool, a4: seq<IpAddr>, a6: seq<IpAddr>): (addrs: seq<IpAddr>) {
    if v6First then a6 + a4 else a4 + a6
  }

  /** The addresses of the family that is first in order can be moved to the front. */
  lemma MoveToFront(v6First: bool, a4: seq<IpAddr>, a6: seq<IpAddr>)
    ensures !v6First || a6 == [] ==> a4 + InOrder(v6First, [], a6) == [] + InOrder(v6First, a4, a6)
    ensures v6First || a4 == [] ==> a6 + InOrder(v6First, a4, []) == [] + InOrder(v6First, a4, a6)
  {}

  /** What an open stream yields when these addresses are still to come. */
  function ItemsLeft(closed: bool, addrs: seq<IpAddr>, yielded: bool, error: DnsError)
    : (items: seq<Item>)
  {
    if closed then [] else if addrs == [] && !yielded then [Err(error)] else Oks(addrs)
  }

  class HostStream {
    /** A lookup in flight, with the outcome it will have; `None` once it has completed. */
    var v4: Option<Lookup>
    var v6: Option<Lookup>
    var v4Err: Option<DnsError>
    var v6Err: Option<DnsError>
    var queue: seq<IpAddr>
    var closed: bool
    var yielded: bool
    /** Whether the IPv6 lookup completes while the IPv4 lookup is still in flight. */
    const v6First: bool

    ghost predicate Valid()
      reads this
    {
      && (v4Err.Some? ==> v4.None?) && (v6Err.Some? ==> v6.None?)
      && (yielded || queue != [] ==>
            (v4.None? && v4Err.None?) || (v6.None? && v6Err.None?))
      && (closed ==> queue == [] && v4.None? && v6.None?)
    }

    ghost function PendingV4(): seq<IpAddr>
      reads this
    {
      if v4.Some? then AsV4(Found(v4.value)) else []
    }

    ghost function PendingV6(): seq<IpAddr>
      reads this
    {
      if v6.Some? then AsV6(Found(v6.value)) else []
    }

    ghost function Pending(): seq<IpAddr>
      reads this
    {
      InOrder(v6First, PendingV4(), PendingV6())
    }

    ghost function FinalError(): DnsError
      reads this
    {
      var e4 := if v4.Some? then (if v4.value.Err? then Some(v4.value.error) else None) else v4Err;
      var e6 := if v6.Some? then (if v6.value.Err? then Some(v6.value.error) else None) else v6Err;
      if e4.Some? && e6.Some? then ResolveBoth(e4.value, e6.value) else NoResponse
    }

    /** The items still to come. */
    ghost function Remaining(): (items: seq<Item>)
      reads this
    {
      ItemsLeft(closed, queue + Pending(), yielded, FinalError())
    }

    constructor (v4: Lookup, v6: Lookup, v6First: bool)
      ensures Valid() && Remaining() == Expected(v4, v6, v6First)
    {
      this.v4, this.v6 := Some(v4), Some(v6);
      this.v4Err, this.v6Err := None, None;
      this.queue, this.closed, this.yielded := [], false, false;
      this.v6First := v6First;
      new;
      assert queue + Pending() == Pending();
    }

    /** One poll: the next item, or `None` at the end and ever after. */
    method Next() returns (item: Option<Item>)
      requires Valid()
      modifies this
      ensures Valid()
      ensures item.None? <==> old(Remaining()) == []
      ensures item.None? ==> closed && Remaining() == []
      ensures item.Some? ==> old(Remaining()) == [item.value] + Remaining()
      ensures old(closed) ==> item.None?
    {
      while true
        invariant Valid() && Remaining() == old(Remaining())
        invariant old(closed) ==> closed
        decreases v4.Some?, v6.Some?
      {
        if closed {
          return None;
        }
        if queue != [] {
          item := PopFront();
          return;
        }
        if v4.None? && v6.None? {
          item := Close();
          return;
        }
        if v4.Some? && !(v6.Some? && v6First) {
          CompleteV4();
        } else {
          CompleteV6();
        }
      }
    }

    method PopFront() returns (item: Option<Item>)
      requires Valid() && !closed && queue != []
      modifies this
      ensures Valid() && item.Some? && old(Remaining()) == [item.value] + Remaining()
    {
      var first := queue[0];
      item := Some(Ok(first));
      queue := queue[1..];
      yielded := true;
      assert old(queue) + Pending() == [first] + (queue + Pending());
      OksOfCons(first, queue + Pending());
    }

    /** Both lookups are done and nothing is queued: the error, if one is due, and the end. */
    method Close() returns (item: Option<Item>)
      requires Valid() && !closed && queue == [] && v4.None? && v6.None?
      modifies this
      ensures Valid() && closed
      ensures item.None? <==> old(Remaining()) == []
      ensures item.Some? ==> old(Remaining()) == [item.value]
    {
      closed := true;
      var errors := (v4Err, v6Err);
      v4Err, v6Err := None, None;
      if errors.0.Some? && errors.1.Some? {
        return Some(Err(ResolveBoth(errors.0.value, errors.1.value)));
      } else if !yielded {
        return Some(Err(NoResponse));
      } else {
        return None;
      }
    }

    method CompleteV4()
      requires Valid() && !closed && queue == [] && v4.Some? && !(v6.Some? && v6First)
      modifies this
      ensures Valid() && Remaining() == old(Remaining())
      ensures v4.None? && v6 == old(v6) && closed == old(closed)
    {
      match v4.value {
        case Ok(bits) => queue := queue + AsV4(bits);
        case Err(error) => v4Err := Some(error);
      }
      v4 := None;
      assert queue == old(PendingV4()) && FinalError() == old(FinalError());
      MoveToFront(v6First, old(PendingV4()), PendingV6());
    }

    method CompleteV6()
      requires Valid() && !closed && queue == [] && v6.Some? && (v4.Some? ==> v6First)
      modifies this
      ensures Valid() && Remaining() == old(Remaining())
      ensures v6.None? && v4 == old(v4) && closed == old(closed)
    {
      match v6.value {
        case Ok(bits) => queue := queue + AsV6(bits);
        case Err(error) => v6Err := Some(error);
      }
      v6 := None;
      assert queue == old(PendingV6()) && FinalError() == old(FinalError());
      MoveToFront(v6First, PendingV4(), old(PendingV6()));
    }
  }

  /** Polls a stream to its end. */
  method Drain(stream: HostStream) returns (items: seq<Item>)
    requires stream.Valid()
    modifies stream
    ensures items == old(stream.Remaining()) && stream.Remaining() == []
  {
    items := [];
    ghost var all := stream.Remaining();
    while true
      invariant stream.Valid() && all == items + stream.Remaining()
      decreases |stream.Remaining()|
    {
      var item := stream.Next();
      if item.None? {
        return;
      }
      Assoc(items, [item.value], stream.Remaining());
      items := items + [item.value];
    }
  }

  /** Everything the stream of a host yields, from the first poll to the end. */
  method ResolveHostAll(host: Host, v4: Lookup, v6: Lookup, v6First: bool)
    returns (items: seq<Item>)
    ensures items == match host
                     case Missing => [Err(MissingHost)]
                     case Literal(ip) => [Ok(ip)]
                     case Domain(_) => Expected(v4, v6, v6First)
  {
    match host {
      case Missing => items := [Err(MissingHost)];
      case Literal(ip) => items := [Ok(ip)];
      case Domain(_) =>
        var stream := new HostStream(v4, v6, v6First);
        items := Drain(stream);
    }
  }

  // What the yielded items promise ----------------------------------------------------------

  /** The bits of the addresses of one family, in the order they were yielded. */
  function Family(items: seq<Item>, v6: bool): (bits: seq<nat>) {
    if items == [] then []
    else
      var rest := Family(items[1..], v6);
      match items[0]
      case Ok(V4(b)) => if v6 then rest else [b] + rest
      case Ok(V6(b)) => if v6 then [b] + rest else rest
      case Err(_) => rest
  }

  lemma {:induction false} FamilyOfSum(xs: seq<Item>, ys: seq<Item>, v6: bool)
    ensures Family(xs + ys, v6) == Family(xs, v6) + Family(ys, v6)
    decreases |xs|
  {
    if xs == [] {
      assert xs + ys == ys;
    } else {
      assert (xs + ys)[1..] == xs[1..] + ys;
      FamilyOfSum(xs[1..], ys, v6);
    }
  }

  lemma {:induction false} FamilyOfV4(bits: seq<nat>, v6: bool)
    ensures Family(Oks(AsV4(bits)), v6) == if v6 then [] else bits
    decreases |bits|
  {
    if bits != [] {
      assert Oks(AsV4(bits))[1..] == Oks(AsV4(bits[1..]));
      FamilyOfV4(bits[1..], v6);
    }
  }

  lemma {:induction false} FamilyOfV6(bits: seq<nat>, v6: bool)
    ensures Family(Oks(AsV6(bits)), v6) == if v6 then bits else []
    decreases |bits|
  {
    if bits != [] {
      assert Oks(AsV6(bits))[1..] == Oks(AsV6(bits[1..]));
      FamilyOfV6(bits[1..], v6);
    }
  }

  /** Every address of a successful lookup is yielded once, each family in its own order. */
  lemma EveryAddressOnce(v4: Lookup, v6: Lookup, v6First: bool)
    ensures Family(Expected(v4, v6, v6First), false) == Found(v4)
    ensures Family(Expected(v4, v6, v6First), true) == Found(v6)
  {
    var a4, a6 := AsV4(Found(v4)), AsV6(Found(v6));
    assert Oks(a4 + a6) == Oks(a4) + Oks(a6) && Oks(a6 + a4) == Oks(a6) + Oks(a4);
    forall six ensures Family(Oks(a4 + a6), six) == (if six then Found(v6) else Found(v4))
                    && Family(Oks(a6 + a4), six) == (if six then Found(v6) else Found(v4))
    {
      FamilyOfSum(Oks(a4), Oks(a6), six);
      FamilyOfSum(Oks(a6), Oks(a4), six);
      FamilyOfV4(Found(v4), six);
      FamilyOfV6(Found(v6), six);
    }
    if a4 == [] && a6 == [] {
      assert Found(v4) == [] && Found(v6) == [];
    }
  }

  /**
   * An error is yielded exactly when no address is, alone; it names both lookups exactly when
   * both failed. Each family is contiguous.
   */
  lemma ErrorsAndOrder(v4: Lookup, v6: Lookup, v6First: bool)
    ensures var items := Expected(v4, v6, v6First);
      && ((exists i | 0 <= i < |items| :: items[i].Err?) <==> Found(v4) == [] && Found(v6) == [])
      && (forall i | 0 <= i < |items| :: items[i].Err? ==> |items| == 1)
      && (v4.Err? && v6.Err? <==> items[0].Err? && items[0].error.ResolveBoth?)
      && (v4.Err? && v6.Err? ==> items == [Err(ResolveBoth(v4.error, v6.error))])
      && (forall i, j | 0 <= i < j < |items| && items[i].Ok? && items[j].Ok? ::
            items[i].value.V6? != items[j].value.V6? ==> items[i].value.V6? == v6First)
  {
    var items := Expected(v4, v6, v6First);
    if Found(v4) == [] && Found(v6) == [] {
      assert items[0].Err?;
    } else {
      assert |items| == |Found(v4)| + |Found(v6)|;
      assert forall i | 0 <= i < |items| :: items[i].Ok?;
    }
  }

  /** One lookup succeeds with no address, the other fails: not both failed, and yet an error. */
  lemma EmptyAnswer(error: DnsError, v6First: bool)
    ensures Expected(Ok([]), Err(error), v6First) == [Err(NoResponse)]
    ensures Expected(Err(error), Ok([]), v6First) == [Err(NoResponse)]
  {}
}
