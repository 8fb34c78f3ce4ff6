/**
 * The registry of address lookup services: publishing to all of them, catching up those that
 * are added later, and the merged stream of their answers.
 */
module AddressLookup {
  import opened Wrappers
  import opened Sequences
  import opened EndpointInfo

  // Filters ---------------------------------------------------------------------------------

  datatype Data = Data(addrs: seq<TransportAddr>, userData: Option<string>)

  /** A filter returns the addresses it was given, or a list of its own. */
  datatype Filtered = Borrowed | Owned(addrs: seq<TransportAddr>)

  type Filter = seq<TransportAddr> -> Filtered

  function ApplyFilter(data: Data, filter: Filter): (r: Data)
    ensures r.userData == data.userData
    ensures filter(data.addrs).Borrowed? ==> r == data
    ensures filter(data.addrs).Owned? ==>
      && NoDuplicates(r.addrs)
      && forall a :: a in r.addrs <==> a in filter(data.addrs).addrs
  {
    match filter(data.addrs)
    case Borrowed => data
    case Owned(addrs) => Data(FirstOccurrences(addrs), data.userData)
  }

  function Outgoing(filter: Option<Filter>, data: Data): (r: Data) {
    if filter.Some? then ApplyFilter(data, filter.value) else data
  }

  /** Without a filter data goes out as it is, with one what the filter makes of it does. */
  lemma OutgoingMeans(filter: Option<Filter>, data: Data)
    ensures Outgoing(filter, data).userData == data.userData
    ensures filter.None? || filter.value(data.addrs).Borrowed? ==> Outgoing(filter, data) == data
    ensures filter.Some? && filter.value(data.addrs).Owned? ==>
      && NoDuplicates(Outgoing(filter, data).addrs)
      && (forall a :: a in Outgoing(filter, data).addrs <==> a in filter.value(data.addrs).addrs)
      && (NoDuplicates(filter.value(data.addrs).addrs) ==>
            Outgoing(filter, data).addrs == filter.value(data.addrs).addrs)
  {
    if filter.Some? && filter.value(data.addrs).Owned?
       && NoDuplicates(filter.value(data.addrs).addrs) {
      FirstOccurrencesOfDistinct(filter.value(data.addrs).addrs);
    }
  }

  // Registry --------------------------------------------------------------------------------

  /** A service and the data it has been given to publish, oldest first. */
  datatype Service = Service(id: nat, received: seq<Data>)

  datatype Registry = Registry(
    services: seq<Service>, lastData: Option<Data>, filter: Option<Filter>)

  function Give(s: Service, data: Data): (s': Service) {
    s.(received := s.received + [data])
  }

  /** The first part of `add`: the new service is given the data published last. */
  function CatchUp(lastData: Option<Data>, s: Service): (s': Service) {
    if lastData.Some? then Give(s, lastData.value) else s
  }

  function GiveAll(services: seq<Service>, data: Data): (r: seq<Service>)
    ensures |r| == |services| && forall i | 0 <= i < |r| :: r[i] == Give(services[i], data)
  {
    seq(|services|, i requires 0 <= i < |services| => Give(services[i], data))
  }

  datatype Op =
    | Add(service: Service)
    | Publish(data: Data)
    | Clear
    | SetFilter(f: Filter)

  function Do(r: Registry, op: Op): (r': Registry) {
    match op
    case Add(service) => r.(services := r.services + [CatchUp(r.lastData, service)])
    case Publish(data) =>
      var out := Outgoing(r.filter, data);
      r.(services := GiveAll(r.services, out), lastData := Some(out))
    case Clear => r.(services := [])
    case SetFilter(f) => r.(filter := Some(f))
  }

  class AddressLookupServices {
    var services: seq<Service>
    var lastData: Option<Data>
    var filter: Option<Filter>

    ghost function Contents(): (r: Registry)
      reads this
    {
      Registry(services, lastData, filter)
    }

    constructor ()
      ensures Contents() == Registry([], None, None)
    {
      services, lastData, filter := [], None, None;
    }

    method AddBoxed(service: Service)
      modifies this
      ensures Contents() == Do(old(Contents()), Add(service))
    {
      var added := service;
      if lastData.Some? {
        added := Give(added, lastData.value);
      }
      services := services + [added];
    }

    method PublishToAll(data: Data)
      modifies this
      ensures Contents() == Do(old(Contents()), Publish(data))
    {
      var out := data;
      if filter.Some? {
        out := ApplyFilter(data, filter.value);
      }
      for i := 0 to |services|
        invariant lastData == old(lastData) && filter == old(filter)
        invariant |services| == |old(services)|
        invariant forall k | 0 <= k < i :: services[k] == Give(old(services)[k], out)
        invariant forall k | i <= k < |services| :: services[k] == old(services)[k]
      {
        services := services[i := Give(services[i], out)];
      }
      lastData := Some(out);
    }

    method ClearAll()
      modifies this
      ensures Contents() == Do(old(Contents()), Clear)
    {
      services := [];
    }

    method SetAddrFilter(f: Filter)
      modifies this
      ensures Contents() == Do(old(Contents()), SetFilter(f))
    {
      filter := Some(f);
    }
  }

  // What every sequence of calls promises ---------------------------------------------------

  function DoAll(r: Registry, ops: seq<Op>): (r': Registry)
    decreases |ops|
  {
    if ops == [] then r else DoAll(Do(r, ops[0]), ops[1..])
  }

  /** What is published, with each publication filtered as the filter was at its time. */
  function Publications(filter: Option<Filter>, ops: seq<Op>): (ps: seq<Data>)
    decreases |ops|
  {
    if ops == [] then []
    else
      match ops[0]
      case Publish(data) => [Outgoing(filter, data)] + Publications(filter, ops[1..])
      case SetFilter(f) => Publications(Some(f), ops[1..])
      case _ => Publications(filter, ops[1..])
  }

  function LastOf(ps: seq<Data>, otherwise: Option<Data>): (d: Option<Data>) {
    if ps == [] then otherwise else Some(ps[|ps| - 1])
  }

  /** Every service in the registry was last given the data published last, if there are any. */
  ghost predicate UpToDate(r: Registry) {
    r.lastData.Some? ==>
      forall i | 0 <= i < |r.services| ::
        LastOf(r.services[i].received, None) == r.lastData
  }

  lemma {:induction false} ServicesStayUpToDate(r: Registry, ops: seq<Op>)
    requires UpToDate(r)
    ensures UpToDate(DoAll(r, ops))
    ensures DoAll(r, ops).lastData == LastOf(Publications(r.filter, ops), r.lastData)
    decreases |ops|
  {
    if ops != [] {
      var t := Do(r, ops[0]);
      assert UpToDate(t);
      ServicesStayUpToDate(t, ops[1..]);
      var rest := Publications(t.filter, ops[1..]);
      if ops[0].Publish? {
        var all := [t.lastData.value] + rest;
        assert Publications(r.filter, ops) == all;
        assert rest != [] ==> all[|all| - 1] == rest[|rest| - 1];
      }
    }
  }

  /**
   * A service that stays registered is given every publication, once each and in order, after
   * what it was given before.
   */
  lemma {:induction false} ServiceReceivesAll(r: Registry, ops: seq<Op>, p: nat)
    requires p < |r.services| && Clear !in ops
    ensures p < |DoAll(r, ops).services|
    ensures DoAll(r, ops).services[p]
            == r.services[p].(received := r.services[p].received + Publications(r.filter, ops))
    decreases |ops|
  {
    if ops == [] {
      assert r.services[p].received + [] == r.services[p].received;
    } else {
      assert ops == [ops[0]] + ops[1..];
      var t := Do(r, ops[0]);
      ServiceReceivesAll(t, ops[1..], p);
      if ops[0].Publish? {
        var x := r.services[p].received;
        var y := Publications(t.filter, ops[1..]);
        assert x + [t.lastData.value] + y == x + ([t.lastData.value] + y);
      }
    }
  }

  /**
   * When `add` overlaps other calls, which come between its two parts, the new service is up
   * to date exactly if they published nothing, or last the very data it already has.
   */
  lemma OverlappedAddIsUpToDateExactly(r: Registry, s: Service, ops: seq<Op>)
    requires UpToDate(r)
    ensures
      var added, r' := CatchUp(r.lastData, s), DoAll(r, ops);
      var ps := Publications(r.filter, ops);
      UpToDate(r'.(services := r'.services + [added])) <==>
        ps == [] || LastOf(added.received, None) == Some(ps[|ps| - 1])
  {
    ServicesStayUpToDate(r, ops);
    var added, r' := CatchUp(r.lastData, s), DoAll(r, ops);
    var all := r'.services + [added];
    assert forall i | 0 <= i < |r'.services| :: all[i] == r'.services[i];
    assert all[|all| - 1] == added;
  }

  /** What the overlapped `add` can miss: the only publication there is. */
  lemma MissedPublication(data: Data, s: Service)
    requires s.received == []
    ensures var r := Registry([], None, None);
      var added, r' := CatchUp(r.lastData, s), DoAll(r, [Publish(data)]);
      && r'.lastData == Some(data) && added.received == []
      && !UpToDate(r'.(services := r'.services + [added]))
  {
    var r := Registry([], None, None);
    var r' := DoAll(r, [Publish(data)]);
    assert [Publish(data)][1..] == [];
    var all := r'.services + [CatchUp(r.lastData, s)];
    assert all[|all| - 1] == s;
  }

  // Filters that change ---------------------------------------------------------------------

  /** The filter in force after some calls. */
  function FilterAfter(filter: Option<Filter>, ops: seq<Op>): (f: Option<Filter>)
    decreases |ops|
  {
    if ops == [] then filter
    else FilterAfter(if ops[0].SetFilter? then Some(ops[0].f) else filter, ops[1..])
  }

  predicate NoPublish(ops: seq<Op>) {
    forall i | 0 <= i < |ops| :: !ops[i].Publish?
  }

  predicate NoSetFilter(ops: seq<Op>) {
    forall i | 0 <= i < |ops| :: !ops[i].SetFilter?
  }

  lemma {:induction false} DoAllOfSum(r: Registry, xs: seq<Op>, ys: seq<Op>)
    ensures DoAll(r, xs + ys) == DoAll(DoAll(r, xs), ys)
    decreases |xs|
  {
    if xs == [] {
      assert xs + ys == ys;
    } else {
      assert (xs + ys)[0] == xs[0] && (xs + ys)[1..] == xs[1..] + ys;
      DoAllOfSum(Do(r, xs[0]), xs[1..], ys);
    }
  }

  lemma {:induction false} FilterOfRun(r: Registry, ops: seq<Op>)
    ensures DoAll(r, ops).filter == FilterAfter(r.filter, ops)
    ensures NoSetFilter(ops) ==> FilterAfter(r.filter, ops) == r.filter
    ensures NoPublish(ops) ==> DoAll(r, ops).lastData == r.lastData
    decreases |ops|
  {
    if ops != [] {
      FilterOfRun(Do(r, ops[0]), ops[1..]);
    }
  }

  /**
   * What `add` hands over is the last publication as the filter in force then made it. It is
   * what the filter now in force would make it exactly when the two agree on that publication,
   * and surely when no filter was set since.
   */
  lemma AddedServiceGets(r: Registry, before: seq<Op>, data: Data, after: seq<Op>, s: Service)
    requires NoPublish(after)
    ensures
      var atPublish := FilterAfter(r.filter, before);
      var current := FilterAfter(atPublish, after);
      var r' := DoAll(r, before + ([Publish(data)] + after));
      var added := Do(r', Add(s)).services[|r'.services|];
      && r'.filter == current && added == Give(s, Outgoing(atPublish, data))
      && (added == Give(s, Outgoing(current, data)) <==>
            Outgoing(atPublish, data) == Outgoing(current, data))
      && (NoSetFilter(after) ==> added == Give(s, Outgoing(current, data)))
  {
    var t := DoAll(r, before);
    FilterOfRun(r, before);
    var published := Do(t, Publish(data));
    FilterOfRun(published, after);
    DoAllOfSum(r, before, [Publish(data)] + after);
    var rest := [Publish(data)] + after;
    assert rest[0] == Publish(data) && rest[1..] == after;
    var current := DoAll(published, after).filter;
    assert Give(s, Outgoing(current, data)).received[|s.received|] == Outgoing(current, data);
  }

  /** A filter that lets nothing through, set too late: a relay is handed over all the same. */
  lemma FilterSetTooLate(s: Service) returns (data: Data, f: Filter, r: Registry)
    ensures r == DoAll(Registry([], None, None), [Publish(data), SetFilter(f), Add(s)])
    ensures r.filter == Some(f) && Outgoing(r.filter, data) != data
    ensures r.services == [Give(s, data)]
  {
    data, f := Data([Relay("https://relay.example/")], None), _ => Owned([]);
    var r0 := Registry([], None, None);
    var r1 := Do(r0, Publish(data));
    var r2 := Do(r1, SetFilter(f));
    r := Do(r2, Add(s));
    var ops := [Publish(data), SetFilter(f), Add(s)];
    assert ops[1..] == [SetFilter(f), Add(s)] && ops[1..][1..] == [Add(s)];
    assert DoAll(r2, [Add(s)]) == r;
    assert Outgoing(Some(f), data).addrs == [];
  }

  // The merged stream -----------------------------------------------------------------------

  datatype Failure = NoServiceConfigured | NoResults(errors: seq<string>)

  /** What a service yields: an endpoint, or an error. */
  type Inline = Result<nat, string>

  type Output = Result<Inline, Failure>

  datatype Poll = Pending | Ready(item: Option<Output>)

  function Forwarded(events: seq<Inline>): (out: seq<Output>)
    ensures |out| == |events| && forall i | 0 <= i < |events| :: out[i] == Ok(events[i])
  {
    seq(|events|, i requires 0 <= i < |events| => Ok(events[i]))
  }

  function ErrorsIn(events: seq<Inline>): (es: seq<string>) {
    if events == [] then []
    else (if events[0].Err? then [events[0].error] else []) + ErrorsIn(events[1..])
  }

  predicate HasItem(events: seq<Inline>) {
    exists i | 0 <= i < |events| :: events[i].Ok?
  }

  /** All that the stream yields; `None` stands for a registry without services. */
  function ExpectedOutput(streams: Option<seq<Inline>>): (out: seq<Output>) {
    match streams
    case None => [Err(NoServiceConfigured)]
    case Some(events) =>
      Forwarded(events) + (if HasItem(events) then [] else [Err(NoResults(ErrorsIn(events)))])
  }

  class AddressLookupStream {
    /** What the services have still to yield, merged in the order it becomes ready. */
    var streams: Option<seq<Inline>>
    var errors: seq<string>
    var didEmit: bool
    var closed: bool

    ghost function Remaining(): (out: seq<Output>)
      reads this
    {
      if closed then []
      else
        match streams
        case None => [Err(NoServiceConfigured)]
        case Some(events) =>
          Forwarded(events)
          + (if didEmit || HasItem(events) then []
             else [Err(NoResults(errors + ErrorsIn(events)))])
    }

    constructor (streams: Option<seq<Inline>>)
      ensures Remaining() == ExpectedOutput(streams)
    {
      this.streams, errors, didEmit, closed := streams, [], false, false;
      new;
      assert streams.Some? ==> errors + ErrorsIn(streams.value) == ErrorsIn(streams.value);
    }

    /** `waiting` says that no service has anything to yield yet. */
    method PollNext(waiting: bool) returns (r: Poll)
      modifies this
      ensures r.Pending? ==> Remaining() == old(Remaining()) && waiting
      ensures r.Ready? && r.item.None? ==> old(Remaining()) == Remaining() == [] && closed
      ensures r.Ready? && r.item.Some? ==> old(Remaining()) == [r.item.value] + Remaining()
      ensures old(closed) ==> r == Ready(None)
    {
      if closed {
        return Ready(None);
      }
      if streams.None? {
        closed := true;
        return Ready(Some(Err(NoServiceConfigured)));
      }
      if waiting {
        return Pending;
      }
      if streams.value == [] {
        closed := true;
        if !didEmit {
          var all := errors;
          errors := [];
          assert all + [] == all;
          return Ready(Some(Err(NoResults(all))));
        } else {
          return Ready(None);
        }
      }
      r := Forward();
    }

    method Forward() returns (r: Poll)
      requires !closed && streams.Some? && streams.value != []
      modifies this
      ensures !closed
      ensures r.Ready? && r.item.Some? && old(Remaining()) == [r.item.value] + Remaining()
    {
      var event, rest := streams.value[0], streams.value[1..];
      ghost var all := streams.value;
      streams := Some(rest);
      match event {
        case Ok(item) =>
          didEmit := true;
          assert all[0].Ok?;
        case Err(error) =>
          errors := errors + [error];
          assert old(errors) + ([error] + ErrorsIn(rest)) == errors + ErrorsIn(rest);
          HasItemOfTail(all);
      }
      assert Forwarded(all) == [Ok(event)] + Forwarded(rest);
      r := Ready(Some(Ok(event)));
    }
  }

  lemma HasItemOfTail(events: seq<Inline>)
    requires events != [] && events[0].Err?
    ensures HasItem(events) <==> HasItem(events[1..])
  {
    if HasItem(events) {
      var i :| 0 <= i < |events| && events[i].Ok?;
      assert events[1..][i - 1].Ok?;
    }
    if HasItem(events[1..]) {
      var i :| 0 <= i < |events[1..]| && events[1..][i].Ok?;
      assert events[i + 1].Ok?;
    }
  }

  /** Any sequence of polls, of which those marked find no service ready, yields a prefix. */
  method PollMany(stream: AddressLookupStream, waiting: seq<bool>)
    returns (out: seq<Output>, ended: bool)
    modifies stream
    ensures out + stream.Remaining() == old(stream.Remaining())
    ensures ended ==> stream.Remaining() == []
  {
    out, ended := [], false;
    ghost var all := stream.Remaining();
    for i := 0 to |waiting|
      invariant all == out + stream.Remaining()
    {
      var r := stream.PollNext(waiting[i]);
      if r.Ready? {
        if r.item.None? {
          return out, true;
        }
        Assoc(out, [r.item.value], stream.Remaining());
        out := out + [r.item.value];
      }
    }
  }

  lemma {:induction false} ErrorsInAll(events: seq<Inline>)
    requires !HasItem(events)
    ensures |ErrorsIn(events)| == |events|
    ensures forall i | 0 <= i < |events| :: events[i] == Err(ErrorsIn(events)[i])
    decreases |events|
  {
    if events != [] {
      assert events[0].Err?;
      HasItemOfTail(events);
      ErrorsInAll(events[1..]);
    }
  }

  /**
   * Every event is forwarded in order. A failure is yielded exactly when no item was, it comes
   * last, and it carries the forwarded errors, all of them in order.
   */
  lemma FailureExactly(events: seq<Inline>)
    ensures ExpectedOutput(None) == [Err(NoServiceConfigured)]
    ensures var out := ExpectedOutput(Some(events));
      && Forwarded(events) <= out && |out| <= |events| + 1
      && (HasItem(events) <==> |out| == |events|)
      && (forall i | 0 <= i < |out| :: out[i].Err? <==> i == |events|)
      && (!HasItem(events) ==>
            out[|events|].error.NoResults? && |out[|events|].error.errors| == |events|
            && forall i | 0 <= i < |events| :: out[i] == Ok(Err(out[|events|].error.errors[i])))
  {
    if !HasItem(events) {
      ErrorsInAll(events);
    }
  }
}
