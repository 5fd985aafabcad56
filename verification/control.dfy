/**
 * The control-message codec and the registry effect of every inbound
 * message, as functions: what `ProcessPacket`, `ProcessDataPacket`,
 * `ProcessMetadataPacket` and the five control handlers do to the registry,
 * which events they emit and which requests they send, and what the
 * outbound operations put on the wire.
 *
 * JSON parsing and serialisation belong to a library outside the model: a
 * control payload arrives here already parsed into `Json`, and a request
 * leaves as a structured `Request`.
 */
module Control {
  import opened Wire
  import opened Channels
  import opened Reassembly

  datatype Option<T> = None | Some(value: T)

  /** One member of an `available` object: a channel name and its properties. */
  datatype Advert = Advert(name: string, samplePeriod: real, dataType: string, scale: real, offset: real)

  /** One element of a `subscribed` array. */
  datatype Confirmation = Confirmation(name: string, id: int, firstSampleNs: nat)

  /**
   * A control payload after parsing: `Unparsable` when the parser throws;
   * otherwise the value under each key the client tests for, when present.
   * A JSON value that is not an object contains none of the keys.
   */
  datatype Json =
    | Unparsable
    | Object(
        unsubscribed: Option<seq<string>>,
        subscribed: Option<seq<Confirmation>>,
        available: Option<seq<Advert>>,
        unavailable: Option<seq<string>>,
        acquisitionState: Option<string>,
        status: bool)

  /** The control message the client acts on, chosen by the first key present. */
  datatype Control =
    | Unsubscribed(names: seq<string>)
    | Subscribed(confirmations: seq<Confirmation>)
    | Available(adverts: seq<Advert>)
    | Unavailable(names: seq<string>)
    | AcquisitionState(state: string)
    | Status
    | Unknown
    | Malformed

  /** The events handed to the consumer's callback, in emission order. */
  datatype Event =
    | AvailableChannel(info: ChannelInfo)
    | UnavailableChannel(name: string)
    | ChannelSubscribed(name: string, id: int)
    | ChannelUnsubscribed(id: int)
    | ChannelFirstSampleTs(name: string, id: int, ns: nat)
    | AcquireState(on: bool)
    | ChannelData(id: int, samples: nat, raw: seq<byte>)

  /** The outbound control requests: {"subscribe": {name: factor}}, {"unsubscribe": [id, ...]}, {"acquire": bool}. */
  datatype Request =
    | Subscribe(factors: map<string, int>)
    | Unsubscribe(ids: seq<int>)
    | Acquire(on: bool)

  /**
   * The client as the handlers see it: the registry tables, every event
   * handed to the callback and every request sent so far, each in order.
   */
  datatype State = State(reg: Registry, events: seq<Event>, sent: seq<Request>)

  /** Position of each key in the order the metadata handler tests them. */
  function Rank(c: Control): nat {
    match c
    case Unsubscribed(_) => 0
    case Subscribed(_) => 1
    case Available(_) => 2
    case Unavailable(_) => 3
    case AcquisitionState(_) => 4
    case Status => 5
    case Unknown => 6
    case Malformed => 7
  }

  /** Whether the parsed object contains the key of rank `k`. */
  predicate HasKey(j: Json, k: nat)
    requires j.Object?
  {
    match k
    case 0 => j.unsubscribed.Some?
    case 1 => j.subscribed.Some?
    case 2 => j.available.Some?
    case 3 => j.unavailable.Some?
    case 4 => j.acquisitionState.Some?
    case 5 => j.status
    case _ => false
  }

  /**
   * The `contains` chain of the metadata handler: the first recognised key
   * wins, with its value; no recognised key is an unknown message.
   */
  function Classify(j: Json): (c: Control)
    ensures c.Malformed? <==> j.Unparsable?
    ensures j.Object? ==> forall k :: 0 <= k < Rank(c) ==> !HasKey(j, k)
    ensures j.Object? && !c.Unknown? ==> HasKey(j, Rank(c))
    ensures c.Unsubscribed? ==> j.unsubscribed == Some(c.names)
    ensures c.Subscribed? ==> j.subscribed == Some(c.confirmations)
    ensures c.Available? ==> j.available == Some(c.adverts)
    ensures c.Unavailable? ==> j.unavailable == Some(c.names)
    ensures c.AcquisitionState? ==> j.acquisitionState == Some(c.state)
  {
    if j.Unparsable? then Malformed
    else if j.unsubscribed.Some? then Unsubscribed(j.unsubscribed.value)
    else if j.subscribed.Some? then Subscribed(j.subscribed.value)
    else if j.available.Some? then Available(j.available.value)
    else if j.unavailable.Some? then Unavailable(j.unavailable.value)
    else if j.acquisitionState.Some? then AcquisitionState(j.acquisitionState.value)
    else if j.status then Status
    else Unknown
  }

  /** Where `ProcessPacket` sends a message. */
  datatype Route = ToControl | Dropped | ToData

  /**
   * An id with a bit of METADATA_ID set is control traffic only when it is
   * METADATA_ID itself, and is dropped otherwise; any other id is data.
   */
  function RoutePacket(m: u32, id: u32): (rt: Route)
    ensures ValidMetadataId(m) ==> (rt == ToControl <==> id == m)
    ensures rt == ToData <==> BitAnd(id, m) == 0
    ensures ValidMetadataId(m) && id <= 7 ==> rt == ToData
  {
    BitAndSelf(m);
    assert id <= 7 && m % 8 == 0 ==> BitAnd(id, m) == 0 by {
      if id <= 7 && m % 8 == 0 { BitAndLowBits(id, m); }
    }
    if BitAnd(id, m) != 0 then (if id == m then ToControl else Dropped)
    else ToData
  }

  /** 2^64: `length - sizeof(header)` is computed in 64-bit size_t arithmetic. */
  const SizeWord: nat := 0x1_0000_0000_0000_0000

  /**
   * nSamples: the payload bytes divided into 4-byte floats, rounding down.
   * A `length` below the header size wraps around in size_t arithmetic.
   */
  function SampleCount(length: u32): (n: nat)
    ensures length >= HeaderSize ==> 4 * n <= length - HeaderSize < 4 * n + 4
    ensures length < HeaderSize ==> 4 * n + (length + SizeWord - HeaderSize) % 4 == length + SizeWord - HeaderSize
  {
    ((length - HeaderSize) % SizeWord) / 4
  }

  /** `ProcessDataPacket`: a subscribed id gives one CHANNEL_DATA event; any other id is ignored. */
  function OnData(s: State, msg: Message): State {
    var id := AsInt32(msg.id);
    if HasId(s.reg.subscribed, id) then s.(events := s.events + [ChannelData(id, SampleCount(msg.length), msg.payload)])
    else s
  }

  /** One name of an `unsubscribed` message: the first subscribed entry with that name is reported and erased. */
  function OnUnsubscribed(s: State, name: string): State {
    var sub := s.reg.subscribed;
    var k := FindName(sub, name);
    if k == |sub| then s
    else State(s.reg.(subscribed := RemoveAt(sub, k)), s.events + [ChannelUnsubscribed(sub[k].id)], s.sent)
  }

  /** `ProcessUnsubscribeResponsePacket`: every name of the message, in order. */
  function UnsubscribeResponse(s: State, names: seq<string>): State
    decreases |names|
  {
    if names == [] then s else UnsubscribeResponse(OnUnsubscribed(s, names[0]), names[1..])
  }

  /**
   * One element of a `subscribed` message. It takes effect only when a
   * pending request has the name and the name is still available: the
   * first such request is consumed and the available descriptor is copied
   * under the confirmed id.
   */
  function OnSubscribed(s: State, c: Confirmation): State {
    var r := s.reg;
    var k := FindPending(r.pending, c.name);
    if k == |r.pending| || c.name !in r.available then s
    else
      State(
        r.(subscribed := Put(r.subscribed, c.id, r.available[c.name]),
           pending := RemoveAt(r.pending, k),
           firstSampleTs := r.firstSampleTs[c.name := c.firstSampleNs]),
        s.events + [ChannelSubscribed(c.name, c.id), ChannelFirstSampleTs(c.name, c.id, c.firstSampleNs)],
        s.sent)
  }

  /** `ProcessSubscribeResponsePacket`: every element of the message, in order. */
  function SubscribeResponse(s: State, cs: seq<Confirmation>): State
    decreases |cs|
  {
    if cs == [] then s else SubscribeResponse(OnSubscribed(s, cs[0]), cs[1..])
  }

  /** The descriptor built from an `available` entry: decimation factor 1. */
  function Describe(a: Advert): (ci: ChannelInfo)
    ensures ci.name == a.name && ci.decimation == 1
  {
    ChannelInfo(a.name, a.samplePeriod, a.dataType, a.scale, a.offset, 1)
  }

  /** One entry of an `available` message: a known name is skipped; a new one is inserted and announced. */
  function OnAvailable(s: State, a: Advert): State {
    if a.name in s.reg.available then s
    else State(s.reg.(available := s.reg.available[a.name := Describe(a)]), s.events + [AvailableChannel(Describe(a))], s.sent)
  }

  /** `ProcessAvailableChannelsPacket`: every entry of the message, in the parser's order. */
  function AvailableChannels(s: State, adverts: seq<Advert>): State
    decreases |adverts|
  {
    if adverts == [] then s else AvailableChannels(OnAvailable(s, adverts[0]), adverts[1..])
  }

  /** The ids of an unsubscribe request that are subscribed, in request order (duplicates kept). */
  function UnsubscribeIds(s: seq<Sub>, ids: seq<int>): (f: seq<int>)
    ensures |f| <= |ids|
    ensures forall x :: x in f <==> x in ids && HasId(s, x)
    decreases |ids|
  {
    if ids == [] then []
    else
      var last := ids[|ids| - 1];
      assert ids == ids[..|ids| - 1] + [last];
      UnsubscribeIds(s, ids[..|ids| - 1]) + (if HasId(s, last) then [last] else [])
  }

  /** A single requested id is kept exactly when it is subscribed. */
  lemma UnsubscribeIdsOne(s: seq<Sub>, id: int)
    ensures UnsubscribeIds(s, [id]) == if HasId(s, id) then [id] else []
  {
    assert [id][..0] == [];
  }

  /**
   * The filter keeps request order: the ids kept from `a + b` are those
   * kept from `a` followed by those kept from `b`. With `UnsubscribeIdsOne`
   * this determines the filter completely.
   */
  lemma {:induction false} UnsubscribeIdsAppend(s: seq<Sub>, a: seq<int>, b: seq<int>)
    ensures UnsubscribeIds(s, a + b) == UnsubscribeIds(s, a) + UnsubscribeIds(s, b)
    decreases |b|
  {
    if b == [] {
      assert a + b == a;
    } else {
      var init, last := b[..|b| - 1], b[|b| - 1];
      var ab, kept := a + b, if HasId(s, last) then [last] else [];
      UnsubscribeIdsAppend(s, a, init);
      assert ab[..|ab| - 1] == a + init && ab[|ab| - 1] == last;
      assert UnsubscribeIds(s, ab) == UnsubscribeIds(s, a + init) + kept;
      assert UnsubscribeIds(s, b) == UnsubscribeIds(s, init) + kept;
    }
  }

  /** The filter keeps duplicates: a subscribed id occurs as often as it was requested, any other id not at all. */
  lemma {:induction false} UnsubscribeIdsCounts(s: seq<Sub>, ids: seq<int>)
    ensures forall x :: multiset(UnsubscribeIds(s, ids))[x] == if HasId(s, x) then multiset(ids)[x] else 0
    decreases |ids|
  {
    if ids != [] {
      var init, last := ids[..|ids| - 1], ids[|ids| - 1];
      UnsubscribeIdsCounts(s, init);
      assert ids == init + [last];
      assert multiset(ids) == multiset(init) + multiset{last};
    }
  }

  /** `SendUnsubscribeChannels`: one request for the subscribed ids, or nothing when none is. */
  function UnsubscribeSends(s: seq<Sub>, ids: seq<int>): seq<Request> {
    var f := UnsubscribeIds(s, ids);
    if f == [] then [] else [Unsubscribe(f)]
  }

  /** What the walk of the subscribed map leaves: the new map and the requests it sent. */
  datatype Walk = Walk(subscribed: seq<Sub>, requests: seq<Request>)

  /**
   * The walk of the subscribed map for a name that became unavailable: its
   * first entry, if any, is unsubscribed (the request is built while the id
   * is still subscribed) and then erased.
   */
  function UnsubscribeNamed(sub: seq<Sub>, name: string): Walk {
    var k := FindName(sub, name);
    if k == |sub| then Walk(sub, [])
    else Walk(RemoveAt(sub, k), UnsubscribeSends(sub, [sub[k].id]))
  }

  /**
   * One name of an `unavailable` message: dropped from the available table,
   * then its first subscribed entry is unsubscribed, then its timestamp is
   * dropped; UNAVAILABLE_CHANNEL is emitted in every case.
   */
  function OnUnavailable(s: State, name: string): State {
    var r := s.reg;
    var w := UnsubscribeNamed(r.subscribed, name);
    State(
      Registry(
        if name in r.available then r.available - {name} else r.available,
        r.pending,
        w.subscribed,
        if name in r.firstSampleTs then r.firstSampleTs - {name} else r.firstSampleTs,
        r.acquiring),
      s.events + [UnavailableChannel(name)],
      s.sent + w.requests)
  }

  /** `ProcessUnavailableChannelsPacket`: every name of the message, in order. */
  function UnavailableChannels(s: State, names: seq<string>): State
    decreases |names|
  {
    if names == [] then s else UnavailableChannels(OnUnavailable(s, names[0]), names[1..])
  }

  /** The timestamps after acquisition stops: zero for the name of every subscribed entry. */
  function ResetTimestamps(ts: map<string, nat>, s: seq<Sub>): (t: map<string, nat>)
    decreases |s|
  {
    if s == [] then ts
    else ResetTimestamps(ts, s[..|s| - 1])[s[|s| - 1].info.name := 0]
  }

  /** One zero-timestamp event per subscribed entry, in id order. */
  function ResetEvents(s: seq<Sub>): (ev: seq<Event>)
    ensures |ev| == |s|
    ensures forall k :: 0 <= k < |s| ==> ev[k] == ChannelFirstSampleTs(s[k].info.name, s[k].id, 0)
  {
    seq(|s|, k requires 0 <= k < |s| => ChannelFirstSampleTs(s[k].info.name, s[k].id, 0))
  }

  /** An `acquisition_state` message: "off" resets every subscribed timestamp, "on" sets the flag; ACQUIRE is emitted last. */
  function OnAcquisitionState(s: State, state: string): State {
    var r := s.reg;
    if state == "off" then
      State(
        r.(firstSampleTs := ResetTimestamps(r.firstSampleTs, r.subscribed), acquiring := false),
        s.events + ResetEvents(r.subscribed) + [AcquireState(false)],
        s.sent)
    else if state == "on" then State(r.(acquiring := true), s.events + [AcquireState(true)], s.sent)
    else s.(events := s.events + [AcquireState(r.acquiring)])
  }

  /** `ProcessMetadataPacket` after parsing. */
  function OnControl(s: State, c: Control): State {
    match c
    case Unsubscribed(names) => UnsubscribeResponse(s, names)
    case Subscribed(cs) => SubscribeResponse(s, cs)
    case Available(adverts) => AvailableChannels(s, adverts)
    case Unavailable(names) => UnavailableChannels(s, names)
    case AcquisitionState(state) => OnAcquisitionState(s, state)
    case Status => s
    case Unknown => s
    case Malformed => s
  }

  /** `ProcessPacket`: the effect of one dispatched message, given the JSON parser. */
  function OnPacket(m: u32, parse: seq<byte> -> Json, s: State, msg: Message): State {
    match RoutePacket(m, msg.id)
    case ToControl => OnControl(s, Classify(parse(msg.payload)))
    case Dropped => s
    case ToData => OnData(s, msg)
  }

  /** Whether some requested channel is available (`bHaveChannels` of `SendSubscribeChannels`). */
  predicate AnyAvailable(available: map<string, ChannelInfo>, list: seq<ChannelInfo>) {
    exists k :: 0 <= k < |list| && list[k].name in available
  }

  /** The names of the descriptors of a request list. */
  function NamesOf(list: seq<ChannelInfo>): set<string> {
    set e | e in list :: e.name
  }

  /** The body of a subscribe request: the decimation factor of each requested name that is available, in request order. */
  function SubscribeFactors(available: map<string, ChannelInfo>, list: seq<ChannelInfo>): map<string, int>
    decreases |list|
  {
    if list == [] then map[]
    else
      var f := SubscribeFactors(available, list[..|list| - 1]);
      var e := list[|list| - 1];
      if e.name in available then f[e.name := e.decimation] else f
  }

  /** The body names exactly the requested channels that are available; a name requested twice keeps its last factor. */
  lemma {:induction false} SubscribeFactorsSpec(available: map<string, ChannelInfo>, list: seq<ChannelInfo>)
    ensures var f := SubscribeFactors(available, list);
      && (forall n :: n in f ==> n in available && n in NamesOf(list))
      && (forall k :: 0 <= k < |list| && list[k].name in available ==> list[k].name in f)
      && (forall k ::
            (0 <= k < |list| && list[k].name in available &&
             forall j :: k < j < |list| ==> list[j].name != list[k].name) ==>
            f[list[k].name] == list[k].decimation)
    decreases |list|
  {
    if list != [] {
      var init, e := list[..|list| - 1], list[|list| - 1];
      var f := SubscribeFactors(available, list);
      SubscribeFactorsSpec(available, init);
      assert list == init + [e];
      assert NamesOf(list) == NamesOf(init) + {e.name};
      forall k | 0 <= k < |list| && list[k].name in available
        ensures list[k].name in f
      {
        if k < |init| { assert list[k] == init[k]; }
      }
      forall k | 0 <= k < |list| && list[k].name in available && forall j :: k < j < |list| ==> list[j].name != list[k].name
        ensures f[list[k].name] == list[k].decimation
      {
        if k < |init| {
          assert list[k] == init[k] && e.name != list[k].name;
          assert forall j :: k < j < |init| ==> init[j] == list[j];
        }
      }
    }
  }

  /** The loop of `SendSubscribeChannels` one element further. */
  lemma SubscribeSnoc(available: map<string, ChannelInfo>, list: seq<ChannelInfo>, i: nat)
    requires i < |list|
    ensures var f := SubscribeFactors(available, list[..i]);
      SubscribeFactors(available, list[..i + 1]) ==
        if list[i].name in available then f[list[i].name := list[i].decimation] else f
    ensures AnyAvailable(available, list[..i + 1]) <==> AnyAvailable(available, list[..i]) || list[i].name in available
  {
    assert list[..i + 1][..i] == list[..i];
    assert list[..i + 1][i] == list[i];
    if AnyAvailable(available, list[..i + 1]) {
      var k :| 0 <= k < i + 1 && list[..i + 1][k].name in available;
      if k < i { assert list[..i][k] == list[k]; }
    }
    if AnyAvailable(available, list[..i]) {
      var k :| 0 <= k < i && list[..i][k].name in available;
      assert list[..i + 1][k] == list[k];
    }
  }

  /** `SendSubscribeChannels`: one request naming the available channels, or nothing when none is. */
  function SubscribeSends(available: map<string, ChannelInfo>, list: seq<ChannelInfo>): seq<Request> {
    if AnyAvailable(available, list) then [Subscribe(SubscribeFactors(available, list))] else []
  }
}
