/**
 * The client object: its registry tables, the socket read loop that feeds
 * the frame reader and hands every whole message to the dispatcher, the
 * five control handlers and the outbound requests.
 *
 * The socket is modelled by what crosses it: the chunks `receive` returns
 * are the read loop's input, and every request the client sends is logged
 * in the socket's `sent` and its frame appended to its `wire`. The consumer's callback is
 * modelled by `events`, the log of every event handed to it, in order.
 */
module Client {
  import opened Wire
  import opened Channels
  import opened Reassembly
  import opened Control
  import opened Handlers

  /** The bytes written to the socket for a sequence of requests: one frame each, in order. */
  function Transmitted(m: u32, dump: Request -> seq<byte>, reqs: seq<Request>): seq<byte>
    decreases |reqs|
  {
    if reqs == [] then [] else Frame(m, dump(reqs[0])) + Transmitted(m, dump, reqs[1..])
  }

  lemma {:induction false} TransmittedAppend(m: u32, dump: Request -> seq<byte>, reqs: seq<Request>, req: Request)
    ensures Transmitted(m, dump, reqs + [req]) == Transmitted(m, dump, reqs) + Frame(m, dump(req))
    decreases |reqs|
  {
    if reqs == [] {
      assert [req][1..] == [];
    } else {
      assert (reqs + [req])[1..] == reqs[1..] + [req];
      TransmittedAppend(m, dump, reqs[1..], req);
    }
  }

  /**
   * What the client writes is read back, by the reference framing, as its
   * requests in order, each one a control message carrying the serialised
   * request, with nothing left over.
   */
  lemma {:induction false} TransmittedReadBack(m: u32, dump: Request -> seq<byte>, reqs: seq<Request>)
    requires forall k :: 0 <= k < |reqs| ==> |dump(reqs[k])| + HeaderSize < Word
    ensures var f := Frames(Transmitted(m, dump, reqs));
      && f.rest == []
      && |f.msgs| == |reqs|
      && forall k :: 0 <= k < |reqs| ==> f.msgs[k] == Message(m, |dump(reqs[k])| + HeaderSize, dump(reqs[k]))
    decreases |reqs|
  {
    if reqs != [] {
      var tail := Transmitted(m, dump, reqs[1..]);
      TransmittedReadBack(m, dump, reqs[1..]);
      FrameReadBack(0, m, dump(reqs[0]), tail);
      var f := Frames(Transmitted(m, dump, reqs));
      forall k | 1 <= k < |reqs|
        ensures f.msgs[k] == Message(m, |dump(reqs[k])| + HeaderSize, dump(reqs[k]))
      {
        assert f.msgs[k] == Frames(tail).msgs[k - 1];
        assert reqs[1..][k - 1] == reqs[k];
      }
    }
  }

  /** `ProcessPacket` applied to a sequence of dispatched messages, in order. */
  function Deliver(m: u32, parse: seq<byte> -> Json, s: State, msgs: seq<Message>): State
    decreases |msgs|
  {
    if msgs == [] then s else Deliver(m, parse, OnPacket(m, parse, s, msgs[0]), msgs[1..])
  }

  /**
   * `run` is what the read loop (the source's when `exact` is false, the
   * corrected one otherwise) produces from its start, given that it has
   * dispatched `msgs` so far and is in state `st` with the chunks `cs` still
   * to come.
   */
  ghost predicate RunAhead(exact: bool, size: nat, m: u32, run: RunResult, st: ReaderState, cs: seq<Receive>, msgs: seq<Message>) {
    && Admissible(exact, size, m, st, cs)
    && var rest := Run(exact, size, m, st, cs);
       run == RunResult(rest.last, msgs + rest.msgs, rest.aborted)
  }

  lemma RunAheadStart(exact: bool, size: nat, m: u32, st: ReaderState, cs: seq<Receive>)
    requires Admissible(exact, size, m, st, cs)
    ensures RunAhead(exact, size, m, Run(exact, size, m, st, cs), st, cs, [])
  {
    assert [] + Run(exact, size, m, st, cs).msgs == Run(exact, size, m, st, cs).msgs;
  }

  /** One iteration of the read loop moves the run one chunk ahead. */
  lemma RunAheadStep(exact: bool, size: nat, m: u32, run: RunResult, st: ReaderState, cs: seq<Receive>, msgs: seq<Message>)
    requires RunAhead(exact, size, m, run, st, cs, msgs) && cs != []
    ensures cs[0].Bytes? ==> |cs[0].data| <= st.target
    ensures var s := Next(exact, size, m, st, cs[0]);
      && (s.out.Abort? ==> run == RunResult(s.next, msgs, true))
      && (s.out.Continue? ==> RunAhead(exact, size, m, run, s.next, cs[1..], msgs))
      && (s.out.Dispatched? ==> RunAhead(exact, size, m, run, s.next, cs[1..], msgs + [s.out.msg]))
  {
    var s := Next(exact, size, m, st, cs[0]);
    if !s.out.Abort? {
      var rest := Run(exact, size, m, s.next, cs[1..]);
      if s.out.Dispatched? {
        assert msgs + ([s.out.msg] + rest.msgs) == (msgs + [s.out.msg]) + rest.msgs;
      } else {
        assert [] + rest.msgs == rest.msgs;
      }
    }
  }

  lemma RunAheadDone(exact: bool, size: nat, m: u32, run: RunResult, st: ReaderState, cs: seq<Receive>, msgs: seq<Message>)
    requires RunAhead(exact, size, m, run, st, cs, msgs) && cs == []
    ensures run == RunResult(st, msgs, false)
  {
    assert msgs + [] == msgs;
  }

  /** Processing one more message continues from the state the earlier ones left. */
  lemma {:induction false} DeliverSnoc(m: u32, parse: seq<byte> -> Json, s: State, msgs: seq<Message>, msg: Message)
    ensures Deliver(m, parse, s, msgs + [msg]) == OnPacket(m, parse, Deliver(m, parse, s, msgs), msg)
    decreases |msgs|
  {
    if msgs == [] {
      assert [msg][1..] == [];
    } else {
      assert (msgs + [msg])[1..] == msgs[1..] + [msg];
      DeliverSnoc(m, parse, OnPacket(m, parse, s, msgs[0]), msgs[1..], msg);
    }
  }

  /**
   * The write side of the connection: every request sent, in order, and
   * every byte written, one frame per request.
   */
  class Socket {
    /** METADATA_ID, the id every request carries. */
    const metadataId: u32
    /** The JSON serialiser (json::dump), outside the model. */
    const dump: Request -> seq<byte>
    /** Every request sent, in order. */
    var sent: seq<Request>
    /** Every byte written, in order. */
    var wire: seq<byte>

    ghost predicate Valid()
      reads this
    {
      wire == Transmitted(metadataId, dump, sent)
    }

    constructor (metadataId: u32, dump: Request -> seq<byte>)
      ensures Valid() && this.metadataId == metadataId && this.dump == dump
      ensures sent == [] && wire == []
    {
      this.metadataId := metadataId;
      this.dump := dump;
      sent := [];
      wire := [];
    }

    /** Write one request: its frame goes out as one logical send. */
    method Send(req: Request)
      requires Valid()
      modifies this
      ensures Valid()
      ensures sent == old(sent) + [req] && wire == old(wire) + Frame(metadataId, dump(req))
    {
      TransmittedAppend(metadataId, dump, sent, req);
      sent := sent + [req];
      wire := wire + Frame(metadataId, dump(req));
    }
  }

  class LowLatencyDataClient {
    /** METADATA_ID, the id of control messages. */
    const metadataId: u32
    /** The JSON parser (json::parse and the key lookups), outside the model. */
    const parse: seq<byte> -> Json
    /** The read loop's buffer and variables. */
    const reader: FrameReader
    /** The connection's write side. */
    const socket: Socket

    var available: map<string, ChannelInfo>
    var pending: seq<ChannelInfo>
    var subscribed: seq<Sub>
    var firstSampleTs: map<string, nat>
    var acquiring: bool

    /** Every event handed to the consumer's callback, in order. */
    var events: seq<Event>

    /**
     * The client's own invariant; the read loop's state and the socket have
     * their own, `reader.Valid()` and `socket.Valid()`.
     */
    ghost predicate Valid()
      reads this
    {
      && ValidMetadataId(metadataId)
      && reader.metadataId == metadataId
      && socket.metadataId == metadataId
      && Sorted(subscribed)
    }

    /** The registry tables as one value. */
    function Reg(): Registry
      reads this
    {
      Registry(available, pending, subscribed, firstSampleTs, acquiring)
    }

    /** The registry with the event and request logs. */
    function Log(): State
      reads this, socket
    {
      State(Reg(), events, socket.sent)
    }

    /**
     * A connected client: empty tables and a fresh receive buffer of `size`
     * bytes. The initial acquisition flag is defined outside the modelled
     * sources, so it is a parameter. `exact` selects the corrected read
     * loop; the source's loop is `exact == false`.
     */
    constructor (size: nat, metadataId: u32, acquiring: bool, exact: bool, parse: seq<byte> -> Json, dump: Request -> seq<byte>)
      requires ValidMetadataId(metadataId)
      ensures Valid() && reader.Valid() && socket.Valid()
      ensures fresh(reader) && fresh(reader.buf) && fresh(socket)
      ensures this.metadataId == metadataId && this.parse == parse && socket.dump == dump
      ensures reader.size == size && reader.exact == exact && reader.State() == Initial && !reader.stopped
      ensures Log() == State(Registry(map[], [], [], map[], acquiring), [], []) && socket.wire == []
    {
      this.metadataId := metadataId;
      this.parse := parse;
      reader := new FrameReader(size, metadataId, exact);
      socket := new Socket(metadataId, dump);
      available := map[];
      pending := [];
      subscribed := [];
      firstSampleTs := map[];
      this.acquiring := acquiring;
      events := [];
    }

    // ---- inbound ----

    /**
     * One iteration of the read loop: the reader takes what `receive`
     * returned, and a message it completes is processed before the next
     * `receive`.
     */
    method ReadOnce(r: Receive) returns (out: Outcome)
      requires Valid() && reader.Valid() && socket.Valid() && !reader.stopped
      requires r.Bytes? ==> |r.data| <= reader.target
      modifies this, socket, reader, reader.buf
      ensures Valid() && reader.Valid() && socket.Valid()
      ensures StepResult(reader.State(), out) == Next(reader.exact, reader.size, metadataId, old(reader.State()), r)
      ensures reader.stopped <==> out.Abort?
      ensures Log() == if out.Dispatched? then OnPacket(metadataId, parse, old(Log()), out.msg) else old(Log())
    {
      out := reader.Feed(r);
      if out.Dispatched? {
        ProcessPacket(out.msg);
      }
    }

    /**
     * The read loop fed what successive `receive` calls return (chunks of
     * bytes, or a failure): it dispatches what `Run` dispatches, in order,
     * each message processed as it is completed, and stops where `Run`
     * stops. The corrected loop, on a well-formed stream no read of which
     * fails, never stops early and processes exactly the stream's framing,
     * however it is chunked.
     */
    method SocketReadThread(chunks: seq<Receive>) returns (aborted: bool)
      requires Valid() && reader.Valid() && socket.Valid() && !reader.stopped
      requires Admissible(reader.exact, reader.size, metadataId, reader.State(), chunks)
      modifies this, socket, reader, reader.buf
      ensures Valid() && reader.Valid() && socket.Valid()
      ensures var run := Run(reader.exact, reader.size, metadataId, old(reader.State()), chunks);
        && aborted == run.aborted && aborted == reader.stopped && reader.State() == run.last
        && Log() == Deliver(metadataId, parse, old(Log()), run.msgs)
      ensures var stream := old(reader.State()).acc + Concat(chunks);
        reader.exact && reader.size >= HeaderSize && NoFailure(chunks) && WellFormed(reader.size, metadataId, stream) ==>
          !aborted && Log() == Deliver(metadataId, parse, old(Log()), Frames(stream).msgs)
    {
      ghost var l0 := Log();
      ghost var msgs: seq<Message> := [];
      ghost var exact := reader.exact;
      ghost var st0 := reader.State();
      ghost var run0 := Run(exact, reader.size, metadataId, st0, chunks);
      assert chunks[0..] == chunks;
      RunAheadStart(exact, reader.size, metadataId, reader.State(), chunks);
      var i := 0;
      aborted := false;
      while i < |chunks| && !aborted
        invariant 0 <= i <= |chunks|
        invariant Valid() && reader.Valid() && socket.Valid()
        invariant aborted == reader.stopped
        invariant !aborted ==> RunAhead(exact, reader.size, metadataId, run0, reader.State(), chunks[i..], msgs)
        invariant aborted ==> run0 == RunResult(reader.State(), msgs, true)
        invariant Log() == Deliver(metadataId, parse, l0, msgs)
        decreases |chunks| - i
      {
        ghost var st, cs := reader.State(), chunks[i..];
        RunAheadStep(exact, reader.size, metadataId, run0, st, cs, msgs);
        assert cs[0] == chunks[i] && cs[1..] == chunks[i + 1..];
        var out := ReadOnce(chunks[i]);
        if out.Dispatched? {
          DeliverSnoc(metadataId, parse, l0, msgs, out.msg);
          msgs := msgs + [out.msg];
        } else if out.Abort? {
          aborted := true;
        }
        i := i + 1;
      }
      if !aborted {
        RunAheadDone(exact, reader.size, metadataId, run0, reader.State(), chunks[i..], msgs);
      }
      if exact && reader.size >= HeaderSize && NoFailure(chunks) && WellFormed(reader.size, metadataId, st0.acc + Concat(chunks)) {
        IntendedFollowsFrames(reader.size, metadataId, st0, chunks);
      }
    }

    /** `ProcessPacket`: route one whole message by its id. */
    method ProcessPacket(msg: Message)
      requires Valid() && socket.Valid()
      modifies this, socket
      ensures Valid() && socket.Valid()
      ensures Log() == OnPacket(metadataId, parse, old(Log()), msg)
    {
      OnPacketKeepsSorted(metadataId, parse, Log(), msg);
      if BitAnd(msg.id, metadataId) != 0 {
        if msg.id == metadataId {
          ProcessMetadataPacket(msg);
        }
      } else {
        ProcessDataPacket(msg);
      }
    }

    /** `ProcessDataPacket`: one CHANNEL_DATA event for a subscribed id. */
    method ProcessDataPacket(msg: Message)
      requires Valid()
      modifies this`events
      ensures Valid()
      ensures Log() == OnData(old(Log()), msg)
    {
      var id := AsInt32(msg.id);
      if HasId(subscribed, id) {
        events := events + [ChannelData(id, SampleCount(msg.length), msg.payload)];
      }
    }

    /** `ProcessMetadataPacket`: parse the payload and hand it to the handler of its first recognised key. */
    method ProcessMetadataPacket(msg: Message)
      requires Valid() && socket.Valid()
      modifies this, socket
      ensures Valid() && socket.Valid()
      ensures Log() == OnControl(old(Log()), Classify(parse(msg.payload)))
    {
      var c := Classify(parse(msg.payload));
      match c
      case Unsubscribed(names) => ProcessUnsubscribeResponsePacket(names);
      case Subscribed(cs) => ProcessSubscribeResponsePacket(cs);
      case Available(adverts) => ProcessAvailableChannelsPacket(adverts);
      case Unavailable(names) => ProcessUnavailableChannelsPacket(names);
      case AcquisitionState(state) => ProcessAcquisitionStatePacket(state);
      case Status =>
      case Unknown =>
      case Malformed =>
    }

    /** The walk of the subscribed map in id order looking for a name: the position of the first match, or the end. */
    method FindSubscribed(name: string) returns (k: nat)
      ensures k == FindName(subscribed, name)
    {
      k := 0;
      while k < |subscribed| && subscribed[k].info.name != name
        invariant k <= |subscribed|
        invariant forall j :: 0 <= j < k ==> subscribed[j].info.name != name
      {
        k := k + 1;
      }
    }

    /** One name of an `unsubscribed` message: the inner walk of the subscribed map. */
    method UnsubscribeResponseEntry(name: string)
      requires Valid()
      modifies this`subscribed, this`events
      ensures Valid()
      ensures Log() == OnUnsubscribed(old(Log()), name)
    {
      var k := FindSubscribed(name);
      if k < |subscribed| {
        events := events + [ChannelUnsubscribed(subscribed[k].id)];
        RemoveAtKeepsSorted(subscribed, k);
        subscribed := RemoveAt(subscribed, k);
      }
    }

    /** `ProcessUnsubscribeResponsePacket`. */
    method ProcessUnsubscribeResponsePacket(names: seq<string>)
      requires Valid()
      modifies this`subscribed, this`events
      ensures Valid()
      ensures Log() == UnsubscribeResponse(old(Log()), names)
    {
      assert names[0..] == names;
      var i := 0;
      while i < |names|
        invariant i <= |names|
        invariant Valid()
        invariant UnsubscribeResponse(Log(), names[i..]) == UnsubscribeResponse(old(Log()), names)
      {
        assert names[i..][0] == names[i] && names[i..][1..] == names[i + 1..];
        UnsubscribeResponseEntry(names[i]);
        i := i + 1;
      }
    }

    /** One element of a `subscribed` message: the inner walk of the pending list. */
    method SubscribeResponseEntry(c: Confirmation)
      requires Valid()
      modifies this`subscribed, this`pending, this`firstSampleTs, this`events
      ensures Valid()
      ensures Log() == OnSubscribed(old(Log()), c)
    {
      var j := 0;
      while j < |pending|
        invariant j <= |pending|
        invariant Valid()
        invariant Log() == old(Log())
        invariant forall l :: 0 <= l < j ==> pending[l].name != c.name || c.name !in available
      {
        if pending[j].name == c.name {
          if c.name !in available {
            // no longer available: the walk goes on
            j := j + 1;
            continue;
          }
          subscribed := Put(subscribed, c.id, available[c.name]);
          pending := RemoveAt(pending, j);
          events := events + [ChannelSubscribed(c.name, c.id)];
          firstSampleTs := firstSampleTs[c.name := c.firstSampleNs];
          events := events + [ChannelFirstSampleTs(c.name, c.id, c.firstSampleNs)];
          break;
        }
        j := j + 1;
      }
    }

    /** `ProcessSubscribeResponsePacket`. */
    method ProcessSubscribeResponsePacket(cs: seq<Confirmation>)
      requires Valid()
      modifies this`subscribed, this`pending, this`firstSampleTs, this`events
      ensures Valid()
      ensures Log() == SubscribeResponse(old(Log()), cs)
    {
      assert cs[0..] == cs;
      var i := 0;
      while i < |cs|
        invariant i <= |cs|
        invariant Valid()
        invariant SubscribeResponse(Log(), cs[i..]) == SubscribeResponse(old(Log()), cs)
      {
        assert cs[i..][0] == cs[i] && cs[i..][1..] == cs[i + 1..];
        SubscribeResponseEntry(cs[i]);
        i := i + 1;
      }
    }

    /** One entry of an `available` message. */
    method AvailableEntry(a: Advert)
      requires Valid()
      modifies this`available, this`events
      ensures Valid()
      ensures Log() == OnAvailable(old(Log()), a)
    {
      var ci := ChannelInfo(a.name, a.samplePeriod, a.dataType, a.scale, a.offset, 1);
      if a.name in available {
        // already available: skipped
        return;
      }
      available := available[a.name := ci];
      events := events + [AvailableChannel(ci)];
    }

    /** `ProcessAvailableChannelsPacket`. */
    method ProcessAvailableChannelsPacket(adverts: seq<Advert>)
      requires Valid()
      modifies this`available, this`events
      ensures Valid()
      ensures Log() == AvailableChannels(old(Log()), adverts)
    {
      assert adverts[0..] == adverts;
      var i := 0;
      while i < |adverts|
        invariant i <= |adverts|
        invariant Valid()
        invariant AvailableChannels(Log(), adverts[i..]) == AvailableChannels(old(Log()), adverts)
      {
        assert adverts[i..][0] == adverts[i] && adverts[i..][1..] == adverts[i + 1..];
        AvailableEntry(adverts[i]);
        i := i + 1;
      }
    }

    /** The inner walk of the subscribed map for a name that became unavailable. */
    method UnsubscribeFirstNamed(name: string)
      requires Valid() && socket.Valid()
      modifies this`subscribed, socket
      ensures Valid() && socket.Valid()
      ensures var w := UnsubscribeNamed(old(subscribed), name);
        subscribed == w.subscribed && socket.sent == old(socket.sent) + w.requests
    {
      var k := FindSubscribed(name);
      if k < |subscribed| {
        RemoveAtKeepsSorted(subscribed, k);
        UnsubscribeChannel(subscribed[k].id);
        subscribed := RemoveAt(subscribed, k);
      }
    }

    /** One name of an `unavailable` message. */
    method UnavailableEntry(name: string)
      requires Valid() && socket.Valid()
      modifies this`available, this`subscribed, this`firstSampleTs, this`events, socket
      ensures Valid() && socket.Valid()
      ensures Log() == OnUnavailable(old(Log()), name)
    {
      ghost var s0 := Log();
      if name in available {
        available := available - {name};
      }
      UnsubscribeFirstNamed(name);
      if name in firstSampleTs {
        firstSampleTs := firstSampleTs - {name};
      }
      events := events + [UnavailableChannel(name)];
      assert Reg() == OnUnavailable(s0, name).reg;
    }

    /** `ProcessUnavailableChannelsPacket`. */
    method ProcessUnavailableChannelsPacket(names: seq<string>)
      requires Valid() && socket.Valid()
      modifies this`available, this`subscribed, this`firstSampleTs, this`events, socket
      ensures Valid() && socket.Valid()
      ensures Log() == UnavailableChannels(old(Log()), names)
    {
      assert names[0..] == names;
      var i := 0;
      while i < |names|
        invariant i <= |names|
        invariant Valid() && socket.Valid()
        invariant UnavailableChannels(Log(), names[i..]) == UnavailableChannels(old(Log()), names)
      {
        assert names[i..][0] == names[i] && names[i..][1..] == names[i + 1..];
        UnavailableEntry(names[i]);
        i := i + 1;
      }
    }

    /** The walk of the subscribed map when acquisition stops: zero each timestamp and report it. */
    method ResetFirstSampleTimestamps()
      requires Valid()
      modifies this`firstSampleTs, this`events
      ensures Valid()
      ensures firstSampleTs == ResetTimestamps(old(firstSampleTs), subscribed)
      ensures events == old(events) + ResetEvents(subscribed)
    {
      var i := 0;
      while i < |subscribed|
        invariant i <= |subscribed|
        invariant Valid()
        invariant firstSampleTs == ResetTimestamps(old(firstSampleTs), subscribed[..i])
        invariant events == old(events) + ResetEvents(subscribed[..i])
      {
        var name := subscribed[i].info.name;
        firstSampleTs := firstSampleTs[name := 0];
        events := events + [ChannelFirstSampleTs(name, subscribed[i].id, 0)];
        assert subscribed[..i + 1][..i] == subscribed[..i];
        assert ResetEvents(subscribed[..i + 1]) == ResetEvents(subscribed[..i]) + [ChannelFirstSampleTs(name, subscribed[i].id, 0)];
        i := i + 1;
      }
      assert subscribed[..|subscribed|] == subscribed;
    }

    /** `ProcessAcquisitionStatePacket`. */
    method ProcessAcquisitionStatePacket(state: string)
      requires Valid()
      modifies this`firstSampleTs, this`acquiring, this`events
      ensures Valid()
      ensures Log() == OnAcquisitionState(old(Log()), state)
    {
      if state == "off" {
        ResetFirstSampleTimestamps();
        acquiring := false;
      } else if state == "on" {
        acquiring := true;
      }
      events := events + [AcquireState(acquiring)];
    }

    // ---- outbound ----

    /** `SendSubscribeChannels`: subscribe to the requested channels that are available. */
    method SendSubscribeChannels(list: seq<ChannelInfo>)
      requires Valid() && socket.Valid()
      modifies socket
      ensures socket.Valid()
      ensures socket.sent == old(socket.sent) + SubscribeSends(available, list)
    {
      var factors: map<string, int> := map[];
      var have := false;
      var i := 0;
      while i < |list|
        invariant i <= |list|
        invariant unchanged(socket)
        invariant factors == SubscribeFactors(available, list[..i])
        invariant have == AnyAvailable(available, list[..i])
      {
        var e := list[i];
        SubscribeSnoc(available, list, i);
        if e.name in available {
          have := true;
          factors := factors[e.name := e.decimation];
        }
        i := i + 1;
      }
      assert list[..|list|] == list;
      if have {
        socket.Send(Subscribe(factors));
      }
    }

    /** `SubscribedChannelId`: the id of the first subscribed entry, in id order, with the name; -1 when none has it. */
    method SubscribedChannelId(name: string) returns (id: int)
      requires Valid()
      ensures name !in SubNames(subscribed) ==> id == -1
      ensures name in SubNames(subscribed) ==> exists x :: FirstByName(subscribed, name, x) && x.id == id
    {
      var k := FindSubscribed(name);
      FindNameIsFirst(subscribed, name);
      if k < |subscribed| {
        return subscribed[k].id;
      }
      return -1;
    }

    /** `SubscribeChannels`: every requested descriptor becomes pending, then the request goes out. */
    method SubscribeChannels(list: seq<ChannelInfo>)
      requires Valid() && socket.Valid()
      modifies this`pending, socket
      ensures Valid() && socket.Valid()
      ensures pending == old(pending) + list
      ensures socket.sent == old(socket.sent) + SubscribeSends(available, list)
    {
      pending := pending + list;
      SendSubscribeChannels(list);
    }

    /** `SubscribeChannel`: subscribe to one channel by name; only its name and decimation factor are set. */
    method SubscribeChannel(name: string, factor: int)
      requires Valid() && socket.Valid()
      modifies this`pending, socket
      ensures Valid() && socket.Valid()
      ensures pending == old(pending) + [ChannelInfo(name, 0.0, "", 0.0, 0.0, factor)]
      ensures socket.sent == old(socket.sent) + if name in available then [Subscribe(map[name := factor])] else []
    {
      var ci := ChannelInfo(name, 0.0, "", 0.0, 0.0, factor);
      assert [ci][..0] == [];
      assert SubscribeFactors(available, [ci]) == if name in available then map[name := factor] else map[];
      assert AnyAvailable(available, [ci]) <==> name in available;
      SubscribeChannels([ci]);
    }

    /** `SendUnsubscribeChannels`: unsubscribe the requested ids that are subscribed. */
    method SendUnsubscribeChannels(ids: seq<int>)
      requires Valid() && socket.Valid()
      modifies socket
      ensures socket.Valid()
      ensures socket.sent == old(socket.sent) + UnsubscribeSends(subscribed, ids)
    {
      var chosen: seq<int> := [];
      var have := false;
      var i := 0;
      while i < |ids|
        invariant i <= |ids|
        invariant unchanged(socket)
        invariant chosen == UnsubscribeIds(subscribed, ids[..i])
        invariant have <==> chosen != []
      {
        assert ids[..i + 1][..i] == ids[..i];
        if HasId(subscribed, ids[i]) {
          have := true;
          chosen := chosen + [ids[i]];
        }
        i := i + 1;
      }
      assert ids[..|ids|] == ids;
      if have {
        socket.Send(Unsubscribe(chosen));
      }
    }

    /** `UnsubscribeChannels`. */
    method UnsubscribeChannels(ids: seq<int>)
      requires Valid() && socket.Valid()
      modifies socket
      ensures socket.Valid()
      ensures socket.sent == old(socket.sent) + UnsubscribeSends(subscribed, ids)
    {
      SendUnsubscribeChannels(ids);
    }

    /** `UnsubscribeChannel`: a request naming the id when it is subscribed, nothing otherwise. */
    method UnsubscribeChannel(id: int)
      requires Valid() && socket.Valid()
      modifies socket
      ensures socket.Valid()
      ensures socket.sent == old(socket.sent) + UnsubscribeSends(subscribed, [id])
      ensures socket.sent == old(socket.sent) + if HasId(subscribed, id) then [Unsubscribe([id])] else []
    {
      assert [id][..0] == [];
      assert UnsubscribeIds(subscribed, []) == [];
      assert UnsubscribeIds(subscribed, [id]) == if HasId(subscribed, id) then [id] else [];
      UnsubscribeChannels([id]);
    }

    /**
     * `Acquire`: ask for the opposite of the current flag. The flag itself is
     * left alone; it changes only when the server's `acquisition_state`
     * message arrives.
     */
    method Acquire()
      requires Valid() && socket.Valid()
      modifies socket
      ensures socket.Valid()
      ensures socket.sent == old(socket.sent) + [Request.Acquire(!acquiring)]
      ensures socket.wire == old(socket.wire) + Frame(metadataId, socket.dump(Request.Acquire(!acquiring)))
    {
      socket.Send(Request.Acquire(!acquiring));
    }
  }
}
