/**
 * What each control handler promises, stated against the registry tables:
 * the entry a search finds, what is inserted, erased or reset, which events
 * and requests come out and how many, and that the subscribed map stays a
 * map (sorted, one entry per id) whatever the server sends.
 */
module Handlers {
  import opened Wire
  import opened Channels
  import opened Reassembly
  import opened Control

  // ---- unsubscribed ----

  /**
   * One name of an `unsubscribed` message: the entry met first with that
   * name is reported and is the only one erased; a name no entry has
   * changes nothing.
   */
  lemma OnUnsubscribedSpec(s: State, name: string)
    requires Sorted(s.reg.subscribed)
    ensures var e := OnUnsubscribed(s, name);
      && e.sent == s.sent
      && e.reg.available == s.reg.available && e.reg.pending == s.reg.pending
      && e.reg.firstSampleTs == s.reg.firstSampleTs && e.reg.acquiring == s.reg.acquiring
      && Sorted(e.reg.subscribed)
      && (name !in SubNames(s.reg.subscribed) ==> e == s)
      && (forall x :: FirstByName(s.reg.subscribed, name, x) ==>
            && e.events == s.events + [ChannelUnsubscribed(x.id)]
            && |e.reg.subscribed| == |s.reg.subscribed| - 1
            && forall y :: y in e.reg.subscribed <==> y in s.reg.subscribed && y.id != x.id)
  {
    var sub := s.reg.subscribed;
    var k := FindName(sub, name);
    FindNameIsFirst(sub, name);
    if k < |sub| {
      RemoveAtKeepsSorted(sub, k);
      RemoveAtMembers(sub, k);
      forall x | FirstByName(sub, name, x)
        ensures x == sub[k]
      {
        FirstByNameUnique(sub, name, x, sub[k]);
      }
    }
  }

  /**
   * A whole `unsubscribed` message erases one subscribed entry per event it
   * emits, each event an unsubscription appended to the log, and touches no
   * other table.
   */
  lemma {:induction false} UnsubscribedFold(s: State, names: seq<string>)
    requires Sorted(s.reg.subscribed)
    ensures var e := UnsubscribeResponse(s, names);
      && e.sent == s.sent
      && e.reg.available == s.reg.available && e.reg.pending == s.reg.pending
      && e.reg.firstSampleTs == s.reg.firstSampleTs && e.reg.acquiring == s.reg.acquiring
      && Sorted(e.reg.subscribed)
      && |e.reg.subscribed| + |e.events| == |s.reg.subscribed| + |s.events|
      && s.events <= e.events
      && (forall k :: |s.events| <= k < |e.events| ==> e.events[k].ChannelUnsubscribed?)
    decreases |names|
  {
    if names != [] {
      var sub := s.reg.subscribed;
      var k := FindName(sub, names[0]);
      if k < |sub| {
        RemoveAtKeepsSorted(sub, k);
      }
      var s1 := OnUnsubscribed(s, names[0]);
      var e := UnsubscribeResponse(s, names);
      UnsubscribedFold(s1, names[1..]);
      forall j | |s.events| <= j < |e.events|
        ensures e.events[j].ChannelUnsubscribed?
      {
        if j < |s1.events| {
          assert e.events[j] == s1.events[j];
        }
      }
    }
  }

  // ---- subscribed ----

  /**
   * One element of a `subscribed` message. When a pending request has the
   * name and the name is available, the first such request is consumed, the
   * available descriptor is recorded under the confirmed id (replacing any
   * entry with that id), the timestamp is stored and two events are emitted;
   * otherwise nothing changes.
   */
  lemma OnSubscribedSpec(s: State, c: Confirmation)
    requires Sorted(s.reg.subscribed)
    ensures var e := OnSubscribed(s, c); var r := s.reg;
      && e.sent == s.sent
      && e.reg.available == r.available && e.reg.acquiring == r.acquiring
      && Sorted(e.reg.subscribed)
      && (!(c.name in NamesOf(r.pending) && c.name in r.available) ==> e == s)
      && (c.name in NamesOf(r.pending) && c.name in r.available ==>
            && e.events == s.events + [ChannelSubscribed(c.name, c.id), ChannelFirstSampleTs(c.name, c.id, c.firstSampleNs)]
            && (forall y :: y in e.reg.subscribed <==> y == Sub(c.id, r.available[c.name]) || (y in r.subscribed && y.id != c.id))
            && e.reg.firstSampleTs == r.firstSampleTs[c.name := c.firstSampleNs]
            && exists k :: 0 <= k < |r.pending| && r.pending[k].name == c.name &&
                 (forall j :: 0 <= j < k ==> r.pending[j].name != c.name) &&
                 e.reg.pending == r.pending[..k] + r.pending[k + 1..])
  {
    var p := s.reg.pending;
    var k := FindPending(p, c.name);
    if k < |p| {
      assert p[k] in p;
      assert RemoveAt(p, k) == p[..k] + p[k + 1..];
    } else {
      forall x | x in p
        ensures x.name != c.name
      {
        var j :| 0 <= j < |p| && p[j] == x;
      }
    }
  }

  /**
   * A whole `subscribed` message appends two events for every pending
   * request it consumes, leaves the available table alone and sends nothing.
   */
  lemma {:induction false} SubscribedFold(s: State, cs: seq<Confirmation>)
    requires Sorted(s.reg.subscribed)
    ensures var e := SubscribeResponse(s, cs);
      && e.sent == s.sent
      && e.reg.available == s.reg.available && e.reg.acquiring == s.reg.acquiring
      && Sorted(e.reg.subscribed)
      && |e.reg.pending| <= |s.reg.pending|
      && |e.events| == |s.events| + 2 * (|s.reg.pending| - |e.reg.pending|)
      && s.events <= e.events
    decreases |cs|
  {
    if cs != [] {
      var s1 := OnSubscribed(s, cs[0]);
      OnSubscribedSpec(s, cs[0]);
      SubscribedFold(s1, cs[1..]);
    }
  }

  // ---- available ----

  /** The names a sequence of `available` entries advertises. */
  function Advertised(adverts: seq<Advert>): set<string> {
    set a | a in adverts :: a.name
  }

  /** Where the name `n` is first advertised; `|adverts|` when it is not. */
  function FirstAdvert(adverts: seq<Advert>, n: string): (k: nat)
    ensures k <= |adverts|
    ensures k < |adverts| ==> adverts[k].name == n
    ensures forall j :: 0 <= j < k ==> adverts[j].name != n
    decreases |adverts|
  {
    if adverts == [] then 0
    else if adverts[0].name == n then 0
    else 1 + FirstAdvert(adverts[1..], n)
  }

  /**
   * One entry of an `available` message: a name already available changes
   * nothing; a new one is stored with its descriptor, every other entry
   * kept, and announced with one event.
   */
  lemma OnAvailableSpec(s: State, a: Advert)
    ensures var e := OnAvailable(s, a); var r := s.reg;
      && (a.name in r.available ==> e == s)
      && (a.name !in r.available ==>
            && e.sent == s.sent
            && e.reg.pending == r.pending && e.reg.subscribed == r.subscribed
            && e.reg.firstSampleTs == r.firstSampleTs && e.reg.acquiring == r.acquiring
            && e.reg.available.Keys == r.available.Keys + {a.name}
            && e.reg.available[a.name] == Describe(a)
            && (forall n :: n in r.available ==> e.reg.available[n] == r.available[n])
            && e.events == s.events + [AvailableChannel(Describe(a))])
  {
  }

  /**
   * A whole `available` message: every advertised name ends up available,
   * a name that was already available keeps its descriptor, and each new
   * one holds the descriptor of the entry that first advertised it.
   */
  lemma {:induction false} AvailableFold(s: State, adverts: seq<Advert>)
    ensures var e := AvailableChannels(s, adverts); var r := s.reg;
      && e.sent == s.sent
      && e.reg.pending == r.pending && e.reg.subscribed == r.subscribed
      && e.reg.firstSampleTs == r.firstSampleTs && e.reg.acquiring == r.acquiring
      && e.reg.available.Keys == r.available.Keys + Advertised(adverts)
      && (forall n :: n in r.available ==> e.reg.available[n] == r.available[n])
      && (forall n :: n in e.reg.available && n !in r.available ==>
            FirstAdvert(adverts, n) < |adverts| && e.reg.available[n] == Describe(adverts[FirstAdvert(adverts, n)]))
    decreases |adverts|
  {
    if adverts != [] {
      var a, s1 := adverts[0], OnAvailable(s, adverts[0]);
      var e := AvailableChannels(s, adverts);
      OnAvailableSpec(s, a);
      AvailableFold(s1, adverts[1..]);
      assert s1.reg.available.Keys == s.reg.available.Keys + {a.name};
      assert forall n :: n in s.reg.available ==> e.reg.available[n] == s.reg.available[n];
      assert Advertised(adverts) == {a.name} + Advertised(adverts[1..]) by {
        assert adverts == [a] + adverts[1..];
      }
      forall n | n in e.reg.available && n !in s.reg.available
        ensures FirstAdvert(adverts, n) < |adverts| && e.reg.available[n] == Describe(adverts[FirstAdvert(adverts, n)])
      {
        if n != a.name {
          var k := FirstAdvert(adverts[1..], n);
          assert adverts[1..][k] == adverts[k + 1];
        }
      }
    }
  }

  /** A whole `available` message appends one event for each name it adds. */
  lemma {:induction false} AvailableCount(s: State, adverts: seq<Advert>)
    ensures var e := AvailableChannels(s, adverts);
      && s.reg.available.Keys <= e.reg.available.Keys
      && |e.events| + |s.reg.available.Keys| == |s.events| + |e.reg.available.Keys|
      && s.events <= e.events
    decreases |adverts|
  {
    if adverts != [] {
      var a := adverts[0];
      AvailableCount(OnAvailable(s, a), adverts[1..]);
      var m0 := s.reg.available;
      if a.name !in m0 {
        assert m0[a.name := Describe(a)].Keys == m0.Keys + {a.name};
        assert |m0.Keys + {a.name}| == |m0.Keys| + 1;
      }
    }
  }

  /** Each event a whole `available` message appends announces a name that was new, with the descriptor stored for it. */
  lemma {:induction false} AvailableEvents(s: State, adverts: seq<Advert>)
    ensures var e := AvailableChannels(s, adverts);
      forall k :: |s.events| <= k < |e.events| ==>
        && e.events[k].AvailableChannel?
        && e.events[k].info.name !in s.reg.available
        && e.events[k].info.name in e.reg.available
        && e.reg.available[e.events[k].info.name] == e.events[k].info
    decreases |adverts|
  {
    if adverts != [] {
      var a := adverts[0];
      var s1 := OnAvailable(s, a);
      var e := AvailableChannels(s, adverts);
      AvailableEvents(s1, adverts[1..]);
      AvailableFold(s1, adverts[1..]);
      AvailableCount(s1, adverts[1..]);
      forall k | |s.events| <= k < |e.events|
        ensures && e.events[k].AvailableChannel?
                && e.events[k].info.name !in s.reg.available
                && e.events[k].info.name in e.reg.available
                && e.reg.available[e.events[k].info.name] == e.events[k].info
      {
        if k < |s1.events| {
          assert e.events[k] == s1.events[k] == AvailableChannel(Describe(a));
        }
      }
    }
  }

  /**
   * The events a whole `available` message appends come in the order in
   * which their names are first advertised; in particular no name is
   * announced twice.
   */
  lemma {:induction false} AvailableOrder(s: State, adverts: seq<Advert>)
    ensures var e := AvailableChannels(s, adverts);
      && (forall k :: |s.events| <= k < |e.events| ==>
            e.events[k].AvailableChannel? && FirstAdvert(adverts, e.events[k].info.name) < |adverts|)
      && (forall i, j :: |s.events| <= i < j < |e.events| ==>
            && e.events[i].AvailableChannel? && e.events[j].AvailableChannel?
            && FirstAdvert(adverts, e.events[i].info.name) < FirstAdvert(adverts, e.events[j].info.name)
            && e.events[i].info.name != e.events[j].info.name)
    decreases |adverts|
  {
    if adverts != [] {
      var a := adverts[0];
      var s1 := OnAvailable(s, a);
      var e := AvailableChannels(s, adverts);
      AvailableOrder(s1, adverts[1..]);
      AvailableEvents(s1, adverts[1..]);
      AvailableCount(s1, adverts[1..]);
      // a later event names something not in `s1`'s table, so not `a`'s name
      forall k | |s1.events| <= k < |e.events|
        ensures e.events[k].AvailableChannel? && FirstAdvert(adverts, e.events[k].info.name) == 1 + FirstAdvert(adverts[1..], e.events[k].info.name)
      {
      }
      forall k | |s.events| <= k < |s1.events|
        ensures e.events[k] == AvailableChannel(Describe(a)) && FirstAdvert(adverts, e.events[k].info.name) == 0
      {
        assert e.events[k] == s1.events[k];
      }
    }
  }

  /** Every name a whole `available` message adds is announced, with the descriptor stored for it. */
  lemma {:induction false} AvailableAnnounced(s: State, adverts: seq<Advert>)
    ensures var e := AvailableChannels(s, adverts);
      forall n :: n in e.reg.available && n !in s.reg.available ==>
        exists k :: |s.events| <= k < |e.events| && e.events[k] == AvailableChannel(e.reg.available[n])
    decreases |adverts|
  {
    if adverts != [] {
      var a := adverts[0];
      var s1 := OnAvailable(s, a);
      var e := AvailableChannels(s, adverts);
      AvailableAnnounced(s1, adverts[1..]);
      AvailableFold(s1, adverts[1..]);
      AvailableCount(s1, adverts[1..]);
      forall n | n in e.reg.available && n !in s.reg.available
        ensures exists k :: |s.events| <= k < |e.events| && e.events[k] == AvailableChannel(e.reg.available[n])
      {
        if n == a.name {
          var k := |s.events|;
          assert e.events[k] == s1.events[k];
        }
      }
    }
  }

  // ---- unavailable ----

  /** A request to unsubscribe one subscribed id is sent as exactly that request. */
  lemma UnsubscribeOneSubscribed(s: seq<Sub>, k: nat)
    requires k < |s|
    ensures UnsubscribeSends(s, [s[k].id]) == [Unsubscribe([s[k].id])]
  {
    var id := s[k].id;
    assert HasId(s, id);
    assert [id][..0] == [];
    assert UnsubscribeIds(s, []) == [];
    assert UnsubscribeIds(s, [id]) == [id];
  }

  /**
   * The walk for a name that became unavailable: the entry met first with
   * that name is unsubscribed (one request naming its id) and is the only
   * entry erased; a name no entry has changes nothing.
   */
  lemma UnsubscribeNamedSpec(sub: seq<Sub>, name: string)
    requires Sorted(sub)
    ensures var w := UnsubscribeNamed(sub, name);
      && Sorted(w.subscribed)
      && (name !in SubNames(sub) ==> w.subscribed == sub && w.requests == [])
      && (forall x :: FirstByName(sub, name, x) ==>
            && w.requests == [Unsubscribe([x.id])]
            && |w.subscribed| == |sub| - 1
            && forall y :: y in w.subscribed <==> y in sub && y.id != x.id)
  {
    var k := FindName(sub, name);
    FindNameIsFirst(sub, name);
    if k < |sub| {
      RemoveAtKeepsSorted(sub, k);
      RemoveAtMembers(sub, k);
      UnsubscribeOneSubscribed(sub, k);
      forall x | FirstByName(sub, name, x)
        ensures x == sub[k]
      {
        FirstByNameUnique(sub, name, x, sub[k]);
      }
    }
  }

  /**
   * One name of an `unavailable` message, outside the subscribed map: the
   * name leaves the available and timestamp tables and is announced as
   * unavailable whether or not it was known.
   */
  lemma OnUnavailableTables(s: State, name: string)
    ensures var e := OnUnavailable(s, name); var r := s.reg;
      && e.events == s.events + [UnavailableChannel(name)]
      && e.reg.available == r.available - {name}
      && e.reg.firstSampleTs == r.firstSampleTs - {name}
      && e.reg.pending == r.pending && e.reg.acquiring == r.acquiring
  {
    var r := s.reg;
    if name !in r.available {
      assert r.available - {name} == r.available;
    }
    if name !in r.firstSampleTs {
      assert r.firstSampleTs - {name} == r.firstSampleTs;
    }
  }

  /**
   * One name of an `unavailable` message: besides `OnUnavailableTables`, the
   * entry met first with the name is unsubscribed with one request and is
   * the only entry erased, and a name no entry has leaves the subscribed map
   * and the requests as they were.
   */
  lemma OnUnavailableSpec(s: State, name: string)
    requires Sorted(s.reg.subscribed)
    ensures var e := OnUnavailable(s, name); var r := s.reg;
      && Sorted(e.reg.subscribed)
      && (name !in SubNames(r.subscribed) ==> e.reg.subscribed == r.subscribed && e.sent == s.sent)
      && (forall x :: FirstByName(r.subscribed, name, x) ==>
            && e.sent == s.sent + [Unsubscribe([x.id])]
            && |e.reg.subscribed| == |r.subscribed| - 1
            && forall y :: y in e.reg.subscribed <==> y in r.subscribed && y.id != x.id)
  {
    var w := UnsubscribeNamed(s.reg.subscribed, name);
    UnsubscribeNamedSpec(s.reg.subscribed, name);
    assert OnUnavailable(s, name).reg.subscribed == w.subscribed;
    if name !in SubNames(s.reg.subscribed) {
      assert s.sent + [] == s.sent;
    }
  }

  /** A whole `unavailable` message keeps the subscribed map sorted by id. */
  lemma {:induction false} UnavailableKeepsSorted(s: State, names: seq<string>)
    requires Sorted(s.reg.subscribed)
    ensures Sorted(UnavailableChannels(s, names).reg.subscribed)
    decreases |names|
  {
    if names != [] {
      var sub := s.reg.subscribed;
      var k := FindName(sub, names[0]);
      if k < |sub| {
        RemoveAtKeepsSorted(sub, k);
      }
      UnavailableKeepsSorted(OnUnavailable(s, names[0]), names[1..]);
    }
  }

  /** A whole `unavailable` message: none of its names is left available or timestamped. */
  lemma {:induction false} UnavailableFold(s: State, names: seq<string>)
    ensures var e := UnavailableChannels(s, names); var r := s.reg;
      && e.reg.pending == r.pending && e.reg.acquiring == r.acquiring
      && (forall n :: n in e.reg.available <==> n in r.available && n !in names)
      && (forall n :: n in e.reg.available ==> e.reg.available[n] == r.available[n])
      && (forall n :: n in e.reg.firstSampleTs <==> n in r.firstSampleTs && n !in names)
      && (forall n :: n in e.reg.firstSampleTs ==> e.reg.firstSampleTs[n] == r.firstSampleTs[n])
    decreases |names|
  {
    if names != [] {
      OnUnavailableTables(s, names[0]);
      UnavailableFold(OnUnavailable(s, names[0]), names[1..]);
      assert names == [names[0]] + names[1..];
    }
  }

  /** A whole `unavailable` message appends one event per name, in message order. */
  lemma {:induction false} UnavailableEvents(s: State, names: seq<string>)
    ensures var e := UnavailableChannels(s, names);
      && |e.events| == |s.events| + |names|
      && s.events <= e.events
      && (forall k :: 0 <= k < |names| ==> e.events[|s.events| + k] == UnavailableChannel(names[k]))
    decreases |names|
  {
    if names != [] {
      var s1 := OnUnavailable(s, names[0]);
      var e := UnavailableChannels(s, names);
      OnUnavailableTables(s, names[0]);
      UnavailableEvents(s1, names[1..]);
      forall k | 0 <= k < |names|
        ensures e.events[|s.events| + k] == UnavailableChannel(names[k])
      {
        if k == 0 {
          assert e.events[|s.events|] == s1.events[|s.events|];
        } else {
          assert names[k] == names[1..][k - 1] && |s.events| + k == |s1.events| + (k - 1);
        }
      }
    }
  }

  /**
   * The requests a whole `unavailable` message appends: one single-id
   * unsubscribe for each subscribed entry it erases.
   */
  lemma {:induction false} UnavailableSends(s: State, names: seq<string>)
    requires Sorted(s.reg.subscribed)
    ensures var e := UnavailableChannels(s, names);
      && |e.sent| + |e.reg.subscribed| == |s.sent| + |s.reg.subscribed|
      && s.sent <= e.sent
      && (forall k :: |s.sent| <= k < |e.sent| ==> e.sent[k].Unsubscribe? && |e.sent[k].ids| == 1)
    decreases |names|
  {
    if names != [] {
      var sub := s.reg.subscribed;
      var k := FindName(sub, names[0]);
      if k < |sub| {
        RemoveAtKeepsSorted(sub, k);
        UnsubscribeOneSubscribed(sub, k);
      } else {
        assert s.sent + [] == s.sent;
      }
      UnavailableSends(OnUnavailable(s, names[0]), names[1..]);
    }
  }

  // ---- acquisition_state ----

  /** After acquisition stops, every subscribed name is timestamped zero and every other timestamp is as it was. */
  lemma {:induction false} ResetTimestampsSpec(ts: map<string, nat>, s: seq<Sub>)
    ensures var t := ResetTimestamps(ts, s);
      && (forall n :: n in t <==> n in ts || n in SubNames(s))
      && (forall n :: n in t ==> t[n] == if n in SubNames(s) then 0 else ts[n])
    decreases |s|
  {
    if s != [] {
      var init := s[..|s| - 1];
      ResetTimestampsSpec(ts, init);
      assert s == init + [s[|s| - 1]];
      assert SubNames(s) == SubNames(init) + {s[|s| - 1].info.name};
    }
  }

  /**
   * An `acquisition_state` message: "off" clears the flag and zeroes the
   * timestamp of every subscribed entry with one event each, in id order;
   * "on" sets the flag; any other value changes nothing; the last event
   * appended always reports the flag as it now is.
   */
  lemma OnAcquisitionStateSpec(s: State, state: string)
    ensures var e := OnAcquisitionState(s, state); var r := s.reg;
      && e.sent == s.sent
      && e.reg.available == r.available && e.reg.pending == r.pending && e.reg.subscribed == r.subscribed
      && e.reg.acquiring == (if state == "off" then false else if state == "on" then true else r.acquiring)
      && s.events < e.events && e.events[|e.events| - 1] == AcquireState(e.reg.acquiring)
      && (state == "off" ==>
            && |e.events| == |s.events| + |r.subscribed| + 1
            && (forall k :: 0 <= k < |r.subscribed| ==>
                  e.events[|s.events| + k] == ChannelFirstSampleTs(r.subscribed[k].info.name, r.subscribed[k].id, 0))
            && (forall n :: n in SubNames(r.subscribed) ==> n in e.reg.firstSampleTs && e.reg.firstSampleTs[n] == 0)
            && (forall n :: n !in SubNames(r.subscribed) ==>
                  (n in e.reg.firstSampleTs <==> n in r.firstSampleTs) &&
                  (n in r.firstSampleTs ==> e.reg.firstSampleTs[n] == r.firstSampleTs[n])))
      && (state != "off" ==> e.events == s.events + [AcquireState(e.reg.acquiring)] && e.reg.firstSampleTs == r.firstSampleTs)
  {
    ResetTimestampsSpec(s.reg.firstSampleTs, s.reg.subscribed);
    if state == "off" {
      var e := OnAcquisitionState(s, state);
      forall k | 0 <= k < |s.reg.subscribed|
        ensures e.events[|s.events| + k] == ResetEvents(s.reg.subscribed)[k]
      {
      }
    }
  }

  // ---- packets ----

  /** A data packet never changes the registry or sends; it appends one event exactly when its id is subscribed. */
  lemma OnDataSpec(s: State, msg: Message)
    ensures var e := OnData(s, msg);
      && e.reg == s.reg && e.sent == s.sent
      && (|e.events| == |s.events| + 1 <==> HasId(s.reg.subscribed, AsInt32(msg.id)))
      && (e.events == s.events || e.events == s.events + [ChannelData(AsInt32(msg.id), SampleCount(msg.length), msg.payload)])
  {
  }

  /** Whatever message arrives, the subscribed map stays sorted by id and the logs only grow. */
  lemma OnControlKeepsSorted(s: State, c: Control)
    requires Sorted(s.reg.subscribed)
    ensures var e := OnControl(s, c);
      Sorted(e.reg.subscribed) && s.events <= e.events && s.sent <= e.sent
  {
    match c
    case Unsubscribed(names) => UnsubscribedFold(s, names);
    case Subscribed(cs) => SubscribedFold(s, cs);
    case Available(adverts) => AvailableFold(s, adverts); AvailableCount(s, adverts);
    case Unavailable(names) => UnavailableKeepsSorted(s, names); UnavailableEvents(s, names); UnavailableSends(s, names);
    case AcquisitionState(state) => OnAcquisitionStateSpec(s, state);
    case _ =>
  }

  lemma OnPacketKeepsSorted(m: u32, parse: seq<byte> -> Json, s: State, msg: Message)
    requires Sorted(s.reg.subscribed)
    ensures var e := OnPacket(m, parse, s, msg);
      Sorted(e.reg.subscribed) && s.events <= e.events && s.sent <= e.sent
  {
    if RoutePacket(m, msg.id) == ToControl {
      OnControlKeepsSorted(s, Classify(parse(msg.payload)));
    }
  }

  /** Only METADATA_ID traffic sends requests or changes the registry; a dropped id does nothing at all. */
  lemma OnlyControlChangesRegistry(m: u32, parse: seq<byte> -> Json, s: State, msg: Message)
    requires RoutePacket(m, msg.id) != ToControl
    ensures OnPacket(m, parse, s, msg).reg == s.reg && OnPacket(m, parse, s, msg).sent == s.sent
    ensures RoutePacket(m, msg.id) == Dropped ==> OnPacket(m, parse, s, msg) == s
  {
  }

  /** A request to unsubscribe is sent exactly when one of the ids is subscribed, and names exactly those. */
  lemma UnsubscribeSendsSpec(s: seq<Sub>, ids: seq<int>)
    ensures |UnsubscribeSends(s, ids)| <= 1
    ensures UnsubscribeSends(s, ids) != [] <==> exists i :: i in ids && HasId(s, i)
    ensures forall q :: q in UnsubscribeSends(s, ids) ==> q.Unsubscribe? && forall i :: i in q.ids <==> i in ids && HasId(s, i)
  {
    var f := UnsubscribeIds(s, ids);
    assert UnsubscribeSends(s, ids) == if f == [] then [] else [Unsubscribe(f)];
    if f != [] {
      var i := f[0];
      assert i in f;
      assert i in ids && HasId(s, i);
    }
    if exists i :: i in ids && HasId(s, i) {
      var i :| i in ids && HasId(s, i);
      assert i in f;
    }
  }

  /** A request to subscribe is sent exactly when one requested channel is available, and names exactly those. */
  lemma SubscribeSendsSpec(available: map<string, ChannelInfo>, list: seq<ChannelInfo>)
    ensures |SubscribeSends(available, list)| <= 1
    ensures SubscribeSends(available, list) != [] <==> exists n :: n in available && n in NamesOf(list)
    ensures forall q :: q in SubscribeSends(available, list) ==>
      q.Subscribe? && forall n :: n in q.factors <==> n in available && n in NamesOf(list)
  {
    if exists n :: n in available && n in NamesOf(list) {
      var n :| n in available && n in NamesOf(list);
      var e :| e in list && e.name == n;
      var k :| 0 <= k < |list| && list[k] == e;
    }
    var f := SubscribeFactors(available, list);
    SubscribeFactorsSpec(available, list);
    forall n | n in available && n in NamesOf(list)
      ensures n in f
    {
      var e :| e in list && e.name == n;
      var k :| 0 <= k < |list| && list[k] == e;
    }
  }

  // ---- the wire ----

  /**
   * A request the client writes is read back, by the framing any peer
   * applies, as one message with METADATA_ID, the full length and the
   * payload, ahead of whatever follows it.
   */
  lemma FrameReadBack(size: nat, m: u32, payload: seq<byte>, rest: seq<byte>)
    requires |payload| + HeaderSize < Word
    ensures var w := Frame(m, payload) + rest;
      Frames(w) == Framing([Message(m, |payload| + HeaderSize, payload)] + Frames(rest).msgs, Frames(rest).rest)
    ensures ValidMetadataId(m) && |payload| + HeaderSize <= size && WellFormed(size, m, rest) ==>
      WellFormed(size, m, Frame(m, payload) + rest)
    ensures ValidMetadataId(m) ==> RoutePacket(m, m) == ToControl
  {
    var f := Frame(m, payload);
    var w := f + rest;
    var n := |f|;
    assert w[..HeaderSize] == f[..HeaderSize];
    assert DecodeHeader(w) == DecodeHeader(f) by {
      assert w[0..4] == f[0..4] && w[4..8] == f[4..8];
    }
    assert FrameEnd(DecodeHeader(w)) == n;
    assert w[n..] == rest;
    assert w[..n][HeaderSize..n] == payload by {
      assert w[..n] == f;
    }
  }
}
