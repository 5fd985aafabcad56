/**
 * The channel registry: the client's four tables and its acquisition flag,
 * and the map and vector operations the protocol handlers use on them.
 *
 * The subscribed-channels table is a std::map from server-assigned id to
 * descriptor; its iteration order (increasing id) decides which entry a
 * search by name finds first and the order of the events emitted while
 * walking it, so it is kept here as a sequence of entries strictly sorted
 * by id.
 */
module Channels {

  /**
   * A channel descriptor (ChannelInfo). The sample period, scale and offset
   * are floating-point values the client only copies, carried as reals.
   */
  datatype ChannelInfo = ChannelInfo(
    name: string,
    samplePeriod: real,
    dataType: string,
    scale: real,
    offset: real,
    decimation: int)

  /** One entry of the subscribed-channels map. */
  datatype Sub = Sub(id: int, info: ChannelInfo)

  /**
   * The registry tables: available (name -> descriptor), pending subscribe
   * requests (in request order), subscribed (id -> descriptor, sorted by id),
   * first-sample timestamps (name -> nanoseconds) and the acquisition flag.
   */
  datatype Registry = Registry(
    available: map<string, ChannelInfo>,
    pending: seq<ChannelInfo>,
    subscribed: seq<Sub>,
    firstSampleTs: map<string, nat>,
    acquiring: bool)

  /** The std::map ordering of the subscribed table: strictly increasing ids, so each id appears once. */
  ghost predicate Sorted(s: seq<Sub>) {
    forall i, j :: 0 <= i < j < |s| ==> s[i].id < s[j].id
  }

  ghost predicate Wf(r: Registry) {
    Sorted(r.subscribed)
  }

  /** `find(id) != end()` on the subscribed map. */
  predicate HasId(s: seq<Sub>, id: int) {
    exists k :: 0 <= k < |s| && s[k].id == id
  }

  /**
   * The position of the first entry (in id order) whose descriptor has the
   * given name; |s| (the end) when there is none.
   */
  function FindName(s: seq<Sub>, name: string): (k: nat)
    ensures k <= |s|
    ensures k < |s| ==> s[k].info.name == name
    ensures forall j :: 0 <= j < k ==> s[j].info.name != name
  {
    if s == [] then 0
    else if s[0].info.name == name then 0
    else 1 + FindName(s[1..], name)
  }

  /** The channel names of the subscribed entries. */
  function SubNames(s: seq<Sub>): set<string> {
    set x | x in s :: x.info.name
  }

  /**
   * `x` is the entry a walk of the subscribed map in id order meets first
   * among those with the given name: it has the name and the smallest id.
   */
  ghost predicate FirstByName(s: seq<Sub>, name: string, x: Sub) {
    x in s && x.info.name == name && forall y :: y in s && y.info.name == name ==> x.id <= y.id
  }

  /** On a map sorted by id, the search by name finds the entry met first, and reports the end exactly when no entry has the name. */
  lemma FindNameIsFirst(s: seq<Sub>, name: string)
    requires Sorted(s)
    ensures FindName(s, name) == |s| <==> name !in SubNames(s)
    ensures FindName(s, name) < |s| ==> FirstByName(s, name, s[FindName(s, name)])
  {
    var k := FindName(s, name);
    if k < |s| {
      assert s[k] in s;
      forall y | y in s && y.info.name == name
        ensures s[k].id <= y.id
      {
        var j :| 0 <= j < |s| && s[j] == y;
        assert k <= j;
      }
    } else {
      forall y | y in s
        ensures y.info.name != name
      {
        var j :| 0 <= j < |s| && s[j] == y;
      }
    }
  }

  /** Ids are unique in the map, so at most one entry is met first. */
  lemma FirstByNameUnique(s: seq<Sub>, name: string, x: Sub, y: Sub)
    requires Sorted(s) && FirstByName(s, name, x) && FirstByName(s, name, y)
    ensures x == y
  {
    var i :| 0 <= i < |s| && s[i] == x;
    var j :| 0 <= j < |s| && s[j] == y;
    assert s[i].id == s[j].id;
  }

  /** The position of the first pending request with the given name; |p| when there is none. */
  function FindPending(p: seq<ChannelInfo>, name: string): (k: nat)
    ensures k <= |p|
    ensures k < |p| ==> p[k].name == name
    ensures forall j :: 0 <= j < k ==> p[j].name != name
  {
    if p == [] then 0
    else if p[0].name == name then 0
    else 1 + FindPending(p[1..], name)
  }

  /** Erase the element at position `k` (a vector or map erase through an iterator). */
  function RemoveAt<T>(s: seq<T>, k: nat): (r: seq<T>)
    requires k < |s|
    ensures |r| == |s| - 1
    ensures forall j :: 0 <= j < k ==> r[j] == s[j]
    ensures forall j :: k <= j < |r| ==> r[j] == s[j + 1]
  {
    s[..k] + s[k + 1..]
  }

  /** Erasing an entry keeps the map sorted by id. */
  lemma RemoveAtKeepsSorted(s: seq<Sub>, k: nat)
    requires Sorted(s) && k < |s|
    ensures Sorted(RemoveAt(s, k))
  {
  }

  /** Erasing the entry at `k` removes exactly the entry with its id. */
  lemma RemoveAtMembers(s: seq<Sub>, k: nat)
    requires Sorted(s) && k < |s|
    ensures forall e :: e in RemoveAt(s, k) <==> e in s && e.id != s[k].id
  {
    var r := RemoveAt(s, k);
    forall e | e in s && e.id != s[k].id
      ensures e in r
    {
      var j :| 0 <= j < |s| && s[j] == e;
      if j < k {
        assert r[j] == e;
      } else {
        assert r[j - 1] == e;
      }
    }
  }

  /**
   * `subscribed[id] = info`: insert the entry at its place in id order, or
   * overwrite the descriptor of an entry that already has this id.
   */
  function Put(s: seq<Sub>, id: int, info: ChannelInfo): (r: seq<Sub>)
    ensures Sorted(s) ==> Sorted(r)
    ensures Sorted(s) ==> forall e :: e in r <==> e == Sub(id, info) || (e in s && e.id != id)
  {
    if s == [] then [Sub(id, info)]
    else if id < s[0].id then [Sub(id, info)] + s
    else if id == s[0].id then [Sub(id, info)] + s[1..]
    else
      var t := Put(s[1..], id, info);
      assert Sorted(s) ==> forall e :: e in t ==> s[0].id < e.id by {
        if Sorted(s) {
          assert Sorted(s[1..]);
          forall e | e in s[1..] ensures s[0].id < e.id {
            var j :| 0 <= j < |s[1..]| && s[1..][j] == e;
            assert s[j + 1] == e;
          }
        }
      }
      [s[0]] + t
  }
}
