/**
 * `STATE.fileTabs` of bunkr/background.js: a JavaScript `Map` from tab id to
 * `{ ogname, startedAt }`, iterated in insertion order.
 */
module FileTabs {
  import opened Wrappers

  /** A browser tab id, as the host assigns it. */
  type TabId = int

  /** The record `{ ogname, startedAt }` kept for a file tab; either field may be absent. */
  datatype Rec = Rec(ogname: Option<string>, startedAt: Option<int>)

  /** One `[tabId, rec]` pair of the map, in iteration order. */
  datatype Entry = Entry(tab: TabId, rec: Rec)

  /** `rec.startedAt || 0`: the time stamp used to compare records. */
  function Stamp(r: Rec): (t: int)
    ensures r.startedAt.Some? ==> t == r.startedAt.value
    ensures r.startedAt.None? ==> t == 0
  {
    match r.startedAt
    case Some(t) => t
    case None => 0
  }

  /** The keys of the map in iteration order. */
  function Keys(es: seq<Entry>): (ks: seq<TabId>)
    ensures |ks| == |es| && forall i :: 0 <= i < |es| ==> ks[i] == es[i].tab
  {
    seq(|es|, i requires 0 <= i < |es| => es[i].tab)
  }

  /** A `Map` holds each key at most once. */
  predicate UniqueKeys(es: seq<Entry>) {
    forall i, j :: 0 <= i < j < |es| ==> es[i].tab != es[j].tab
  }

  /** The position of key `k`, if the map holds it. */
  function IndexOf(es: seq<Entry>, k: TabId): (r: Option<nat>)
    ensures r.None? <==> k !in Keys(es)
    ensures r.Some? ==> r.value < |es| && es[r.value].tab == k
  {
    if es == [] then None
    else if es[0].tab == k then Some(0)
    else
      assert Keys(es) == [es[0].tab] + Keys(es[1..]);
      match IndexOf(es[1..], k)
      case None => None
      case Some(i) => Some(i + 1)
  }

  /** `Map.prototype.get`. */
  function Lookup(es: seq<Entry>, k: TabId): (r: Option<Rec>)
    ensures r.None? <==> k !in Keys(es)
    ensures UniqueKeys(es) ==> forall i :: 0 <= i < |es| && es[i].tab == k ==> r == Some(es[i].rec)
  {
    match IndexOf(es, k)
    case Some(i) => Some(es[i].rec)
    case None => None
  }

  /**
   * `Map.prototype.set`: a key already present keeps its position and gets
   * the new record; a new key is added at the end.
   */
  function Put(es: seq<Entry>, k: TabId, v: Rec): (r: seq<Entry>)
    ensures k !in Keys(es) ==> r == es + [Entry(k, v)]
    ensures k in Keys(es) ==> |r| == |es|
    ensures UniqueKeys(es) ==> UniqueKeys(r)
    ensures UniqueKeys(es) ==> forall i :: 0 <= i < |es| ==> r[i] == if es[i].tab == k then Entry(k, v) else es[i]
  {
    match IndexOf(es, k)
    case Some(i) => es[i := Entry(k, v)]
    case None => es + [Entry(k, v)]
  }

  /**
   * `Map.prototype.delete`: the entry for `k` is dropped and the others
   * keep their order.
   */
  function Remove(es: seq<Entry>, k: TabId): (r: seq<Entry>)
    ensures k !in Keys(es) ==> r == es
    ensures UniqueKeys(es) ==> UniqueKeys(r) && k !in Keys(r)
    ensures UniqueKeys(es) ==> forall i :: 0 <= i < |es| && es[i].tab == k ==> r == es[..i] + es[i + 1..]
  {
    match IndexOf(es, k)
    case Some(i) =>
      DropAtKeeps(es, i);
      es[..i] + es[i + 1..]
    case None => es
  }

  /** Dropping the entry at position `i` shifts the later entries down by one. */
  lemma DropAtShifts(es: seq<Entry>, i: nat)
    requires i < |es|
    ensures var r := es[..i] + es[i + 1..];
      |r| == |es| - 1 && forall j :: 0 <= j < |r| ==> r[j] == if j < i then es[j] else es[j + 1]
  {
  }

  /** Dropping one entry of a map keeps the other keys unique and removes that entry's key. */
  lemma DropAtKeeps(es: seq<Entry>, i: nat)
    requires i < |es|
    ensures UniqueKeys(es) ==> UniqueKeys(es[..i] + es[i + 1..]) && es[i].tab !in Keys(es[..i] + es[i + 1..])
  {
  }

  /** Getting a key right after setting it yields the record set, and no other key changes. */
  lemma PutLookup(es: seq<Entry>, k: TabId, v: Rec, other: TabId)
    requires UniqueKeys(es)
    ensures Lookup(Put(es, k, v), k) == Some(v)
    ensures other != k ==> Lookup(Put(es, k, v), other) == Lookup(es, other)
  {
    var r := Put(es, k, v);
    if k !in Keys(es) {
      assert r[|es|] == Entry(k, v);
    } else {
      var i := IndexOf(es, k).value;
      assert r[i] == Entry(k, v);
    }
    if other != k && other in Keys(es) {
      var j := IndexOf(es, other).value;
      assert r[j] == es[j];
    }
    if other != k && other !in Keys(es) {
      assert forall j :: 0 <= j < |r| ==> r[j].tab != other by {
        assert forall j :: 0 <= j < |es| ==> es[j].tab != other;
      }
      assert other !in Keys(r);
    }
  }

  /** After a delete the key is gone and every other key maps as before. */
  lemma RemoveLookup(es: seq<Entry>, k: TabId, other: TabId)
    requires UniqueKeys(es)
    ensures Lookup(Remove(es, k), k) == None
    ensures other != k ==> Lookup(Remove(es, k), other) == Lookup(es, other)
  {
    if other != k && k in Keys(es) {
      var i := IndexOf(es, k).value;
      if other in Keys(es) {
        RemoveKeepsPresent(es, i, IndexOf(es, other).value);
      } else {
        RemoveKeepsAbsent(es, i, other);
      }
    }
  }

  /** Dropping entry `i` keeps the record of a present key `es[j].tab`. */
  lemma RemoveKeepsPresent(es: seq<Entry>, i: nat, j: nat)
    requires UniqueKeys(es) && i < |es| && j < |es| && i != j
    ensures Lookup(es[..i] + es[i + 1..], es[j].tab) == Some(es[j].rec)
  {
    var r := es[..i] + es[i + 1..];
    DropAtShifts(es, i);
    DropAtKeeps(es, i);
    assert r[if j < i then j else j - 1] == es[j];
  }

  /** Dropping an entry does not bring in a key that was absent. */
  lemma RemoveKeepsAbsent(es: seq<Entry>, i: nat, other: TabId)
    requires i < |es| && other !in Keys(es)
    ensures other !in Keys(es[..i] + es[i + 1..])
  {
  }

  /**
   * Entry `k` is the one the hint scan settles on: its time stamp is at
   * least every other one, and strictly greater than every earlier one.
   */
  ghost predicate IsLatest(es: seq<Entry>, k: int) {
    && 0 <= k < |es|
    && (forall j :: 0 <= j < k ==> Stamp(es[j].rec) < Stamp(es[k].rec))
    && (forall j :: k <= j < |es| ==> Stamp(es[j].rec) <= Stamp(es[k].rec))
  }

  /** The index of the most recent entry: the earliest among those with the greatest time stamp. */
  function Latest(es: seq<Entry>): (r: Option<nat>)
    ensures r.None? <==> es == []
    ensures r.Some? ==> IsLatest(es, r.value)
  {
    if es == [] then None
    else
      var init := es[..|es| - 1];
      match Latest(init)
      case None => Some(0)
      case Some(k) =>
        assert forall j :: 0 <= j < |init| ==> init[j] == es[j];
        if Stamp(es[|es| - 1].rec) > Stamp(es[k].rec) then Some(|es| - 1) else Some(k)
  }

  /** At most one entry can be the most recent one. */
  lemma LatestIsUnique(es: seq<Entry>, k1: int, k2: int)
    requires IsLatest(es, k1) && IsLatest(es, k2)
    ensures k1 == k2
  {
    ghost var first, second := Stamp(es[k1].rec), Stamp(es[k2].rec);
  }

  /** The map itself, updated in place by the message handlers and the auto-close timer. */
  class Table {
    var entries: seq<Entry>

    ghost predicate Valid()
      reads this
    {
      UniqueKeys(entries)
    }

    /** `new Map()`. */
    constructor ()
      ensures Valid() && entries == []
    {
      entries := [];
    }

    /** `fileTabs.get(k)`. */
    function Get(k: TabId): (r: Option<Rec>)
      reads this
      ensures r.None? <==> k !in Keys(entries)
      ensures r == Lookup(entries, k)
    {
      Lookup(entries, k)
    }

    /** `fileTabs.set(k, v)`. */
    method Set(k: TabId, v: Rec)
      requires Valid()
      modifies this
      ensures Valid()
      ensures entries == Put(old(entries), k, v)
    {
      entries := Put(entries, k, v);
    }

    /** `fileTabs.delete(k)`. */
    method Delete(k: TabId)
      requires Valid()
      modifies this
      ensures Valid()
      ensures entries == Remove(old(entries), k)
    {
      entries := Remove(entries, k);
    }

    /**
     * The hint scan of the download-naming listener: walk the entries in
     * insertion order and keep one whose `startedAt` (absent counts as 0) is
     * strictly greater than that of the one kept so far.
     */
    method MostRecent() returns (hint: Option<Rec>, hintTab: Option<TabId>)
      ensures hint.None? <==> entries == []
      ensures hintTab.None? <==> entries == []
      ensures forall k :: IsLatest(entries, k) ==> hint == Some(entries[k].rec) && hintTab == Some(entries[k].tab)
    {
      hint, hintTab := None, None;
      var i := 0;
      while i < |entries|
        invariant 0 <= i <= |entries|
        invariant match Latest(entries[..i])
                  case None => hint == None && hintTab == None
                  case Some(k) => hint == Some(entries[k].rec) && hintTab == Some(entries[k].tab)
      {
        var e := entries[i];
        assert entries[..i + 1][..i] == entries[..i];
        if hint.None? || Stamp(e.rec) > Stamp(hint.value) {
          hint, hintTab := Some(e.rec), Some(e.tab);
        }
        i := i + 1;
      }
      assert entries[..i] == entries;
      forall k | IsLatest(entries, k) ensures hint == Some(entries[k].rec) && hintTab == Some(entries[k].tab) {
        LatestIsUnique(entries, k, Latest(entries).value);
      }
    }
  }
}
