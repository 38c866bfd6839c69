/**
 * The `BUNKR_OPEN_FILE_TABS` batch opener of bunkr/background.js: the timer
 * schedule the batch loop issues, and what each timer does when it fires.
 */
module Opener {
  import opened Wrappers
  import opened FileTabs

  /** An item of the message: `{ href, name? }`. */
  datatype Item = Item(href: string, name: Option<string>)

  /** One `setTimeout` of the batch loop: after `delayMs`, open the file page of `item` under `base`. */
  datatype PendingOpen = PendingOpen(delayMs: int, item: Item, base: string)

  predicate StartsWith(s: string, prefix: string) {
    |prefix| <= |s| && s[..|prefix|] == prefix
  }

  /** `it.name || null`: an empty name counts as no name. */
  function NameOrNull(name: Option<string>): (r: Option<string>)
    ensures r.Some? <==> name.Some? && name.value != ""
    ensures r.Some? ==> r == name
  {
    if name.Some? && name.value != "" then name else None
  }

  /** What the two replacements together can remove from the front of an `href`. */
  const RemovablePrefixes: seq<string> := ["", "/", "f/", "/f/", "f//", "/f//"]

  /**
   * `href.replace(/^\/?f\//, "").replace(/^\//, "")`: drop a leading "f/" or
   * "/f/", then one leading "/".
   */
  function ItemId(href: string): (id: string)
    ensures |id| <= |href| && href == href[..|href| - |id|] + id
    ensures href[..|href| - |id|] in RemovablePrefixes
    // the removed prefix is the longest removable one that `href` starts with
    ensures forall q :: q in RemovablePrefixes && StartsWith(href, q) ==> |q| <= |href| - |id|
  {
    var first := if StartsWith(href, "/f/") then "/f/" else if StartsWith(href, "f/") then "f/" else "";
    var rest := href[|first|..];
    var second := if StartsWith(rest, "/") then "/" else "";
    var id := rest[|second|..];
    assert href == first + rest by { assert href[..|first|] == first; }
    assert rest == second + id by { assert rest[..|second|] == second; }
    assert href[..|href| - |id|] == first + second;
    assert "/f/" + "/" == "/f//" && "f/" + "/" == "f//";
    LongestRemoved(href, first, second);
    id
  }

  /** The two replacements remove the longest removable prefix that `href` starts with. */
  lemma LongestRemoved(href: string, first: string, second: string)
    requires first == if StartsWith(href, "/f/") then "/f/" else if StartsWith(href, "f/") then "f/" else ""
    requires |first| <= |href|
    requires second == if StartsWith(href[|first|..], "/") then "/" else ""
    ensures forall q :: q in RemovablePrefixes && StartsWith(href, q) ==> |q| <= |first| + |second|
  {
    forall q | q in RemovablePrefixes && StartsWith(href, q) ensures |q| <= |first| + |second| {
      if q == "/" {
        assert href[0] == '/';
        if first == "" {
          assert href[|first|..][..1] == "/";
        }
      } else if q == "f/" || q == "f//" {
        assert href[0] == 'f' && href[1] == '/' && href[..2] == "f/";
        assert first == "f/";
        if q == "f//" {
          assert href[2] == '/' && href[2..][..1] == "/";
        }
      } else if q == "/f/" || q == "/f//" {
        assert href[..3] == "/f/";
        if q == "/f//" {
          assert href[3] == '/' && href[3..][..1] == "/";
        }
      }
    }
  }

  /** The file-page paths the gallery links to lose exactly their "/f/" or "f/" prefix. */
  lemma ItemIdOfFilePath(id: string)
    requires !StartsWith(id, "/")
    ensures ItemId("/f/" + id) == id
    ensures ItemId("f/" + id) == id
  {
    var h := "/f/" + id;
    assert h[..3] == "/f/" && h[3..] == id;
    assert StartsWith(h, "/f/");
    var g := "f/" + id;
    assert g[..2] == "f/" && g[2..] == id;
    assert !StartsWith(g, "/f/") by { assert g[0] == 'f'; }
    assert StartsWith(g, "f/");
  }

  /** `base.endsWith("/") ? base : base + "/"`. */
  function WithSlash(base: string): (b: string)
    ensures b != [] && b[|b| - 1] == '/'
    ensures b == base || b == base + "/"
    ensures base != [] && base[|base| - 1] == '/' ==> b == base
  {
    if base != [] && base[|base| - 1] == '/' then base else base + "/"
  }

  /** The two file-page URLs tried for an item, in order: `base + id`, then `base + id + id`. */
  function Candidates(base: string, href: string): (cs: seq<string>)
    ensures |cs| == 2
    ensures cs[0] == WithSlash(base) + ItemId(href)
    ensures cs[1] == cs[0] + ItemId(href)
  {
    var b := WithSlash(base);
    var id := ItemId(href);
    [b + id, b + id + id]
  }

  /**
   * The batch loop: one timer per item, the i-th after `i * pacingMs`; the
   * reply counts the items, whatever the opens do later.
   */
  method ScheduleBatch(items: seq<Item>, base: string, pacingMs: int) returns (timers: seq<PendingOpen>, count: nat)
    ensures count == |items|
    ensures |timers| == |items|
    ensures forall i :: 0 <= i < |items| ==> timers[i] == PendingOpen(i * pacingMs, items[i], base)
    ensures pacingMs >= 0 ==> forall i, j :: 0 <= i <= j < |timers| ==> timers[i].delayMs <= timers[j].delayMs
  {
    var delay := 0;
    timers := [];
    for i := 0 to |items|
      invariant |timers| == i
      invariant delay == i * pacingMs
      invariant forall m :: 0 <= m < i ==> timers[m] == PendingOpen(m * pacingMs, items[m], base)
      invariant pacingMs >= 0 ==> forall m, n :: 0 <= m <= n < i ==> timers[m].delayMs <= timers[n].delayMs
      invariant pacingMs >= 0 ==> forall m :: 0 <= m < i ==> timers[m].delayMs <= delay
    {
      timers := timers + [PendingOpen(delay, items[i], base)];
      delay := delay + pacingMs;
    }
    count := |items|;
  }

  /**
   * The candidate loop of a batch timer: try the URLs of `candidates` in
   * order and stop at the first tab the host opens, recording `rec` for it.
   * `create(m, u)` is the host's answer to the m-th `chrome.tabs.create`
   * call, for URL `u`: a new tab id or a failure. Returns the URLs tried, in
   * order.
   */
  method OpenFirst(table: Table, candidates: seq<string>, rec: Rec, create: (nat, string) -> Option<TabId>)
    returns (tried: seq<string>)
    requires table.Valid()
    modifies table
    ensures table.Valid()
    ensures |tried| <= |candidates| && tried == candidates[..|tried|]
    ensures forall m :: 0 <= m < |tried| - 1 ==> create(m, tried[m]).None?
    ensures tried == [] ==> candidates == [] && table.entries == old(table.entries)
    ensures tried != [] ==> match create(|tried| - 1, tried[|tried| - 1])
            case Some(tab) => table.entries == Put(old(table.entries), tab, rec)
            case None => tried == candidates && table.entries == old(table.entries)
  {
    tried := [];
    var m := 0;
    while m < |candidates|
      invariant 0 <= m <= |candidates| && tried == candidates[..m]
      invariant forall n :: 0 <= n < m ==> create(n, candidates[n]).None?
      invariant table.Valid() && table.entries == old(table.entries)
    {
      var u := candidates[m];
      tried := tried + [u];
      assert tried == candidates[..m + 1] && tried[m] == u;
      var tab := create(m, u);
      if tab.Some? {
        table.Set(tab.value, rec);
        // stands for `break`: nothing follows the loop
        return;
      }
      m := m + 1;
    }
    assert candidates[..m] == candidates;
  }

  /**
   * What one timer does when it fires: try the two candidate URLs of the
   * item in order, recording `{ ogname: name || null, startedAt: now }` for
   * the first tab the host opens.
   */
  method OpenFileTab(table: Table, item: Item, base: string, now: int, create: (nat, string) -> Option<TabId>)
    returns (tried: seq<string>)
    requires table.Valid()
    modifies table
    ensures table.Valid()
    ensures 1 <= |tried| <= 2 && tried == Candidates(base, item.href)[..|tried|]
    ensures forall m :: 0 <= m < |tried| - 1 ==> create(m, tried[m]).None?
    ensures match create(|tried| - 1, tried[|tried| - 1])
            case Some(tab) => table.entries == Put(old(table.entries), tab, Rec(NameOrNull(item.name), Some(now)))
            case None => |tried| == 2 && table.entries == old(table.entries)
  {
    tried := OpenFirst(table, Candidates(base, item.href), Rec(NameOrNull(item.name), Some(now)), create);
  }
}
