/**
 * The listeners of bunkr/background.js: the message handler (name reports
 * from file pages, batch-open requests from the popup), the download-naming
 * listener and the auto-close timer it schedules.
 */
module Background {
  import opened Wrappers
  import opened Naming
  import opened Domain
  import opened FileTabs
  import opened Opener

  /** `STATE.opts`, as read at the start of each operation. */
  datatype Options = Options(subfolder: string, preferOgName: bool, autoCloseSecs: int, openTabsPacingMs: int)

  /** The options before anything is loaded from storage. */
  const DefaultOptions := Options("Bunkr", true, 5, 800)

  /** The messages the handler tells apart by their `type`. */
  datatype Message =
    | FilePageOgName(ogname: Option<string>)
    | OpenFileTabs(items: seq<Item>, base: string)
    | OtherMessage

  /** What `sendResponse` is called with, if anything. */
  datatype Reply = NoReply | Ack | AckOpened(count: nat)

  /** The download as the host describes it; an absent field reads as "". */
  datatype DownloadItem = DownloadItem(finalUrl: string, url: string, filename: string)

  datatype ConflictAction = Uniquify

  /** The argument of `suggest`. */
  datatype Suggestion = Suggestion(filename: string, conflictAction: ConflictAction)

  /** An auto-close timer: after `delayMs`, close tab `tab` and forget it. */
  datatype ScheduledClose = ScheduledClose(delayMs: int, tab: TabId)

  /**
   * `runtime.onMessage`. A name report from a file page sets `ogname` and
   * `startedAt` of the sender's entry; a batch request schedules one open
   * per item and replies with the number of items. `sender` is the
   * sender's tab id, if it has one.
   */
  method OnMessage(table: Table, opts: Options, msg: Message, sender: Option<TabId>, now: int)
    returns (reply: Reply, timers: seq<PendingOpen>)
    requires table.Valid()
    modifies table
    ensures table.Valid()
    ensures msg.FilePageOgName? && sender.Some? ==>
      && reply == Ack && timers == []
      && table.entries == Put(old(table.entries), sender.value, Rec(msg.ogname, Some(now)))
    ensures msg.OpenFileTabs? ==>
      && reply == AckOpened(|msg.items|)
      && table.entries == old(table.entries)
      && |timers| == |msg.items|
      && forall i :: 0 <= i < |msg.items| ==>
           timers[i] == PendingOpen(i * opts.openTabsPacingMs, msg.items[i], msg.base)
    ensures !(msg.FilePageOgName? && sender.Some?) && !msg.OpenFileTabs? ==>
      reply == NoReply && timers == [] && table.entries == old(table.entries)
  {
    reply, timers := NoReply, [];
    if msg.FilePageOgName? && sender.Some? {
      var rec := match table.Get(sender.value) case Some(r) => r case None => Rec(None, None);
      rec := rec.(ogname := msg.ogname, startedAt := Some(now));
      table.Set(sender.value, rec);
      reply := Ack;
    } else if msg.OpenFileTabs? {
      var count;
      timers, count := ScheduleBatch(msg.items, msg.base, opts.openTabsPacingMs);
      reply := AckOpened(count);
    }
  }

  /** `item.finalUrl || item.url || ""`. */
  function DownloadUrl(item: DownloadItem): (u: string)
    ensures item.finalUrl != "" ==> u == item.finalUrl
    ensures item.finalUrl == "" ==> u == item.url
    ensures u == "" <==> item.finalUrl == "" && item.url == ""
  {
    if item.finalUrl != "" then item.finalUrl else item.url
  }

  /** The record of the most recent entry, the `hint` of the listener. */
  function HintOf(es: seq<Entry>): (r: Option<Rec>)
    ensures r.None? <==> es == []
    ensures forall k :: IsLatest(es, k) ==> r == Some(es[k].rec)
  {
    match Latest(es)
    case Some(k) =>
      assert forall j :: IsLatest(es, j) ==> j == k by {
        forall j | IsLatest(es, j) ensures j == k {
          LatestIsUnique(es, j, k);
        }
      }
      Some(es[k].rec)
    case None => None
  }

  /**
   * The name before sanitizing: the hint's `ogname` when names from file
   * pages are preferred and it is not empty, else the host's file name,
   * else "file.bin".
   */
  function BaseName(preferOgName: bool, hint: Option<Rec>, filename: string): (r: string)
    ensures r != ""
    ensures preferOgName && hint.Some? && hint.value.ogname.Some? && hint.value.ogname.value != "" ==>
      r == hint.value.ogname.value
    ensures !(preferOgName && hint.Some? && hint.value.ogname.Some? && hint.value.ogname.value != "") ==>
      r == if filename != "" then filename else "file.bin"
  {
    if preferOgName && hint.Some? && hint.value.ogname.Some? && hint.value.ogname.value != "" then
      hint.value.ogname.value
    else if filename != "" then filename
    else "file.bin"
  }

  /**
   * The file name the listener suggests under the subfolder: the sanitized
   * base name, with ".bin" appended when it lacks a plausible extension.
   */
  function DownloadName(preferOgName: bool, hint: Option<Rec>, filename: string): (name: string)
    ensures Clean(name) && HasExt(name)
    ensures var b := Sanitize(BaseName(preferOgName, hint, filename));
      name == b || (name == b + ".bin" && !HasExt(b))
  {
    var b := Sanitize(BaseName(preferOgName, hint, filename));
    FinalNameClean(b);
    FinalName(b)
  }

  /**
   * `downloads.onDeterminingFilename`. Downloads from other domains get no
   * suggestion and no close. Otherwise the suggestion is
   * `subfolder/finalName` with `uniquify`, and a close of the hint tab is
   * scheduled when `autoCloseSecs > 0` and the table is not empty. The
   * table is only read.
   */
  method OnDeterminingFilename(table: Table, item: DownloadItem, opts: Options)
    returns (suggestion: Option<Suggestion>, close: Option<ScheduledClose>)
    ensures suggestion.None? <==> !MatchesDomain(DownloadUrl(item))
    ensures suggestion.Some? ==>
      suggestion.value == Suggestion(opts.subfolder + "/" + DownloadName(opts.preferOgName, HintOf(table.entries), item.filename), Uniquify)
    ensures close.Some? <==> MatchesDomain(DownloadUrl(item)) && opts.autoCloseSecs > 0 && table.entries != []
    ensures close.Some? ==>
      && close.value.delayMs == opts.autoCloseSecs * 1000
      && IsLatest(table.entries, Latest(table.entries).value)
      && close.value.tab == table.entries[Latest(table.entries).value].tab
  {
    var url := DownloadUrl(item);
    if !IsBunkrUrl(url) {
      return None, None;
    }
    var hint, hintTab := table.MostRecent();
    var baseName := Sanitize(BaseName(opts.preferOgName, hint, item.filename));
    var finalName := FinalName(baseName);
    suggestion := Some(Suggestion(opts.subfolder + "/" + finalName, Uniquify));
    var secs := opts.autoCloseSecs;
    if secs > 0 && hintTab.Some? {
      close := Some(ScheduledClose(secs * 1000, hintTab.value));
    } else {
      close := None;
    }
  }

  /**
   * The auto-close timer firing: the tab removal may fail (its failure is
   * swallowed), and the entry for the tab is deleted either way.
   */
  method FireClose(table: Table, c: ScheduledClose)
    requires table.Valid()
    modifies table
    ensures table.Valid()
    ensures table.entries == Remove(old(table.entries), c.tab)
  {
    table.Delete(c.tab);
  }

  /**
   * A name report stamped later than every entry makes the reporting tab
   * the hint of the next download.
   */
  lemma ReportBecomesHint(es: seq<Entry>, tab: TabId, ogname: Option<string>, now: int)
    requires UniqueKeys(es)
    requires forall i :: 0 <= i < |es| ==> Stamp(es[i].rec) < now
    ensures HintOf(Put(es, tab, Rec(ogname, Some(now)))) == Some(Rec(ogname, Some(now)))
  {
  }

  /** The page name "My Cool Video" is already clean and has no plausible extension. */
  lemma ScenarioNameClean()
    ensures Clean("My Cool Video") && !HasExt("My Cool Video")
  {
  }

  /**
   * Under the default options, a reported page name without a plausible
   * extension, "My Cool Video", is suggested as "Bunkr/My Cool Video.bin".
   */
  lemma ReportedNameGetsBin(t: int)
    ensures var o := DefaultOptions;
      o.subfolder + "/" + DownloadName(o.preferOgName, Some(Rec(Some("My Cool Video"), Some(t))), "download")
        == "Bunkr" + "/" + ("My Cool Video" + ".bin")
  {
    ScenarioNameClean();
    CleanIsFixed("My Cool Video");
  }

  /**
   * A reported page name made only of reserved characters sanitizes to
   * nothing, so the suggested name is ".bin", not the "file.bin" fallback,
   * whatever the host's file name.
   */
  lemma ReservedOnlyNameIsBin(name: string, t: int, filename: string)
    requires name != [] && forall i :: 0 <= i < |name| ==> IsReserved(name[i])
    ensures DownloadName(true, Some(Rec(Some(name), Some(t))), filename) == ".bin"
  {
    SeparatorsHaveNoWords(name);
    assert Sanitize(name) == [];
    assert !HasExt([]);
  }

  /** The first candidate for a gallery link is the base followed by the id, the second repeats the id. */
  lemma CandidatesOfGalleryLink()
    ensures Candidates("https://site.test/f/", "/f/" + "AAA111")
         == ["https://site.test/f/" + "AAA111", "https://site.test/f/" + "AAA111" + "AAA111"]
  {
    var base := "https://site.test/f/";
    assert WithSlash(base) == base;
    assert "AAA111"[0] == 'A';
    ItemIdOfFilePath("AAA111");
  }
}
