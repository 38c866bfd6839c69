# Bunkr downloader: background orchestration, modelled in Dafny

This project models the background service worker of the Bunkr downloader
browser extension (`bunkr/background.js`). The worker does four things:

- It opens one file page per gallery item, paced apart in time. For each item
  it tries two URL shapes (`base + id`, then `base + id + id`).
- It keeps the association table `fileTabs`, a JavaScript `Map` from tab id
  to `{ ogname, startedAt }`. Tab opens write to it, and file pages write to
  it when they report their display name.
- It names every download whose URL matches `//[^/]*bunkr` (case-insensitive),
  which is how it recognises a Bunkr host. It picks the most recently
  stamped table entry as a hint, chooses a base name, sanitizes it, and adds
  `.bin` when the name has no plausible extension. It then suggests
  `subfolder/finalName` with the `uniquify` conflict action.
- It optionally schedules a timer that closes the hinted tab and deletes its
  table entry.

Modules:

- `wrappers.dfy`, module `Wrappers`: `Option`, standing for JavaScript's
  `null` next to a value.
- `naming.dfy`, module `Naming`: `sanitize`, the plausible-extension test and
  the `finalName` rule, as functions on strings. `Clean` states what
  `sanitize` guarantees.
- `domain.dfy`, module `Domain`: the host test `/\/\/[^/]*bunkr/i`. It is
  written as a left-to-right scan and proved equal to the regular
  expression's meaning (`MatchesDomain`).
- `filetabs.dfy`, module `FileTabs`: the `Map` as a sequence of entries with
  unique keys in insertion order. `Put`, `Remove` and `Lookup` model
  `set`, `delete` and `get`. The class `Table` holds the map, which the
  handlers update in place, and has the hint scan as a method with a loop.
- `opener.dfy`, module `Opener`: id and base-URL normalisation, the candidate
  URLs, the batch loop that returns its timer schedule, and the per-item
  timer callback that tries the candidates in order.
- `background.dfy`, module `Background`: the message handler, the
  download-naming listener, the auto-close timer, and lemmas that connect
  them.

Host calls are replaced by parameters and results:

- `chrome.tabs.create` is an oracle parameter `create(m, url)`. It answers the
  m-th call of one timer callback with a new tab id or a failure.
- `setTimeout` calls are returned as data: `PendingOpen` for the batch and
  `ScheduledClose` for auto-close. Firing a timer is a separate method
  (`Opener.OpenFileTab`, `Background.FireClose`).
- `Date.now()` is a parameter `now`.
- The options snapshot is a parameter `opts`.
- `sendResponse` and `suggest` arguments are return values.
- `chrome.tabs.remove` is left out. Its result is discarded with
  `.catch(() => {})`, so it cannot change the modelled state.

## Model

| member | source | states |
|---|---|---|
| `Naming.ReplaceRuns` | bunkr/background.js:99-100 | A global replace of a character-class run by " ". Every surviving character is either a replacement space or a character outside the class. The text (the characters that are neither in the class nor a space) is kept, in order. The result is empty exactly when the input is. When the class contains the space, no two class characters end up adjacent. |
| `Naming.ReplaceRunsSplitJoin` | bunkr/background.js:99-100 | The replace equals `s.split(re).join(" ")`: the pieces between the maximal runs of the class (`SplitRuns`: none holds a class character, only the first and last may be empty, and one after another they are the input without its class characters, `SplitRunsKeepsOutside`) joined by single spaces. So every maximal run, even a single tab or newline, becomes exactly one space. |
| `Naming.ReplaceRunsKeeps` | bunkr/background.js:99-100 | The replace brings in no character but the space: any character property that no input character has, and the space does not have, no output character has. |
| `Naming.Trim` | bunkr/background.js:101 | The result has no white space at either end and is a contiguous slice of the input, starting after the leading white space. Everything dropped, before and after, is white space. |
| `Naming.Sanitize` | bunkr/background.js:98-101 | The result is the words of the name (its maximal runs of characters that are neither reserved nor white space, `Words`), in order, joined by single spaces. It is `Clean`: no character of `\ / : * ? " < > \|`, every white-space character is a plain space, no two white-space characters in a row, and no white space at either end. Every character that is neither reserved nor white space is kept, in order. |
| `Naming.ReplaceRunsFixed` | bunkr/background.js:99-100 | A string whose class characters are lone plain spaces is unchanged by the replace. |
| `Naming.CleanIsFixed` | bunkr/background.js:98-101 | `sanitize` leaves a clean name unchanged. |
| `Naming.SanitizeIdempotent` | bunkr/background.js:98-101 | Sanitizing twice gives the same result as sanitizing once. |
| `Naming.HasExt` | bunkr/background.js:108 | The suffix-counting test is true exactly when the regular expression `\.[a-z0-9]{2,5}$` (case-insensitive) matches the name. |
| `Naming.FinalName` | bunkr/background.js:109 | The result always passes the extension test. A name that passes is kept unchanged. A name that fails gets exactly one `.bin`. |
| `Naming.FinalNameIdempotent` | bunkr/background.js:108-109 | Applying the extension rule a second time changes nothing, so `.bin` is never doubled. |
| `Naming.FinalNameClean` | bunkr/background.js:108-109 | Appending `.bin` to a clean name keeps it clean. |
| `Domain.IsBunkrUrl` | bunkr/background.js:81 | The scan is true exactly when the URL has a `//`, then only non-`/` characters, then "bunkr" in any ASCII case. |
| `Domain.Scan` | bunkr/background.js:81 | Started at any position with the right "after a `//` with no slash since" flag, the scan is true exactly when "bunkr" (any ASCII case) starts at or after that position at a place a `//` with no slash in between precedes. |
| `FileTabs.Stamp` | bunkr/background.js:92 | `startedAt \|\| 0`: the time stamp when one is present, 0 otherwise. |
| `FileTabs.Lookup` | bunkr/background.js:38 | `get` finds nothing exactly when the key is absent. On a map with unique keys, it returns the record stored under the key. |
| `FileTabs.Put` | bunkr/background.js:41 | `set` of a new key appends it at the end. `set` of an existing key keeps the length. On a map, `set` keeps keys unique, overwrites the record of an existing key at its position, and leaves every other entry where it was. |
| `FileTabs.PutLookup` | bunkr/background.js:37-43 | After `set(k, v)`, `get(k)` is `v`, and `get` of every other key is unchanged. |
| `FileTabs.Remove` | bunkr/background.js:118 | `delete` of an absent key changes nothing. On a map, it keeps keys unique, removes the key, and drops exactly that one entry while the rest keep their order. |
| `FileTabs.RemoveLookup` | bunkr/background.js:118 | After `delete(k)`, `get(k)` finds nothing, and `get` of every other key is unchanged. |
| `FileTabs.Latest` | bunkr/background.js:89-96 | An empty map has no hint. Otherwise the chosen entry's `startedAt` (absent counts as 0) is at least every entry's, and strictly greater than every earlier entry's, so the earliest of equal maxima wins. |
| `FileTabs.Table.constructor` | bunkr/background.js:4 | The table starts empty. |
| `FileTabs.Table.Get` | bunkr/background.js:38 | `fileTabs.get`: nothing exactly when the tab has no entry, otherwise what `Lookup` gives on the current entries. |
| `FileTabs.Table.Set` | bunkr/background.js:41 | The entries become `Put` of the old entries, and keys stay unique. |
| `FileTabs.Table.Delete` | bunkr/background.js:118 | The entries become `Remove` of the old entries, and keys stay unique. |
| `FileTabs.Table.MostRecent` | bunkr/background.js:89-96 | The scan finds no hint and no hint tab exactly when the table is empty. Otherwise it returns the record and tab id of the one entry satisfying `IsLatest`. |
| `Opener.NameOrNull` | bunkr/background.js:63 | `it.name \|\| null`: a name is kept exactly when it is present and non-empty. |
| `Opener.ItemId` | bunkr/background.js:54 | The id is a suffix of `href`. What was removed is one of "", "/", "f/", "/f/", "f//" or "/f//", and it is the longest of these that `href` starts with. |
| `Opener.ItemIdOfFilePath` | bunkr/background.js:54 | For an id that does not start with "/", the paths "/f/" + id and "f/" + id both give back the id. |
| `Opener.Candidates` | bunkr/background.js:54-59 | Exactly two candidates, in order: the base with a trailing slash followed by the id, then that URL followed by the id again. |
| `Opener.WithSlash` | bunkr/background.js:55 | The base ends with "/". It is the input if that already ends with "/", and the input plus "/" otherwise. |
| `Opener.ScheduleBatch` | bunkr/background.js:50-72 | There is one timer per item, in input order. The i-th timer fires at `i * openTabsPacingMs`, and delays are non-decreasing when pacing is at least 0. The reply count equals the number of items. |
| `Opener.OpenFirst` | bunkr/background.js:60-68 | The URLs are tried in order, each with the next `create` call, and every one before the last failed. The first success records the given record for the new tab and stops the loop. If every URL fails, all were tried and the table is unchanged. |
| `Opener.OpenFileTab` | bunkr/background.js:52-68 | The candidates are tried in order and every one before the last failed. On the first success, the new tab gets `{ogname: name \|\| null, startedAt: now}`, and later candidates are not tried. If both fail, the table is unchanged. |
| `Background.OnMessage` | bunkr/background.js:36-75 | A name report from a tab sets that tab's entry to `{ogname, startedAt: now}` through `set`. A batch request replies `opened = items.length`, schedules paced timers and leaves the table alone. Any other message gets no reply and changes nothing. |
| `Background.DownloadUrl` | bunkr/background.js:80 | `finalUrl \|\| url \|\| ""`: the final URL when it is not empty, otherwise the original URL; empty only when both are. |
| `Background.HintOf` | bunkr/background.js:89-96 | No hint exactly when the table is empty; otherwise the record of the entry satisfying `IsLatest`. |
| `Background.BaseName` | bunkr/background.js:103-106 | The base name is never empty. It is the hint's non-empty `ogname` when names from file pages are preferred, otherwise the host's non-empty file name, otherwise "file.bin". |
| `Background.DownloadName` | bunkr/background.js:103-109 | The suggested name is clean and passes the extension test. It is the sanitized base name, plus `.bin` only when that name lacks an extension. |
| `Background.OnDeterminingFilename` | bunkr/background.js:79-121 | There is no suggestion and no close exactly when the URL `finalUrl \|\| url` fails the domain test. Otherwise the suggestion is `subfolder + "/" + name` with `uniquify`. A close of the most recent entry's tab, after `autoCloseSecs * 1000` ms, is scheduled exactly when `autoCloseSecs > 0` and the table is not empty. The table is only read. |
| `Background.FireClose` | bunkr/background.js:116-119 | The entry of the closed tab is deleted whatever the tab removal does, and the table keeps unique keys. |
| `Background.ReportBecomesHint` | bunkr/background.js:37-43 | A name report stamped later than every entry makes the reporting tab's record the hint of the next download. |
| `Background.ReportedNameGetsBin` | bunkr/background.js:103-111 | Under the default options (subfolder "Bunkr", page names preferred), the page name "My Cool Video" is suggested as "Bunkr/My Cool Video.bin". |
| `Background.ReservedOnlyNameIsBin` | bunkr/background.js:98-109 | For every non-empty page name made only of reserved characters, and any host file name, the name sanitizes to "" and the suggested name is ".bin", not the "file.bin" fallback. |
| `Background.CandidatesOfGalleryLink` | bunkr/background.js:54-59 | For base "https://site.test/f/" and href "/f/AAA111", the candidates are ".../f/AAA111" and then ".../f/AAA111AAA111". |

## Left out

- Options loading and merging (`loadOpts`, `Object.assign` into `STATE.opts`, the `storage.onChanged` listener; bunkr/background.js:14-34) is storage glue. Each operation takes the options snapshot as a parameter.
- Option values are typed as the model uses them: `preferOgName` as a boolean, and `autoCloseSecs` and `openTabsPacingMs` as integers. The `Number(... || 0)` coercion of stored strings or non-numbers is not modelled.
- Timing, `setTimeout` and async interleaving are not modelled. Timers are returned as data, and firing one is a separate call. Interleavings of several batches, and a download that races a report, are the host's concern. The host clamps negative delays to 0, and that is not modelled either.
- `chrome.tabs.create`, `chrome.tabs.remove`, `chrome.runtime.onMessage` and `chrome.downloads.onDeterminingFilename` are host APIs. They appear as parameters and results, and their own behaviour is not verified.
- Text is modelled as Dafny strings of Unicode scalar values, while JavaScript strings are UTF-16 code units. The model is exact for this code because no white-space character, reserved character, letter or digit involved is outside the Basic Multilingual Plane. Case-insensitive matching is ASCII-only, which is also what non-Unicode JavaScript regular expressions do for these patterns.
- Downloads are modelled with string fields only. A missing `finalUrl`, `url` or `filename` reads as "", which every use (`||`) treats the same way as `undefined`.
- Each record is modelled as a value with exactly the fields `ogname` and `startedAt`. Both write sites store only those two fields, so "keep other fields" has nothing further to keep. The source mutates the stored record object in place, but no other reference to that object outlives the handler.
- The popup (bunkr/popup.js) and the file-page content script (bunkr/content_file.js) are not part of this model. They reach the core only through the messages of type `BUNKR_OPEN_FILE_TABS` and `BUNKR_FILEPAGE_OGNAME` (the constructors `OpenFileTabs` and `FilePageOgName`).
- `console.warn` diagnostics are not modelled.
