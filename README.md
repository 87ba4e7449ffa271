# Retail-advisor chat: scraper helpers and block version navigator

This project models two small cores of a Next.js retail-advisor chat application and proves
properties of them in Dafny.

**Scrape-result helpers** (`lib/scraper_utils.py`, module `ScraperUtils` in `scraper_utils.dfy`).
A scraper fetches a store's catalogue page and wraps the text in a result envelope. The
envelope holds `content` plus `metadata` with `url`, `timestamp` and `pageCount`, and a
single-page scrape always sets `pageCount` to 1. A retry loop calls the scraper up to
`max_retries` times. It returns the first success unchanged and re-raises the error of the
last attempt. After each earlier failure it sleeps `attempt` seconds. The delay therefore grows
linearly (1 + 2 + ... seconds), although the source comments it as exponential. A saved result
goes to a JSON file with exactly the keys `content` and `metadata`. The file name is the URL with
every `https://` and `http://` removed, then every `/` and every `:` replaced by `_`, in that
order, with `.json` appended. The model and its proofs cover:
- Python's left-to-right, non-overlapping `str.replace`;
- that the name holds no `/` or `:`;
- that sanitising is the identity exactly on URLs without `/` and `:`;
- that the mapping is per-character once the schemes are removed;
- the concrete name `wingman-store.com_collections_headphones.json`. The upload script
  (`lib/scraper_upload.ts:36`) reads this same name.

`ScrapeWithRetry` takes `max_retries` as an argument. The source's default is 3, and `main` relies
on it.

In this model the network's response to attempt `a` is `network(a)` and the timestamp taken
then is `clock(a)`. Both are parameters. Each sleep is recorded in an output list and nothing
actually sleeps.

**Block version navigator** (`components/block.tsx`, module `BlockVersions` in `block.dfy`).
The block side panel shows one version of a document, either in edit mode or as a diff against
the previous version. Its state is:
- the fetched version list (absent until it is fetched);
- the loaded document;
- `currentVersionIndex`, which is -1 before the first load;
- the mode;
- the block's content;
- a dirty flag.

The handler of the four version buttons (`prev`, `next`, `toggle`, `latest`) is the function
`VersionStep`. The class `Block` has one method per button, each proved to move its state as
`VersionStep` says. Every button keeps the index inside the list once it is inside. With no list,
every button is a no-op. Editing the newest version appends exactly one copy of it carrying the new
content, and only when its content is non-empty and differs from the update. When a new non-empty list
arrives, the panel jumps to its newest version.

`wrappers.dfy` holds the `Option` type used for null and undefined values.

## Model

| member | source | states |
|---|---|---|
| `ScraperUtils.ScrapeUrl` | lib/scraper_utils.py:20-39 | a scrape succeeds exactly when the request does; the result carries the page text, the given URL and timestamp, and page count 1; a request error becomes the exception "Failed to scrape URL <url>: <message>" |
| `ScraperUtils.ScrapeWithRetry` | lib/scraper_utils.py:42-53 | for `max_retries >= 1` the scraper is called between 1 and `max_retries` times; every attempt before the last one made failed; the loop returns exactly when the last attempt made succeeded, and returns that attempt's result unchanged; otherwise it raises that attempt's error after exactly `max_retries` attempts; the recorded sleeps are 1, 2, ..., attempts-1 seconds, with none after the final attempt; for `max_retries <= 0` nothing is called and `None` is returned |
| `ScraperUtils.Delays` | lib/scraper_utils.py:52-53 | the delay list after `k` retried failures has length `k` and its `i`-th sleep lasts `i+1` seconds (linear, not exponential) |
| `ScraperUtils.SumDelays` | lib/scraper_utils.py:52-53 | the total sleep before the `(k+1)`-th attempt is `k(k+1)/2` seconds, so a full failure of `n` attempts waits `(n-1)n/2` seconds |
| `ScraperUtils.ReplaceAll` | lib/scraper_utils.py:63 | Python `str.replace` with a non-empty pattern; removing a pattern never lengthens the string, and an equal-length replacement keeps the length |
| `ScraperUtils.ReplaceAllAbsent` | lib/scraper_utils.py:63 | a pattern containing a character that the string lacks leaves the string unchanged |
| `ScraperUtils.ReplaceCharAt` | lib/scraper_utils.py:63 | replacing one character by another keeps the length, and position `i` becomes the replacement where the character occurred and stays as it was elsewhere |
| `ScraperUtils.ReplaceCharConcat` | lib/scraper_utils.py:63 | a one-character replacement distributes over concatenation |
| `ScraperUtils.StripSchemes` | lib/scraper_utils.py:63 | removing the `https://` and then the `http://` occurrences never lengthens the URL |
| `ScraperUtils.SanitizeFilename` | lib/scraper_utils.py:63 | the sanitised stem is never longer than the URL |
| `ScraperUtils.SavedFileName` | lib/scraper_utils.py:63-64 | the file name is the stem followed by `.json` |
| `ScraperUtils.SanitizeCharwise` | lib/scraper_utils.py:63 | after scheme removal, sanitising is a per-character map (`/` and `:` become `_`, everything else stays) that keeps the length |
| `ScraperUtils.SanitizedHasNoSeparators` | lib/scraper_utils.py:63-64 | neither the stem nor the file name contains `/` or `:` |
| `ScraperUtils.SanitizeIdentity` | lib/scraper_utils.py:63 | sanitising returns the URL unchanged if and only if it contains no `/` and no `:` (so no `https://` or `http://` either) |
| `ScraperUtils.StripHttpsPrefix` | lib/scraper_utils.py:63 | removing the schemes from `https://` followed by text without `:` gives that text |
| `ScraperUtils.SlashesInThreeParts` | lib/scraper_utils.py:63 | in `host/dir/leaf` whose parts have no `/`, exactly the two separators become `_` |
| `ScraperUtils.SanitizeThreeParts` | lib/scraper_utils.py:63 | `https://host/dir/leaf` whose parts hold no `/` or `:` sanitises to `host_dir_leaf` |
| `ScraperUtils.WingmanParts` | lib/scraper_utils.py:63-64 | the configured URL, given as its host, directory and leaf, is saved as `wingman-store.com_collections_headphones.json` |
| `ScraperUtils.WingmanFileName` | lib/scraper_utils.py:63-64 | the configured URL `https://wingman-store.com/collections/headphones` is saved as `wingman-store.com_collections_headphones.json`, the name the upload script reads |
| `ScraperUtils.SavedJson` | lib/scraper_utils.py:67-70 | the saved document has exactly the keys `content` and `metadata`, in that order; `content` is the result's text and `metadata` is the `url`/`timestamp`/`pageCount` object |
| `ScraperUtils.DecodeSaved` | lib/scraper_utils.py:10-17 | a document that decodes to a result carries that result's content under `content` |
| `ScraperUtils.SavedJsonRoundTrip` | lib/scraper_utils.py:13-17 | decoding the saved document gives back the whole result: content, URL, timestamp and page count |
| `ScraperUtils.SaveResults` | lib/scraper_utils.py:56-70 | a saved result is named after its metadata URL, and its body decodes back to the result |
| `BlockVersions.VersionStep` | components/block.tsx:217-238 | with no list every event is a no-op; `prev` and `next` keep the mode; `toggle` keeps the index; `prev`, `next` and `latest` keep an in-range index in range |
| `BlockVersions.PrevMovesBackOne` | components/block.tsx:229-232 | `prev` decrements the index by exactly 1 when it is above 0 and otherwise leaves it unchanged |
| `BlockVersions.NextMovesForwardOne` | components/block.tsx:233-236 | `next` increments the index by exactly 1 when it is below `len-1` and otherwise leaves it unchanged |
| `BlockVersions.LatestShowsNewest` | components/block.tsx:220-223 | `latest` sets the index to `len-1` and the mode to edit, so the newest version is current |
| `BlockVersions.ToggleTwice` | components/block.tsx:225-227 | one `toggle` flips edit and diff on a loaded list; two toggles give the identity |
| `BlockVersions.PrevThenNext` | components/block.tsx:229-236 | from an in-range index above 0, `next` after `prev` restores the state |
| `BlockVersions.NextMovesIffNotCurrent` | components/block.tsx:233-243 | on an in-range index, `next` changes the state exactly when the version on view is not the current one |
| `BlockVersions.NextWalksToNewest` | components/block.tsx:233-236 | `k` presses of `next` reach `min(index+k, len-1)` without changing the mode |
| `BlockVersions.PrevWalksToFirst` | components/block.tsx:229-232 | `k` presses of `prev` reach `max(index-k, 0)` without changing the mode |
| `BlockVersions.GetDocumentContentById` | components/block.tsx:211-215 | the empty string when the list is absent, the index is out of range, or the content is null; otherwise that version's content |
| `BlockVersions.IsCurrentVersion` | components/block.tsx:240-243 | on a non-empty list: holds if and only if the index is `len-1`; on an absent or empty list: true |
| `BlockVersions.UpdateDocuments` | components/block.tsx:154-184 | an absent list stays absent; when the newest version's content is non-empty and differs from the update, exactly one version is appended, a copy of the newest one with the new content and time, and the earlier versions are unchanged; otherwise the list is returned unchanged |
| `BlockVersions.AppendedVersionContents` | components/block.tsx:175-181 | after an appending edit the new last version reads as the update and every earlier version reads as before |
| `BlockVersions.RepeatedEditAppendsOnce` | components/block.tsx:164-183 | repeating the same edit appends nothing more |
| `BlockVersions.Block.constructor` | components/block.tsx:122-124 | the panel opens in edit mode with index -1, no list, no loaded document, and a clean dirty flag |
| `BlockVersions.Block.LoadLatest` | components/block.tsx:126-139 | with a non-empty list, the loaded document becomes the newest version, the index becomes `len-1`, and the block content becomes that version's content (`''` if null); otherwise nothing changes |
| `BlockVersions.Block.ReceiveDocuments` | components/block.tsx:101-139 | a fetched list replaces the old one; an equal re-delivery leaves the index, document and content unchanged; when a different list is non-empty the load effect puts the index in range on the current version and shows its content; otherwise the index, document and content are unchanged |
| `BlockVersions.Block.Prev` | components/block.tsx:229-232 | the new navigation state is `VersionStep(prev)` of the old one and an in-range index stays in range |
| `BlockVersions.Block.Next` | components/block.tsx:233-236 | the new navigation state is `VersionStep(next)` of the old one and an in-range index stays in range |
| `BlockVersions.Block.Toggle` | components/block.tsx:225-227 | the new navigation state is `VersionStep(toggle)` of the old one |
| `BlockVersions.Block.Latest` | components/block.tsx:220-223 | the new navigation state is `VersionStep(latest)` of the old one; on a loaded list the current version is on view |
| `BlockVersions.Block.HandleVersionChange` | components/block.tsx:217-238 | any event moves the navigation state as `VersionStep` says and keeps an in-range index in range |
| `BlockVersions.Block.ContentChange` | components/block.tsx:148-189 | when the edit would append and the POST request rejects, nothing changes (the updater throws before line 173); otherwise the list becomes `UpdateDocuments` of the old one and the dirty flag is cleared unless the list is absent or the edit repeats the newest content; after an append the load effect shows the new, current version with the updated content; without an append the index, document and content are unchanged |
| `BlockVersions.Block.SaveContent` | components/block.tsx:196-209 | only an update that differs from the loaded document's content marks the block dirty; with debounce it is left waiting for the timer and nothing else changes; without debounce it is handled at once with the whole outcome of `ContentChange` (list, dirty flag, and the document, index and content after an append, or unchanged otherwise); any other update changes nothing |
| `BlockVersions.Block.FlushDebounced` | components/block.tsx:191-194 | when the timer fires nothing is left waiting; with no waiting update nothing else changes; otherwise the waiting update is handled with the whole outcome of `ContentChange` |

## Left out

- `requests.get`, `raise_for_status` and BeautifulSoup's `get_text` (`lib/scraper_utils.py:23-28`) are network and HTML parsing. The response is an input that already holds the page text, or a request error.
- `ScrapeUrl`: the unused `max_depth` argument is omitted. Only `requests.RequestException` is wrapped into the "Failed to scrape URL" exception. Other exceptions from the parser are not modelled.
- `datetime.utcnow().isoformat()` is the wall clock. It becomes the opaque per-attempt timestamp `clock(a)`.
- `time.sleep` becomes the recorded list `sleeps`. No time passes.
- `print` logging throughout `lib/scraper_utils.py` is output only.
- `save_results`: `os.path.join(os.getcwd(), "scrape-results")`, `os.makedirs` and the file write are filesystem I/O. The model gives the file name and the JSON value written, not the directory.
- `SavedJson`: the text layout of `json.dump(..., indent=2)` (indentation, string escaping) is not modelled. The saved document is modelled as a JSON value tree whose objects keep their key order.
- `main` (`lib/scraper_utils.py:75-101`) loops over one hard-coded URL, prints, and saves. For each URL it catches the exception of a failed scrape or save, prints it, and goes on with the next URL, so one failure does not stop the run. Apart from that loop and its exception handling it adds no logic beyond `ScrapeWithRetry` and `SaveResults`. The concrete case for its URL is `WingmanFileName`.
- `ReplaceAll` requires a non-empty pattern. Python's behaviour for an empty pattern (inserting between characters) is not modelled, because the source only replaces non-empty literals.
- `lib/scraper_upload.ts` is a file read plus a blob-storage upload with hard-coded paths. It is foreign I/O only.
- The store-context fetch, format and cache layer in `app/(chat)/actions.tsx` and `app/(chat)/store-types.tsx` is not part of this model.
- `components/block.tsx`:
  - The `POST /api/document` request, the suggestions fetch, and SWR revalidation on `block.status` changes are network I/O. Of the POST only its outcome is an input (`postOk`: the `fetch` promise resolved). `fetch` resolves on any HTTP status, so a server error response counts as resolved, as in the source.
  - Rendering, animation, the clipboard and toasts are presentation.
  - While the block is streaming the SWR key is null. The model covers this only as `ReceiveDocuments(None)`.
  - `Block.ReceiveDocuments`: the effect's dependency check compares references, and SWR hands back the same reference for an equal refetch. The model compares the lists by value instead.
- `Block.SaveContent`, `Block.FlushDebounced`: the 2000 ms debounce timer is timing. The model keeps only the last waiting update and lets the caller decide when the timer fires. The asynchronous interleaving of the SWR `mutate` updater with other events is not modelled: each edit runs to completion.
- `Block.ContentChange`: the `if (!block) return;` guard is left out, because `block` is a required property and is always present.
- `components/chat.tsx`, `components/multimodal-input.tsx` and `components/store-selector.tsx` are hook wiring, UI event handling, localStorage and a static select list.
