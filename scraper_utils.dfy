/**
 * The scrape-result helpers of the catalogue scraper: the result envelope,
 * one scrape of a URL, the bounded retry loop around it, and the file name and
 * JSON document under which a result is saved.
 *
 * The network, the wall clock and `time.sleep` are not executed here: the
 * response the network gives to the n-th attempt and the timestamp taken at
 * that attempt are parameters, and every sleep is recorded in a list.
 */
module ScraperUtils {
  import opened Wrappers

  // ---------------------------------------------------------------------
  // Result envelope
  // ---------------------------------------------------------------------

  /** The `metadata` dictionary of a scrape result. */
  datatype Metadata = Metadata(url: string, timestamp: string, pageCount: int)

  /** A scrape result: the extracted text and its metadata. */
  datatype ScraperResult = ScraperResult(content: string, metadata: Metadata)

  /** What the HTTP client returns for one request: the page text, or a request error. */
  datatype FetchResponse = Page(text: string) | RequestError(message: string)

  /** The outcome of one call of the scraper: a result, or the exception it raises. */
  datatype ScrapeOutcome = Scraped(result: ScraperResult) | ScrapeFailed(error: string)

  /** The outcome of the retry loop: it returns a result, raises an error, or
      (when no attempt is allowed at all) falls off the end and returns `None`. */
  datatype RetryResult = Returned(result: ScraperResult) | Raised(error: string) | NoResult

  /** The fixed page count of a single-page scrape. */
  const SinglePage := 1

  /**
   * One scrape of `url`. The text of the page becomes the content
   * (HTML-to-text extraction is not modelled: the response already carries
   * the text); a request error becomes an exception whose message names the URL.
   */
  function ScrapeUrl(url: string, response: FetchResponse, timestamp: string): (o: ScrapeOutcome)
    ensures o.Scraped? <==> response.Page?
    ensures o.Scraped? ==> o.result.content == response.text
    ensures o.Scraped? ==> o.result.metadata == Metadata(url, timestamp, 1)
    ensures o.ScrapeFailed? ==> o.error == "Failed to scrape URL " + url + ": " + response.message
  {
    match response
    case Page(text) => Scraped(ScraperResult(text, Metadata(url, timestamp, SinglePage)))
    case RequestError(message) => ScrapeFailed("Failed to scrape URL " + url + ": " + message)
  }

  // ---------------------------------------------------------------------
  // Bounded retry
  // ---------------------------------------------------------------------

  /** The sleeps of `k` failed attempts that are each followed by another one: 1, 2, ..., k seconds. */
  function Delays(k: nat): (d: seq<nat>)
    ensures |d| == k
    ensures forall i :: 0 <= i < k ==> d[i] == i + 1
  {
    if k == 0 then [] else Delays(k - 1) + [k]
  }

  /** Total of a list of durations. */
  function Sum(s: seq<nat>): nat {
    if s == [] then 0 else Sum(s[..|s| - 1]) + s[|s| - 1]
  }

  /** The backoff is linear: after `k` failures the loop has slept 1 + 2 + ... + k seconds. */
  lemma {:induction false} SumDelays(k: nat)
    ensures Sum(Delays(k)) == k * (k + 1) / 2
  {
    if k > 0 {
      var d := Delays(k);
      assert d[..k - 1] == Delays(k - 1);
      SumDelays(k - 1);
    }
  }

  /**
   * The retry loop. Attempt `a` (counting from 1) gets `network(a)` as its
   * response and `clock(a)` as its timestamp. The loop stops at the first
   * success and returns that result unchanged; the error of the last allowed
   * attempt is raised; after every earlier failure it sleeps `a` seconds.
   * `attempts` is how many times the scraper was called.
   */
  method ScrapeWithRetry(url: string, maxRetries: int, network: nat -> FetchResponse, clock: nat -> string)
    returns (r: RetryResult, attempts: nat, sleeps: seq<nat>)
    ensures maxRetries <= 0 ==> r == NoResult && attempts == 0 && sleeps == []
    ensures maxRetries >= 1 ==> 1 <= attempts <= maxRetries && !r.NoResult?
    ensures forall a :: 1 <= a < attempts ==> network(a).RequestError?
    ensures r.Returned? <==> maxRetries >= 1 && network(attempts).Page?
    ensures r.Returned? ==> ScrapeUrl(url, network(attempts), clock(attempts)) == Scraped(r.result)
    ensures r.Raised? ==> attempts == maxRetries
    ensures r.Raised? ==> ScrapeUrl(url, network(attempts), clock(attempts)) == ScrapeFailed(r.error)
    ensures attempts >= 1 ==> sleeps == Delays(attempts - 1)
  {
    r, attempts, sleeps := NoResult, 0, [];
    var attempt := 1;
    while attempt <= maxRetries
      invariant 1 <= attempt
      invariant maxRetries >= 1 ==> attempt <= maxRetries
      invariant maxRetries <= 0 ==> attempt == 1
      invariant attempts == attempt - 1
      invariant forall a :: 1 <= a < attempt ==> network(a).RequestError?
      invariant sleeps == Delays(attempt - 1)
      invariant r == NoResult
      decreases maxRetries - attempt
    {
      attempts := attempt;
      var outcome := ScrapeUrl(url, network(attempt), clock(attempt));
      if outcome.Scraped? {
        r := Returned(outcome.result);
        return;
      }
      if attempt == maxRetries {
        r := Raised(outcome.error);
        return;
      }
      sleeps := sleeps + [attempt];
      attempt := attempt + 1;
    }
  }

  // ---------------------------------------------------------------------
  // File name sanitisation
  // ---------------------------------------------------------------------

  /**
   * Python's `s.replace(pat, rep)`: scanning from the left, every occurrence
   * of `pat` that does not overlap an earlier replaced one becomes `rep`.
   * The source only replaces non-empty literals.
   */
  function ReplaceAll(s: string, pat: string, rep: string): (r: string)
    requires pat != []
    ensures rep == [] ==> |r| <= |s|
    ensures |rep| == |pat| ==> |r| == |s|
    decreases |s|
  {
    if |s| < |pat| then s
    else if s[..|pat|] == pat then rep + ReplaceAll(s[|pat|..], pat, rep)
    else [s[0]] + ReplaceAll(s[1..], pat, rep)
  }

  /** A pattern holding a character that `s` lacks never occurs, so nothing is replaced. */
  lemma {:induction false} ReplaceAllAbsent(s: string, pat: string, rep: string, c: char)
    requires pat != [] && c in pat && c !in s
    ensures ReplaceAll(s, pat, rep) == s
    decreases |s|
  {
    if |s| >= |pat| {
      assert c !in s[..|pat|];
      assert s[..|pat|] != pat;
      ReplaceAllAbsent(s[1..], pat, rep, c);
      assert [s[0]] + s[1..] == s;
    }
  }

  /** Replacing one character by another is a per-character mapping. */
  lemma {:induction false} ReplaceCharAt(s: string, c: char, d: char)
    ensures |ReplaceAll(s, [c], [d])| == |s|
    ensures forall i :: 0 <= i < |s| ==> ReplaceAll(s, [c], [d])[i] == if s[i] == c then d else s[i]
    decreases |s|
  {
    if |s| >= 1 {
      assert s[..1] == [c] <==> s[0] == c;
      ReplaceCharAt(s[1..], c, d);
    }
  }

  /** The URL without the `https://` and `http://` scheme prefixes (every occurrence). */
  function StripSchemes(url: string): (s: string)
    ensures |s| <= |url|
  {
    ReplaceAll(ReplaceAll(url, "https://", ""), "http://", "")
  }

  /** The character the sanitiser writes for `ch`: path and port separators become `_`. */
  function PathChar(ch: char): char {
    if ch == '/' || ch == ':' then '_' else ch
  }

  /** `save_results`' file name stem: schemes removed, then `/` and `:` replaced by `_`, in that order. */
  function SanitizeFilename(url: string): (name: string)
    ensures |name| <= |url|
  {
    ReplaceAll(ReplaceAll(StripSchemes(url), "/", "_"), ":", "_")
  }

  /** The name of the file a result for `url` is saved in. */
  function SavedFileName(url: string): (f: string)
    ensures |f| == |SanitizeFilename(url)| + 5 && f[|f| - 5..] == ".json"
    ensures f[..|f| - 5] == SanitizeFilename(url)
  {
    SanitizeFilename(url) + ".json"
  }

  /** After the schemes are gone, sanitising maps each character on its own and keeps the length. */
  lemma SanitizeCharwise(url: string)
    ensures |SanitizeFilename(url)| == |StripSchemes(url)|
    ensures forall i :: 0 <= i < |StripSchemes(url)| ==>
      SanitizeFilename(url)[i] == PathChar(StripSchemes(url)[i])
  {
    var a := StripSchemes(url);
    var b := ReplaceAll(a, "/", "_");
    ReplaceCharAt(a, '/', '_');
    ReplaceCharAt(b, ':', '_');
  }

  /** A sanitised file name contains neither `/` nor `:`. */
  lemma SanitizedHasNoSeparators(url: string)
    ensures '/' !in SanitizeFilename(url) && ':' !in SanitizeFilename(url)
    ensures '/' !in SavedFileName(url) && ':' !in SavedFileName(url)
  {
    SanitizeCharwise(url);
  }

  /** Sanitising leaves a URL unchanged exactly when it has no `/` and no `:`
      (such a URL has no scheme prefix either). */
  lemma SanitizeIdentity(url: string)
    ensures SanitizeFilename(url) == url <==> '/' !in url && ':' !in url
  {
    SanitizedHasNoSeparators(url);
    if '/' !in url && ':' !in url {
      assert "https://"[6] == '/';
      assert "http://"[5] == '/';
      ReplaceAllAbsent(url, "https://", "", '/');
      ReplaceAllAbsent(url, "http://", "", '/');
      SanitizeCharwise(url);
    }
  }

  // ---------------------------------------------------------------------
  // Saved document
  // ---------------------------------------------------------------------

  /** The JSON values the saved document is made of; objects keep their key order. */
  datatype Json = JString(str: string) | JInt(num: int) | JObject(members: seq<(string, Json)>)

  /** The keys of an object, in order. */
  function Keys(members: seq<(string, Json)>): (ks: seq<string>)
    ensures |ks| == |members|
    ensures forall i :: 0 <= i < |members| ==> ks[i] == members[i].0
  {
    if members == [] then [] else [members[0].0] + Keys(members[1..])
  }

  /** The value of the first member named `key`. */
  function Lookup(members: seq<(string, Json)>, key: string): Option<Json> {
    if members == [] then None
    else if members[0].0 == key then Some(members[0].1)
    else Lookup(members[1..], key)
  }

  /** The `metadata` object: `url`, `timestamp`, `pageCount`. */
  function MetadataJson(m: Metadata): Json {
    JObject([("url", JString(m.url)), ("timestamp", JString(m.timestamp)), ("pageCount", JInt(m.pageCount))])
  }

  /** The document `save_results` writes: exactly `content` and `metadata`. */
  function SavedJson(r: ScraperResult): (j: Json)
    ensures j.JObject? && Keys(j.members) == ["content", "metadata"]
    ensures Lookup(j.members, "content") == Some(JString(r.content))
    ensures Lookup(j.members, "metadata") == Some(MetadataJson(r.metadata))
  {
    JObject([("content", JString(r.content)), ("metadata", MetadataJson(r.metadata))])
  }

  /** Reads a saved document back: the `content` string and the three metadata fields. */
  function DecodeSaved(j: Json): (r: Option<ScraperResult>)
    ensures r.Some? ==> j.JObject? && Lookup(j.members, "content") == Some(JString(r.value.content))
  {
    if !j.JObject? then None
    else
      match (Lookup(j.members, "content"), Lookup(j.members, "metadata"))
      case (Some(JString(content)), Some(JObject(meta))) =>
        (match (Lookup(meta, "url"), Lookup(meta, "timestamp"), Lookup(meta, "pageCount"))
         case (Some(JString(url)), Some(JString(timestamp)), Some(JInt(pageCount))) =>
           Some(ScraperResult(content, Metadata(url, timestamp, pageCount)))
         case _ => None)
      case _ => None
  }

  /** The saved document carries the whole result: reading it back gives the result. */
  lemma SavedJsonRoundTrip(r: ScraperResult)
    ensures DecodeSaved(SavedJson(r)) == Some(r)
  {
    var meta := MetadataJson(r.metadata).members;
    assert Lookup(meta, "url") == Some(JString(r.metadata.url));
    assert "timestamp" != "url" && "pageCount" != "url" && "pageCount" != "timestamp";
    assert Lookup(meta, "timestamp") == Some(JString(r.metadata.timestamp));
    assert meta[1..][1..] == [("pageCount", JInt(r.metadata.pageCount))];
    assert Lookup(meta[1..][1..], "pageCount") == Some(JInt(r.metadata.pageCount));
    assert Lookup(meta, "pageCount") == Some(JInt(r.metadata.pageCount));
  }

  /** A saved file: its name and its JSON body. */
  datatype SavedFile = SavedFile(name: string, body: Json)

  /** `save_results` without the directory: the file name and the document written to it. */
  function SaveResults(r: ScraperResult): (f: SavedFile)
    ensures f.name == SavedFileName(r.metadata.url)
    ensures DecodeSaved(f.body) == Some(r)
  {
    SavedJsonRoundTrip(r);
    SavedFile(SavedFileName(r.metadata.url), SavedJson(r))
  }

  /** Replacing one character distributes over concatenation (a single character cannot straddle the seam). */
  lemma {:induction false} ReplaceCharConcat(a: string, b: string, c: char, d: char)
    ensures ReplaceAll(a + b, [c], [d]) == ReplaceAll(a, [c], [d]) + ReplaceAll(b, [c], [d])
    decreases |a|
  {
    if a == [] {
      assert a + b == b;
    } else {
      assert (a + b)[..1] == a[..1];
      assert (a + b)[1..] == a[1..] + b;
      ReplaceCharConcat(a[1..], b, c, d);
    }
  }

  /** Removing the schemes from `https://rest` gives `rest` when `rest` has no `:`. */
  lemma StripHttpsPrefix(rest: string)
    requires ':' !in rest
    ensures StripSchemes("https://" + rest) == rest
  {
    var url := "https://" + rest;
    assert url[..8] == "https://";
    assert url[8..] == rest;
    assert ReplaceAll(url, "https://", "") == "" + ReplaceAll(rest, "https://", "");
    assert "https://"[5] == ':' && "http://"[4] == ':';
    ReplaceAllAbsent(rest, "https://", "", ':');
    assert "" + rest == rest;
    ReplaceAllAbsent(rest, "http://", "", ':');
    assert StripSchemes(url) == ReplaceAll(rest, "http://", "");
  }

  /** Replacing `/` in `host/dir/leaf` whose parts hold none. */
  lemma SlashesInThreeParts(host: string, dir: string, leaf: string)
    requires '/' !in host && '/' !in dir && '/' !in leaf
    ensures ReplaceAll(host + "/" + dir + "/" + leaf, "/", "_") == host + "_" + dir + "_" + leaf
  {
    ReplaceAllAbsent(host, "/", "_", '/');
    ReplaceAllAbsent(dir, "/", "_", '/');
    ReplaceAllAbsent(leaf, "/", "_", '/');
    assert ReplaceAll("/", "/", "_") == "_";
    ReplaceCharConcat(host + "/" + dir + "/", leaf, '/', '_');
    ReplaceCharConcat(host + "/" + dir, "/", '/', '_');
    ReplaceCharConcat(host + "/", dir, '/', '_');
    ReplaceCharConcat(host, "/", '/', '_');
  }

  /** A URL `https://host/dir/leaf` whose parts hold no separator. */
  lemma SanitizeThreeParts(host: string, dir: string, leaf: string)
    requires '/' !in host && '/' !in dir && '/' !in leaf
    requires ':' !in host && ':' !in dir && ':' !in leaf
    ensures SanitizeFilename("https://" + host + "/" + dir + "/" + leaf) == host + "_" + dir + "_" + leaf
  {
    var rest := host + "/" + dir + "/" + leaf;
    assert "https://" + host + "/" + dir + "/" + leaf == "https://" + rest;
    StripHttpsPrefix(rest);
    SlashesInThreeParts(host, dir, leaf);
    ReplaceAllAbsent(host + "_" + dir + "_" + leaf, ":", "_", ':');
  }

  /** The configured URL, given in its three parts so that the verifier does not
      evaluate the replacements on the literal character by character. */
  lemma WingmanParts(host: string, dir: string, leaf: string)
    requires host == "wingman-store.com" && dir == "collections" && leaf == "headphones"
    ensures SavedFileName("https://" + host + "/" + dir + "/" + leaf) == "wingman-store.com_collections_headphones.json"
  {
    SanitizeThreeParts(host, dir, leaf);
    JoinedWingman(host, dir, leaf);
  }

  /** Only spells out the concatenation of the three configured parts, kept apart
      from `WingmanParts` so that each proof stays small. */
  lemma JoinedWingman(host: string, dir: string, leaf: string)
    requires host == "wingman-store.com" && dir == "collections" && leaf == "headphones"
    ensures host + "_" + dir + "_" + leaf == "wingman-store.com_collections_headphones"
  {
  }

  /** The scraper's one configured URL is saved under the name the upload script reads. */
  lemma WingmanFileName()
    ensures SavedFileName("https://wingman-store.com/collections/headphones")
         == "wingman-store.com_collections_headphones.json"
  {
    var host, dir, leaf := "wingman-store.com", "collections", "headphones";
    assert "https://" + host + "/" + dir + "/" + leaf == "https://wingman-store.com/collections/headphones";
    WingmanParts(host, dir, leaf);
  }
}
