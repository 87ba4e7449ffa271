/**
 * The document-version navigator of the block side panel.
 *
 * A document is edited as a list of versions (oldest first). The panel keeps
 * the index of the version on view and a mode: `Edit` shows one version,
 * `Diff` compares it with the one before. Version events move the index or
 * switch the mode; an edit of the newest version appends a new version; when
 * a list of versions arrives, the panel jumps to the newest one.
 *
 * The pure parts (the step taken on a version event, the content lookup, the
 * "is this the newest version" test and the list produced by an edit) are
 * functions with lemmas; the component's state is the class `Block`, whose
 * methods update it the way the component's state setters do.
 */
module BlockVersions {
  import opened Wrappers

  /** One stored version of a document; its content may be null. */
  datatype Document = Document(id: string, title: string, content: Option<string>, createdAt: int)

  datatype Mode = Edit | Diff

  /** The four buttons of the version controls. */
  datatype VersionEvent = Prev | Next | Toggle | Latest

  /** The navigation state: the index of the version on view and the mode. */
  datatype Navigation = Navigation(index: int, mode: Mode)

  function Flip(m: Mode): Mode {
    if m == Edit then Diff else Edit
  }

  /** The list is loaded and `index` names one of its versions. */
  predicate InRange(docs: Option<seq<Document>>, index: int) {
    docs.Some? && 0 <= index < |docs.value|
  }

  // ---------------------------------------------------------------------
  // Version events
  // ---------------------------------------------------------------------

  /** The navigation state after one version event. Nothing happens while no list is loaded. */
  function VersionStep(docs: Option<seq<Document>>, nav: Navigation, e: VersionEvent): (t: Navigation)
    ensures docs.None? ==> t == nav
    ensures e == Prev || e == Next ==> t.mode == nav.mode
    ensures e == Toggle ==> t.index == nav.index
    ensures e != Toggle && InRange(docs, nav.index) ==> InRange(docs, t.index)
  {
    match docs
    case None => nav
    case Some(ds) =>
      match e
      case Latest => Navigation(|ds| - 1, Edit)
      case Toggle => nav.(mode := Flip(nav.mode))
      case Prev => if nav.index > 0 then nav.(index := nav.index - 1) else nav
      case Next => if nav.index < |ds| - 1 then nav.(index := nav.index + 1) else nav
  }

  /** `Prev` moves back by exactly one unless the first version is on view. */
  lemma PrevMovesBackOne(docs: Option<seq<Document>>, nav: Navigation)
    requires docs.Some?
    ensures VersionStep(docs, nav, Prev).index == if nav.index > 0 then nav.index - 1 else nav.index
  {
  }

  /** `Next` moves forward by exactly one unless the newest version is on view. */
  lemma NextMovesForwardOne(docs: Option<seq<Document>>, nav: Navigation)
    requires docs.Some?
    ensures VersionStep(docs, nav, Next).index
         == if nav.index < |docs.value| - 1 then nav.index + 1 else nav.index
  {
  }

  /** `Latest` shows the newest version in edit mode. */
  lemma LatestShowsNewest(docs: Option<seq<Document>>, nav: Navigation)
    requires docs.Some?
    ensures VersionStep(docs, nav, Latest) == Navigation(|docs.value| - 1, Edit)
    ensures IsCurrentVersion(docs, VersionStep(docs, nav, Latest).index)
  {
  }

  /** Toggling twice changes nothing; toggling once switches the mode of a loaded list. */
  lemma ToggleTwice(docs: Option<seq<Document>>, nav: Navigation)
    ensures VersionStep(docs, VersionStep(docs, nav, Toggle), Toggle) == nav
    ensures docs.Some? ==> VersionStep(docs, nav, Toggle).mode != nav.mode
  {
  }

  /** `Next` undoes `Prev` wherever `Prev` moved. */
  lemma PrevThenNext(docs: Option<seq<Document>>, nav: Navigation)
    requires InRange(docs, nav.index) && nav.index > 0
    ensures VersionStep(docs, VersionStep(docs, nav, Prev), Next) == nav
  {
  }

  /** `Next` moves exactly when the version on view is not the newest one. */
  lemma NextMovesIffNotCurrent(docs: Option<seq<Document>>, nav: Navigation)
    requires InRange(docs, nav.index)
    ensures VersionStep(docs, nav, Next) != nav <==> !IsCurrentVersion(docs, nav.index)
  {
  }

  /** The navigation state after `k` presses of the same button. */
  function Repeat(docs: Option<seq<Document>>, nav: Navigation, e: VersionEvent, k: nat): Navigation
    decreases k
  {
    if k == 0 then nav else Repeat(docs, VersionStep(docs, nav, e), e, k - 1)
  }

  /** Pressing `Next` `k` times walks forward and stops at the newest version. */
  lemma {:induction false} NextWalksToNewest(docs: Option<seq<Document>>, nav: Navigation, k: nat)
    requires InRange(docs, nav.index)
    ensures Repeat(docs, nav, Next, k).index
         == if nav.index + k < |docs.value| - 1 then nav.index + k else |docs.value| - 1
    ensures Repeat(docs, nav, Next, k).mode == nav.mode
    decreases k
  {
    if k > 0 {
      NextWalksToNewest(docs, VersionStep(docs, nav, Next), k - 1);
    }
  }

  /** Pressing `Prev` `k` times walks back and stops at the first version. */
  lemma {:induction false} PrevWalksToFirst(docs: Option<seq<Document>>, nav: Navigation, k: nat)
    requires InRange(docs, nav.index)
    ensures Repeat(docs, nav, Prev, k).index == if nav.index - k > 0 then nav.index - k else 0
    ensures Repeat(docs, nav, Prev, k).mode == nav.mode
    decreases k
  {
    if k > 0 {
      PrevWalksToFirst(docs, VersionStep(docs, nav, Prev), k - 1);
    }
  }

  // ---------------------------------------------------------------------
  // Lookups
  // ---------------------------------------------------------------------

  /** The content of version `index`; the empty string when there is no list,
      no such version, or the version's content is null. */
  function GetDocumentContentById(docs: Option<seq<Document>>, index: int): (r: string)
    ensures !InRange(docs, index) ==> r == ""
    ensures InRange(docs, index) && docs.value[index].content.Some? ==> r == docs.value[index].content.value
    ensures InRange(docs, index) && docs.value[index].content.None? ==> r == ""
  {
    if docs.None? then ""
    else if index < 0 || index >= |docs.value| then ""
    else docs.value[index].content.GetOr("")
  }

  /** The version on view is the newest one; with no versions at all this holds too. */
  function IsCurrentVersion(docs: Option<seq<Document>>, index: int): (b: bool)
    ensures docs.Some? && |docs.value| > 0 ==> (b <==> index == |docs.value| - 1)
    ensures docs.None? || docs.value == [] ==> b
  {
    match docs
    case Some(ds) => if |ds| > 0 then index == |ds| - 1 else true
    case None => true
  }

  // ---------------------------------------------------------------------
  // Editing the newest version
  // ---------------------------------------------------------------------

  /** JavaScript truthiness of a nullable string: neither null nor empty. */
  predicate Truthy(content: Option<string>) {
    content.Some? && content.value != ""
  }

  /** An edit appends a version: the list is loaded, its newest version has
      non-empty content, and the update differs from that content. */
  predicate AppendsVersion(current: Option<seq<Document>>, updated: string) {
    current.Some? && |current.value| > 0
    && Truthy(current.value[|current.value| - 1].content)
    && current.value[|current.value| - 1].content.value != updated
  }

  /** An edit clears the dirty flag: the list is loaded and either has no newest
      version with content, or the update differs from it. */
  predicate ClearsDirty(current: Option<seq<Document>>, updated: string) {
    current.Some?
    && (|current.value| == 0 || !Truthy(current.value[|current.value| - 1].content)
        || current.value[|current.value| - 1].content.value != updated)
  }

  /**
   * The version list after an edit to `updated` at time `now`: a copy of the
   * newest version carrying the new content and time is appended when the
   * edit changes content; otherwise the list is returned as it was.
   */
  function UpdateDocuments(current: Option<seq<Document>>, updated: string, now: int): (r: Option<seq<Document>>)
    ensures current.None? <==> r.None?
    ensures !AppendsVersion(current, updated) ==> r == current
    ensures AppendsVersion(current, updated) ==>
      && |r.value| == |current.value| + 1
      && r.value[..|current.value|] == current.value
      && r.value[|current.value|] == current.value[|current.value| - 1].(content := Some(updated), createdAt := now)
  {
    match current
    case None => None
    case Some(ds) =>
      if |ds| == 0 || !Truthy(ds[|ds| - 1].content) then current
      else if ds[|ds| - 1].content.value != updated then
        var latest := ds[|ds| - 1];
        Some(ds + [latest.(content := Some(updated), createdAt := now)])
      else current
  }

  /** After an appending edit the earlier versions read as before and the new
      last version reads as the update. */
  lemma AppendedVersionContents(current: Option<seq<Document>>, updated: string, now: int, i: int)
    requires AppendsVersion(current, updated)
    ensures GetDocumentContentById(UpdateDocuments(current, updated, now), |current.value|) == updated
    ensures 0 <= i < |current.value| ==>
      GetDocumentContentById(UpdateDocuments(current, updated, now), i) == GetDocumentContentById(current, i)
  {
    var r := UpdateDocuments(current, updated, now);
    if 0 <= i < |current.value| {
      assert r.value[i] == r.value[..|current.value|][i];
    }
  }

  /** An edit that repeats the newest content is a no-op; it appends nothing twice. */
  lemma RepeatedEditAppendsOnce(current: Option<seq<Document>>, updated: string, now: int, later: int)
    requires AppendsVersion(current, updated)
    ensures !AppendsVersion(UpdateDocuments(current, updated, now), updated)
    ensures UpdateDocuments(UpdateDocuments(current, updated, now), updated, later)
         == UpdateDocuments(current, updated, now)
  {
  }

  // ---------------------------------------------------------------------
  // The component's state
  // ---------------------------------------------------------------------

  /**
   * The block panel's state: the fetched version list (absent until fetched),
   * the document last loaded, the version index (-1 before any load), the
   * mode, the block's displayed content, the dirty flag, and an update
   * waiting for the debounce timer.
   */
  class Block {
    var documents: Option<seq<Document>>
    var document: Option<Document>
    var currentVersionIndex: int
    var mode: Mode
    var content: string
    var isContentDirty: bool
    var pending: Option<string>

    /** Only the floor of the index: no event moves it below -1. That the index
        names a loaded version is the separate, conditional `IndexInRange`. */
    ghost predicate Valid()
      reads this
    {
      currentVersionIndex >= -1
    }

    function Nav(): Navigation
      reads this
    {
      Navigation(currentVersionIndex, mode)
    }

    /** The version on view is one of the loaded versions. */
    ghost predicate IndexInRange()
      reads this
    {
      InRange(documents, currentVersionIndex)
    }

    /** The panel as it opens: nothing fetched, index -1, edit mode. */
    constructor (initialContent: string)
      ensures Valid()
      ensures documents == None && document == None && currentVersionIndex == -1 && mode == Edit
      ensures content == initialContent && !isContentDirty && pending == None
    {
      documents := None;
      document := None;
      currentVersionIndex := -1;
      mode := Edit;
      content := initialContent;
      isContentDirty := false;
      pending := None;
    }

    /** The load effect: with a non-empty list, show its newest version. */
    method LoadLatest()
      requires Valid()
      modifies this
      ensures Valid() && documents == old(documents) && mode == old(mode)
      ensures isContentDirty == old(isContentDirty) && pending == old(pending)
      ensures if documents.Some? && |documents.value| > 0 then
                var last := documents.value[|documents.value| - 1];
                && document == Some(last)
                && currentVersionIndex == |documents.value| - 1
                && content == last.content.GetOr("")
                && IndexInRange()
              else
                document == old(document) && currentVersionIndex == old(currentVersionIndex)
                && content == old(content)
    {
      if documents.Some? && |documents.value| > 0 {
        var last := documents.value[|documents.value| - 1];
        document := Some(last);
        currentVersionIndex := |documents.value| - 1;
        content := last.content.GetOr("");
      }
    }

    /** A version list arrives from the server (or goes away). The load effect depends
        on the list, so it runs only when the list differs from the one held; an equal
        re-delivery changes nothing. */
    method ReceiveDocuments(docs: Option<seq<Document>>)
      requires Valid()
      modifies this
      ensures Valid() && documents == docs && mode == old(mode)
      ensures isContentDirty == old(isContentDirty) && pending == old(pending)
      ensures docs == old(documents) ==>
        document == old(document) && currentVersionIndex == old(currentVersionIndex) && content == old(content)
      ensures docs != old(documents) && docs.Some? && |docs.value| > 0 ==>
        && IndexInRange() && IsCurrentVersion(documents, currentVersionIndex)
        && document == Some(docs.value[|docs.value| - 1])
        && content == GetDocumentContentById(docs, |docs.value| - 1)
      ensures !(docs.Some? && |docs.value| > 0) ==>
        document == old(document) && currentVersionIndex == old(currentVersionIndex) && content == old(content)
    {
      if docs != documents {
        documents := docs;
        LoadLatest();
      }
    }

    /** The `Prev` button. */
    method Prev()
      requires Valid()
      modifies this`currentVersionIndex
      ensures Valid() && Nav() == VersionStep(documents, old(Nav()), VersionEvent.Prev)
      ensures old(IndexInRange()) ==> IndexInRange()
    {
      if documents.Some? && currentVersionIndex > 0 {
        currentVersionIndex := currentVersionIndex - 1;
      }
    }

    /** The `Next` button. */
    method Next()
      requires Valid()
      modifies this`currentVersionIndex
      ensures Valid() && Nav() == VersionStep(documents, old(Nav()), VersionEvent.Next)
      ensures old(IndexInRange()) ==> IndexInRange()
    {
      if documents.Some? && currentVersionIndex < |documents.value| - 1 {
        currentVersionIndex := currentVersionIndex + 1;
      }
    }

    /** The diff button: switch between edit and diff mode. */
    method Toggle()
      requires Valid()
      modifies this`mode
      ensures Valid() && Nav() == VersionStep(documents, old(Nav()), VersionEvent.Toggle)
    {
      if documents.Some? {
        mode := Flip(mode);
      }
    }

    /** Back to the newest version, in edit mode. */
    method Latest()
      requires Valid()
      modifies this`currentVersionIndex, this`mode
      ensures Valid() && Nav() == VersionStep(documents, old(Nav()), VersionEvent.Latest)
      ensures old(IndexInRange()) ==> IndexInRange()
      ensures documents.Some? ==> IsCurrentVersion(documents, currentVersionIndex)
    {
      if documents.Some? {
        currentVersionIndex := |documents.value| - 1;
        mode := Edit;
      }
    }

    /** The single handler all version controls call. */
    method HandleVersionChange(e: VersionEvent)
      requires Valid()
      modifies this`currentVersionIndex, this`mode
      ensures Valid() && Nav() == VersionStep(documents, old(Nav()), e)
      ensures old(IndexInRange()) ==> IndexInRange()
    {
      match e
      case Prev => Prev();
      case Next => Next();
      case Toggle => Toggle();
      case Latest => Latest();
    }

    /**
     * An edit of the newest version. When it changes content it is first sent
     * to the server (the request itself is not modelled; `postOk` says whether
     * it resolved). A rejected request makes the update throw, so the list and
     * the dirty flag stay as they were. Otherwise the list is updated as
     * `UpdateDocuments` says, the dirty flag is cleared unless the edit repeats
     * the newest content, and a new list makes the load effect show its newest
     * version.
     */
    method ContentChange(updated: string, now: int, postOk: bool)
      requires Valid()
      modifies this
      ensures Valid() && mode == old(mode) && pending == old(pending)
      ensures AppendsVersion(old(documents), updated) && !postOk ==>
        && documents == old(documents) && isContentDirty == old(isContentDirty)
        && document == old(document) && currentVersionIndex == old(currentVersionIndex) && content == old(content)
      ensures !AppendsVersion(old(documents), updated) || postOk ==>
        && documents == UpdateDocuments(old(documents), updated, now)
        && isContentDirty == if ClearsDirty(old(documents), updated) then false else old(isContentDirty)
      ensures AppendsVersion(old(documents), updated) && postOk ==>
        && IndexInRange() && IsCurrentVersion(documents, currentVersionIndex)
        && content == updated
        && document == Some(documents.value[|documents.value| - 1])
      ensures !AppendsVersion(old(documents), updated) ==>
        document == old(document) && currentVersionIndex == old(currentVersionIndex) && content == old(content)
      ensures old(IndexInRange()) ==> IndexInRange()
    {
      var before := documents;
      if AppendsVersion(before, updated) && !postOk {
        return;
      }
      documents := UpdateDocuments(documents, updated, now);
      if ClearsDirty(before, updated) {
        isContentDirty := false;
      }
      if AppendsVersion(before, updated) {
        LoadLatest();
      }
    }

    /** The editor's update differs from the loaded document's content. */
    predicate Changes(updated: string)
      reads this
    {
      document.Some? && document.value.content != Some(updated)
    }

    /**
     * The editor reports new content. Only a change against the loaded
     * document marks the block dirty; it is then handled at once as an edit,
     * or left for the debounce timer (a later report replaces an earlier
     * waiting one).
     */
    method SaveContent(updated: string, debounce: bool, now: int, postOk: bool)
      requires Valid()
      modifies this
      ensures Valid() && mode == old(mode)
      ensures !old(Changes(updated)) ==>
        && documents == old(documents) && document == old(document)
        && currentVersionIndex == old(currentVersionIndex) && content == old(content)
        && isContentDirty == old(isContentDirty) && pending == old(pending)
      ensures old(Changes(updated)) && debounce ==>
        && isContentDirty && pending == Some(updated)
        && documents == old(documents) && document == old(document)
        && currentVersionIndex == old(currentVersionIndex) && content == old(content)
      ensures old(Changes(updated)) && !debounce ==> pending == old(pending)
      ensures old(Changes(updated)) && !debounce && AppendsVersion(old(documents), updated) && !postOk ==>
        && documents == old(documents) && isContentDirty
        && document == old(document) && currentVersionIndex == old(currentVersionIndex) && content == old(content)
      ensures old(Changes(updated)) && !debounce && (!AppendsVersion(old(documents), updated) || postOk) ==>
        && documents == UpdateDocuments(old(documents), updated, now)
        && isContentDirty == !ClearsDirty(old(documents), updated)
      ensures old(Changes(updated)) && !debounce && AppendsVersion(old(documents), updated) && postOk ==>
        && IndexInRange() && IsCurrentVersion(documents, currentVersionIndex)
        && content == updated
        && document == Some(documents.value[|documents.value| - 1])
      ensures old(Changes(updated)) && !debounce && !AppendsVersion(old(documents), updated) ==>
        document == old(document) && currentVersionIndex == old(currentVersionIndex) && content == old(content)
    {
      if Changes(updated) {
        isContentDirty := true;
        if debounce {
          pending := Some(updated);
        } else {
          ContentChange(updated, now, postOk);
        }
      }
    }

    /** The debounce timer fires: the waiting update is handled as an edit. */
    method FlushDebounced(now: int, postOk: bool)
      requires Valid()
      modifies this
      ensures Valid() && mode == old(mode) && pending == None
      ensures old(pending).None? ==>
        && documents == old(documents) && isContentDirty == old(isContentDirty)
        && document == old(document) && currentVersionIndex == old(currentVersionIndex) && content == old(content)
      ensures old(pending).Some? && AppendsVersion(old(documents), old(pending).value) && !postOk ==>
        && documents == old(documents) && isContentDirty == old(isContentDirty)
        && document == old(document) && currentVersionIndex == old(currentVersionIndex) && content == old(content)
      ensures old(pending).Some? && (!AppendsVersion(old(documents), old(pending).value) || postOk) ==>
        && documents == UpdateDocuments(old(documents), old(pending).value, now)
        && isContentDirty == if ClearsDirty(old(documents), old(pending).value) then false else old(isContentDirty)
      ensures old(pending).Some? && AppendsVersion(old(documents), old(pending).value) && postOk ==>
        && IndexInRange() && IsCurrentVersion(documents, currentVersionIndex)
        && content == old(pending).value
        && document == Some(documents.value[|documents.value| - 1])
      ensures old(pending).Some? && !AppendsVersion(old(documents), old(pending).value) ==>
        document == old(document) && currentVersionIndex == old(currentVersionIndex) && content == old(content)
    {
      if pending.Some? {
        var updated := pending.value;
        pending := None;
        ContentChange(updated, now, postOk);
      }
    }
  }
}
