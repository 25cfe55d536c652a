/** The state of the Files view, the fetch flows that fill it, and the
    decisions the render makes from it (src/components/Files.jsx). Backend
    calls are not made here: each flow takes the value its call resolved to. */
module FilesView {
  import opened Wrappers
  import opened Paths
  import opened FolderGrouper
  import opened PropertyOrder

  /** The JavaScript values that reach the view's tests: `undefined`, `null`
      or a string. */
  datatype JsValue = Undefined | Null | Str(s: string)

  /** `v || fallback` keeps `v` only when it is truthy: a non-empty string. */
  predicate Truthy(v: JsValue)
  {
    v.Str? && v.s != ""
  }

  /** A bucket's metadata row; `owner` is the owner's identity reference. */
  datatype BucketInfo = BucketInfo(id: string, name: string, owner: JsValue)

  /** The row of the description table for one bucket. */
  datatype DescriptionRow = DescriptionRow(description: JsValue)

  datatype User = User(id: string)

  /** The authentication session, when there is one. */
  datatype Session = Session(user: Option<User>)

  /** The four pieces of state the view keeps. */
  datatype ViewState = ViewState(
    bucketInfo: Option<BucketInfo>,
    description: JsValue,
    files: FolderMap,
    userName: string)

  /** The state before any fetch has landed. */
  const Initial: ViewState := ViewState(None, Str(""), [], "")

  const NoDescription: string := "No hay descripción disponible para este bucket."
  const OwnerNotFound: string := "Owner not found"

  // ---------------------------------------------------------------------------
  // Fetch flows. Each takes the state and what its backend calls resolved to.
  // ---------------------------------------------------------------------------

  /** `fetchFiles`: a listing error returns before `setFiles`, so the previous
      folder map stays; otherwise the listing's folder map replaces it. */
  function FetchFiles(s: ViewState, listing: Result<seq<Entry>, string>): (r: ViewState)
    ensures listing.Failure? ==> r == s
    ensures listing.Success? ==>
      && Keys(r.files) == Dedup(Folders(listing.value))
      && forall i :: 0 <= i < |r.files| ==> r.files[i].children == Members(listing.value, r.files[i].folder)
    ensures r.bucketInfo == s.bucketInfo && r.description == s.description && r.userName == s.userName
  {
    match listing
    case Failure(_) => s
    case Success(data) =>
      GroupEntriesSpec(data);
      s.(files := GroupEntries(data))
  }

  /** `fetchBucketInfo`: nothing happens without a bucket id; otherwise the
      metadata is stored unless its call failed, and then, whatever became of
      the metadata, the description is stored unless its call failed or found
      no row. An absent route parameter reads here as the empty id. */
  function FetchBucketInfo(s: ViewState, bucketId: string,
                           info: Result<Option<BucketInfo>, string>,
                           desc: Result<Option<DescriptionRow>, string>): (r: ViewState)
    ensures bucketId == "" ==> r == s
    ensures info.Failure? ==> r.bucketInfo == s.bucketInfo
    ensures bucketId != "" && info.Success? ==> r.bucketInfo == info.value
    ensures desc.Failure? || desc.value.None? ==> r.description == s.description
    ensures bucketId != "" && desc.Success? && desc.value.Some? ==> r.description == desc.value.value.description
    ensures r.files == s.files && r.userName == s.userName
  {
    if bucketId == "" then s
    else
      var s1 := match info
        case Failure(_) => s
        case Success(data) => s.(bucketInfo := data);
      match desc
      case Failure(_) => s1
      case Success(None) => s1
      case Success(Some(row)) => s1.(description := row.description)
  }

  /** `fetchOwnerName`: the name the lookup returned, or `"Owner not found"`
      when it returned nothing truthy. */
  function FetchOwnerName(s: ViewState, name: JsValue): (r: ViewState)
    ensures r.userName != ""
    ensures Truthy(name) ==> r.userName == name.s
    ensures !Truthy(name) ==> r.userName == OwnerNotFound
    ensures r.bucketInfo == s.bucketInfo && r.description == s.description && r.files == s.files
  {
    s.(userName := if Truthy(name) then name.s else OwnerNotFound)
  }

  /** The three flows write disjoint state, so the order in which their
      responses land does not change the result. */
  lemma FlowsCommute(s: ViewState, bucketId: string,
                     info: Result<Option<BucketInfo>, string>,
                     desc: Result<Option<DescriptionRow>, string>,
                     listing: Result<seq<Entry>, string>, name: JsValue)
    ensures FetchFiles(FetchOwnerName(s, name), listing) == FetchOwnerName(FetchFiles(s, listing), name)
    ensures FetchFiles(FetchBucketInfo(s, bucketId, info, desc), listing)
      == FetchBucketInfo(FetchFiles(s, listing), bucketId, info, desc)
    ensures FetchOwnerName(FetchBucketInfo(s, bucketId, info, desc), name)
      == FetchBucketInfo(FetchOwnerName(s, name), bucketId, info, desc)
  {
  }

  /** Fetching an unchanged listing again gives the same state. */
  lemma RefetchIdempotent(s: ViewState, listing: Result<seq<Entry>, string>)
    ensures FetchFiles(FetchFiles(s, listing), listing) == FetchFiles(s, listing)
  {
  }

  // ---------------------------------------------------------------------------
  // Render decisions.
  // ---------------------------------------------------------------------------

  /** `session?.user?.id`: undefined without a session or without a user. */
  function ViewerId(session: Option<Session>): (v: JsValue)
    ensures !v.Null?
    ensures v.Str? <==> session.Some? && session.value.user.Some?
    ensures v.Str? ==> v.s == session.value.user.value.id
  {
    match session
    case None => Undefined
    case Some(Session(None)) => Undefined
    case Some(Session(Some(u))) => Str(u.id)
  }

  /** `bucketInfo && bucketInfo.owner === session?.user?.id`: the test that
      guards both the upload control and the delete control. */
  predicate OwnsBucket(info: Option<BucketInfo>, session: Option<Session>): (owns: bool)
    ensures owns ==> info.Some? && !info.value.owner.Null?
    ensures owns && info.value.owner.Str? ==>
      session.Some? && session.value.user.Some? && session.value.user.value.id == info.value.owner.s
    ensures owns && info.value.owner.Undefined? ==> session.None? || session.value.user.None?
  {
    info.Some? && info.value.owner == ViewerId(session)
  }

  /** For a bucket whose owner is a string, the controls show exactly when a
      signed-in user with that id is viewing it. */
  lemma OwnerGate(info: Option<BucketInfo>, session: Option<Session>)
    requires info.Some? && info.value.owner.Str?
    ensures OwnsBucket(info, session) <==>
      session.Some? && session.value.user.Some? && session.value.user.value.id == info.value.owner.s
  {
  }

  /** A signed-in user other than the owner, or a missing bucket record,
      never gets the controls. */
  lemma NonOwnerHasNoControls(info: Option<BucketInfo>, u: User)
    requires info.None? || info.value.owner != Str(u.id)
    ensures !OwnsBucket(info, Some(Session(Some(u))))
  {
  }

  /** As written, a bucket record with no `owner` value matches a viewer with
      no session: `undefined === undefined`. */
  lemma MissingOwnerMatchesSignedOut(info: BucketInfo)
    requires info.owner == Undefined
    ensures OwnsBucket(Some(info), None)
    ensures OwnsBucket(Some(info), Some(Session(None)))
  {
  }

  /** `bucketDescription || "No hay descripción ..."`: the text shown under
      the description heading is never empty. */
  function DescriptionText(d: JsValue): (t: string)
    ensures t != ""
    ensures Truthy(d) ==> t == d.s
    ensures !Truthy(d) ==> t == NoDescription
  {
    if Truthy(d) then d.s else NoDescription
  }

  /** The labels shown under one folder: `file.name.split('/').pop()`. */
  function Labels(children: seq<Entry>): (ls: seq<string>)
    ensures |ls| == |children|
    ensures forall i :: 0 <= i < |ls| ==> IsLastSegment(children[i].name, ls[i])
  {
    LastSegmentsSpec(children);
    seq(|children|, i requires 0 <= i < |children| => LastSegment(children[i].name))
  }

  /** `l` is the text after the last `/` of `name`, or all of `name` when it
      has no `/`: a `/`-free suffix that is either the whole name or starts
      right after a `/`. */
  predicate IsLastSegment(name: string, l: string)
  {
    && Slash !in l && |l| <= |name| && name[|name| - |l|..] == l
    && (Slash !in name ==> l == name)
    && (Slash in name ==> |l| < |name| && name[|name| - |l| - 1] == Slash)
  }

  lemma LastSegmentsSpec(children: seq<Entry>)
    ensures forall i :: 0 <= i < |children| ==> IsLastSegment(children[i].name, LastSegment(children[i].name))
  {
    forall i | 0 <= i < |children| {
      LastSegmentSpec(children[i].name);
    }
  }

  /** One rendered folder heading with the labels beneath it. */
  datatype FolderRow = FolderRow(folder: string, labels: seq<string>)

  /** What the listing area shows. */
  datatype Listing = Placeholder | FolderList(rows: seq<FolderRow>)

  /** The parts of the rendered view that depend on state. `title` is None
      while the bucket information is loading. */
  datatype View = View(
    title: Option<string>,
    ownerLabel: string,
    uploadControl: bool,
    deleteControl: bool,
    listing: Listing,
    description: string)

  function Rows(m: FolderMap): seq<FolderRow>
  {
    seq(|m|, i requires 0 <= i < |m| => FolderRow(m[i].folder, Labels(m[i].children)))
  }

  /** `Object.keys(files).length > 0 ? Object.entries(files).map(...) : placeholder`. */
  function ListingOf(files: FolderMap): (l: Listing)
    ensures l.Placeholder? <==> |files| == 0
    ensures l.FolderList? ==> |l.rows| == |files|
    ensures l.FolderList? ==> forall i :: 0 <= i < |l.rows| ==>
      l.rows[i].folder == EntriesOrder(files)[i].folder &&
      l.rows[i].labels == Labels(EntriesOrder(files)[i].children)
  {
    if |files| > 0 then FolderList(Rows(EntriesOrder(files))) else Placeholder
  }

  /** The view for a state and a session. */
  function Render(s: ViewState, session: Option<Session>): (v: View)
    ensures v.title.Some? <==> s.bucketInfo.Some?
    ensures v.title.Some? ==> v.title.value == s.bucketInfo.value.name
    ensures v.ownerLabel == s.userName
    ensures v.uploadControl == v.deleteControl
    ensures v.uploadControl <==> s.bucketInfo.Some? && s.bucketInfo.value.owner == ViewerId(session)
    ensures v.listing.Placeholder? <==> |s.files| == 0
    ensures v.listing == ListingOf(s.files)
    ensures v.description != ""
    ensures v.description == DescriptionText(s.description)
  {
    View(
      if s.bucketInfo.Some? then Some(s.bucketInfo.value.name) else None,
      s.userName,
      OwnsBucket(s.bucketInfo, session),
      OwnsBucket(s.bucketInfo, session),
      ListingOf(s.files),
      DescriptionText(s.description))
  }

  /** The upload and delete controls appear together, and only for the owner. */
  lemma ControlsOnlyForOwner(s: ViewState, session: Option<Session>)
    ensures Render(s, session).uploadControl == Render(s, session).deleteControl
    ensures Render(s, session).uploadControl ==> s.bucketInfo.Some? && s.bucketInfo.value.owner == ViewerId(session)
  {
  }

  /** Before anything lands the view is loading, shows the placeholder and
      the description fallback, and offers no owner controls. */
  lemma InitialView(session: Option<Session>)
    ensures Render(Initial, session) ==
      View(None, "", false, false, Placeholder, NoDescription)
  {
  }

  /** After the listing has been fetched, the placeholder shows exactly when
      the listing was empty; a failed listing leaves whatever showed before. */
  lemma PlaceholderAfterFetch(s: ViewState, listing: Result<seq<Entry>, string>)
    ensures listing.Success? ==>
      (ListingOf(FetchFiles(s, listing).files).Placeholder? <==> listing.value == [])
    ensures listing.Failure? ==> ListingOf(FetchFiles(s, listing).files) == ListingOf(s.files)
  {
    if listing.Success? {
      GroupEntriesEmpty(listing.value);
    }
  }

  /** When no folder name is an array index, folders render in the order
      their names first occur in the listing. */
  lemma RenderedInListingOrder(es: seq<Entry>)
    requires es != []
    requires forall p :: 0 <= p < |es| ==> !IsArrayIndex(Folder(es[p]))
    ensures ListingOf(GroupEntries(es)).FolderList?
    ensures var rows := ListingOf(GroupEntries(es)).rows;
      |rows| == |Dedup(Folders(es))| &&
      forall i :: 0 <= i < |rows| ==> rows[i].folder == Dedup(Folders(es))[i]
  {
    GroupEntriesSpec(es);
    GroupEntriesEmpty(es);
    FoldersNoIndex(es);
    RowsFollowKeys(GroupEntries(es), Dedup(Folders(es)));
  }

  /** A non-empty map whose keys are `ks`, none an array index, renders one
      row per key in the order of `ks`. */
  lemma RowsFollowKeys(m: FolderMap, ks: seq<string>)
    requires |m| > 0 && Keys(m) == ks
    requires forall k :: k in ks ==> !IsArrayIndex(k)
    ensures ListingOf(m).FolderList?
    ensures |ListingOf(m).rows| == |ks|
    ensures forall i :: 0 <= i < |ks| ==> ListingOf(m).rows[i].folder == ks[i]
  {
    forall i | 0 <= i < |m|
      ensures !IsArrayIndex(m[i].folder)
    {
      assert Keys(m)[i] == m[i].folder && Keys(m)[i] in ks;
    }
    ListingInInsertionOrder(m);
  }

  lemma FoldersNoIndex(es: seq<Entry>)
    requires forall p :: 0 <= p < |es| ==> !IsArrayIndex(Folder(es[p]))
    ensures forall k :: k in Folders(es) ==> !IsArrayIndex(k)
  {
    forall k | k in Folders(es)
      ensures !IsArrayIndex(k)
    {
      var p :| 0 <= p < |Folders(es)| && Folders(es)[p] == k;
    }
  }

  /** A worked example: bucket `repo-42`, named `demo`, owned by `u1`, whose
      listing is `[f/p, f/q, b]` for any `/`-free names and whose description
      lookup fails: the owner sees the title, both
      controls, folder `f` listing `p` and `q`, folder `b` listing nothing,
      and the description fallback. */
  lemma EndToEnd(f: string, p: string, q: string, b: string)
    requires Slash !in f && Slash !in p && Slash !in q && Slash !in b && b != f
    requires !IsArrayIndex(f) && !IsArrayIndex(b)
    ensures
      var info := BucketInfo("repo-42", "demo", Str("u1"));
      var listing := [Entry(f + [Slash] + p), Entry(f + [Slash] + q), Entry(b)];
      var s0 := FetchOwnerName(Initial, Str("alice"));
      var s1 := FetchBucketInfo(s0, "repo-42", Success(Some(info)), Failure("no row"));
      var s2 := FetchFiles(s1, Success(listing));
      Render(s2, Some(Session(Some(User("u1")))))
        == View(Some("demo"), "alice", true, true,
                FolderList([FolderRow(f, [p, q]), FolderRow(b, [])]), NoDescription)
  {
    var info := BucketInfo("repo-42", "demo", Str("u1"));
    var x, y := Entry(f + [Slash] + p), Entry(f + [Slash] + q);
    var m := [Group(f, [x, y]), Group(b, [])];
    var s0 := FetchOwnerName(Initial, Str("alice"));
    var s1 := FetchBucketInfo(s0, "repo-42", Success(Some(info)), Failure("no row"));
    assert s1 == ViewState(Some(info), Str(""), [], "alice");
    ExampleRepository(f, p, q, b);
    ExampleListing(f, p, q, b);
  }

  /** How the folder map of that worked example renders. */
  lemma ExampleListing(f: string, p: string, q: string, b: string)
    requires Slash !in f && Slash !in p && Slash !in q && Slash !in b
    requires !IsArrayIndex(f) && !IsArrayIndex(b)
    ensures ListingOf([Group(f, [Entry(f + [Slash] + p), Entry(f + [Slash] + q)]), Group(b, [])])
      == FolderList([FolderRow(f, [p, q]), FolderRow(b, [])])
  {
    var x, y := Entry(f + [Slash] + p), Entry(f + [Slash] + q);
    var m := [Group(f, [x, y]), Group(b, [])];
    ListingInInsertionOrder(m);
    ExampleLabels(f, p, q);
    RowsOfTwo(f, [x, y], [p, q], b);
  }

  /** The rows of a two-key map whose second key has an empty list. */
  lemma RowsOfTwo(f: string, xs: seq<Entry>, ls: seq<string>, b: string)
    requires Labels(xs) == ls
    ensures Rows([Group(f, xs), Group(b, [])]) == [FolderRow(f, ls), FolderRow(b, [])]
  {
    assert Labels([]) == [];
  }

  /** A non-empty map with no array-index key renders row by row in
      insertion order. */
  lemma ListingInInsertionOrder(m: FolderMap)
    requires |m| > 0
    requires forall i :: 0 <= i < |m| ==> !IsArrayIndex(m[i].folder)
    ensures ListingOf(m) == FolderList(Rows(m))
  {
    NoIndexKeysKeepInsertionOrder(m);
  }

  /** `f/p` and `f/q` are labelled `p` and `q`. */
  lemma ExampleLabels(f: string, p: string, q: string)
    requires Slash !in f && Slash !in p && Slash !in q
    ensures Labels([Entry(f + [Slash] + p), Entry(f + [Slash] + q)]) == [p, q]
  {
    SplitJoin([f, p], Slash);
    SplitJoin([f, q], Slash);
    assert LastSegment(f + [Slash] + p) == p;
    assert LastSegment(f + [Slash] + q) == q;
  }
}
