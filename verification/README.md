# Files view: folder grouping and view decisions

A Dafny model of the `Files` component of a GitHub-like front-end
(`src/components/Files.jsx`). The component shows one storage bucket as a
repository. It lists the bucket's storage keys grouped by their first path
segment. It shows an owner name and a description, each with a fallback. It
offers upload and delete controls only to the bucket's owner.

The one real algorithm is the folder-grouping pass of `fetchFiles`. Each
storage key is split on every `/`, and the first segment becomes (or reuses)
a key of the folder object. The entry is pushed under that key only when at
least one more segment follows. The model covers:

- `paths.dfy` (`Paths`): JavaScript's `split('/')`, which keeps empty
  segments, its inverse `Join`, and the first and last segment of a key.
- `folder_grouper.dfy` (`FolderGrouper`): the pass as a pure fold
  (`GroupEntries`) over the listing, building an insertion-ordered
  `seq<Group>`. It is proved equal to a reference definition: the keys are
  the listing's first segments with repeats dropped (`Dedup`), and each list
  is the listing filtered to that key (`Members`). `Members` is a plain
  filter, independent of the fold. `Dedup` takes the same keep-or-append
  step as `WithKey`, applied to the keys alone; its independent meaning is
  its contract (same values, each once) and `DedupFirstOccurrence` (first
  occurrence order).
- `property_order.dfy` (`PropertyOrder`): the order in which
  `Object.entries` visits the folder object. Section 10.1.11.1 of ECMA-262
  (OrdinaryOwnPropertyKeys) puts array-index keys first, in ascending
  numeric order, and then the other keys in creation order.
- `files_view.dfy` (`FilesView`): the four pieces of view state, and the
  three fetch flows as functions from the state and what each backend call
  resolved to. It also has the render decisions: owner gate, owner-name and
  description fallbacks, leaf labels, and the empty-listing placeholder.
- `handlers.dfy` (`Handlers`): `handleFolderUpload` as a trace of upload
  attempts followed by exactly one refresh, and `handleDeleteBucket` as its
  alert or navigation effect.
- `wrappers.dfy` (`Wrappers`): `Option` and `Result`.

Backend calls (storage listing, metadata and description lookups, owner
lookup, uploads, cascade delete) are not made. Each becomes a parameter
holding the value the call resolved to. Authentication and routing are
handled the same way: the session is a parameter, and navigation is an
effect value.

The model follows the code, including these behaviours a reader might not
expect:

- A bare name's key does not always keep an empty list. If a nested name with
  the same first segment is also listed, it is pushed under that key
  (`FolderGrouper.ExampleBareThenNested`).
- A name listed twice is pushed twice (`FolderGrouper.GroupedEntriesCount`
  counts with multiplicity).
- Folders are guaranteed to render in first-occurrence order when no folder
  name is an array index such as `"2024"`. `Object.entries` lists array-index
  names first, in ascending numeric order (`PropertyOrder.EntriesOrder`).
- Metadata and description are fetched by one flow, in sequence. The
  description is still fetched when the metadata call failed.

## Model

| member | source | states |
|---|---|---|
| Paths.Split | src/components/Files.jsx:75 | `split('/')` yields at least one segment, no segment contains `/`, and joining the segments with `/` gives the name back |
| Paths.SplitJoin | src/components/Files.jsx:75 | splitting a `/`-joined list of `/`-free segments returns exactly those segments, empty ones included (`""` gives `[""]`, `"a/"` gives `["a", ""]`) |
| Paths.SplitCount | src/components/Files.jsx:75 | a name has exactly one more segment than it has `/` characters |
| Paths.HasRestIff | src/components/Files.jsx:79 | `rest.length` is non-zero exactly when the name contains a `/` |
| Paths.FirstSegmentSpec | src/components/Files.jsx:75 | `folderName` is a `/`-free prefix of the name: the whole name when it has no `/`, else the text up to the first `/` |
| Paths.LastSegmentSpec | src/components/Files.jsx:187 | `split('/').pop()` is a `/`-free suffix of the name: the whole name when it has no `/`, else the text after the last `/` (empty after a trailing `/`) |
| FolderGrouper.Push | src/components/Files.jsx:80 | `push` keeps every key in place, appends the entry at the end of the list of its key, and leaves every other list unchanged |
| FolderGrouper.WithKey | src/components/Files.jsx:76-78 | afterwards the key is present; every old group keeps its place and its list; a missing key is added last with an empty list, an existing one adds nothing |
| FolderGrouper.AddEntry | src/components/Files.jsx:75-81 | one `forEach` iteration: the entry's first segment is a key afterwards, at most one key is added (last, and only when it was missing), old keys keep their places, an old list gains the entry exactly when it is the list of the entry's first segment and the name has a further segment, and a newly added key's list is `[e]` when the name has a further segment and empty otherwise |
| FolderGrouper.GroupEntries | src/components/Files.jsx:72-84 | the pass over the whole listing yields at most one key per entry, and at least one key for a non-empty listing; its full characterisation is `FolderGrouper.GroupEntriesSpec` |
| FolderGrouper.Dedup | src/components/Files.jsx:76-78 | the reference key list holds exactly the values of the listing's first segments, each once |
| FolderGrouper.DedupFirstOccurrence | src/components/Files.jsx:76-78 | reference keys stand in first-occurrence order: when a later key occurs in the listing, every earlier key already occurred before it |
| FolderGrouper.Members | src/components/Files.jsx:79-80 | an entry is in the reference list of key `k` exactly when it is in the listing, its first segment is `k` and its name has a further segment |
| FolderGrouper.MemberPositions | src/components/Files.jsx:74-80 | the members of a key sit at strictly ascending listing positions, one per member, and every position whose entry belongs under the key is used |
| FolderGrouper.Nested | src/components/Files.jsx:79-81 | an entry is among the pushed entries exactly when it is listed and has a further segment |
| FolderGrouper.GroupEntriesSpec | src/components/Files.jsx:72-84 | the pass produces exactly the reference keys in reference order, and under each key exactly that key's reference list |
| FolderGrouper.GroupKeysExact | src/components/Files.jsx:74-78 | every listed entry's first segment is a key, and every key is some entry's first segment |
| FolderGrouper.GroupKeysDistinct | src/components/Files.jsx:76-78 | no key occurs twice: a key already present is reused, not added again |
| FolderGrouper.GroupKeysFirstOccurrence | src/components/Files.jsx:76-78 | keys are in the order their first segments first occur in the listing |
| FolderGrouper.ChildrenInListingOrder | src/components/Files.jsx:74-80 | each key's list keeps listing order and skips no entry that belongs under that key |
| FolderGrouper.EntryPlacement | src/components/Files.jsx:75-81 | a listed entry is under a key exactly when the key is its first segment and its name contains `/` |
| FolderGrouper.BareNameIsEmptyKey | src/components/Files.jsx:76-81 | a name without `/` is itself a key and is in no list |
| FolderGrouper.GroupedEntriesCount | src/components/Files.jsx:74-82 | the lists together hold each entry as often as it is listed with a `/`, so their total length is the number of such names |
| FolderGrouper.GroupEntriesEmpty | src/components/Files.jsx:72-82 | the folder object has no key exactly when the listing is empty |
| FolderGrouper.ExampleRepository | src/components/Files.jsx:74-82 | `[f/p, f/q, b]` groups as `{f: [f/p, f/q], b: []}` |
| FolderGrouper.ExampleDeepAndTrailing | src/components/Files.jsx:75-81 | grouping is one level deep, and a trailing `/` still counts as a further segment: `f/x/y` and `f/` both go under `f` |
| FolderGrouper.ExampleBareThenNested | src/components/Files.jsx:76-81 | `[f, f/x]` groups as `{f: [f/x]}`: the key a bare name opened receives the later nested entry |
| PropertyOrder.SortByRank | src/components/Files.jsx:181 | array-index keys are arranged in ascending numeric order, as a permutation of the input |
| PropertyOrder.EntriesOrder | src/components/Files.jsx:181 | `Object.entries` visits a permutation of the groups: array-index keys first in ascending order, then every other key in insertion order |
| PropertyOrder.NoIndexKeysKeepInsertionOrder | src/components/Files.jsx:181 | with no array-index key, `Object.entries` visits keys in insertion order |
| FilesView.FetchFiles | src/components/Files.jsx:62-85 | a listing error returns before `setFiles` and the state is unchanged; otherwise the folder object is the grouping of the listing; the other state is untouched |
| FilesView.FetchBucketInfo | src/components/Files.jsx:22-49 | without a bucket id nothing changes; failed metadata or description calls keep the old value; otherwise metadata is stored, and the description is stored when a row was found |
| FilesView.FetchOwnerName | src/components/Files.jsx:51-54 | the owner label is the returned name when truthy and `"Owner not found"` otherwise, never empty |
| FilesView.FlowsCommute | src/components/Files.jsx:56-58 | the three fetch flows write disjoint state, so the order their responses land in does not change the result |
| FilesView.RefetchIdempotent | src/components/Files.jsx:72-84 | fetching the same listing twice gives the same state as fetching it once |
| FilesView.ViewerId | src/components/Files.jsx:152 | `session?.user?.id` is never `null`: it is the user's id when there is a session with a user, and `undefined` otherwise |
| FilesView.OwnsBucket | src/components/Files.jsx:152 | the gate holds only for a present record whose owner is not `null`; a string owner must be the id of the signed-in user, and an undefined owner passes only for a viewer with no session or no user |
| FilesView.OwnerGate | src/components/Files.jsx:152 | for a string owner, the controls show exactly when a signed-in user with that id is viewing |
| FilesView.NonOwnerHasNoControls | src/components/Files.jsx:201 | a missing bucket record or a viewer whose id differs from the owner gets no controls |
| FilesView.MissingOwnerMatchesSignedOut | src/components/Files.jsx:152 | a record whose owner is undefined matches a viewer with no session or no user (`undefined === undefined`) |
| FilesView.ControlsOnlyForOwner | src/components/Files.jsx:152-208 | the upload and delete controls are shown together, and only when the record's owner strictly equals the viewer's id |
| FilesView.DescriptionText | src/components/Files.jsx:198 | the description shown is the stored one when truthy, else the fixed fallback, never empty |
| FilesView.Labels | src/components/Files.jsx:186-188 | one label per entry, each the text after the last `/` of its name |
| FilesView.ListingOf | src/components/Files.jsx:180-194 | the placeholder shows exactly when the folder object has no key; otherwise one row per key, the i-th row carrying the i-th key in `Object.entries` order and the labels of that key's list |
| FilesView.Render | src/components/Files.jsx:122-212 | the title shows exactly when the bucket record is present, and is its name; the owner label is the stored name; upload and delete controls are shown together, exactly when the owner strictly equals the viewer's id; the listing is `FilesView.ListingOf` of the folder object (placeholder exactly when there is no folder, else the rows in `Object.entries` order); the description is `FilesView.DescriptionText` of the stored one (the stored text when truthy, else the fallback, never empty) |
| FilesView.InitialView | src/components/Files.jsx:14-17 | before any fetch lands: loading title, empty owner label, no controls, placeholder, description fallback |
| FilesView.PlaceholderAfterFetch | src/components/Files.jsx:67-84 | after a successful fetch the placeholder shows exactly when the listing was empty; a failed fetch leaves the listing shown before |
| FilesView.RenderedInListingOrder | src/components/Files.jsx:180-184 | when no folder name is an array index, rows are the listing's distinct first segments in first-occurrence order |
| FilesView.EndToEnd | src/components/Files.jsx:122-212 | a worked example: for bucket `repo-42` named `demo` owned by the viewer `u1`, with listing `[f/p, f/q, b]` and a failed description lookup: title `demo`, both controls, rows `f: [p, q]` and `b: []`, and the description fallback |
| Handlers.HandleFolderUpload | src/components/Files.jsx:87-104 | every picked file is attempted once, in order, under its relative path, whatever earlier uploads did; then the listing is refreshed exactly once, and the state is the refresh's |
| Handlers.HandleDeleteBucket | src/components/Files.jsx:111-120 | a failed cascade delete raises the `error deleting files` alert and does not navigate; success navigates to `/Home` and raises no alert |

## Left out

- Backend calls (`getBucketInfo`, the description query, `getOwnerName`, storage `list`/`upload`, `deleteBucketCascade`): their sources are not part of this model. Each is a parameter holding what it resolved to.
- A rejected promise from `getOwnerName` or from any other call: each call is modelled as resolving to a value or an error object, never as throwing.
- The listing's server-side options (limit 100, offset 0, ascending sort by name): the listing is taken as given.
- The `useEffect` orchestration and the stale-response race when `bucketId` changes: this is concurrency. `FilesView.FlowsCommute` covers only the order in which the flows' own responses land.
- `handleDownload` and `Download`: the helper's source is not part of this model, and the handler only forwards to it.
- Console logging: it changes no state.
- The JSX markup, CSS classes, icons, the static branch and tag buttons, and the owner profile link: presentational only. `FilesView.Render` keeps just the decisions that depend on state.
- Prototype-chain keys such as `"__proto__"` or `"constructor"`: folder names are modelled as plain own keys.
- `bucketId` is a string. An absent route parameter is modelled as `""`, which fails the same `!bucketId` test.
- JavaScript values reaching the owner and description tests are only `undefined`, `null` or a string. Other types, such as numbers, are not modelled.
- PropertyOrder.EntriesOrder: two distinct array-index keys never share a rank, but the contract states only non-decreasing ranks, not strictly increasing ones.
- FolderGrouper.ExampleRepository, FolderGrouper.ExampleDeepAndTrailing, FolderGrouper.ExampleBareThenNested and FilesView.EndToEnd: each worked example is stated for any `/`-free segment strings rather than for fixed literal names.
