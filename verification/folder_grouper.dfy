/** The folder-grouping pass of the Files view: a flat, ordered storage
    listing becomes an insertion-ordered object from first path segment to the
    entries filed beneath it (src/components/Files.jsx, `fetchFiles`). */
module FolderGrouper {
  import opened Paths

  /** One object of a storage listing; only its key takes part in grouping. */
  datatype Entry = Entry(name: string)

  /** One key of the folder object with the array it maps to. */
  datatype Group = Group(folder: string, children: seq<Entry>)

  /** The `folderMap` object, its keys kept in insertion order. */
  type FolderMap = seq<Group>

  /** `folderName` in `const [folderName, ...rest] = item.name.split('/')`. */
  function Folder(e: Entry): string
  {
    FirstSegment(e.name)
  }

  /** `rest.length` is non-zero: the key has at least one segment after the first. */
  predicate HasRest(e: Entry)
  {
    |Split(e.name, Slash)| > 1
  }

  /** The keys of a folder map, in insertion order. */
  function Keys(m: FolderMap): seq<string>
  {
    seq(|m|, i requires 0 <= i < |m| => m[i].folder)
  }

  /** `folderMap[k].push(e)`: the keys stay as they are, the list of `k`
      gains `e` at its end, and every other list is left alone. */
  function Push(m: FolderMap, k: string, e: Entry): (r: FolderMap)
    ensures |r| == |m| && Keys(r) == Keys(m)
    ensures forall i :: 0 <= i < |r| && r[i].folder != k ==> r[i] == m[i]
    ensures forall i :: 0 <= i < |r| && r[i].folder == k ==> r[i].children == m[i].children + [e]
  {
    seq(|m|, i requires 0 <= i < |m| =>
      if m[i].folder == k then Group(k, m[i].children + [e]) else m[i])
  }

  /** One iteration of the `forEach` body: create the key when it is missing,
      then append the entry only when its key has segments after the first.
      The old groups keep their places, the entry's first segment is a key
      afterwards, at most one key is added, and the entry joins the list of
      its first segment exactly when its name goes on past that segment; a
      new key's list is therefore `[e]` or empty. */
  function AddEntry(m: FolderMap, e: Entry): (r: FolderMap)
    ensures Folder(e) in Keys(r)
    ensures |m| <= |r| <= |m| + 1
    ensures forall i :: 0 <= i < |m| ==> r[i].folder == m[i].folder
    ensures forall i :: 0 <= i < |m| ==>
      r[i].children == m[i].children + (if m[i].folder == Folder(e) && HasRest(e) then [e] else [])
    ensures |r| == |m| + 1 ==> r[|m|].folder == Folder(e) && Folder(e) !in Keys(m)
    ensures |r| == |m| + 1 ==> r[|m|].children == (if HasRest(e) then [e] else [])
  {
    var parts := Split(e.name, Slash);
    var folder := parts[0];
    var rest := parts[1..];
    var m' := WithKey(m, folder);
    if |rest| > 0 then Push(m', folder, e) else m'
  }

  /** `if (!folderMap[k]) folderMap[k] = []`: afterwards `k` is a key; the old
      groups keep their places and lists, and a missing key is added last,
      with an empty array. */
  function WithKey(m: FolderMap, k: string): (r: FolderMap)
    ensures k in Keys(r)
    ensures |r| == if k in Keys(m) then |m| else |m| + 1
    ensures forall i :: 0 <= i < |m| ==> r[i] == m[i]
    ensures |r| > |m| ==> r[|m|] == Group(k, [])
  {
    if k in Keys(m) then m
    else
      assert Keys(m + [Group(k, [])])[|m|] == k;
      m + [Group(k, [])]
  }

  /** The whole pass: `data.forEach(...)` over an empty `folderMap`. Each
      entry adds at most one key, and a non-empty listing yields a key. */
  function GroupEntries(es: seq<Entry>): (r: FolderMap)
    ensures |r| <= |es|
    ensures |es| > 0 ==> |r| > 0
  {
    if |es| == 0 then []
    else AddEntry(GroupEntries(es[..|es| - 1]), es[|es| - 1])
  }

  // ---------------------------------------------------------------------------
  // Reference definition: what each key and each list should be, stated
  // without the fold.
  // ---------------------------------------------------------------------------

  /** The folder of every entry, in listing order. */
  function Folders(es: seq<Entry>): seq<string>
  {
    seq(|es|, i requires 0 <= i < |es| => Folder(es[i]))
  }

  /** `xs` with repeats dropped, each value kept where it first occurs. */
  function Dedup(xs: seq<string>): (d: seq<string>)
    ensures forall x :: x in d <==> x in xs
    ensures forall i, j :: 0 <= i < j < |d| ==> d[i] != d[j]
  {
    if |xs| == 0 then []
    else
      var ys := xs[..|xs| - 1];
      var x := xs[|xs| - 1];
      var d' := Dedup(ys);
      assert xs == ys + [x];
      if x in d' then d' else d' + [x]
  }

  /** Wherever a later value of `d` occurs in `xs`, each earlier value of `d`
      has already occurred. */
  predicate FirstOccurrenceOrder(xs: seq<string>, d: seq<string>)
  {
    forall i, j, p :: 0 <= i < j < |d| && 0 <= p < |xs| && xs[p] == d[j] ==> d[i] in xs[..p]
  }

  /** Every value `Dedup` keeps sits at its first occurrence: wherever a later
      value of the result occurs in `xs`, each earlier one has already occurred. */
  lemma {:induction false} DedupFirstOccurrence(xs: seq<string>)
    ensures FirstOccurrenceOrder(xs, Dedup(xs))
  {
    if |xs| > 0 {
      var ys := xs[..|xs| - 1];
      var x := xs[|xs| - 1];
      var d, d' := Dedup(xs), Dedup(ys);
      DedupFirstOccurrence(ys);
      assert d == if x in d' then d' else d' + [x];
      forall i, j, p | 0 <= i < j < |d| && 0 <= p < |xs| && xs[p] == d[j]
        ensures d[i] in xs[..p]
      {
        assert i < |d'| && d[i] == d'[i];
        if p < |ys| {
          assert xs[p] == ys[p] && xs[..p] == ys[..p];
          assert ys[p] in d';
          assert j < |d'| && d[j] == d'[j];
          assert 0 <= i < j < |d'| && 0 <= p < |ys| && ys[p] == d'[j];
          assert d'[i] in ys[..p];
        } else {
          assert xs[..p] == ys;
          assert d'[i] in d';
        }
      }
    }
  }

  /** The entries of `es` that belong under key `k`, in listing order: those
      whose first segment is `k` and whose key goes on past it. */
  function Members(es: seq<Entry>, k: string): (r: seq<Entry>)
    ensures forall e :: e in r <==> e in es && Folder(e) == k && HasRest(e)
    ensures |r| <= |es|
  {
    if |es| == 0 then []
    else
      var init := es[..|es| - 1];
      var e := es[|es| - 1];
      assert es == init + [e];
      Members(init, k) + (if Folder(e) == k && HasRest(e) then [e] else [])
  }

  /** Where each member of `k` sits in the listing: the positions ascend, so
      members keep their listing order, and every position whose entry
      belongs under `k` is used. */
  function MemberPositions(es: seq<Entry>, k: string): (idx: seq<nat>)
    ensures PositionsOf(es, k, Members(es, k), idx)
  {
    if |es| == 0 then []
    else
      var init, e := es[..|es| - 1], es[|es| - 1];
      assert es == init + [e];
      PositionsSnoc(init, e, k, MemberPositions(init, k));
      MemberPositions(init, k) + (if Folder(e) == k && HasRest(e) then [|init|] else [])
  }

  /** `idx` lists, in ascending order, the positions in `es` of the entries
      of `r`, and every position whose entry belongs under `k` is among them. */
  predicate PositionsOf(es: seq<Entry>, k: string, r: seq<Entry>, idx: seq<nat>)
  {
    && |idx| == |r|
    && (forall t :: 0 <= t < |idx| ==> idx[t] < |es| && r[t] == es[idx[t]])
    && (forall t, u :: 0 <= t < u < |idx| ==> idx[t] < idx[u])
    && (forall p :: 0 <= p < |es| && Folder(es[p]) == k && HasRest(es[p]) ==> p in idx)
  }

  lemma PositionsSnoc(es: seq<Entry>, e: Entry, k: string, idx: seq<nat>)
    requires PositionsOf(es, k, Members(es, k), idx)
    ensures PositionsOf(es + [e], k, Members(es + [e], k),
                        idx + (if Folder(e) == k && HasRest(e) then [|es|] else []))
  {
    MembersSnoc(es, e, k);
    if Folder(e) == k && HasRest(e) {
      PositionsTaken(es, e, k, Members(es, k), idx);
    } else {
      assert idx + [] == idx;
      assert Members(es, k) + [] == Members(es, k);
      PositionsSkipped(es, e, k, Members(es, k), idx);
    }
  }

  lemma PositionsTaken(es: seq<Entry>, e: Entry, k: string, r: seq<Entry>, idx: seq<nat>)
    requires PositionsOf(es, k, r, idx)
    ensures PositionsOf(es + [e], k, r + [e], idx + [|es|])
  {
    var es', r', idx' := es + [e], r + [e], idx + [|es|];
    forall t | 0 <= t < |idx'|
      ensures idx'[t] < |es'| && r'[t] == es'[idx'[t]]
    {
      if t < |idx| {
        assert idx'[t] == idx[t] && r'[t] == r[t] && es'[idx[t]] == es[idx[t]];
      }
    }
    forall t, u | 0 <= t < u < |idx'|
      ensures idx'[t] < idx'[u]
    {
      assert idx'[t] == idx[t] && idx[t] < |es|;
    }
    forall p | 0 <= p < |es'| && Folder(es'[p]) == k && HasRest(es'[p])
      ensures p in idx'
    {
      if p < |es| {
        assert es'[p] == es[p];
        var t :| 0 <= t < |idx| && idx[t] == p;
        assert idx'[t] == p;
      } else {
        assert idx'[|idx|] == p;
      }
    }
  }

  lemma PositionsSkipped(es: seq<Entry>, e: Entry, k: string, r: seq<Entry>, idx: seq<nat>)
    requires PositionsOf(es, k, r, idx)
    requires !(Folder(e) == k && HasRest(e))
    ensures PositionsOf(es + [e], k, r, idx)
  {
    var es' := es + [e];
    forall t | 0 <= t < |idx|
      ensures es'[idx[t]] == es[idx[t]]
    {
    }
    forall p | 0 <= p < |es'| && Folder(es'[p]) == k && HasRest(es'[p])
      ensures p in idx
    {
      assert p < |es| && es'[p] == es[p];
    }
  }

  /** The entries of `es` that the pass files under some key, in listing order. */
  function Nested(es: seq<Entry>): (r: seq<Entry>)
    ensures forall e :: e in r <==> e in es && HasRest(e)
  {
    if |es| == 0 then []
    else
      var init := es[..|es| - 1];
      var e := es[|es| - 1];
      assert es == init + [e];
      Nested(init) + (if HasRest(e) then [e] else [])
  }

  /** Every list of a folder map, concatenated in key order. */
  function Flatten(m: FolderMap): seq<Entry>
  {
    if |m| == 0 then [] else m[0].children + Flatten(m[1..])
  }

  // ---------------------------------------------------------------------------
  // The pass meets the reference definition.
  // ---------------------------------------------------------------------------

  lemma FoldersSnoc(es: seq<Entry>, e: Entry)
    ensures Folders(es + [e]) == Folders(es) + [Folder(e)]
  {
  }

  lemma KeysSnoc(m: FolderMap, g: Group)
    ensures Keys(m + [g]) == Keys(m) + [g.folder]
  {
  }

  lemma DedupSnoc(xs: seq<string>, x: string)
    ensures Dedup(xs + [x]) == if x in Dedup(xs) then Dedup(xs) else Dedup(xs) + [x]
  {
    assert (xs + [x])[..|xs|] == xs;
  }

  lemma MembersSnoc(es: seq<Entry>, e: Entry, k: string)
    ensures Members(es + [e], k) == Members(es, k) + (if Folder(e) == k && HasRest(e) then [e] else [])
  {
    assert (es + [e])[..|es|] == es;
  }

  /** A key that no entry starts with has no members. */
  lemma MembersInFolders(es: seq<Entry>, k: string)
    ensures Members(es, k) != [] ==> k in Folders(es)
  {
    if Members(es, k) != [] {
      var x := Members(es, k)[0];
      var p := IndexIn(es, x);
      assert Folders(es)[p] == k;
    }
  }

  lemma AddEntryShape(m: FolderMap, e: Entry)
    ensures AddEntry(m, e) ==
      if HasRest(e) then Push(WithKey(m, Folder(e)), Folder(e), e) else WithKey(m, Folder(e))
  {
  }

  /** Adding the key of `e` keeps the keys in step with the reference definition. */
  lemma WithKeyStep(init: seq<Entry>, e: Entry, m: FolderMap)
    requires Keys(m) == Dedup(Folders(init))
    requires forall i :: 0 <= i < |m| ==> m[i].children == Members(init, m[i].folder)
    ensures Keys(WithKey(m, Folder(e))) == Dedup(Folders(init + [e]))
    ensures forall i :: 0 <= i < |WithKey(m, Folder(e))| ==>
      WithKey(m, Folder(e))[i].children == Members(init, WithKey(m, Folder(e))[i].folder)
  {
    var k := Folder(e);
    FoldersSnoc(init, e);
    DedupSnoc(Folders(init), k);
    if k in Keys(m) {
      assert WithKey(m, k) == m;
    } else {
      NewKeyStep(init, k, m);
    }
  }

  lemma NewKeyStep(init: seq<Entry>, k: string, m: FolderMap)
    requires Keys(m) == Dedup(Folders(init)) && k !in Keys(m)
    requires forall i :: 0 <= i < |m| ==> m[i].children == Members(init, m[i].folder)
    ensures WithKey(m, k) == m + [Group(k, [])]
    ensures Keys(m + [Group(k, [])]) == Dedup(Folders(init)) + [k]
    ensures forall i :: 0 <= i < |m| + 1 ==>
      (m + [Group(k, [])])[i].children == Members(init, (m + [Group(k, [])])[i].folder)
  {
    KeysSnoc(m, Group(k, []));
    MembersInFolders(init, k);
    assert k !in Folders(init);
  }

  /** Appending `e` under its key keeps the lists in step with the reference definition. */
  lemma PushStep(init: seq<Entry>, e: Entry, m: FolderMap)
    requires forall i :: 0 <= i < |m| ==> m[i].children == Members(init, m[i].folder)
    ensures var r := if HasRest(e) then Push(m, Folder(e), e) else m;
      Keys(r) == Keys(m) &&
      forall i :: 0 <= i < |r| ==> r[i].children == Members(init + [e], r[i].folder)
  {
    var r := if HasRest(e) then Push(m, Folder(e), e) else m;
    forall i | 0 <= i < |r|
      ensures r[i].children == Members(init + [e], r[i].folder)
    {
      MembersSnoc(init, e, r[i].folder);
    }
  }

  /** The pass builds exactly the reference map: its keys are the distinct
      first segments in order of first occurrence, and each key holds the
      entries under it that have more segments, in listing order. */
  lemma {:induction false} GroupEntriesSpec(es: seq<Entry>)
    ensures Keys(GroupEntries(es)) == Dedup(Folders(es))
    ensures forall i :: 0 <= i < |GroupEntries(es)| ==>
      GroupEntries(es)[i].children == Members(es, GroupEntries(es)[i].folder)
  {
    if |es| > 0 {
      var init := es[..|es| - 1];
      var e := es[|es| - 1];
      assert es == init + [e];
      GroupEntriesSpec(init);
      var m := GroupEntries(init);
      AddEntryShape(m, e);
      WithKeyStep(init, e, m);
      PushStep(init, e, WithKey(m, Folder(e)));
    }
  }

  /** Some index of `x` in `es`. */
  function IndexIn(es: seq<Entry>, x: Entry): (p: nat)
    requires x in es
    ensures p < |es| && es[p] == x
  {
    if es[0] == x then 0 else 1 + IndexIn(es[1..], x)
  }

  /** Every first segment of the listing is a key, and nothing else is. */
  lemma GroupKeysExact(es: seq<Entry>)
    ensures forall p :: 0 <= p < |es| ==> Folder(es[p]) in Keys(GroupEntries(es))
    ensures forall k :: k in Keys(GroupEntries(es)) ==> k in Folders(es)
  {
    GroupEntriesSpec(es);
    assert forall p :: 0 <= p < |es| ==> Folders(es)[p] == Folder(es[p]);
  }

  /** No key appears twice. */
  lemma GroupKeysDistinct(es: seq<Entry>)
    ensures forall i, j :: 0 <= i < j < |GroupEntries(es)| ==>
      GroupEntries(es)[i].folder != GroupEntries(es)[j].folder
  {
    GroupEntriesSpec(es);
    KeysOrdered(GroupEntries(es), es);
  }

  /** Keys stand in first-occurrence order: wherever a later key occurs in
      the listing, every earlier key has already occurred. */
  lemma GroupKeysFirstOccurrence(es: seq<Entry>)
    ensures forall i, j, p ::
      (0 <= i < j < |GroupEntries(es)| && 0 <= p < |es| &&
       Folder(es[p]) == GroupEntries(es)[j].folder) ==>
      GroupEntries(es)[i].folder in Folders(es[..p])
  {
    GroupEntriesSpec(es);
    KeysOrdered(GroupEntries(es), es);
  }

  lemma KeysOrdered(m: FolderMap, es: seq<Entry>)
    requires Keys(m) == Dedup(Folders(es))
    ensures forall i, j :: 0 <= i < j < |m| ==> m[i].folder != m[j].folder
    ensures forall i, j, p :: 0 <= i < j < |m| && 0 <= p < |es| && Folder(es[p]) == m[j].folder ==>
      m[i].folder in Folders(es[..p])
  {
    forall i, j | 0 <= i < j < |m|
      ensures m[i].folder != m[j].folder
    {
      assert Keys(m)[i] == m[i].folder && Keys(m)[j] == m[j].folder;
    }
    DedupFirstOccurrence(Folders(es));
    forall i, j, p | 0 <= i < j < |m| && 0 <= p < |es| && Folder(es[p]) == m[j].folder
      ensures m[i].folder in Folders(es[..p])
    {
      KeyBefore(m, es, i, j, p);
    }
  }

  lemma KeyBefore(m: FolderMap, es: seq<Entry>, i: nat, j: nat, p: nat)
    requires Keys(m) == Dedup(Folders(es)) && FirstOccurrenceOrder(Folders(es), Keys(m))
    requires i < j < |m| && p < |es| && Folder(es[p]) == m[j].folder
    ensures m[i].folder in Folders(es[..p])
  {
    var xs, d := Folders(es), Keys(m);
    assert d[i] == m[i].folder && d[j] == m[j].folder;
    assert xs[p] == d[j];
    assert d[i] in xs[..p];
    FoldersPrefix(es, p);
  }

  lemma FoldersPrefix(es: seq<Entry>, p: nat)
    requires p <= |es|
    ensures Folders(es)[..p] == Folders(es[..p])
  {
  }

  /** Each key's list keeps listing order: its entries sit at ascending
      positions of the listing, and no entry that belongs under the key is
      skipped. */
  lemma ChildrenInListingOrder(es: seq<Entry>)
    ensures forall i :: 0 <= i < |GroupEntries(es)| ==>
      var g := GroupEntries(es)[i];
      PositionsOf(es, g.folder, g.children, MemberPositions(es, g.folder))
  {
    GroupEntriesSpec(es);
  }

  /** An entry is listed under a key exactly when that key is its first
      segment and its name contains a `/`; a bare name is listed nowhere. */
  lemma EntryPlacement(es: seq<Entry>)
    ensures forall p, i :: 0 <= p < |es| && 0 <= i < |GroupEntries(es)| ==>
      (es[p] in GroupEntries(es)[i].children <==>
        GroupEntries(es)[i].folder == Folder(es[p]) && Slash in es[p].name)
  {
    GroupEntriesSpec(es);
    forall p | 0 <= p < |es| {
      HasRestIff(es[p].name);
    }
  }

  /** A bare name is its own key, and it is never appended to any list. */
  lemma BareNameIsEmptyKey(es: seq<Entry>, p: nat)
    requires p < |es| && Slash !in es[p].name
    ensures es[p].name in Keys(GroupEntries(es))
    ensures forall i :: 0 <= i < |GroupEntries(es)| ==> es[p] !in GroupEntries(es)[i].children
  {
    FirstSegmentSpec(es[p].name);
    GroupKeysExact(es);
    EntryPlacement(es);
  }

  /** Pushing onto an absent key changes nothing. */
  lemma PushAbsent(m: FolderMap, k: string, e: Entry)
    requires k !in Keys(m)
    ensures Push(m, k, e) == m
  {
    assert forall i :: 0 <= i < |m| ==> Keys(m)[i] == m[i].folder;
  }

  lemma {:induction false} FlattenSnoc(m: FolderMap, g: Group)
    ensures Flatten(m + [g]) == Flatten(m) + g.children
  {
    if |m| > 0 {
      assert (m + [g])[1..] == m[1..] + [g];
      FlattenSnoc(m[1..], g);
    }
  }

  /** Pushing onto a key held exactly once adds the entry once to the flattened map. */
  lemma {:induction false} FlattenPush(m: FolderMap, k: string, e: Entry)
    requires forall i, j :: 0 <= i < j < |m| ==> m[i].folder != m[j].folder
    requires k in Keys(m)
    ensures multiset(Flatten(Push(m, k, e))) == multiset(Flatten(m)) + multiset{e}
  {
    var m2 := Push(m, k, e);
    assert m2[1..] == Push(m[1..], k, e);
    if m[0].folder == k {
      assert forall i :: 1 <= i < |m| ==> m[i].folder != k;
      assert k !in Keys(m[1..]);
      PushAbsent(m[1..], k, e);
    } else {
      assert Keys(m)[0] == m[0].folder;
      assert k in Keys(m[1..]) by {
        var i :| 0 <= i < |m| && Keys(m)[i] == k;
        assert Keys(m[1..])[i - 1] == k;
      }
      FlattenPush(m[1..], k, e);
    }
  }

  /** Adding a missing key keeps the keys distinct and leaves the lists alone. */
  lemma WithKeyFacts(m: FolderMap, k: string)
    requires forall i, j :: 0 <= i < j < |m| ==> m[i].folder != m[j].folder
    ensures forall i, j :: 0 <= i < j < |WithKey(m, k)| ==> WithKey(m, k)[i].folder != WithKey(m, k)[j].folder
    ensures k in Keys(WithKey(m, k))
    ensures Flatten(WithKey(m, k)) == Flatten(m)
  {
    if k !in Keys(m) {
      FlattenSnoc(m, Group(k, []));
      KeysSnoc(m, Group(k, []));
      assert forall i :: 0 <= i < |m| ==> Keys(m)[i] == m[i].folder;
    }
  }

  /** Every entry whose name contains `/` is listed exactly as often as it
      occurs in the listing, and nothing else is listed: the lists hold one
      entry per such occurrence. */
  lemma {:induction false} GroupedEntriesCount(es: seq<Entry>)
    ensures multiset(Flatten(GroupEntries(es))) == multiset(Nested(es))
    ensures |Flatten(GroupEntries(es))| == |Nested(es)|
  {
    if |es| > 0 {
      var init := es[..|es| - 1];
      var e := es[|es| - 1];
      GroupedEntriesCount(init);
      GroupKeysDistinct(init);
      var m := GroupEntries(init);
      var k := Folder(e);
      AddEntryShape(m, e);
      WithKeyFacts(m, k);
      if HasRest(e) {
        FlattenPush(WithKey(m, k), k, e);
      }
    }
    assert |Flatten(GroupEntries(es))| == |multiset(Flatten(GroupEntries(es)))|;
  }

  /** The folder map is empty (and the view shows its placeholder) exactly when
      the listing is empty. */
  lemma GroupEntriesEmpty(es: seq<Entry>)
    ensures GroupEntries(es) == [] <==> es == []
  {
    if es != [] {
      GroupKeysExact(es);
    }
  }

  // ---------------------------------------------------------------------------
  // Worked listings.
  // ---------------------------------------------------------------------------

  /** The pass over a longer listing is one more iteration over the shorter one. */
  lemma GroupEntriesSnoc(es: seq<Entry>, e: Entry)
    ensures GroupEntries(es + [e]) ==
      if HasRest(e) then Push(WithKey(GroupEntries(es), Folder(e)), Folder(e), e)
      else WithKey(GroupEntries(es), Folder(e))
  {
    assert (es + [e])[..|es|] == es;
    AddEntryShape(GroupEntries(es), e);
  }

  /** The key and the `rest` test of one entry, read off its segments. */
  lemma EntryOf(name: string, parts: seq<string>)
    requires |parts| >= 1 && forall i :: 0 <= i < |parts| ==> Slash !in parts[i]
    requires Join(parts, Slash) == name
    ensures Folder(Entry(name)) == parts[0]
    ensures HasRest(Entry(name)) <==> |parts| > 1
  {
    SplitJoin(parts, Slash);
  }

  /** A nested entry whose key is the only key so far joins that key's list. */
  lemma SnocOnlyKey(es: seq<Entry>, k: string, xs: seq<Entry>, e: Entry)
    requires GroupEntries(es) == [Group(k, xs)]
    requires Folder(e) == k && HasRest(e)
    ensures GroupEntries(es + [e]) == [Group(k, xs + [e])]
  {
    GroupEntriesSnoc(es, e);
    assert Keys([Group(k, xs)]) == [k];
  }

  /** A nested entry with a new key opens that key holding just itself. */
  lemma SnocNewNested(es: seq<Entry>, e: Entry)
    requires Folder(e) !in Keys(GroupEntries(es)) && HasRest(e)
    ensures GroupEntries(es + [e]) == GroupEntries(es) + [Group(Folder(e), [e])]
  {
    GroupEntriesSnoc(es, e);
    PushNewKey(GroupEntries(es), Folder(e), e);
  }

  /** Pushing onto a key that was just added last fills that key alone. */
  lemma PushNewKey(m: FolderMap, k: string, e: Entry)
    requires k !in Keys(m)
    ensures Push(m + [Group(k, [])], k, e) == m + [Group(k, [e])]
  {
    assert forall i :: 0 <= i < |m| ==> Keys(m)[i] == m[i].folder;
    var m' := m + [Group(k, [])];
    var r := Push(m', k, e);
    assert forall i :: 0 <= i < |m| ==> r[i] == m[i];
    assert r[|m|] == Group(k, [e]);
  }

  /** A bare name with a new key opens that key with an empty list. */
  lemma SnocNewBare(es: seq<Entry>, e: Entry)
    requires Folder(e) !in Keys(GroupEntries(es)) && !HasRest(e)
    ensures GroupEntries(es + [e]) == GroupEntries(es) + [Group(Folder(e), [])]
  {
    GroupEntriesSnoc(es, e);
  }

  /** A worked example: a listing of two files in folder `f` (leaf names
      `p` and `q`) and one bare name `b`, for any `/`-free strings, groups
      as `{f: [f/p, f/q], b: []}`. */
  lemma ExampleRepository(f: string, p: string, q: string, b: string)
    requires Slash !in f && Slash !in p && Slash !in q && Slash !in b && b != f
    ensures GroupEntries([Entry(f + [Slash] + p), Entry(f + [Slash] + q), Entry(b)])
      == [Group(f, [Entry(f + [Slash] + p), Entry(f + [Slash] + q)]), Group(b, [])]
  {
    var x, y, z := Entry(f + [Slash] + p), Entry(f + [Slash] + q), Entry(b);
    EntryOf(x.name, [f, p]);
    EntryOf(y.name, [f, q]);
    EntryOf(z.name, [b]);
    TwoNestedOneBare(f, x, y, z);
  }

  /** Two nested entries under `f` followed by a bare name with another key. */
  lemma TwoNestedOneBare(f: string, x: Entry, y: Entry, z: Entry)
    requires Folder(x) == f && HasRest(x) && Folder(y) == f && HasRest(y)
    requires Folder(z) != f && !HasRest(z)
    ensures GroupEntries([x, y, z]) == [Group(f, [x, y]), Group(Folder(z), [])]
  {
    TwoNested(f, x, y);
    assert Keys([Group(f, [x, y])]) == [f];
    SnocNewBare([x, y], z);
    assert [x, y] + [z] == [x, y, z];
  }

  /** Two nested entries under the same key `f`. */
  lemma TwoNested(f: string, x: Entry, y: Entry)
    requires Folder(x) == f && HasRest(x) && Folder(y) == f && HasRest(y)
    ensures GroupEntries([x, y]) == [Group(f, [x, y])]
  {
    OneNested(f, x);
    SnocOnlyKey([x], f, [x], y);
    assert [x] + [y] == [x, y];
  }

  /** A single nested entry under `f`. */
  lemma OneNested(f: string, x: Entry)
    requires Folder(x) == f && HasRest(x)
    ensures GroupEntries([x]) == [Group(f, [x])]
  {
    SnocNewNested([], x);
    assert [] + [x] == [x];
  }

  /** `f/x/y` files under `f` and has more segments. */
  lemma DeepEntry(f: string, x: string, y: string)
    requires Slash !in f && Slash !in x && Slash !in y
    ensures Folder(Entry(f + [Slash] + x + [Slash] + y)) == f
    ensures HasRest(Entry(f + [Slash] + x + [Slash] + y))
  {
    var name := f + [Slash] + x + [Slash] + y;
    assert Join([f, x, y], Slash) == name by {
      assert [f, x, y][1..] == [x, y];
      assert Join([x, y], Slash) == x + [Slash] + y;
      assert f + [Slash] + (x + [Slash] + y) == name;
    }
    EntryOf(name, [f, x, y]);
  }

  /** `f/` files under `f` and has one more (empty) segment. */
  lemma TrailingEntry(f: string)
    requires Slash !in f
    ensures Folder(Entry(f + [Slash])) == f && HasRest(Entry(f + [Slash]))
  {
    assert Join([f, ""], Slash) == f + [Slash];
    EntryOf(f + [Slash], [f, ""]);
  }

  /** Grouping is one level deep, and a trailing `/` still counts as a
      further segment: like `"a/b/c.txt"` and `"a/"`, both `f/x/y` and `f/`
      are listed under `f`. */
  lemma ExampleDeepAndTrailing(f: string, x: string, y: string)
    requires Slash !in f && Slash !in x && Slash !in y
    ensures GroupEntries([Entry(f + [Slash] + x + [Slash] + y), Entry(f + [Slash])])
      == [Group(f, [Entry(f + [Slash] + x + [Slash] + y), Entry(f + [Slash])])]
  {
    DeepEntry(f, x, y);
    TrailingEntry(f);
    TwoNested(f, Entry(f + [Slash] + x + [Slash] + y), Entry(f + [Slash]));
  }

  /** A bare name and a nested name with the same first segment share one
      key: `["docs", "docs/a.md"]` groups as `{docs: [docs/a.md]}`, so the key
      a bare name opens does not stay empty. */
  lemma ExampleBareThenNested(f: string, x: string)
    requires Slash !in f && Slash !in x
    ensures GroupEntries([Entry(f), Entry(f + [Slash] + x)]) == [Group(f, [Entry(f + [Slash] + x)])]
  {
    var a, n := Entry(f), Entry(f + [Slash] + x);
    EntryOf(a.name, [f]);
    EntryOf(n.name, [f, x]);
    BareThenNested(f, a, n);
  }

  lemma BareThenNested(f: string, a: Entry, n: Entry)
    requires Folder(a) == f && !HasRest(a) && Folder(n) == f && HasRest(n)
    ensures GroupEntries([a, n]) == [Group(f, [n])]
  {
    OneBare(f, a);
    SnocOnlyKey([a], f, [], n);
    assert [a] + [n] == [a, n] && [] + [n] == [n];
  }

  /** A single bare name `f`. */
  lemma OneBare(f: string, a: Entry)
    requires Folder(a) == f && !HasRest(a)
    ensures GroupEntries([a]) == [Group(f, [])]
  {
    SnocNewBare([], a);
    assert [] + [a] == [a];
  }
}
