/** The order in which `Object.entries` visits the keys of the folder object
    (src/components/Files.jsx, the listing render). For an ordinary object
    ECMAScript (section 10.1.11.1, OrdinaryOwnPropertyKeys, of ECMA-262)
    first lists the keys that are array indices, in ascending numeric order,
    and then every other string key in the order it was created. So a folder
    named `"2024"` is shown before a folder named `"docs"` even when `"docs"`
    came first in the listing. */
module PropertyOrder {
  import opened FolderGrouper

  predicate IsDigit(c: char)
  {
    '0' <= c <= '9'
  }

  /** The number a string of decimal digits spells. */
  function DecimalValue(s: string): int
  {
    if |s| == 0 then 0
    else 10 * DecimalValue(s[..|s| - 1]) + (s[|s| - 1] as int - '0' as int)
  }

  /** The largest array index plus one: 2^32 - 1. */
  const IndexLimit: int := 0xFFFF_FFFF

  /** An array index: the canonical decimal spelling (no sign, no leading
      zero unless it is `"0"`) of an integer below 2^32 - 1. */
  predicate IsArrayIndex(k: string)
  {
    && |k| > 0
    && (forall i :: 0 <= i < |k| ==> IsDigit(k[i]))
    && (k[0] != '0' || |k| == 1)
    && DecimalValue(k) < IndexLimit
  }

  predicate IsIndexGroup(g: Group)
  {
    IsArrayIndex(g.folder)
  }

  /** The numeric position of a group's key. */
  function Rank(g: Group): int
  {
    DecimalValue(g.folder)
  }

  predicate Ascending(s: seq<Group>)
  {
    forall i, j :: 0 <= i < j < |s| ==> Rank(s[i]) <= Rank(s[j])
  }

  /** The groups whose keys are array indices, in insertion order. */
  function IndexGroups(m: FolderMap): (r: FolderMap)
    ensures forall i :: 0 <= i < |r| ==> IsIndexGroup(r[i])
  {
    if |m| == 0 then []
    else (if IsIndexGroup(m[0]) then [m[0]] else []) + IndexGroups(m[1..])
  }

  /** The groups whose keys are not array indices, in insertion order. */
  function NameGroups(m: FolderMap): (r: FolderMap)
    ensures forall i :: 0 <= i < |r| ==> !IsIndexGroup(r[i])
  {
    if |m| == 0 then []
    else (if IsIndexGroup(m[0]) then [] else [m[0]]) + NameGroups(m[1..])
  }

  /** `g` placed into an ascending list, before the first larger rank. */
  function Insert(s: seq<Group>, g: Group): (r: seq<Group>)
    requires Ascending(s)
    ensures Ascending(r)
    ensures multiset(r) == multiset(s) + multiset{g}
  {
    if |s| == 0 then [g]
    else if Rank(g) <= Rank(s[0]) then [g] + s
    else
      var t := Insert(s[1..], g);
      assert s == [s[0]] + s[1..];
      forall i | 0 <= i < |t|
        ensures Rank(s[0]) <= Rank(t[i])
      {
        assert t[i] in multiset(t);
        assert t[i] in s[1..] || t[i] == g;
      }
      AscendingCons(s[0], t);
      [s[0]] + t
  }

  lemma AscendingCons(x: Group, t: seq<Group>)
    requires Ascending(t)
    requires forall i :: 0 <= i < |t| ==> Rank(x) <= Rank(t[i])
    ensures Ascending([x] + t)
  {
    var r := [x] + t;
    forall i, j | 0 <= i < j < |r|
      ensures Rank(r[i]) <= Rank(r[j])
    {
      if i > 0 {
        assert r[i] == t[i - 1] && r[j] == t[j - 1];
      }
    }
  }

  /** The groups of `s`, ordered by ascending rank. */
  function SortByRank(s: seq<Group>): (r: seq<Group>)
    ensures Ascending(r)
    ensures multiset(r) == multiset(s)
  {
    if |s| == 0 then []
    else
      assert s == [s[0]] + s[1..];
      Insert(SortByRank(s[1..]), s[0])
  }

  lemma {:induction false} SplitPermutes(m: FolderMap)
    ensures multiset(IndexGroups(m)) + multiset(NameGroups(m)) == multiset(m)
  {
    if |m| > 0 {
      var h, t := m[0], m[1..];
      SplitPermutes(t);
      assert m == [h] + t;
      var hi := if IsIndexGroup(h) then [h] else [];
      var hn := if IsIndexGroup(h) then [] else [h];
      assert IndexGroups(m) == hi + IndexGroups(t);
      assert NameGroups(m) == hn + NameGroups(t);
      assert multiset(hi) + multiset(hn) == multiset{h};
    }
  }

  lemma {:induction false} NameGroupsAppend(a: FolderMap, b: FolderMap)
    ensures NameGroups(a + b) == NameGroups(a) + NameGroups(b)
  {
    if |a| > 0 {
      var ab := a + b;
      assert ab[1..] == a[1..] + b;
      assert ab[0] == a[0];
      NameGroupsAppend(a[1..], b);
      if IsIndexGroup(a[0]) {
        assert NameGroups(ab) == NameGroups(a[1..] + b);
        assert NameGroups(a) == NameGroups(a[1..]);
      } else {
        assert NameGroups(ab) == [a[0]] + NameGroups(a[1..] + b);
        assert NameGroups(a) == [a[0]] + NameGroups(a[1..]);
      }
    } else {
      assert a + b == b;
    }
  }

  lemma {:induction false} NameGroupsOfIndexGroups(s: seq<Group>)
    requires forall i :: 0 <= i < |s| ==> IsIndexGroup(s[i])
    ensures NameGroups(s) == []
  {
    if |s| > 0 {
      NameGroupsOfIndexGroups(s[1..]);
    }
  }

  lemma {:induction false} NameGroupsIdempotent(m: FolderMap)
    ensures NameGroups(NameGroups(m)) == NameGroups(m)
  {
    if |m| > 0 {
      NameGroupsIdempotent(m[1..]);
      NameGroupsAppend(if IsIndexGroup(m[0]) then [] else [m[0]], NameGroups(m[1..]));
    }
  }

  /** `Object.entries(folderMap)`: the groups in the order the view renders
      them. It is a reordering of the map in which the array-index keys come
      first, in ascending numeric order, and the other keys keep their
      insertion order. */
  function EntriesOrder(m: FolderMap): (r: FolderMap)
    ensures multiset(r) == multiset(m) && |r| == |m|
    ensures forall i, j :: 0 <= i < j < |r| && IsIndexGroup(r[j]) ==> IsIndexGroup(r[i])
    ensures forall i, j :: 0 <= i < j < |r| && IsIndexGroup(r[j]) ==> Rank(r[i]) <= Rank(r[j])
    ensures NameGroups(r) == NameGroups(m)
  {
    var ix := SortByRank(IndexGroups(m));
    var names := NameGroups(m);
    SortedIndexGroups(m);
    EntriesPermutes(m);
    EntriesNames(m);
    IndexGroupsFirst(ix, names);
    ix + names
  }

  lemma SortedIndexGroups(m: FolderMap)
    ensures forall i :: 0 <= i < |SortByRank(IndexGroups(m))| ==> IsIndexGroup(SortByRank(IndexGroups(m))[i])
  {
    var ix := SortByRank(IndexGroups(m));
    forall i | 0 <= i < |ix|
      ensures IsIndexGroup(ix[i])
    {
      assert ix[i] in multiset(IndexGroups(m));
    }
  }

  lemma EntriesPermutes(m: FolderMap)
    ensures var r := SortByRank(IndexGroups(m)) + NameGroups(m);
      multiset(r) == multiset(m) && |r| == |m|
  {
    SplitPermutes(m);
    var r := SortByRank(IndexGroups(m)) + NameGroups(m);
    assert |multiset(r)| == |r|;
  }

  lemma EntriesNames(m: FolderMap)
    ensures NameGroups(SortByRank(IndexGroups(m)) + NameGroups(m)) == NameGroups(m)
  {
    var ix := SortByRank(IndexGroups(m));
    SortedIndexGroups(m);
    NameGroupsAppend(ix, NameGroups(m));
    NameGroupsOfIndexGroups(ix);
    NameGroupsIdempotent(m);
  }

  lemma IndexGroupsFirst(ix: seq<Group>, names: seq<Group>)
    requires Ascending(ix)
    requires forall i :: 0 <= i < |ix| ==> IsIndexGroup(ix[i])
    requires forall i :: 0 <= i < |names| ==> !IsIndexGroup(names[i])
    ensures var r := ix + names;
      forall i, j :: 0 <= i < j < |r| && IsIndexGroup(r[j]) ==> IsIndexGroup(r[i]) && Rank(r[i]) <= Rank(r[j])
  {
    var r := ix + names;
    forall i, j | 0 <= i < j < |r| && IsIndexGroup(r[j])
      ensures IsIndexGroup(r[i]) && Rank(r[i]) <= Rank(r[j])
    {
    }
  }

  /** When no key is an array index, the keys are visited in insertion order. */
  lemma {:induction false} NoIndexKeysKeepInsertionOrder(m: FolderMap)
    requires forall i :: 0 <= i < |m| ==> !IsArrayIndex(m[i].folder)
    ensures EntriesOrder(m) == m
  {
    NoIndexKeysNames(m);
    NoIndexKeysIndices(m);
  }

  lemma {:induction false} NoIndexKeysNames(m: FolderMap)
    requires forall i :: 0 <= i < |m| ==> !IsArrayIndex(m[i].folder)
    ensures NameGroups(m) == m
  {
    if |m| > 0 {
      NoIndexKeysNames(m[1..]);
    }
  }

  lemma {:induction false} NoIndexKeysIndices(m: FolderMap)
    requires forall i :: 0 <= i < |m| ==> !IsArrayIndex(m[i].folder)
    ensures IndexGroups(m) == []
  {
    if |m| > 0 {
      NoIndexKeysIndices(m[1..]);
    }
  }
}
