/** Storage keys as `/`-separated paths, split the way JavaScript's
    `String.prototype.split` splits on a one-character separator. */
module Paths {
  import opened Wrappers

  /** The separator the storage keys use between path segments. */
  const Slash: char := '/'

  /** Position of the first `c` in `s`, or None when `s` has no `c`. */
  function IndexOf(s: string, c: char): (r: Option<nat>)
    ensures r.None? <==> c !in s
    ensures r.Some? ==> r.value < |s| && s[r.value] == c && c !in s[..r.value]
  {
    if |s| == 0 then None
    else if s[0] == c then Some(0)
    else
      assert s == [s[0]] + s[1..];
      match IndexOf(s[1..], c)
      case None => None
      case Some(i) =>
        assert s[..i + 1] == [s[0]] + s[1..][..i];
        Some(i + 1)
  }

  /** `s.split(sep)`: every occurrence of `sep` cuts, and empty segments are
      kept, so `""` gives `[""]`, `"a/"` gives `["a", ""]` and `"/a"` gives
      `["", "a"]`. */
  function Split(s: string, sep: char): (parts: seq<string>)
    ensures |parts| >= 1
    ensures forall i :: 0 <= i < |parts| ==> sep !in parts[i]
    ensures Join(parts, sep) == s
    decreases |s|
  {
    match IndexOf(s, sep)
    case None => [s]
    case Some(i) =>
      var rest := Split(s[i + 1..], sep);
      assert ([s[..i]] + rest)[1..] == rest;
      assert s == s[..i] + [sep] + s[i + 1..];
      [s[..i]] + rest
  }

  /** `parts.join(sep)`: the segments with one `sep` between neighbours. */
  function Join(parts: seq<string>, sep: char): string
  {
    if |parts| == 0 then ""
    else if |parts| == 1 then parts[0]
    else parts[0] + [sep] + Join(parts[1..], sep)
  }

  /** The text before the first `/`, or the whole key when it has none. */
  function FirstSegment(s: string): string
  {
    Split(s, Slash)[0]
  }

  /** `s.split('/').pop()`: the text after the last `/`. */
  function LastSegment(s: string): string
  {
    var parts := Split(s, Slash);
    parts[|parts| - 1]
  }

  /** In a joined string the first `sep` is the one after the first segment. */
  lemma IndexOfJoined(p: string, sep: char, tail: string)
    requires sep !in p
    ensures IndexOf(p + [sep] + tail, sep) == Some(|p|)
  {
    var s := p + [sep] + tail;
    assert s[|p|] == sep;
    assert s[..|p|] == p;
  }

  /** Splitting a joined list of separator-free segments gives the segments back:
      `Split` is the inverse of `Join`, so it loses and invents nothing. */
  lemma {:induction false} SplitJoin(parts: seq<string>, sep: char)
    requires |parts| >= 1
    requires forall i :: 0 <= i < |parts| ==> sep !in parts[i]
    ensures Split(Join(parts, sep), sep) == parts
  {
    if |parts| > 1 {
      var p := parts[0];
      var tail := Join(parts[1..], sep);
      var s := p + [sep] + tail;
      assert Join(parts, sep) == s;
      IndexOfJoined(p, sep, tail);
      assert s[..|p|] == p;
      assert s[|p| + 1..] == tail;
      SplitJoin(parts[1..], sep);
      assert parts == [p] + parts[1..];
    }
  }

  /** A joined string starts with its first segment and ends with its last,
      and when there are several segments a `sep` borders each of them. */
  lemma {:induction false} JoinEnds(parts: seq<string>, sep: char)
    requires |parts| >= 1
    ensures var j, f, l := Join(parts, sep), parts[0], parts[|parts| - 1];
      && |f| <= |j| && j[..|f|] == f
      && |l| <= |j| && j[|j| - |l|..] == l
      && (|parts| > 1 ==> |f| < |j| && j[|f|] == sep)
      && (|parts| > 1 ==> |l| < |j| && j[|j| - |l| - 1] == sep)
  {
    if |parts| > 1 {
      var rest := parts[1..];
      JoinEnds(rest, sep);
      var j, t := Join(parts, sep), Join(rest, sep);
      var l := parts[|parts| - 1];
      assert l == rest[|rest| - 1];
      assert j == parts[0] + [sep] + t;
      assert j[|j| - |l|..] == t[|t| - |l|..];
      if |rest| > 1 {
        assert j[|j| - |l| - 1] == t[|t| - |l| - 1];
      }
    }
  }

  /** There is one more segment than there are separators in the key. */
  lemma {:induction false} SplitCount(s: string, sep: char)
    ensures |Split(s, sep)| == multiset(s)[sep] + 1
    decreases |s|
  {
    var r := IndexOf(s, sep);
    if r.Some? {
      var i := r.value;
      var t := s[i + 1..];
      assert Split(s, sep) == [s[..i]] + Split(t, sep);
      SplitCount(t, sep);
      assert s == s[..i] + [s[i]] + t;
      assert multiset(s) == multiset(s[..i]) + multiset{sep} + multiset(t);
    }
  }

  /** A key has segments after its first exactly when it contains a `/`. */
  lemma HasRestIff(s: string)
    ensures |Split(s, Slash)| > 1 <==> Slash in s
  {
    SplitCount(s, Slash);
  }

  /** The first segment is the longest `/`-free prefix of the key: the whole
      key when it has no `/`, otherwise the text up to the first `/`. */
  lemma FirstSegmentSpec(s: string)
    ensures FirstSegment(s) <= s
    ensures Slash !in FirstSegment(s)
    ensures Slash !in s ==> FirstSegment(s) == s
    ensures Slash in s ==> |FirstSegment(s)| < |s| && s[|FirstSegment(s)|] == Slash
  {
    var parts := Split(s, Slash);
    JoinEnds(parts, Slash);
    HasRestIff(s);
  }

  /** The last segment is the longest `/`-free suffix of the key: the whole key
      when it has no `/`, otherwise the text after the last `/` (empty when
      the key ends in `/`). */
  lemma LastSegmentSpec(s: string)
    ensures |LastSegment(s)| <= |s| && s[|s| - |LastSegment(s)|..] == LastSegment(s)
    ensures Slash !in LastSegment(s)
    ensures Slash !in s ==> LastSegment(s) == s
    ensures Slash in s ==> |LastSegment(s)| < |s| && s[|s| - |LastSegment(s)| - 1] == Slash
  {
    var parts := Split(s, Slash);
    assert LastSegment(s) == parts[|parts| - 1];
    JoinEnds(parts, Slash);
    HasRestIff(s);
  }
}
