/**
 The tracked-file enumerator: turning the NUL-delimited output of
 `git ls-files -z` into the set of paths the LFS filter governs.
 */
module LsFiles {
  import opened Common

  /** Index of the first NUL of `s`, or `|s|` when `s` holds none. */
  function IndexOfNul(s: seq<byte>): (i: nat)
    ensures i <= |s|
    ensures i < |s| ==> s[i] == NUL
    ensures NUL !in s[..i]
  {
    if s == [] then 0
    else if s[0] == NUL then 0
    else
      var k := IndexOfNul(s[1..]);
      assert s[..1 + k] == [s[0]] + s[1..][..k];
      1 + k
  }

  /** The segments between NUL separators, as Go's `bytes.Split` yields them:
      n separators give n + 1 segments, empty ones included. */
  function Split(s: seq<byte>): (segments: seq<Path>)
    ensures |segments| >= 1
    ensures NulFree(segments)
    decreases |s|
  {
    var i := IndexOfNul(s);
    if i == |s| then [s] else [s[..i]] + Split(s[i + 1..])
  }

  /** Glues segments together with one NUL between neighbours. */
  function Join(segments: seq<Path>): seq<byte>
    requires |segments| >= 1
    decreases |segments|
  {
    if |segments| == 1 then segments[0]
    else segments[0] + [NUL] + Join(segments[1..])
  }

  ghost predicate NulFree(segments: seq<Path>)
  {
    forall k :: 0 <= k < |segments| ==> NUL !in segments[k]
  }

  /** `s[i..j]` is a field of `s`: bounded by a NUL or an end of `s` on
      either side, with no NUL inside. */
  ghost predicate DelimitedAt(s: seq<byte>, i: int, j: int)
  {
    && 0 <= i <= j <= |s|
    && (i == 0 || s[i - 1] == NUL)
    && (j == |s| || s[j] == NUL)
    && NUL !in s[i..j]
  }

  ghost predicate IsField(s: seq<byte>, p: Path)
  {
    exists i, j :: DelimitedAt(s, i, j) && s[i..j] == p
  }

  /** Splitting at the first NUL: one segment before it, the rest after. */
  lemma SplitAtFirstNul(s: seq<byte>)
    requires IndexOfNul(s) < |s|
    ensures Split(s) == [s[..IndexOfNul(s)]] + Split(s[IndexOfNul(s) + 1..])
  {
  }

  lemma {:induction false} JoinSplit(s: seq<byte>)
    ensures Join(Split(s)) == s
    decreases |s|
  {
    var i := IndexOfNul(s);
    if i < |s| {
      var head, rest := s[..i], s[i + 1..];
      SplitAtFirstNul(s);
      JoinSplit(rest);
      var tail := Split(rest);
      assert Join([head] + tail) == head + [NUL] + Join(tail) by {
        assert ([head] + tail)[1..] == tail;
      }
      assert s == head + [NUL] + rest;
    }
  }

  lemma FirstNulAfterNulFreePrefix(x: seq<byte>, rest: seq<byte>)
    requires NUL !in x
    ensures IndexOfNul(x + [NUL] + rest) == |x|
  {
    var s := x + [NUL] + rest;
    var i := IndexOfNul(s);
    NulFreeSlice(s, 0, i);
    assert s[|x|] == NUL;
    assert forall k :: 0 <= k < |x| ==> s[k] == x[k];
  }

  lemma {:induction false} SplitJoin(segments: seq<Path>)
    requires |segments| >= 1
    requires NulFree(segments)
    ensures Split(Join(segments)) == segments
    decreases |segments|
  {
    var x := segments[0];
    assert NUL !in x;
    if |segments| > 1 {
      var rest := Join(segments[1..]);
      var s := x + [NUL] + rest;
      FirstNulAfterNulFreePrefix(x, rest);
      assert s[..|x|] == x;
      assert s[|x| + 1..] == rest;
      SplitJoin(segments[1..]);
    } else {
      assert IndexOfNul(x) == |x|;
    }
  }

  /** A field of the suffix after a NUL at `i` is a field of the whole. */
  lemma FieldOfWhole(s: seq<byte>, i: nat, a: int, b: int)
    requires i < |s| && s[i] == NUL
    requires DelimitedAt(s[i + 1..], a, b)
    ensures DelimitedAt(s, i + 1 + a, i + 1 + b)
    ensures s[i + 1 + a..i + 1 + b] == s[i + 1..][a..b]
  {
    var t := s[i + 1..];
    var a', b' := i + 1 + a, i + 1 + b;
    assert forall k :: 0 <= k < b - a ==> s[a'..b'][k] == t[a..b][k];
    assert s[a'..b'] == t[a..b];
    assert NUL !in s[a'..b'];
    assert a' == 0 || s[a' - 1] == NUL by {
      assert a > 0 ==> s[i + a] == t[a - 1];
    }
    assert b' == |s| || s[b'] == NUL by {
      assert b < |t| ==> s[b'] == t[b];
    }
  }

  lemma {:induction false} SegmentIsField(s: seq<byte>, p: Path)
    requires p in Split(s)
    ensures IsField(s, p)
    decreases |s|
  {
    var i := IndexOfNul(s);
    if i == |s| {
      assert DelimitedAt(s, 0, |s|) && s[0..|s|] == p;
    } else if p == s[..i] {
      assert DelimitedAt(s, 0, i) && s[0..i] == p;
    } else {
      var t := s[i + 1..];
      assert p in Split(t);
      SegmentIsField(t, p);
      var a, b :| DelimitedAt(t, a, b) && t[a..b] == p;
      FieldOfWhole(s, i, a, b);
    }
  }

  /** A NUL-free slice has no NUL at any of its positions. */
  lemma NulFreeSlice(s: seq<byte>, lo: int, hi: int)
    requires 0 <= lo <= hi <= |s|
    requires NUL !in s[lo..hi]
    ensures forall k :: lo <= k < hi ==> s[k] != NUL
  {
    forall k | lo <= k < hi
      ensures s[k] != NUL
    {
      assert s[k] == s[lo..hi][k - lo];
    }
  }

  /** A field that starts after position `i` is a field of the suffix
      beyond `i`. */
  lemma FieldOfSuffix(s: seq<byte>, i: nat, a: int, b: int)
    requires i < |s| && i < a
    requires DelimitedAt(s, a, b)
    ensures DelimitedAt(s[i + 1..], a - i - 1, b - i - 1)
    ensures s[i + 1..][a - i - 1..b - i - 1] == s[a..b]
  {
    var t := s[i + 1..];
    var a', b' := a - i - 1, b - i - 1;
    assert forall k :: 0 <= k < b' - a' ==> t[a'..b'][k] == s[a..b][k];
    assert a' > 0 ==> t[a' - 1] == s[a - 1];
    assert b' < |t| ==> t[b'] == s[b];
  }

  lemma {:induction false} FieldIsSegment(s: seq<byte>, p: Path)
    requires IsField(s, p)
    ensures p in Split(s)
    decreases |s|
  {
    var a, b :| DelimitedAt(s, a, b) && s[a..b] == p;
    var i := IndexOfNul(s);
    NulFreeSlice(s, 0, i);
    NulFreeSlice(s, a, b);
    if i == |s| {
      assert a == 0 && b == |s|;
      assert p == s;
    } else if a == 0 {
      assert b == i;
      assert p == s[..i];
    } else {
      assert a - 1 >= i;
      FieldOfSuffix(s, i, a, b);
      FieldIsSegment(s[i + 1..], p);
    }
  }

  /** The segments of `Split(s)` are exactly the fields of `s`. */
  lemma SegmentsAreFields(s: seq<byte>)
    ensures forall p :: p in Split(s) <==> IsField(s, p)
  {
    forall p | p in Split(s) {
      SegmentIsField(s, p);
    }
    forall p | IsField(s, p) {
      FieldIsSegment(s, p);
    }
  }

  /** The set `listLfsFiles` builds from the listing: every non-empty field
      of the output, once. */
  function TrackedPaths(out: seq<byte>): (tracked: set<Path>)
    ensures forall p :: p in tracked <==> p != [] && IsField(out, p)
    ensures forall p | p in tracked :: NUL !in p
  {
    SegmentsAreFields(out);
    set p | p in Split(out) && p != []
  }

  /** Listing the paths `segments` in any form yields exactly the non-empty
      ones as a set. */
  lemma TrackedPathsOfListing(segments: seq<Path>)
    requires |segments| >= 1
    requires NulFree(segments)
    ensures forall p :: p in TrackedPaths(Join(segments)) <==> p in segments && p != []
  {
    SplitJoin(segments);
  }

  /** Order, repetition and empty segments in the listing do not matter. */
  lemma ListingOrderIrrelevant(a: seq<Path>, b: seq<Path>)
    requires |a| >= 1 && |b| >= 1
    requires NulFree(a) && NulFree(b)
    requires forall p :: p != [] ==> (p in a <==> p in b)
    ensures TrackedPaths(Join(a)) == TrackedPaths(Join(b))
  {
    TrackedPathsOfListing(a);
    TrackedPathsOfListing(b);
  }

  /** The `-z` format ends every path with a NUL; the empty field after the
      last one is dropped, so the set is exactly the listed paths. */
  lemma TerminatedListing(paths: seq<Path>)
    requires NulFree(paths)
    requires [] !in paths
    ensures forall p :: p in TrackedPaths(Join(paths + [[]])) <==> p in paths
  {
    var segments := paths + [[]];
    forall k | 0 <= k < |segments|
      ensures NUL !in segments[k]
    {
      if k < |paths| {
        assert segments[k] == paths[k];
      }
    }
    TrackedPathsOfListing(segments);
    forall p
      ensures p in segments && p != [] <==> p in paths
    {
      if p in paths {
        var k :| 0 <= k < |paths| && paths[k] == p;
        assert segments[k] == p;
      }
    }
  }
}
