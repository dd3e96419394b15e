/** Removing `/./` from a path by replacing until nothing is left to replace. */
module DotSegments {

  /** `/./` occurs at `i`. */
  predicate DotAt(s: string, i: int) {
    0 <= i && i + 3 <= |s| && s[i] == '/' && s[i + 1] == '.' && s[i + 2] == '/'
  }

  predicate ContainsDot(s: string) {
    exists i :: 0 <= i < |s| && DotAt(s, i)
  }

  /** `replace("/./", "/")`: occurrences from left to right, without looking into what was replaced. */
  function Replace(s: string): string {
    if s == [] then []
    else if DotAt(s, 0) then "/" + Replace(s[3..])
    else [s[0]] + Replace(s[1..])
  }

  lemma {:induction false} ReplaceShortens(s: string)
    ensures |Replace(s)| <= |s|
    ensures ContainsDot(s) ==> |Replace(s)| < |s|
  {
    if s != [] {
      if DotAt(s, 0) {
        ReplaceShortens(s[3..]);
      } else {
        ReplaceShortens(s[1..]);
        if i :| 0 <= i < |s| && DotAt(s, i) {
          assert DotAt(s[1..], i - 1);
        }
      }
    }
  }

  // ---------------------------------------------------------------- segments

  /** `split('/')` */
  function Split(s: string): (segments: seq<string>)
    ensures |segments| > 0
    ensures forall i :: 0 <= i < |segments| ==> '/' !in segments[i]
  {
    if s == [] then [""]
    else
      var rest := Split(s[1..]);
      if s[0] == '/' then [""] + rest else [[s[0]] + rest[0]] + rest[1..]
  }

  function Join(segments: seq<string>): string {
    if segments == [] then ""
    else if |segments| == 1 then segments[0]
    else segments[0] + "/" + Join(segments[1..])
  }

  /** All segments but those that are a dot. */
  function WithoutDots(segments: seq<string>): seq<string> {
    if segments == [] then []
    else (if segments[0] == "." then [] else [segments[0]]) + WithoutDots(segments[1..])
  }

  /** The path without its dot segments, first and last segment aside. */
  function Canonical(segments: seq<string>): seq<string>
    requires segments != []
  {
    if |segments| == 1 then segments
    else [segments[0]] + WithoutDots(segments[1..|segments| - 1]) + [segments[|segments| - 1]]
  }

  lemma {:induction false} JoinSplit(s: string)
    ensures Join(Split(s)) == s
  {
    if s != [] {
      JoinSplit(s[1..]);
      var rest := Split(s[1..]);
      if s[0] == '/' {
        assert Split(s)[1..] == rest;
        assert s == "/" + s[1..];
      } else {
        var segments := Split(s);
        assert segments[1..] == rest[1..];
        assert s == [s[0]] + s[1..];
      }
    }
  }

  lemma {:induction false} SplitSegment(a: string)
    requires '/' !in a
    ensures Split(a) == [a]
  {
    if a != [] {
      SplitSegment(a[1..]);
      assert [a[0]] + a[1..] == a;
    }
  }

  lemma {:induction false} SplitAtSlash(a: string, rest: string)
    requires '/' !in a
    ensures Split(a + "/" + rest) == [a] + Split(rest)
  {
    var s := a + "/" + rest;
    if a == [] {
      assert s[1..] == rest;
    } else {
      SplitAtSlash(a[1..], rest);
      assert s[1..] == a[1..] + "/" + rest;
      assert [a[0]] + a[1..] == a;
    }
  }

  lemma {:induction false} SplitJoin(segments: seq<string>)
    requires segments != [] && forall i :: 0 <= i < |segments| ==> '/' !in segments[i]
    ensures Split(Join(segments)) == segments
  {
    if |segments| == 1 {
      SplitSegment(segments[0]);
    } else {
      SplitJoin(segments[1..]);
      SplitAtSlash(segments[0], Join(segments[1..]));
      assert [segments[0]] + segments[1..] == segments;
    }
  }

  // ---------------------------------------------------------------- one pass

  /** What one pass does to the segments after the first: of a run of dots it drops every other one. */
  function Dropped(segments: seq<string>): seq<string> {
    if |segments| < 2 then segments
    else if segments[0] == "." then [segments[1]] + Dropped(segments[2..])
    else [segments[0]] + Dropped(segments[1..])
  }

  /** A segment before a slash is copied as it is. */
  lemma {:induction false} ReplaceSegment(a: string, rest: string)
    requires '/' !in a
    ensures Replace(a + rest) == a + Replace(rest)
  {
    if a == [] {
      assert a + rest == rest;
    } else {
      assert (a + rest)[0] == a[0] != '/';
      assert (a + rest)[1..] == a[1..] + rest;
      ReplaceSegment(a[1..], rest);
    }
  }

  predicate AreSegments(segments: seq<string>) {
    forall i :: 0 <= i < |segments| ==> '/' !in segments[i]
  }

  /** A slash in front of some segments starts a dot segment exactly when the first of these is a dot, with another
      one after it. */
  lemma {:induction false} DotAfterSlash(segments: seq<string>)
    requires segments != [] && AreSegments(segments)
    ensures DotAt("/" + Join(segments), 0) <==> |segments| > 1 && segments[0] == "."
  {
    var a := segments[0];
    if |segments| > 1 {
      assert "/" + Join(segments) == "/" + a + "/" + Join(segments[1..]);
      assert a == "." <==> |a| == 1 && a[0] == '.';
    }
  }

  /** The same pass, on the segments after a slash. */
  lemma {:induction false} ReplaceAfterSlash(segments: seq<string>)
    requires segments != [] && AreSegments(segments)
    ensures Dropped(segments) != [] && AreSegments(Dropped(segments))
    ensures Replace("/" + Join(segments)) == "/" + Join(Dropped(segments))
    decreases |segments|
  {
    DotAfterSlash(segments);
    var s := "/" + Join(segments);
    assert s[1..] == Join(segments);
    if |segments| == 1 {
      ReplaceSegment(segments[0], "");
      assert segments[0] + "" == segments[0];
    } else if segments[0] == "." {
      var rest := segments[1..];
      assert s == "/" + "." + "/" + Join(rest);
      assert s[3..] == Join(rest);
      ReplaceJoined(rest);
      assert rest[0] == segments[1] && rest[1..] == segments[2..];
    } else {
      ReplaceJoined(segments);
      assert Dropped(segments) == [segments[0]] + Dropped(segments[1..]);
    }
  }

  /** One pass over a path keeps its first segment, and drops dots among the others. */
  lemma {:induction false} ReplaceJoined(segments: seq<string>)
    requires segments != [] && AreSegments(segments)
    ensures AreSegments(Dropped(segments[1..]))
    ensures Replace(Join(segments)) == Join([segments[0]] + Dropped(segments[1..]))
    decreases |segments|, 0
  {
    if |segments| == 1 {
      ReplaceSegment(segments[0], "");
      assert segments[0] + "" == segments[0];
    } else {
      var rest := segments[1..];
      ReplaceAfterSlash(rest);
      assert Join(segments) == segments[0] + ("/" + Join(rest));
      ReplaceSegment(segments[0], "/" + Join(rest));
      assert ([segments[0]] + Dropped(rest))[1..] == Dropped(rest);
    }
  }

  // ---------------------------------------------------------------- the canonical form

  /** Without its dots, less the last segment. */
  function Core(segments: seq<string>): seq<string>
    requires segments != []
  {
    WithoutDots(segments[..|segments| - 1])
  }

  lemma CoreCons(segment: string, rest: seq<string>)
    requires rest != []
    ensures Core([segment] + rest) == (if segment == "." then [] else [segment]) + Core(rest)
  {
    var all := [segment] + rest;
    assert all[..|all| - 1] == [segment] + rest[..|rest| - 1];
    assert ([segment] + rest[..|rest| - 1])[1..] == rest[..|rest| - 1];
  }

  lemma DropOneDot(next: string, later: seq<string>)
    requires later != [] && Dropped(later) != [] && Core(Dropped(later)) == Core(later)
    ensures Dropped(["."] + [next] + later) == [next] + Dropped(later)
    ensures Core([next] + Dropped(later)) == Core(["."] + [next] + later)
  {
    var all := ["."] + [next] + later;
    assert all[2..] == later && all[1] == next;
    assert all == ["."] + ([next] + later);
    CoreCons(".", [next] + later);
    CoreCons(next, later);
    CoreCons(next, Dropped(later));
  }

  /** What one pass drops, dropping all dots would drop too, and the last segment stays. */
  lemma {:induction false} DroppedKeepsCore(segments: seq<string>)
    requires segments != []
    ensures Dropped(segments) != [] && Core(Dropped(segments)) == Core(segments)
    ensures Dropped(segments)[|Dropped(segments)| - 1] == segments[|segments| - 1]
    decreases |segments|
  {
    if |segments| >= 2 {
      var first, rest := segments[0], segments[1..];
      assert segments == [first] + rest;
      if first != "." {
        DroppedKeepsCore(rest);
        KeepSegment(first, rest);
      } else if |segments| == 2 {
        assert segments == ["."] + rest;
        CoreCons(".", rest);
        assert Dropped(segments) == rest + Dropped([]);
      } else {
        DroppedKeepsCore(segments[2..]);
        DropOneDot(segments[1], segments[2..]);
        assert segments == ["."] + [segments[1]] + segments[2..];
        LastOfCons(segments[1], Dropped(segments[2..]));
      }
    }
  }

  lemma LastOfCons(segment: string, rest: seq<string>)
    requires rest != []
    ensures var all := [segment] + rest; all[|all| - 1] == rest[|rest| - 1]
  {
  }

  lemma KeepSegment(first: string, rest: seq<string>)
    requires first != "." && rest != [] && Dropped(rest) != [] && Core(Dropped(rest)) == Core(rest)
    ensures Dropped([first] + rest) == [first] + Dropped(rest)
    ensures Core([first] + Dropped(rest)) == Core([first] + rest)
  {
    assert ([first] + rest)[1..] == rest;
    CoreCons(first, rest);
    CoreCons(first, Dropped(rest));
  }

  /** A dot between the first and the last segment shows as `/./`. */
  lemma {:induction false} InnerDotShows(segments: seq<string>, i: int)
    requires AreSegments(segments) && 0 < i < |segments| - 1 && segments[i] == "."
    ensures ContainsDot(Join(segments))
    decreases |segments|
  {
    var s, rest := Join(segments), segments[1..];
    var start := |segments[0]|;
    assert s == segments[0] + "/" + Join(rest);
    if i == 1 {
      DotAfterSlash(rest);
      assert s[start..] == "/" + Join(rest);
      assert DotAt(s, start);
    } else {
      InnerDotShows(rest, i - 1);
      var k :| 0 <= k < |Join(rest)| && DotAt(Join(rest), k);
      assert s[start + 1..] == Join(rest);
      assert DotAt(s, start + 1 + k);
    }
  }

  lemma {:induction false} NoDotsToDrop(segments: seq<string>)
    requires forall i :: 0 <= i < |segments| ==> segments[i] != "."
    ensures WithoutDots(segments) == segments
  {
    if segments != [] {
      NoDotsToDrop(segments[1..]);
    }
  }

  /** A path without `/./` is in canonical form. */
  lemma WithoutDotIsCanonical(s: string)
    requires !ContainsDot(s)
    ensures Join(Canonical(Split(s))) == s
  {
    var segments := Split(s);
    JoinSplit(s);
    if |segments| > 1 {
      var inner := segments[1..|segments| - 1];
      forall i | 0 <= i < |inner| ensures inner[i] != "." {
        if segments[i + 1] == "." {
          InnerDotShows(segments, i + 1);
        }
      }
      NoDotsToDrop(inner);
      assert segments == [segments[0]] + inner + [segments[|segments| - 1]];
    }
  }

  lemma SplitReplaced(s: string)
    ensures Split(Replace(s)) == [Split(s)[0]] + Dropped(Split(s)[1..])
  {
    var segments := Split(s);
    JoinSplit(s);
    ReplaceJoined(segments);
    SplitJoin([segments[0]] + Dropped(segments[1..]));
  }

  lemma CanonicalFromCore(first: string, rest: seq<string>)
    requires rest != []
    ensures Canonical([first] + rest) == [first] + Core(rest) + [rest[|rest| - 1]]
  {
    var all := [first] + rest;
    assert all[1..|all| - 1] == rest[..|rest| - 1];
  }

  lemma DroppedKeepsCanonical(first: string, rest: seq<string>)
    ensures Canonical([first] + Dropped(rest)) == Canonical([first] + rest)
  {
    if rest == [] {
      assert Dropped(rest) == [];
    } else {
      DroppedKeepsCore(rest);
      CanonicalFromCore(first, rest);
      CanonicalFromCore(first, Dropped(rest));
    }
  }

  /** One pass does not change the canonical form. */
  lemma ReplaceKeepsCanonical(s: string)
    ensures Canonical(Split(Replace(s))) == Canonical(Split(s))
  {
    var segments := Split(s);
    SplitReplaced(s);
    DroppedKeepsCanonical(segments[0], segments[1..]);
    assert [segments[0]] + segments[1..] == segments;
  }

  /** Replaces until nothing is left to replace. The result has no `/./`, and is the path split at its slashes, freed
      of every dot that is neither the first nor the last segment, and joined again. */
  method NormalizeDotSegments(path: string) returns (s: string)
    ensures !ContainsDot(s)
    ensures s == Join(Canonical(Split(path)))
  {
    s := path;
    if !ContainsDot(s) {
      WithoutDotIsCanonical(s);
      return;
    }
    while ContainsDot(s)
      invariant Canonical(Split(s)) == Canonical(Split(path))
      decreases |s|
    {
      ReplaceShortens(s);
      ReplaceKeepsCanonical(s);
      s := Replace(s);
    }
    WithoutDotIsCanonical(s);
  }
}
