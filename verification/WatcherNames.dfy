/** Watcher paths as strings: splitting at slashes, joining, and cutting off the first or last part. */
module WatcherNames {
  import opened Collections

  const SLASH: char := '/'

  // The first position of a character from i on, or the length when there is none.
  function FindFrom(s: string, c: char, i: nat): (j: nat)
    requires i <= |s|
    ensures i <= j <= |s| && (forall k :: i <= k < j ==> s[k] != c) && (j < |s| ==> s[j] == c)
    decreases |s| - i
  {
    if i == |s| || s[i] == c then i else FindFrom(s, c, i + 1)
  }

  function NonEmpty(s: string): seq<string> {
    if s == "" then [] else [s]
  }

  // The non-empty parts between separators.
  function Split(s: string, c: char): seq<string>
    decreases |s|
  {
    var j := FindFrom(s, c, 0);
    NonEmpty(s[..j]) + if j == |s| then [] else Split(s[j + 1..], c)
  }

  lemma {:induction false} FindInSuffix(s: string, c: char, i: nat, k: nat)
    requires i <= k <= |s|
    ensures FindFrom(s[i..], c, k - i) + i == FindFrom(s, c, k)
    decreases |s| - k
  {
    if k < |s| && s[k] != c { FindInSuffix(s, c, i, k + 1); }
  }

  method Push(v: seq<string>, buf: string) returns (longer: seq<string>)
    ensures longer == v + NonEmpty(buf)
  {
    longer := v;
    if |buf| > 0 { longer := v + [buf]; }
  }

  method KbeSplit(s: string, c: char) returns (v: seq<string>)
    ensures v == Split(s, c)
  {
    hide FindFrom, Split, NonEmpty;
    v := [];
    if |s| == 0 {
      SplitNothing(c);
      return;
    }
    var i, j := 0, FindFrom(s, c, 0);
    ghost var rest := Split(s[i..], c);
    assert s[0..] == s;
    while j < |s|
      invariant i <= j <= |s| && j == FindFrom(s, c, i)
      invariant rest == Split(s[i..], c) && v + rest == Split(s, c)
      decreases |s| - i
    {
      SplitStep(s, c, i);
      v := Push(v, s[i..j]);
      j := j + 1;
      rest := Split(s[j..], c);
      i, j := j, FindFrom(s, c, j);
    }
    SplitStep(s, c, i);
    assert s[i..j] == s[i..];
    v := Push(v, s[i..]);
  }

  lemma SplitNothing(c: char)
    ensures Split("", c) == []
  {
  }

  lemma SplitStep(s: string, c: char, i: nat)
    requires i <= |s|
    ensures var j := FindFrom(s, c, i);
            Split(s[i..], c) == NonEmpty(s[i..j]) + if j == |s| then [] else Split(s[j + 1..], c)
  {
    hide Split, FindFrom, NonEmpty;
    var t, j := s[i..], FindFrom(s, c, i);
    FindInSuffix(s, c, i, i);
    var j0 := FindFrom(t, c, 0);
    SplitFirst(t, c);
    assert t[..j0] == s[i..j];
    if j < |s| { assert t[j0 + 1..] == s[j + 1..]; }
  }

  lemma SplitFirst(s: string, c: char)
    ensures var j := FindFrom(s, c, 0);
            Split(s, c) == NonEmpty(s[..j]) + if j == |s| then [] else Split(s[j + 1..], c)
  {
  }

  predicate IsPart(part: string) {
    part != "" && SLASH !in part
  }

  // Parts that can be written as a path.
  predicate AreParts(parts: seq<string>) {
    forall part <- parts :: IsPart(part)
  }

  function Join(parts: seq<string>): string {
    if parts == [] then ""
    else if |parts| == 1 then parts[0]
    else parts[0] + [SLASH] + Join(parts[1..])
  }

  lemma FindIs(s: string, j: nat)
    requires j <= |s| && (j < |s| ==> s[j] == SLASH) && forall k :: 0 <= k < j ==> s[k] != SLASH
    ensures FindFrom(s, SLASH, 0) == j
  {
  }

  lemma FirstSlash(part: string, rest: string)
    requires SLASH !in part && (rest != "" ==> rest[0] == SLASH)
    ensures FindFrom(part + rest, SLASH, 0) == |part|
  {
    var s := part + rest;
    forall k | 0 <= k < |part| ensures s[k] != SLASH {
      assert s[k] == part[k] && part[k] in part;
    }
    FindIs(s, |part|);
  }

  // Splitting undoes joining.
  lemma {:induction false} SplitUndoesJoin(parts: seq<string>)
    requires AreParts(parts)
    ensures Split(Join(parts), SLASH) == parts
    decreases |parts|
  {
    hide Split, FindFrom;
    if parts == [] {
      SplitNothing(SLASH);
    } else {
      var first, rest := parts[0], if |parts| == 1 then "" else [SLASH] + Join(parts[1..]);
      assert IsPart(first);
      var path := first + rest;
      assert Join(parts) == path;
      FirstSlash(first, rest);
      SplitFirst(path, SLASH);
      assert path[..|first|] == first;
      if |parts| > 1 {
        assert path[|first| + 1..] == Join(parts[1..]);
        SplitUndoesJoin(parts[1..]);
      }
      assert parts == [first] + parts[1..];
    }
  }

  // erase(0, n) on a string.
  function EraseFront(s: string, n: nat): string {
    if n <= |s| then s[n..] else ""
  }

  lemma Erased(s: string, n: nat)
    ensures EraseFront(s, n) == if n <= |s| then s[n..] else ""
  {
  }

  lemma EraseFirstPart(parts: seq<string>)
    requires AreParts(parts) && parts != []
    ensures EraseFront(Join(parts), |parts[0]| + 1) == Join(parts[1..])
    ensures |Join(parts[1..])| < |Join(parts)|
  {
    assert IsPart(parts[0]);
  }

  lemma {:induction false} JoinLast(parts: seq<string>)
    requires |parts| >= 2
    ensures Join(parts) == Join(parts[..|parts| - 1]) + [SLASH] + parts[|parts| - 1]
    decreases |parts|
  {
    var init, last := parts[..|parts| - 1], parts[|parts| - 1];
    if |parts| > 2 {
      JoinLast(parts[1..]);
      assert parts[1..][..|parts| - 2] == init[1..];
    }
  }

  // Cutting the last part and the slash before it leaves the directory.
  lemma EraseLastPart(parts: seq<string>)
    requires |parts| >= 2
    ensures var path, last := Join(parts), parts[|parts| - 1];
            |path| > |last| && path[..|path| - |last| - 1] == Join(parts[..|parts| - 1])
  {
    JoinLast(parts);
  }

  lemma {:induction false} SlashInJoin(parts: seq<string>)
    requires AreParts(parts) && parts != []
    ensures SLASH in Join(parts) <==> |parts| >= 2
  {
    assert IsPart(parts[0]);
    if |parts| >= 2 {
      assert Join(parts)[|parts[0]|] == SLASH;
    }
  }

  // On paths that are not joined parts the recursive walk can go astray.

  lemma {:induction false} SplitAppend(s: string, rest: string)
    requires rest != "" ==> rest[0] == SLASH
    ensures Split(s + rest, SLASH) == Split(s, SLASH) + Split(rest, SLASH)
    decreases |s|
  {
    hide Split, NonEmpty, FindFrom;
    var t, j := s + rest, FindFrom(s, SLASH, 0);
    SplitFirst(s, SLASH);
    SplitFirst(t, SLASH);
    assert s[..j] == t[..j];
    if j < |s| {
      FindIs(t, j);
      assert t[j + 1..] == s[j + 1..] + rest;
      SplitAppend(s[j + 1..], rest);
    } else if rest == "" {
      assert t == s;
      SplitNothing(SLASH);
    } else {
      FindIs(t, j);
      assert t[j + 1..] == rest[1..];
      LeadingSlash(rest[1..]);
      assert rest == [SLASH] + rest[1..];
    }
  }

  lemma LeadingSlash(s: string)
    ensures Split([SLASH] + s, SLASH) == Split(s, SLASH)
  {
    var t := [SLASH] + s;
    FindIs(t, 0);
    assert t[1..] == s;
  }

  // A string with a last character other than a slash has a part.
  lemma {:induction false} SplitNotEmpty(s: string)
    requires s != "" && s[|s| - 1] != SLASH
    ensures Split(s, SLASH) != []
    decreases |s|
  {
    hide Split, FindFrom;
    SplitFirst(s, SLASH);
    var j := FindFrom(s, SLASH, 0);
    if j < |s| { SplitNotEmpty(s[j + 1..]); }
  }

  // Without a leading slash the first part is a prefix, ended by a slash or the end.
  lemma FirstPart(q: string)
    requires q != "" && q[0] != SLASH
    ensures var first := FindFrom(q, SLASH, 0);
            && first > 0 && Split(q, SLASH) == [q[..first]] + Split(q[first..], SLASH)
            && (q[first..] != "" ==> q[first] == SLASH)
            && (first < |q| ==> Split(q[first..], SLASH) == Split(q[first + 1..], SLASH))
  {
    hide Split, FindFrom;
    var first := FindFrom(q, SLASH, 0);
    SplitFirst(q, SLASH);
    assert NonEmpty(q[..first]) == [q[..first]];
    if first < |q| {
      SplitAtSlash(q, first);
    } else {
      SplitNothing(SLASH);
      assert q[first..] == "";
    }
  }

  lemma SplitAtSlash(s: string, i: nat)
    requires i < |s| && s[i] == SLASH
    ensures Split(s[i..], SLASH) == Split(s[i + 1..], SLASH)
  {
    hide Split;
    assert s[i..] == [SLASH] + s[i + 1..];
    LeadingSlash(s[i + 1..]);
  }

  function Slashes(m: nat): (s: string)
    ensures |s| == m && forall k :: 0 <= k < m ==> s[k] == SLASH
  {
    seq(m, _ => SLASH)
  }

  lemma {:induction false} LeadingSlashes(m: nat, q: string)
    ensures Split(Slashes(m) + q, SLASH) == Split(q, SLASH)
    decreases m
  {
    hide Split;
    if m == 0 {
      assert Slashes(0) + q == q;
    } else {
      LeadingSlashes(m - 1, q);
      LeadingSlash(Slashes(m - 1) + q);
      assert Slashes(m) + q == [SLASH] + (Slashes(m - 1) + q);
    }
  }

  // Cutting as many characters as the first part has, and one more, leaves the other parts exactly
  // when at most one slash comes before it.
  lemma CutFollowsSplitExactly(m: nat, q: string)
    requires q != "" && q[0] != SLASH
    ensures var path := Slashes(m) + q;
            var parts := Split(path, SLASH);
            parts != [] && (Split(EraseFront(path, |parts[0]| + 1), SLASH) == parts[1..] <==> m <= 1)
  {
    hide Split, FindFrom;
    var path, n := Slashes(m) + q, FindFrom(q, SLASH, 0);
    LeadingSlashes(m, q);
    FirstPart(q);
    SplitNothing(SLASH);
    var left := EraseFront(path, n + 1);
    if m == 0 {
      assert path == q;
    } else if m == 1 {
      assert left == q[n..];
    } else {
      var stray := path[n + 1..m + n];
      assert stray[m - 2] == q[n - 1];
      assert left == stray + q[n..];
      SplitAppend(stray, q[n..]);
      SplitNotEmpty(stray);
    }
  }

  // The directories the recursive walk visits, cutting its path as it goes; None where it would take
  // the first part of a path that has none.
  function Walk(path: string): (dirs: Option<seq<string>>)
    decreases |path|
  {
    var parts := Split(path, SLASH);
    if path == "" then Some([])
    else if parts == [] then None
    else
      var rest := Walk(EraseFront(path, |parts[0]| + 1));
      if rest.None? then None else Some([parts[0]] + rest.value)
  }

  function CountSlashes(s: string): nat {
    if s == "" then 0 else (if s[0] == SLASH then 1 else 0) + CountSlashes(s[1..])
  }

  function Lengths(parts: seq<string>): nat {
    if parts == [] then 0 else |parts[0]| + Lengths(parts[1..])
  }

  lemma {:induction false} CountAppend(s: string, t: string)
    ensures CountSlashes(s + t) == CountSlashes(s) + CountSlashes(t)
    decreases |s|
  {
    if s == "" {
      assert s + t == t;
    } else {
      assert (s + t)[1..] == s[1..] + t;
      CountAppend(s[1..], t);
    }
  }

  lemma {:induction false} CountNone(s: string)
    requires SLASH !in s
    ensures CountSlashes(s) == 0
    decreases |s|
  {
    if s != "" { CountNone(s[1..]); }
  }

  lemma {:induction false} CountAll(m: nat)
    ensures CountSlashes(Slashes(m)) == m
    decreases m
  {
    if m > 0 {
      assert Slashes(m)[1..] == Slashes(m - 1);
      CountAll(m - 1);
    }
  }

  lemma LengthsFirst(part: string, rest: seq<string>)
    ensures Lengths(NonEmpty(part) + rest) == |part| + Lengths(rest)
  {
    if part == "" {
      assert NonEmpty(part) + rest == rest;
    } else {
      assert ([part] + rest)[1..] == rest;
    }
  }

  // Every character of a path is a slash or belongs to a part, and parts need slashes between them.
  lemma {:induction false} SlashesAndParts(path: string)
    ensures |path| == CountSlashes(path) + Lengths(Split(path, SLASH))
    ensures |Split(path, SLASH)| <= CountSlashes(path) + 1
    decreases |path|
  {
    hide Split, FindFrom;
    var j := FindFrom(path, SLASH, 0);
    SplitFirst(path, SLASH);
    CountNone(path[..j]);
    LengthsFirst(path[..j], if j == |path| then [] else Split(path[j + 1..], SLASH));
    if j < |path| {
      var rest := path[j + 1..];
      SlashesAndParts(rest);
      assert path == path[..j] + ([SLASH] + rest);
      CountAppend(path[..j], [SLASH] + rest);
      assert ([SLASH] + rest)[1..] == rest;
    } else {
      assert path[..j] == path;
    }
  }

  // The walk can cut off no more than its directories and one character after each.
  lemma {:induction false} WalkCovers(path: string)
    requires Walk(path).Some?
    ensures |path| <= Lengths(Walk(path).value) + |Walk(path).value|
    decreases |path|
  {
    hide Split;
    if path != "" {
      var first := Split(path, SLASH)[0];
      WalkCovers(EraseFront(path, |first| + 1));
      var dirs := Walk(path).value;
      assert dirs[1..] == Walk(EraseFront(path, |first| + 1)).value;
    }
  }

  // The slashes before the first part.
  lemma {:induction false} CutSlashes(path: string) returns (m: nat, q: string)
    ensures path == Slashes(m) + q && (q != "" ==> q[0] != SLASH)
    decreases |path|
  {
    if path == "" || path[0] != SLASH {
      m, q := 0, path;
    } else {
      var m', q' := CutSlashes(path[1..]);
      m, q := m' + 1, q';
    }
  }

  // What one cut leaves of a path with no slash or one slash in front.
  lemma CutAtFirst(q: string)
    requires q != "" && q[0] != SLASH
    ensures var parts := Split(q, SLASH);
            && parts != [] && IsPart(parts[0])
            && var rest := EraseFront(q, |parts[0]| + 1);
               Split(rest, SLASH) == parts[1..] && CountSlashes(rest) == if SLASH in q then CountSlashes(q) - 1 else 0
  {
    hide Split, FindFrom, EraseFront;
    var n := FindFrom(q, SLASH, 0);
    Erased(q, n + 1);
    FirstPart(q);
    CountFirst(q);
    if n < |q| { assert q[n] in q; } else { assert q[n..] == ""; }
    SplitNothing(SLASH);
  }

  lemma CountFirst(q: string)
    ensures var n := FindFrom(q, SLASH, 0);
            CountSlashes(q) == CountSlashes(q[n..]) && (n < |q| ==> CountSlashes(q) == 1 + CountSlashes(q[n + 1..]))
  {
    hide FindFrom;
    var n := FindFrom(q, SLASH, 0);
    assert q == q[..n] + q[n..];
    CountNone(q[..n]);
    CountAppend(q[..n], q[n..]);
    if n < |q| { assert q[n..][1..] == q[n + 1..]; }
  }

  lemma CutBehindSlash(q: string)
    requires q != "" && q[0] != SLASH
    ensures var path := [SLASH] + q;
            var parts := Split(path, SLASH);
            && parts != [] && IsPart(parts[0])
            && var rest := EraseFront(path, |parts[0]| + 1);
               Split(rest, SLASH) == parts[1..] && CountSlashes(rest) == CountSlashes(path) - 1
  {
    hide Split, FindFrom, EraseFront;
    var path, n := [SLASH] + q, FindFrom(q, SLASH, 0);
    Erased(path, n + 1);
    assert path[n + 1..] == q[n..];
    LeadingSlash(q);
    FirstPart(q);
    CountFirst(q);
    assert path[1..] == q;
  }

  lemma {:induction false} FewSlashesWalk(path: string)
    requires CountSlashes(path) <= |Split(path, SLASH)|
    ensures Walk(path) == Some(Split(path, SLASH))
    decreases |path|
  {
    hide Split, FindFrom;
    SplitNothing(SLASH);
    var m, q := CutSlashes(path);
    LeadingSlashes(m, q);
    CountAll(m);
    CountAppend(Slashes(m), q);
    SlashesAndParts(q);
    if q == "" {
      assert path == "";
    } else {
      if m == 0 {
        assert path == q;
        CutAtFirst(q);
      } else {
        assert path == [SLASH] + q;
        CutBehindSlash(q);
      }
      var parts := Split(path, SLASH);
      FewSlashesWalk(EraseFront(path, |parts[0]| + 1));
      assert parts == [parts[0]] + parts[1..];
    }
  }

  // The recursive walk visits the parts, as the iterative one does, exactly when there are no more
  // slashes than parts.
  lemma WalkFollowsSplitExactly(path: string)
    ensures Walk(path) == Some(Split(path, SLASH)) <==> CountSlashes(path) <= |Split(path, SLASH)|
  {
    SlashesAndParts(path);
    if Walk(path) == Some(Split(path, SLASH)) { WalkCovers(path); }
    if CountSlashes(path) <= |Split(path, SLASH)| { FewSlashesWalk(path); }
  }

  lemma SlashCounts(s: string)
    requires SLASH in s
    ensures CountSlashes(s) >= 1
  {
    if s[0] != SLASH { SlashCounts(s[1..]); }
  }

  lemma {:induction false} LengthsLast(parts: seq<string>)
    requires parts != []
    ensures Lengths(parts) == Lengths(parts[..|parts| - 1]) + |parts[|parts| - 1]|
    decreases |parts|
  {
    if |parts| > 1 {
      LengthsLast(parts[1..]);
      assert parts[1..][..|parts| - 2] == parts[..|parts| - 1][1..];
    }
  }

  // A path names a watcher unless it has slashes and no parts.
  predicate Names(path: string) {
    SLASH in path ==> Split(path, SLASH) != []
  }

  function LastPart(path: string): (name: string)
    requires Names(path)
    ensures SLASH in path ==> |name| < |path|
  {
    var parts := Split(path, SLASH);
    if SLASH !in path then path
    else
      SlashesAndParts(path); SlashCounts(path); LengthsLast(parts);
      parts[|parts| - 1]
  }

  // What is left of a path when as many characters as its last part has, and one more, are cut off its end.
  function Directory(path: string): string
    requires Names(path)
  {
    if SLASH !in path then "" else path[..|path| - |LastPart(path)| - 1]
  }

  // Where in the tree a path adds its watcher; None where a part is taken that is not there.
  function WhereAdded(path: string): Option<seq<string>> {
    if !Names(path) || Walk(Directory(path)).None? then None
    else Some(Walk(Directory(path)).value + [LastPart(path)])
  }

  lemma {:induction false} NoPartsAllSlashes(path: string)
    requires Split(path, SLASH) == []
    ensures path == Slashes(|path|)
    decreases |path|
  {
    hide Split, FindFrom;
    var m, q := CutSlashes(path);
    LeadingSlashes(m, q);
    if q != "" { FirstPart(q); }
    assert path == Slashes(m);
  }

  lemma SplitBehind(front: string, s: string)
    requires SLASH !in front
    ensures Split(front + [SLASH] + s, SLASH) == NonEmpty(front) + Split(s, SLASH)
  {
    hide Split, FindFrom, NonEmpty;
    var path := front + [SLASH] + s;
    assert forall k :: 0 <= k < |front| ==> path[k] == front[k] && front[k] in front;
    FindIs(path, |front|);
    SplitFirst(path, SLASH);
    assert path[..|front|] == front && path[|front| + 1..] == s;
  }

  // The last part, what comes before it and the slashes behind it.
  lemma {:induction false} CutAtLast(path: string) returns (q: string, t: nat)
    requires Split(path, SLASH) != []
    ensures var parts := Split(path, SLASH);
            var name := parts[|parts| - 1];
            && path == q + name + Slashes(t) && SLASH !in name && (q != "" ==> q[|q| - 1] == SLASH)
            && Split(q, SLASH) == parts[..|parts| - 1]
    decreases |path|
  {
    hide Split, FindFrom, Slashes;
    var j := FindFrom(path, SLASH, 0);
    var front := path[..j];
    SplitNothing(SLASH);
    if j == |path| {
      SplitFirst(path, SLASH);
      q, t := "", 0;
    } else {
      var rest := path[j + 1..];
      SplitBehind(front, rest);
      assert path == front + [SLASH] + rest;
      if Split(rest, SLASH) == [] {
        q, t := "", |rest| + 1;
        NoPartsAllSlashes(rest);
        assert [SLASH] + Slashes(|rest|) == Slashes(t);
      } else {
        var q', t' := CutAtLast(rest);
        q, t := front + [SLASH] + q', t';
        SplitBehind(front, q');
      }
    }
  }

  lemma EndingSlash(q: string)
    requires q != "" && q[|q| - 1] == SLASH
    ensures var r := q[..|q| - 1]; Split(q, SLASH) == Split(r, SLASH) && CountSlashes(q) == CountSlashes(r) + 1
  {
    hide Split, FindFrom;
    var r := q[..|q| - 1];
    assert q == r + [SLASH];
    SplitAppend(r, [SLASH]);
    LeadingSlash("");
    SplitNothing(SLASH);
    assert [SLASH] + "" == [SLASH];
    CountAppend(r, [SLASH]);
  }

  // Before the last part there are at least as many slashes as parts.
  lemma SlashesBefore(q: string)
    requires q != "" ==> q[|q| - 1] == SLASH
    ensures |Split(q, SLASH)| <= CountSlashes(q)
  {
    if q == "" {
      SplitNothing(SLASH);
    } else {
      EndingSlash(q);
      SlashesAndParts(q[..|q| - 1]);
    }
  }

  // When a path has no more slashes than parts, cutting off its last part leaves such a path too.
  lemma FewSlashesDirectory(path: string)
    requires SLASH in path && CountSlashes(path) <= |Split(path, SLASH)|
    ensures var parts := Split(path, SLASH);
            Names(path) && Split(Directory(path), SLASH) == parts[..|parts| - 1]
            && CountSlashes(Directory(path)) == CountSlashes(path) - 1
  {
    hide Split, FindFrom, CountSlashes;
    SlashCounts(path);
    var parts := Split(path, SLASH);
    var name := parts[|parts| - 1];
    var q, t := CutAtLast(path);
    CountNone(name);
    CountAll(t);
    CountAppend(q, name);
    CountAppend(q + name, Slashes(t));
    SlashesBefore(q);
    assert t <= 1;
    if t == 1 {
      assert Directory(path) == q;
    } else {
      assert path == q + name;
      assert q != "";
      EndingSlash(q);
      assert Directory(path) == q[..|q| - 1];
    }
  }

  lemma AddedPlain(path: string)
    requires path != "" && SLASH !in path
    ensures WhereAdded(path) == Some([path]) && Split(path, SLASH) == [path] && CountSlashes(path) == 0
  {
    hide Split;
    assert IsPart(path);
    SplitUndoesJoin([path]);
    CountNone(path);
    assert [] + [path] == [path];
  }

  lemma AddedWhereSplit(path: string)
    requires SLASH in path && Names(path) && WhereAdded(path) == Some(Split(path, SLASH))
    ensures CountSlashes(path) <= |Split(path, SLASH)|
  {
    hide Split, FindFrom, Walk, CountSlashes, Lengths;
    var parts, dirs := Split(path, SLASH), Walk(Directory(path)).value;
    assert parts == dirs + [LastPart(path)];
    assert parts[..|parts| - 1] == dirs;
    SlashesAndParts(path);
    WalkCovers(Directory(path));
    LengthsLast(parts);
  }

  // A watcher is added where the other calls look for it exactly when its path has no more slashes than
  // parts.
  lemma AddedWhereSplitExactly(path: string)
    requires path != ""
    ensures WhereAdded(path) == Some(Split(path, SLASH)) <==> CountSlashes(path) <= |Split(path, SLASH)|
  {
    hide FindFrom, Walk, Split, CountSlashes;
    var parts := Split(path, SLASH);
    if SLASH !in path {
      AddedPlain(path);
    } else if CountSlashes(path) <= |parts| {
      FewSlashesDirectory(path);
      FewSlashesWalk(Directory(path));
      assert parts == parts[..|parts| - 1] + [parts[|parts| - 1]];
    } else if WhereAdded(path) == Some(parts) {
      AddedWhereSplit(path);
    }
  }

  // Joined parts meet the condition.
  lemma {:induction false} JoinedHasFewSlashes(parts: seq<string>)
    requires AreParts(parts)
    ensures CountSlashes(Join(parts)) <= |parts|
    decreases |parts|
  {
    if parts != [] {
      assert IsPart(parts[0]);
      CountNone(parts[0]);
      if |parts| > 1 {
        JoinedHasFewSlashes(parts[1..]);
        var rest := [SLASH] + Join(parts[1..]);
        CountAppend(parts[0], rest);
        assert Join(parts) == parts[0] + rest && rest[1..] == Join(parts[1..]);
      }
    }
  }

  lemma WalkStep(path: string)
    requires path != ""
    ensures var parts := Split(path, SLASH);
            Walk(path) == if parts == [] then None
                          else var rest := Walk(EraseFront(path, |parts[0]| + 1));
                               if rest.None? then None else Some([parts[0]] + rest.value)
  {
    hide Split;
  }

  lemma WalkNothing()
    ensures Walk("") == Some([])
  {
  }

  lemma SplitsOfExamples()
    ensures Split("b", SLASH) == ["b"] && Split("//b", SLASH) == ["b"] && Split("/a//b", SLASH) == ["a", "b"]
    ensures Split("/", SLASH) == [] && Split("a//", SLASH) == ["a"]
  {
    hide Split, FindFrom;
    SplitUndoesJoin(["a"]);
    SplitUndoesJoin(["b"]);
    SplitNothing(SLASH);
    LeadingSlash("");
    LeadingSlash("/");
    LeadingSlash("b");
    LeadingSlash("/b");
    LeadingSlash("a//b");
    assert [SLASH] + "" == "/" && [SLASH] + "/" == "//" && [SLASH] + "b" == "/b" && [SLASH] + "/b" == "//b" && [SLASH] + "a//b" == "/a//b";
    SplitAppend("a", "//b");
    SplitAppend("a", "//");
    assert "a" + "//b" == "a//b" && "a" + "//" == "a//";
  }

  // One slash in front, and yet the walk visits b twice; and a path on which it runs out of parts.
  lemma WalkGoesAstray()
    ensures Split("/a//b", SLASH) == ["a", "b"] && Walk("/a//b") == Some(["a", "b", "b"])
    ensures Split("a//", SLASH) == ["a"] && Walk("a//") == None
  {
    SplitsOfExamples();
    hide Split, Walk;
    WalkNothing();
    WalkStep("b");
    WalkStep("//b");
    WalkStep("/a//b");
    WalkStep("/");
    WalkStep("a//");
    assert EraseFront("b", 2) == "" && EraseFront("//b", 2) == "b" && EraseFront("/a//b", 2) == "//b" && EraseFront("a//", 2) == "/";
    assert ["b"] + [] == ["b"] && ["b"] + ["b"] == ["b", "b"] && ["a"] + ["b", "b"] == ["a", "b", "b"];
  }
}
