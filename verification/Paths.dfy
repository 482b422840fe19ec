/** Lexical path algebra: splitting into segments, resolving `.` and `..` on a stack of
    segments, and printing the stack again. Paths contain no NUL character. */
module Paths {
  import opened Sequences

  predicate IsAbs(path: string) {
    path != "" && path[0] == '/'
  }

  // ---- splitting and printing ----

  /** The end of the segment that a path starts with. */
  function SegmentEnd(path: string): (n: nat)
    ensures n <= |path|
    ensures forall i :: 0 <= i < n ==> path[i] != '/'
    ensures n < |path| ==> path[n] == '/'
  {
    if path == "" || path[0] == '/' then 0 else 1 + SegmentEnd(path[1..])
  }

  /** The non-empty pieces between slashes. */
  function Segments(path: string): (segments: seq<string>)
    decreases |path|
  {
    if path == "" then []
    else if path[0] == '/' then Segments(path[1..])
    else [path[..SegmentEnd(path)]] + Segments(path[SegmentEnd(path)..])
  }

  /** The segments with a slash between any two. */
  function Joined(segments: seq<string>): string {
    if segments == [] then ""
    else if |segments| == 1 then segments[0]
    else segments[0] + "/" + Joined(segments[1..])
  }

  function Print(absolute: bool, segments: seq<string>): string {
    if absolute then "/" + Joined(segments)
    else if segments == [] then "."
    else Joined(segments)
  }

  predicate IsSegment(s: string) {
    s != "" && '/' !in s
  }

  // ---- resolving ----

  /** What one segment does to the stack. */
  function Push(absolute: bool, stack: seq<string>, segment: string): seq<string> {
    if segment == "." then stack
    else if segment == ".." then
      if stack != [] && stack[|stack| - 1] != ".." then stack[..|stack| - 1]
      else if !absolute then stack + [segment]
      else stack
    else stack + [segment]
  }

  function PushAll(absolute: bool, stack: seq<string>, segments: seq<string>): seq<string>
    decreases |segments|
  {
    if segments == [] then stack
    else Push(absolute, PushAll(absolute, stack, segments[..|segments| - 1]), segments[|segments| - 1])
  }

  function Resolve(path: string): seq<string> {
    PushAll(IsAbs(path), [], Segments(path))
  }

  function Normalize(path: string): string {
    Print(IsAbs(path), Resolve(path))
  }

  /** No `.`, no empty segment, and `..` only as a leading run that absolute paths do not have. */
  predicate IsCanonical(absolute: bool, stack: seq<string>) {
    && (forall i :: 0 <= i < |stack| ==> IsSegment(stack[i]) && stack[i] != ".")
    && (forall i :: 0 < i < |stack| && stack[i] == ".." ==> stack[i - 1] == "..")
    && (absolute ==> ".." !in stack)
  }

  // ---- lemmas about splitting ----

  lemma {:induction false} SegmentEndUpTo(a: string, b: string)
    ensures SegmentEnd(a + "/" + b) == SegmentEnd(a)
  {
    if a != "" && a[0] != '/' {
      assert (a + "/" + b)[1..] == a[1..] + "/" + b;
      SegmentEndUpTo(a[1..], b);
    }
  }

  /** A slash splits a path into two that can be read separately. */
  lemma {:induction false} SegmentsAtSlash(a: string, b: string)
    ensures Segments(a + "/" + b) == Segments(a) + Segments(b)
    decreases |a|
  {
    var p := a + "/" + b;
    if a == "" {
      assert p[0] == '/' && p[1..] == b;
    } else if a[0] == '/' {
      assert p[0] == '/' && p[1..] == a[1..] + "/" + b;
      SegmentsAtSlash(a[1..], b);
    } else {
      var n := SegmentEnd(a);
      SegmentEndUpTo(a, b);
      var rest := a[n..];
      assert p[..n] == a[..n] && p[n..] == rest + "/" + b;
      SegmentsAtSlash(rest, b);
      calc {
        Segments(p);
        [a[..n]] + (Segments(rest) + Segments(b));
        [a[..n]] + Segments(rest) + Segments(b);
      }
    }
  }

  lemma SegmentsOfSegment(s: string)
    requires IsSegment(s)
    ensures Segments(s) == [s]
  {
    var n := SegmentEnd(s);
    assert forall i :: 0 <= i < |s| ==> s[i] in s;
    assert n == |s|;
    assert s[..n] == s && s[n..] == "";
  }

  lemma {:induction false} SegmentsAreSegments(path: string)
    ensures forall i :: 0 <= i < |Segments(path)| ==> IsSegment(Segments(path)[i])
    decreases |path|
  {
    if path != "" && path[0] == '/' {
      SegmentsAreSegments(path[1..]);
    } else if path != "" {
      SegmentsAreSegments(path[SegmentEnd(path)..]);
    }
  }

  /** Splitting what was printed gives back what was printed. */
  lemma {:induction false} SegmentsOfJoined(segments: seq<string>)
    requires forall i :: 0 <= i < |segments| ==> IsSegment(segments[i])
    ensures Segments(Joined(segments)) == segments
    ensures segments != [] ==> Joined(segments) != "" && Joined(segments)[0] != '/'
  {
    if |segments| == 1 {
      SegmentsOfSegment(segments[0]);
      assert segments[0][0] in segments[0];
    } else if |segments| > 1 {
      SegmentsOfSegment(segments[0]);
      SegmentsOfJoined(segments[1..]);
      SegmentsAtSlash(segments[0], Joined(segments[1..]));
      assert segments[0][0] in segments[0];
    }
  }

  lemma SegmentsOfPrint(absolute: bool, stack: seq<string>)
    requires IsCanonical(absolute, stack)
    ensures IsAbs(Print(absolute, stack)) == absolute
    ensures Segments(Print(absolute, stack)) == if !absolute && stack == [] then ["."] else stack
  {
    SegmentsOfJoined(stack);
    if absolute {
      SegmentsAtSlash("", Joined(stack));
      assert "" + "/" + Joined(stack) == "/" + Joined(stack);
    } else if stack == [] {
      SegmentsOfSegment(".");
    }
  }

  // ---- lemmas about resolving ----

  lemma {:induction false} PushAllAppend(absolute: bool, stack: seq<string>, a: seq<string>, b: seq<string>)
    ensures PushAll(absolute, stack, a + b) == PushAll(absolute, PushAll(absolute, stack, a), b)
    decreases |b|
  {
    if b == [] {
      assert a + b == a;
    } else {
      var init, last := b[..|b| - 1], b[|b| - 1];
      assert (a + b)[..|a + b| - 1] == a + init;
      PushAllAppend(absolute, stack, a, init);
    }
  }

  lemma PushIsCanonical(absolute: bool, stack: seq<string>, segment: string)
    requires IsCanonical(absolute, stack) && IsSegment(segment)
    ensures IsCanonical(absolute, Push(absolute, stack, segment))
  {
    var pushed := Push(absolute, stack, segment);
    forall i | 0 < i < |pushed| && pushed[i] == ".." ensures pushed[i - 1] == ".." {
      assert i < |stack| ==> stack[i] == "..";
    }
  }

  lemma {:induction false} PushAllIsCanonical(absolute: bool, stack: seq<string>, segments: seq<string>)
    requires IsCanonical(absolute, stack)
    requires forall i :: 0 <= i < |segments| ==> IsSegment(segments[i])
    ensures IsCanonical(absolute, PushAll(absolute, stack, segments))
    decreases |segments|
  {
    if segments != [] {
      PushAllIsCanonical(absolute, stack, segments[..|segments| - 1]);
      PushIsCanonical(absolute, PushAll(absolute, stack, segments[..|segments| - 1]), segments[|segments| - 1]);
    }
  }

  lemma ResolveIsCanonical(path: string)
    ensures IsCanonical(IsAbs(path), Resolve(path))
  {
    SegmentsAreSegments(path);
    PushAllIsCanonical(IsAbs(path), [], Segments(path));
  }

  lemma CanonicalInit(absolute: bool, init: seq<string>, last: string)
    requires IsCanonical(absolute, init + [last])
    ensures IsCanonical(absolute, init)
  {
    var all := init + [last];
    assert forall i :: 0 <= i < |init| ==> all[i] == init[i];
  }

  lemma PushOntoCanonical(absolute: bool, stack: seq<string>, last: string)
    requires IsCanonical(absolute, stack + [last])
    ensures Push(absolute, stack, last) == stack + [last]
  {
    var all := stack + [last];
    assert all[|stack|] == last && last in all;
    if stack != [] {
      assert all[|stack| - 1] == stack[|stack| - 1];
    }
  }

  /** A canonical stack is built up by its own segments. */
  lemma {:induction false} PushAllOfCanonical(absolute: bool, stack: seq<string>)
    requires IsCanonical(absolute, stack)
    ensures PushAll(absolute, [], stack) == stack
    decreases |stack|
  {
    if stack != [] {
      var init, last := stack[..|stack| - 1], stack[|stack| - 1];
      assert stack == init + [last];
      CanonicalInit(absolute, init, last);
      PushAllOfCanonical(absolute, init);
      PushOntoCanonical(absolute, init, last);
    }
  }

  /** Printing a canonical stack and resolving it again changes nothing. */
  lemma ResolveOfPrint(absolute: bool, stack: seq<string>)
    requires IsCanonical(absolute, stack)
    ensures Resolve(Print(absolute, stack)) == stack
    ensures Normalize(Print(absolute, stack)) == Print(absolute, stack)
  {
    SegmentsOfPrint(absolute, stack);
    PushAllOfCanonical(absolute, stack);
    if !absolute && stack == [] {
      assert PushAll(false, [], ["."]) == Push(false, PushAll(false, [], []), ".");
    }
  }

  /** The normal form is canonical, says by itself which segments it was printed from, and is
      its own normal form. */
  lemma NormalizeIsCanonical(path: string)
    ensures IsCanonical(IsAbs(path), Resolve(path))
    ensures IsAbs(Normalize(path)) == IsAbs(path)
    ensures Segments(Normalize(path)) == if !IsAbs(path) && Resolve(path) == [] then ["."] else Resolve(path)
    ensures Normalize(Normalize(path)) == Normalize(path)
  {
    ResolveIsCanonical(path);
    SegmentsOfPrint(IsAbs(path), Resolve(path));
    ResolveOfPrint(IsAbs(path), Resolve(path));
  }

  /** Resolving relative segments first, on a stack of their own, keeps their effect on every
      stack, leading `..` included. */
  lemma {:induction false} RelativePathIsAnAction(absolute: bool, stack: seq<string>, segments: seq<string>)
    requires forall i :: 0 <= i < |segments| ==> IsSegment(segments[i])
    ensures PushAll(absolute, stack, PushAll(false, [], segments)) == PushAll(absolute, stack, segments)
    decreases |segments|
  {
    if segments != [] {
      var init, last := segments[..|segments| - 1], segments[|segments| - 1];
      var own := PushAll(false, [], init);
      RelativePathIsAnAction(absolute, stack, init);
      PushAllIsCanonical(false, [], init);
      if last == ".." && own != [] && own[|own| - 1] != ".." {
        var below := own[..|own| - 1];
        assert Push(absolute, PushAll(absolute, stack, below), own[|own| - 1]) == PushAll(absolute, stack, own);
      } else if last != "." {
        PushAllAppend(absolute, stack, own, [last]);
        assert PushAll(absolute, PushAll(absolute, stack, own), [last]) ==
               Push(absolute, PushAll(absolute, stack, own), last);
      }
    }
  }

  // ---- joining and rebasing ----

  function JoinText(lhs: string, rhs: string): string {
    if lhs != "" && lhs[|lhs| - 1] != '/' then lhs + "/" + rhs else lhs + rhs
  }

  function Join(lhs: string, rhs: string): string {
    Normalize(JoinText(lhs, rhs))
  }

  function Rebase(base: string, path: string): string {
    if IsAbs(path) then Normalize(path) else Join(base, path)
  }

  lemma SegmentsAfterSlash(init: string, rhs: string)
    ensures Segments(init + "/" + rhs) == Segments(init + "/") + Segments(rhs)
  {
    SegmentsAtSlash(init, rhs);
    SegmentsAtSlash(init, "");
    assert init + "/" + "" == init + "/";
  }

  lemma JoinTextSegments(lhs: string, rhs: string)
    ensures Segments(JoinText(lhs, rhs)) == Segments(lhs) + Segments(rhs)
  {
    if lhs == "" {
      assert lhs + rhs == rhs;
    } else if lhs[|lhs| - 1] != '/' {
      SegmentsAtSlash(lhs, rhs);
    } else {
      var init := lhs[..|lhs| - 1];
      assert lhs == init + "/";
      SegmentsAfterSlash(init, rhs);
    }
  }

  lemma JoinTextIsAbs(lhs: string, rhs: string)
    ensures IsAbs(JoinText(lhs, rhs)) == if lhs == "" then IsAbs(rhs) else IsAbs(lhs)
  {
  }

  /** The base of a relative path puts a stack under it. */
  lemma ResolveOfRebase(base: string, path: string)
    requires !IsAbs(path)
    ensures Rebase(base, path) == Print(IsAbs(base), PushAll(IsAbs(base), Resolve(base), Segments(path)))
    ensures IsCanonical(IsAbs(base), PushAll(IsAbs(base), Resolve(base), Segments(path)))
    ensures PushAll(IsAbs(base), Resolve(base), Segments(path)) ==
            PushAll(IsAbs(base), Resolve(base), Resolve(path))
  {
    JoinTextSegments(base, path);
    JoinTextIsAbs(base, path);
    PushAllAppend(IsAbs(base), [], Segments(base), Segments(path));
    ResolveIsCanonical(base);
    SegmentsAreSegments(path);
    PushAllIsCanonical(IsAbs(base), Resolve(base), Segments(path));
    RelativePathIsAnAction(IsAbs(base), Resolve(base), Segments(path));
  }

  /** Rebasing composes: it does not matter which of two steps is taken first. */
  lemma RebaseIsAssociative(a: string, b: string, c: string)
    ensures Rebase(Rebase(a, b), c) == Rebase(a, Rebase(b, c))
  {
    if IsAbs(c) {
      NormalizeIsCanonical(c);
    } else if IsAbs(b) {
      ResolveOfRebase(b, c);
      ResolveIsCanonical(b);
      ResolveOfPrint(true, Resolve(b));
      ResolveOfPrint(true, PushAll(true, Resolve(b), Segments(c)));
      SegmentsOfPrint(true, Resolve(b));
      SegmentsOfPrint(true, PushAll(true, Resolve(b), Segments(c)));
      ResolveOfRebase(Normalize(b), c);
    } else {
      RebaseOfRelatives(a, b, c);
    }
  }

  lemma RebaseOfRelatives(a: string, b: string, c: string)
    requires !IsAbs(b) && !IsAbs(c)
    ensures Rebase(Rebase(a, b), c) == Rebase(a, Rebase(b, c))
  {
    var absolute := IsAbs(a);
    ResolveOfRebase(a, b);
    var ab := PushAll(absolute, Resolve(a), Segments(b));
    ResolveOfPrint(absolute, ab);
    SegmentsOfPrint(absolute, ab);
    ResolveOfRebase(Rebase(a, b), c);

    ResolveOfRebase(b, c);
    var bc := PushAll(false, Resolve(b), Segments(c));
    ResolveOfPrint(false, bc);
    SegmentsOfPrint(false, bc);
    ResolveOfRebase(a, Rebase(b, c));

    PushAllAppend(absolute, Resolve(a), Segments(b), Segments(c));
    PushAllAppend(false, [], Segments(b), Segments(c));
    SegmentsAreSegments(b);
    SegmentsAreSegments(c);
    RelativePathIsAnAction(absolute, Resolve(a), Segments(b) + Segments(c));
  }

  // ---- the procedures ----

  /** bm_normalize_path: scans the text once, keeping the stack, then prints the stack. */
  method NormalizePath(path: string) returns (out: string)
    ensures out == Normalize(path)
  {
    var segments: seq<string> := [];
    var absolute := IsAbs(path);
    var i := 0;
    while i < |path|
      invariant i <= |path|
      invariant Resolve(path) == PushAll(absolute, segments, Segments(path[i..]))
      decreases |path| - i
    {
      var start := SkipSlashes(path, i);
      i := SkipSegment(path, start);
      if i == start {
        continue;
      }
      var segment := path[start..i];
      PushAllFirst(absolute, segments, segment, Segments(path[i..]));
      if segment == "." {
        continue;
      }
      if segment == ".." {
        if segments != [] && segments[|segments| - 1] != ".." {
          segments := segments[..|segments| - 1];
        } else if !absolute {
          segments := segments + [segment];
        }
        continue;
      }
      segments := segments + [segment];
    }
    assert path[i..] == "";
    ResolveIsCanonical(path);
    out := PrintSegments(absolute, segments);
  }

  /** The inner loop over slashes. */
  method SkipSlashes(path: string, from: nat) returns (i: nat)
    requires from < |path|
    ensures from <= i <= |path|
    ensures Segments(path[from..]) == Segments(path[i..])
    ensures i < |path| ==> path[i] != '/'
  {
    i := from;
    while i < |path| && path[i] == '/'
      invariant from <= i <= |path|
      invariant Segments(path[from..]) == Segments(path[i..])
    {
      assert path[i..][0] == '/' && path[i..][1..] == path[i + 1..];
      i := i + 1;
    }
  }

  /** The inner loop over the characters of one segment. */
  method SkipSegment(path: string, start: nat) returns (i: nat)
    requires start <= |path| && (start < |path| ==> path[start] != '/')
    ensures start <= i <= |path|
    ensures i == start <==> start == |path|
    ensures start < i ==> Segments(path[start..]) == [path[start..i]] + Segments(path[i..])
  {
    i := start;
    while i < |path| && path[i] != '/'
      invariant start <= i <= |path|
      invariant SegmentEnd(path[start..]) == i - start + SegmentEnd(path[i..])
    {
      assert path[i..][0] != '/' && path[i..][1..] == path[i + 1..];
      i := i + 1;
    }
    assert SegmentEnd(path[i..]) == 0 by {
      if i < |path| { assert path[i..][0] == '/'; }
    }
    if start < i {
      assert path[start..][0] != '/';
      assert path[start..][..i - start] == path[start..i] && path[start..][i - start..] == path[i..];
    }
  }

  lemma PrintNext(lead: string, segments: seq<string>, k: nat)
    requires k < |segments|
    ensures lead + Joined(segments[..k + 1]) ==
            (if k > 0 then lead + Joined(segments[..k]) + "/" else lead + Joined(segments[..k])) + segments[k]
  {
    JoinedPrefix(segments, k);
    if k > 0 {
      Assoc(lead, Joined(segments[..k]), "/");
      Assoc(lead, Joined(segments[..k]) + "/", segments[k]);
    }
  }

  method PrintSegments(absolute: bool, segments: seq<string>) returns (out: string)
    requires forall k :: 0 <= k < |segments| ==> IsSegment(segments[k])
    ensures out == Print(absolute, segments)
  {
    out := if absolute then "/" else "";
    ghost var lead := out;
    for k := 0 to |segments|
      invariant out == lead + Joined(segments[..k])
    {
      PrintNext(lead, segments, k);
      if k > 0 {
        out := out + "/";
      }
      out := out + segments[k];
    }
    assert segments[..|segments|] == segments;
    SegmentsOfJoined(segments);
    if out == "" {
      out := if absolute then "/" else ".";
    }
  }

  lemma PushAllFirst(absolute: bool, stack: seq<string>, segment: string, rest: seq<string>)
    ensures PushAll(absolute, stack, [segment] + rest) == PushAll(absolute, Push(absolute, stack, segment), rest)
  {
    PushAllAppend(absolute, stack, [segment], rest);
    assert PushAll(absolute, stack, [segment]) == Push(absolute, PushAll(absolute, stack, []), segment);
  }

  lemma {:induction false} JoinedNext(segments: seq<string>, last: string)
    ensures Joined(segments + [last]) == if segments == [] then last else Joined(segments) + "/" + last
  {
    if |segments| > 1 {
      assert (segments + [last])[1..] == segments[1..] + [last];
      JoinedNext(segments[1..], last);
    }
  }

  lemma JoinedPrefix(segments: seq<string>, k: nat)
    requires k < |segments|
    ensures Joined(segments[..k + 1]) == if k == 0 then segments[0] else Joined(segments[..k]) + "/" + segments[k]
  {
    JoinedNext(segments[..k], segments[k]);
    assert segments[..k + 1] == segments[..k] + [segments[k]];
  }

  method PathJoin(lhs: string, rhs: string) returns (out: string)
    ensures out == Join(lhs, rhs)
  {
    var text := lhs;
    if |text| > 0 && text[|text| - 1] != '/' {
      text := text + "/";
    }
    text := text + rhs;
    assert text == JoinText(lhs, rhs);
    out := NormalizePath(text);
  }

  method PathRebase(base: string, path: string) returns (out: string)
    ensures out == Rebase(base, path)
  {
    if IsAbs(path) {
      out := NormalizePath(path);
    } else {
      out := PathJoin(base, path);
    }
  }

  // ---- what the definitions come to ----

  /** One more segment below a path: a name is added, `.` changes nothing, `..` takes the last
      name off, and on top of none is kept in relative paths and lost in absolute ones. */
  lemma OneSegmentBelow(path: string, segment: string)
    requires IsSegment(segment) && path != ""
    ensures var stack, below := Resolve(path), Resolve(path + "/" + segment);
      && IsAbs(path + "/" + segment) == IsAbs(path)
      && (segment != "." && segment != ".." ==> below == stack + [segment])
      && (segment == "." ==> below == stack)
      && (segment == ".." && stack != [] && stack[|stack| - 1] != ".." ==> below + [stack[|stack| - 1]] == stack)
      && (segment == ".." && (stack == [] || stack[|stack| - 1] == "..") && !IsAbs(path) ==> below == stack + [".."])
      && (segment == ".." && IsAbs(path) && stack == [] ==> below == [])
  {
    SegmentsAtSlash(path, segment);
    SegmentsOfSegment(segment);
    assert (Segments(path) + [segment])[..|Segments(path)|] == Segments(path);
    assert IsAbs(path + "/" + segment) == IsAbs(path);
  }

  /** A child and back. */
  lemma DownAndUp(path: string, name: string)
    requires IsSegment(name) && name != "." && name != ".." && path != ""
    ensures Normalize(path + "/" + name + "/" + "..") == Normalize(path)
  {
    OneSegmentBelow(path, name);
    OneSegmentBelow(path + "/" + name, "..");
    var stack := Resolve(path);
    assert (stack + [name])[..|stack|] == stack;
  }

  /** The empty path and the paths of slashes only. */
  lemma EmptyPaths()
    ensures Normalize("") == "." && Normalize("/") == "/" && Normalize(".") == "." && Normalize("..") == ".."
    ensures Normalize("/..") == "/"
  {
    assert Segments("") == [] && Segments("/"[1..]) == [];
    SegmentsOfSegment(".");
    SegmentsOfSegment("..");
    assert "/.."[1..] == "..";
    assert Segments("/..") == [".."];
  }

  /** Rebasing leaves absolute paths where they are; a relative path is taken from the base. */
  lemma RebaseMeans(base: string, path: string)
    ensures IsAbs(path) ==> Rebase(base, path) == Normalize(path)
    ensures !IsAbs(path) && base != "" ==> Rebase(base, path) == Normalize(base + "/" + path)
    ensures !IsAbs(path) && base == "" ==> Rebase(base, path) == Normalize(path)
  {
    JoinMeans(base, path);
  }

  /** Joining puts one slash between two texts. */
  lemma JoinMeans(lhs: string, rhs: string)
    ensures lhs != "" ==> Join(lhs, rhs) == Normalize(lhs + "/" + rhs)
    ensures Join("", rhs) == Normalize(rhs)
  {
    assert "" + rhs == rhs;
    if lhs != "" {
      JoinTextSegments(lhs, rhs);
      JoinTextIsAbs(lhs, rhs);
      SegmentsAtSlash(lhs, rhs);
      assert IsAbs(lhs + "/" + rhs) == IsAbs(lhs);
    }
  }
}
