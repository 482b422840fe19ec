/** Path prefixes: stripping a directory from a path, and rebasing a path unless it already
    lies in the directory. */
module PathPrefixes {
  import opened Sequences
  import opened Paths

  /** The prefix ends where a segment of the value ends. */
  predicate HasPathPrefix(value: string, prefix: string) {
    prefix != "" && prefix <= value && (|value| == |prefix| || value[|prefix|] == '/')
  }

  /** The same on stacks; "." and "/" are prefixes of themselves only. */
  predicate IsStackPrefix(stack: seq<string>, prefix: seq<string>) {
    prefix <= stack && (prefix == [] ==> stack == [])
  }

  lemma TwoSlashes(a: string, b: string, c: string)
    ensures a + "/" + b + "/" + c == a + "/" + (b + "/" + c)
  {
    Assoc(a + "/", b, "/");
    Assoc(a + "/", b + "/", c);
  }

  lemma {:induction false} JoinedAppend(a: seq<string>, b: seq<string>)
    requires a != [] && b != []
    ensures Joined(a + b) == Joined(a) + "/" + Joined(b)
    decreases |b|
  {
    var init, last := b[..|b| - 1], b[|b| - 1];
    assert a + b == a + init + [last] && b == init + [last];
    JoinedNext(a + init, last);
    JoinedNext(init, last);
    if init != [] {
      JoinedAppend(a, init);
      calc {
        Joined(a + b);
        Joined(a) + "/" + Joined(init) + "/" + last;
        { TwoSlashes(Joined(a), Joined(init), last); }
        Joined(a) + "/" + (Joined(init) + "/" + last);
        Joined(a) + "/" + Joined(b);
      }
    } else {
      assert a + init == a;
    }
  }

  /** A longer stack prints as a shorter one, a slash and the rest. */
  lemma PrintAppend(absolute: bool, a: seq<string>, b: seq<string>)
    requires a != [] && b != []
    ensures Print(absolute, a + b) == Print(absolute, a) + "/" + Joined(b)
  {
    JoinedAppend(a, b);
  }

  /** Nothing printed continues "." or "/" with a slash. */
  lemma NothingBelowEmpty(absolute: bool, stack: seq<string>, other: bool)
    requires IsCanonical(absolute, stack)
    ensures var v, p := Print(absolute, stack), Print(other, []);
            p <= v && |v| > |p| ==> v[|p|] != '/'
  {
    var v := Print(absolute, stack);
    SegmentsOfPrint(absolute, stack);
    SegmentsOfJoined(stack);
    if !other && !absolute && stack != [] {
      assert Segments(v)[0] == v[..SegmentEnd(v)];
    }
  }

  lemma PrefixAtSlash(absolute: bool, stack: seq<string>, other: bool, prefix: seq<string>)
    requires IsCanonical(absolute, stack) && IsCanonical(other, prefix)
    requires var v, p := Print(absolute, stack), Print(other, prefix); p <= v && |v| > |p| && v[|p|] == '/'
    ensures absolute == other && prefix <= stack && prefix != []
  {
    var v, p := Print(absolute, stack), Print(other, prefix);
    var rest := v[|p| + 1..];
    assert v == p + "/" + rest;
    SegmentsOfPrint(absolute, stack);
    SegmentsOfPrint(other, prefix);
    NothingBelowEmpty(absolute, stack, other);
    SegmentsAtSlash(p, rest);
    assert p != "" && p[0] == v[0];
  }

  lemma StackPrefixIsPathPrefix(absolute: bool, stack: seq<string>, prefix: seq<string>)
    requires IsCanonical(absolute, stack) && IsStackPrefix(stack, prefix)
    ensures HasPathPrefix(Print(absolute, stack), Print(absolute, prefix))
  {
    var rest := stack[|prefix|..];
    assert stack == prefix + rest;
    if rest == [] {
      assert stack == prefix;
      SegmentsOfJoined(stack);
    } else {
      PrintAppend(absolute, prefix, rest);
      assert prefix[0] == stack[0];
      assert Print(absolute, prefix) != "";
    }
  }

  lemma EqualPrints(absolute: bool, stack: seq<string>, other: bool, prefix: seq<string>)
    requires IsCanonical(absolute, stack) && IsCanonical(other, prefix)
    requires Print(absolute, stack) == Print(other, prefix)
    ensures absolute == other && stack == prefix
  {
    ResolveOfPrint(absolute, stack);
    ResolveOfPrint(other, prefix);
    SegmentsOfPrint(absolute, stack);
    SegmentsOfPrint(other, prefix);
  }

  /** The text test sees exactly the segments. */
  lemma PathPrefixIsStackPrefix(absolute: bool, stack: seq<string>, other: bool, prefix: seq<string>)
    requires IsCanonical(absolute, stack) && IsCanonical(other, prefix)
    ensures HasPathPrefix(Print(absolute, stack), Print(other, prefix)) <==>
            absolute == other && IsStackPrefix(stack, prefix)
  {
    var v, p := Print(absolute, stack), Print(other, prefix);
    if HasPathPrefix(v, p) {
      if |v| == |p| {
        assert v == p;
        EqualPrints(absolute, stack, other, prefix);
      } else {
        PrefixAtSlash(absolute, stack, other, prefix);
      }
    }
    if absolute == other && IsStackPrefix(stack, prefix) {
      StackPrefixIsPathPrefix(absolute, stack, prefix);
    }
  }

  // ---- stripping ----

  /** "" when the value does not lie under the prefix. */
  function StripPrefix(value: string, prefix: string): string {
    var v, p := Normalize(value), Normalize(prefix);
    if !HasPathPrefix(v, p) then ""
    else if |v| == |p| then "."
    else v[|p| + 1..]
  }

  method PathStripPrefix(value: string, prefix: string) returns (out: string)
    ensures out == StripPrefix(value, prefix)
  {
    var normalizedValue := NormalizePath(value);
    var normalizedPrefix := NormalizePath(prefix);
    if !HasPathPrefix(normalizedValue, normalizedPrefix) {
      return "";
    }
    if |normalizedValue| == |normalizedPrefix| {
      return ".";
    }
    return normalizedValue[|normalizedPrefix| + 1..];
  }

  /** Rebasing what stripping left gives back the value; stripping leaves something exactly
      when the value lies under the prefix. */
  lemma RebaseUndoesStrip(value: string, prefix: string)
    ensures StripPrefix(value, prefix) != "" <==>
            IsAbs(value) == IsAbs(prefix) && IsStackPrefix(Resolve(value), Resolve(prefix))
    ensures StripPrefix(value, prefix) != "" ==> Rebase(prefix, StripPrefix(value, prefix)) == Normalize(value)
  {
    var absolute, s, t := IsAbs(value), Resolve(value), Resolve(prefix);
    ResolveIsCanonical(value);
    ResolveIsCanonical(prefix);
    PathPrefixIsStackPrefix(absolute, s, IsAbs(prefix), t);
    if absolute == IsAbs(prefix) && IsStackPrefix(s, t) {
      if |s| == |t| {
        assert s == t;
        ResolveOfRebase(prefix, ".");
        SegmentsOfSegment(".");
        assert PushAll(absolute, t, ["."]) == Push(absolute, PushAll(absolute, t, []), ".");
      } else {
        var rest := s[|t|..];
        assert s == t + rest;
        PrintAppend(absolute, t, rest);
        SegmentsOfJoined(rest);
        var stripped := StripPrefix(value, prefix);
        assert stripped == Joined(rest);
        ResolveOfRebase(prefix, stripped);
        PushAllAppend(absolute, [], t, rest);
        PushAllOfCanonical(absolute, s);
        PushAllOfCanonical(absolute, t);
      }
    }
  }

  // ---- rebasing only what needs it ----

  function RebaseIfNeeded(base: string, value: string): string {
    if IsAbs(value) then Normalize(value)
    else if HasPathPrefix(Normalize(value), Normalize(base)) then Normalize(value)
    else Rebase(base, value)
  }

  method PathRebaseIfNeeded(base: string, value: string) returns (out: string)
    ensures out == RebaseIfNeeded(base, value)
  {
    var normalizedValue := NormalizePath(value);
    if IsAbs(value) {
      return normalizedValue;
    }
    var normalizedBase := NormalizePath(base);
    if HasPathPrefix(normalizedValue, normalizedBase) {
      return normalizedValue;
    }
    out := PathRebase(base, value);
  }

  /** How many `..` a stack begins with. */
  function Ups(stack: seq<string>): (n: nat)
    ensures n <= |stack|
    ensures forall i :: 0 <= i < n ==> stack[i] == ".."
    ensures n < |stack| ==> stack[n] != ".."
  {
    if stack == [] || stack[0] != ".." then 0 else 1 + Ups(stack[1..])
  }

  function Dots(n: nat): (stack: seq<string>)
    ensures |stack| == n && forall i :: 0 <= i < n ==> stack[i] == ".."
  {
    seq(n, _ => "..")
  }

  /** Below the leading run there is no `..`. */
  lemma {:induction false} NamesFollowUps(stack: seq<string>, i: nat)
    requires IsCanonical(false, stack) && Ups(stack) <= i < |stack|
    ensures stack[i] != ".."
  {
    if i > Ups(stack) {
      NamesFollowUps(stack, i - 1);
    }
  }

  lemma UpsAre(stack: seq<string>, n: nat)
    requires n <= |stack| && (forall i :: 0 <= i < n ==> stack[i] == "..") && (n < |stack| ==> stack[n] != "..")
    ensures Ups(stack) == n
  {
  }

  /** Going up n times on a stack: names are taken off first, then `..` piles up. */
  function GoUp(stack: seq<string>, n: nat): seq<string> {
    var names := |stack| - Ups(stack);
    if n <= names then stack[..|stack| - n] else Dots(Ups(stack) + n - names)
  }

  lemma {:induction false} PushDots(stack: seq<string>, n: nat)
    requires IsCanonical(false, stack)
    ensures PushAll(false, stack, Dots(n)) == GoUp(stack, n)
  {
    if n > 0 {
      PushDots(stack, n - 1);
      assert Dots(n)[..n - 1] == Dots(n - 1);
      GoUpOnce(stack, n - 1);
    }
  }

  lemma GoUpOnce(stack: seq<string>, n: nat)
    requires IsCanonical(false, stack)
    ensures Push(false, GoUp(stack, n), "..") == GoUp(stack, n + 1)
  {
    var ups := Ups(stack);
    var names := |stack| - ups;
    if n < names {
      NamesFollowUps(stack, |stack| - n - 1);
      assert stack[..|stack| - n][..|stack| - n - 1] == stack[..|stack| - n - 1];
    } else if n == names {
      assert stack[..ups] + [".."] == Dots(ups + 1);
      assert ups > 0 ==> stack[..ups][ups - 1] == "..";
    } else {
      assert Dots(ups + n - names) + [".."] == Dots(ups + n + 1 - names);
    }
  }

  lemma {:induction false} PushNames(stack: seq<string>, names: seq<string>)
    requires forall i :: 0 <= i < |names| ==> names[i] != "." && names[i] != ".."
    ensures PushAll(false, stack, names) == stack + names
    decreases |names|
  {
    if names != [] {
      var init, last := names[..|names| - 1], names[|names| - 1];
      PushNames(stack, init);
      assert stack + init + [last] == stack + names;
    }
  }

  /** The effect of a canonical relative path: its `..` go up, its names come on top. */
  lemma PushCanonical(stack: seq<string>, path: seq<string>)
    requires IsCanonical(false, stack) && IsCanonical(false, path)
    ensures PushAll(false, stack, path) == GoUp(stack, Ups(path)) + path[Ups(path)..]
  {
    var d := Ups(path);
    var names := path[d..];
    assert path == Dots(d) + names;
    PushAllAppend(false, stack, Dots(d), names);
    PushDots(stack, d);
    forall i | 0 <= i < |names| ensures names[i] != "." && names[i] != ".." {
      NamesFollowUps(path, d + i);
    }
    PushNames(GoUp(stack, d), names);
  }

  /** A second rebasing of a relative value onto a relative base changes nothing, in terms of
      the leading `..` of the two normal forms and the names that follow them. */
  predicate StaysPut(base: seq<string>, value: seq<string>) {
    var up, names, d := Ups(base), |base| - Ups(base), Ups(value);
    || d == 0
    || names == 0
    || names == up
    || base <= value
    || (d <= names && base[|base| - d..] <= value[d..])
  }

  lemma RebaseTwice(base: seq<string>, value: seq<string>)
    requires IsCanonical(false, base) && IsCanonical(false, value) && !IsStackPrefix(value, base)
    ensures StaysPut(base, value) <==> SecondChangesNothing(base, value)
  {
    var names, d := |base| - Ups(base), Ups(value);
    if names == 0 {
      RebaseTwiceOnDots(base, value);
    } else if d == 0 {
      PushCanonical(base, value);
      assert GoUp(base, 0) == base && value[0..] == value;
    } else if d <= names {
      RebaseTwiceNear(base, value);
    } else {
      RebaseTwiceFar(base, value);
    }
  }

  ghost predicate SecondChangesNothing(base: seq<string>, value: seq<string>) {
    var x := PushAll(false, base, value);
    IsStackPrefix(x, base) || PushAll(false, base, x) == x
  }

  lemma RebaseTwiceOnDots(base: seq<string>, value: seq<string>)
    requires IsCanonical(false, base) && IsCanonical(false, value) && Ups(base) == |base|
    ensures SecondChangesNothing(base, value)
  {
    PushCanonical(base, value);
    var d := Ups(value);
    assert base <= GoUp(base, d);
    if base == [] {
      assert GoUp(base, d) == value[..d];
      PushAllOfCanonical(false, value);
    }
  }

  /** The value goes up no further than the names of the base. */
  lemma OnceNear(base: seq<string>, value: seq<string>)
    requires IsCanonical(false, base) && IsCanonical(false, value)
    requires 0 < Ups(value) <= |base| - Ups(base)
    ensures PushAll(false, base, value) == base[..|base| - Ups(value)] + value[Ups(value)..]
  {
    PushCanonical(base, value);
  }

  lemma OnceNearUps(base: seq<string>, value: seq<string>)
    requires 0 < Ups(value) <= |base| - Ups(base)
    ensures var x := base[..|base| - Ups(value)] + value[Ups(value)..];
            Ups(x) == Ups(base) && x[..Ups(base)] == base[..Ups(base)]
  {
    var kept := base[..|base| - Ups(value)];
    UpsOfSum(kept, value[Ups(value)..], Ups(base));
    assert kept[..Ups(base)] == base[..Ups(base)];
  }

  lemma UpsOfSum(kept: seq<string>, rest: seq<string>, up: nat)
    requires up <= |kept| && (forall i :: 0 <= i < up ==> kept[i] == "..")
    requires up < |kept| ==> kept[up] != ".."
    requires up == |kept| && rest != [] ==> rest[0] != ".."
    ensures Ups(kept + rest) == up && (kept + rest)[..up] == kept[..up]
  {
    var x := kept + rest;
    if up < |kept| {
      assert x[up] == kept[up];
    } else if rest != [] {
      assert x[up] == rest[0];
    }
    UpsAre(x, up);
  }

  lemma AgainNear(base: seq<string>, x: seq<string>)
    requires IsCanonical(false, base) && IsCanonical(false, x)
    requires Ups(x) == Ups(base) && x[..Ups(base)] == base[..Ups(base)]
    ensures PushAll(false, base, x) == x <==> |base| - Ups(base) == Ups(base)
  {
    var up, names := Ups(base), |base| - Ups(base);
    PushCanonical(base, x);
    if up == names {
      assert GoUp(base, up) + x[up..] == x[..up] + x[up..] == x;
    } else {
      assert |GoUp(base, up)| != up;
      assert |GoUp(base, up) + x[up..]| != |x|;
    }
  }

  lemma NearFits(base: seq<string>, value: seq<string>)
    requires IsCanonical(false, base) && IsCanonical(false, value)
    requires 0 < Ups(value) <= |base| - Ups(base)
    ensures IsStackPrefix(PushAll(false, base, value), base) <==> base[|base| - Ups(value)..] <= value[Ups(value)..]
  {
    OnceNear(base, value);
    PrefixOfSum(base, |base| - Ups(value), value[Ups(value)..]);
  }

  lemma NearAgain(base: seq<string>, value: seq<string>)
    requires IsCanonical(false, base) && IsCanonical(false, value)
    requires 0 < Ups(value) <= |base| - Ups(base)
    ensures var x := PushAll(false, base, value);
            PushAll(false, base, x) == x <==> |base| - Ups(base) == Ups(base)
  {
    OnceNear(base, value);
    OnceNearUps(base, value);
    PushAllIsCanonical(false, base, value);
    AgainNear(base, PushAll(false, base, value));
  }

  lemma RebaseTwiceNear(base: seq<string>, value: seq<string>)
    requires IsCanonical(false, base) && IsCanonical(false, value)
    requires 0 < Ups(value) <= |base| - Ups(base) && !(base <= value)
    ensures StaysPut(base, value) <==> SecondChangesNothing(base, value)
  {
    NearFits(base, value);
    NearAgain(base, value);
  }

  lemma PrefixOfSum(base: seq<string>, n: nat, rest: seq<string>)
    requires n <= |base|
    ensures base <= base[..n] + rest <==> base[n..] <= rest
  {
    var sum := base[..n] + rest;
    if base <= sum {
      assert forall i :: 0 <= i < |base| - n ==> base[n..][i] == base[n + i] == sum[n + i] == rest[i];
    }
    if base[n..] <= rest {
      assert forall i :: n <= i < |base| ==> base[i] == base[n..][i - n] == rest[i - n] == sum[i];
    }
  }

  /** The value goes up past all names of the base. */
  lemma OnceFar(base: seq<string>, value: seq<string>)
    requires IsCanonical(false, base) && IsCanonical(false, value)
    requires 0 < |base| - Ups(base) < Ups(value)
    ensures var x, m := PushAll(false, base, value), Ups(base) + Ups(value) - (|base| - Ups(base));
      && x == Dots(m) + value[Ups(value)..]
      && Ups(x) == m && !(base <= x)
  {
    var up, d := Ups(base), Ups(value);
    PushCanonical(base, value);
    var m := up + d - (|base| - up);
    var rest := value[d..];
    var x := Dots(m) + rest;
    assert x[up] == ".." && base[up] != "..";
    if rest != [] {
      assert x[m] == value[d];
    }
    UpsAre(x, m);
  }

  lemma AgainFar(base: seq<string>, x: seq<string>)
    requires IsCanonical(false, base) && IsCanonical(false, x)
    requires Ups(base) < Ups(x)
    ensures PushAll(false, base, x) == x <==> |base| - Ups(base) == Ups(base)
  {
    var up, names, m := Ups(base), |base| - Ups(base), Ups(x);
    PushCanonical(base, x);
    var rest := x[m..];
    assert x == Dots(m) + rest;
    var again := GoUp(base, m) + rest;
    if m <= names {
      if |base| - m == m {
        assert again[up] == base[up] && x[up] == "..";
      } else {
        assert |again| != |x|;
      }
    } else if up == names {
      assert GoUp(base, m) == Dots(m);
    } else {
      assert |again| != |x|;
    }
  }

  lemma RebaseTwiceFar(base: seq<string>, value: seq<string>)
    requires IsCanonical(false, base) && IsCanonical(false, value)
    requires 0 < |base| - Ups(base) < Ups(value) && !(base <= value)
    ensures StaysPut(base, value) <==> SecondChangesNothing(base, value)
  {
    OnceFar(base, value);
    PushAllIsCanonical(false, base, value);
    AgainFar(base, PushAll(false, base, value));
  }

  /** Rebasing a second time changes nothing, exactly when the value or the base is absolute
      or the two relative normal forms fit together. In particular it is enough that the
      normal form of the value does not begin with `..`. */
  lemma RebaseIfNeededIsIdempotent(base: string, value: string)
    ensures RebaseIfNeeded(base, RebaseIfNeeded(base, value)) == RebaseIfNeeded(base, value) <==>
            IsAbs(value) || IsAbs(base) || StaysPut(Resolve(base), Resolve(value))
  {
    var once := RebaseIfNeeded(base, value);
    var b, v := Resolve(base), Resolve(value);
    ResolveIsCanonical(base);
    ResolveIsCanonical(value);
    NormalizeIsCanonical(value);
    PathPrefixIsStackPrefix(IsAbs(value), v, IsAbs(base), b);
    if !IsAbs(value) && !HasPathPrefix(Normalize(value), Normalize(base)) {
      ResolveOfRebase(base, value);
      var x := PushAll(IsAbs(base), b, v);
      SegmentsOfPrint(IsAbs(base), x);
      ResolveOfPrint(IsAbs(base), x);
      if !IsAbs(base) {
        PathPrefixIsStackPrefix(false, x, false, b);
        ResolveOfRebase(base, once);
        RebaseTwice(b, v);
        var y := PushAll(false, b, x);
        if Print(false, y) == Print(false, x) {
          ResolveOfPrint(false, y);
        }
      }
    } else if !IsAbs(value) {
      SegmentsOfPrint(false, v);
    }
  }

  /** A value for which a second rebasing changes the result: it has left the base. */
  lemma RebaseIfNeededCanMoveTwice()
    ensures RebaseIfNeeded("a/b", RebaseIfNeeded("a/b", "../c")) != RebaseIfNeeded("a/b", "../c")
  {
    var base, value := ["a", "b"], ["..", "c"];
    assert Print(false, base) == "a/b" && Print(false, value) == "../c" by {
      assert base[1..] == ["b"] && value[1..] == ["c"];
    }
    ResolveOfPrint(false, base);
    ResolveOfPrint(false, value);
    assert !StaysPut(base, value) by {
      UpsAre(base, 0);
      UpsAre(value, 1);
      assert base[1..][0] == "b" && value[1..][0] == "c";
    }
    RebaseIfNeededIsIdempotent("a/b", "../c");
  }

  // ---- when a value is rebased ----

  /** An absolute value stays, and so does one whose segments begin with those of a base of its
      own kind (an empty stack begins with itself only); every other value is rebased. */
  lemma RebasedExactlyWhen(base: string, value: string)
    ensures var stays := IsAbs(value) || (!IsAbs(base) && IsStackPrefix(Resolve(value), Resolve(base)));
      && (stays ==> RebaseIfNeeded(base, value) == Normalize(value))
      && (!stays ==> RebaseIfNeeded(base, value) == Rebase(base, value))
  {
    ResolveIsCanonical(value);
    ResolveIsCanonical(base);
    if !IsAbs(value) {
      PathPrefixIsStackPrefix(false, Resolve(value), IsAbs(base), Resolve(base));
    }
  }

  /** A relative value always ends up below an absolute base or beside it, never relative. */
  lemma AbsoluteBaseGivesAbsolute(base: string, value: string)
    requires IsAbs(base)
    ensures IsAbs(RebaseIfNeeded(base, value))
    ensures !IsAbs(value) ==> RebaseIfNeeded(base, value) == Normalize(base + "/" + value)
  {
    RebasedExactlyWhen(base, value);
    RebaseMeans(base, value);
    NormalizeIsCanonical(value);
    if !IsAbs(value) {
      NormalizeIsCanonical(base + "/" + value);
    }
  }

  /** What stripping leaves: "." for the prefix itself, the remaining segments below it. */
  lemma StrippedSegments(value: string, prefix: string)
    ensures var v, p, r := Resolve(value), Resolve(prefix), StripPrefix(value, prefix);
      && (IsAbs(value) == IsAbs(prefix) && v == p ==> r == ".")
      && (IsAbs(value) == IsAbs(prefix) && p != [] && p <= v && v != p ==> r == Joined(v[|p|..]) && Segments(r) == v[|p|..])
      && (IsAbs(value) != IsAbs(prefix) || !(p <= v) || (p == [] && v != []) ==> r == "")
  {
    var absolute, v, p := IsAbs(value), Resolve(value), Resolve(prefix);
    ResolveIsCanonical(value);
    ResolveIsCanonical(prefix);
    PathPrefixIsStackPrefix(absolute, v, IsAbs(prefix), p);
    if absolute == IsAbs(prefix) && p != [] && p <= v && v != p {
      var rest := v[|p|..];
      assert v == p + rest;
      PrintAppend(absolute, p, rest);
      SegmentsOfJoined(rest);
    } else if absolute == IsAbs(prefix) && IsStackPrefix(v, p) {
      assert v == p;
    }
  }
}
