/** init.c: resolve_path, which normalises a path in a 128-byte buffer. */
module PathNormalizer {
  import opened Wrappers

  const BUFFER: nat := 128

  /** How many characters come before the first slash. */
  function SegmentLength(s: string): (n: nat)
    ensures n <= |s| && (forall i | 0 <= i < n :: s[i] != '/') && (n < |s| ==> s[n] == '/')
  {
    if s == "" || s[0] == '/' then 0 else 1 + SegmentLength(s[1..])
  }

  /** The segments between slashes that are not empty. */
  function Segments(s: string): seq<string>
  {
    if s == "" then []
    else if s[0] == '/' then Segments(s[1..])
    else var n := SegmentLength(s); [s[..n]] + Segments(s[n..])
  }

  /** "." stays, ".." drops the last component and the root has none to drop. */
  function Step(stack: seq<string>, s: string): seq<string>
  {
    if s == "." then stack
    else if s == ".." then (if stack == [] then [] else stack[..|stack| - 1])
    else stack + [s]
  }

  function Fold(stack: seq<string>, segments: seq<string>): seq<string>
  {
    if segments == [] then stack else Step(Fold(stack, segments[..|segments| - 1]), segments[|segments| - 1])
  }

  /** Each component behind a slash. */
  function Joined(stack: seq<string>): string
  {
    if stack == [] then "" else Joined(stack[..|stack| - 1]) + "/" + stack[|stack| - 1]
  }

  function Render(stack: seq<string>): string
  {
    if stack == [] then "/" else Joined(stack)
  }

  function Base(cwd: string, input: string): seq<string>
  {
    if input != "" && input[0] == '/' then [] else Segments(cwd)
  }

  function Resolved(cwd: string, input: string): string
  {
    Render(Fold(Base(cwd, input), Segments(input)))
  }

  predicate IsSegment(s: string)
  {
    s != "" && '/' !in s
  }

  predicate IsClean(s: string)
  {
    IsSegment(s) && s != "." && s != ".."
  }

  ghost predicate AllClean(stack: seq<string>)
  {
    forall i | 0 <= i < |stack| :: IsClean(stack[i])
  }

  /** A path is normal when it is "/" or a list of proper names, each behind one slash. */
  ghost predicate Normal(path: string)
  {
    AllClean(Segments(path)) && path == Render(Segments(path))
  }

  lemma {:induction false} SegmentLengthIs(s: string, n: nat)
    requires n <= |s| && (forall i | 0 <= i < n :: s[i] != '/') && (n < |s| ==> s[n] == '/')
    ensures SegmentLength(s) == n
  {
    if n > 0 {
      SegmentLengthIs(s[1..], n - 1);
    }
  }

  lemma {:induction false} SegmentsSplit(a: string, b: string)
    ensures Segments(a + "/" + b) == Segments(a) + Segments(b)
    decreases |a|
  {
    var s := a + "/" + b;
    if a == "" {
      assert s[0] == '/' && s[1..] == b;
    } else if a[0] == '/' {
      assert s[1..] == a[1..] + "/" + b;
      SegmentsSplit(a[1..], b);
    } else {
      var n := SegmentLength(a);
      SegmentLengthIs(s, n);
      assert s[..n] == a[..n] && s[n..] == a[n..] + "/" + b;
      SegmentsSplit(a[n..], b);
      Regroup([a[..n]], Segments(a[n..]), Segments(b));
    }
  }

  lemma OneSegment(s: string)
    requires IsSegment(s)
    ensures Segments(s) == [s]
  {
    SegmentLengthIs(s, |s|);
    assert s[..|s|] == s && s[|s|..] == "";
  }

  lemma {:induction false} SegmentsAreSegments(s: string)
    ensures forall i | 0 <= i < |Segments(s)| :: IsSegment(Segments(s)[i])
  {
    if s != "" {
      if s[0] == '/' {
        SegmentsAreSegments(s[1..]);
      } else {
        var n := SegmentLength(s);
        assert n > 0;
        SegmentsAreSegments(s[n..]);
      }
    }
  }

  lemma {:induction false} JoinedRoundTrip(stack: seq<string>)
    requires forall i | 0 <= i < |stack| :: IsSegment(stack[i])
    ensures Segments(Joined(stack)) == stack
  {
    if stack != [] {
      var init, last := stack[..|stack| - 1], stack[|stack| - 1];
      JoinedRoundTrip(init);
      SegmentsSplit(Joined(init), last);
      OneSegment(last);
      assert Joined(stack) == Joined(init) + "/" + last;
      assert stack == init + [last];
    }
  }

  /** Reading a rendered stack gives the stack back. */
  lemma RenderRoundTrip(stack: seq<string>)
    requires forall i | 0 <= i < |stack| :: IsSegment(stack[i])
    ensures Segments(Render(stack)) == stack
  {
    JoinedRoundTrip(stack);
    assert "/"[1..] == "";
  }

  lemma {:induction false} FoldIsClean(stack: seq<string>, segments: seq<string>)
    requires AllClean(stack) && forall i | 0 <= i < |segments| :: IsSegment(segments[i])
    ensures AllClean(Fold(stack, segments))
  {
    if segments != [] {
      FoldIsClean(stack, segments[..|segments| - 1]);
    }
  }

  lemma {:induction false} FoldOfClean(stack: seq<string>, segments: seq<string>)
    requires AllClean(segments)
    ensures Fold(stack, segments) == stack + segments
  {
    if segments != [] {
      FoldOfClean(stack, segments[..|segments| - 1]);
      assert IsClean(segments[|segments| - 1]);
      assert segments == segments[..|segments| - 1] + [segments[|segments| - 1]];
    }
  }

  lemma {:induction false} FoldAppend(stack: seq<string>, a: seq<string>, b: seq<string>)
    ensures Fold(stack, a + b) == Fold(Fold(stack, a), b)
    decreases |b|
  {
    if b == [] {
      assert a + b == a;
    } else {
      assert (a + b)[..|a + b| - 1] == a + b[..|b| - 1];
      FoldAppend(stack, a, b[..|b| - 1]);
    }
  }

  /** The output is normal whatever the input. */
  lemma ResolvedIsNormal(cwd: string, input: string)
    requires AllClean(Segments(cwd))
    ensures Normal(Resolved(cwd, input))
  {
    SegmentsAreSegments(input);
    FoldIsClean(Base(cwd, input), Segments(input));
    RenderRoundTrip(Fold(Base(cwd, input), Segments(input)));
  }

  /** A normal path starts with a slash, has no double slash, and ends in none unless it is the root. */
  lemma NormalHasNoExtraSlash(path: string)
    requires Normal(path)
    ensures path != "" && path[0] == '/' && (|path| > 1 ==> path[|path| - 1] != '/')
    ensures forall i | 0 <= i < |path| - 1 :: path[i] == '/' ==> path[i + 1] != '/'
    ensures "." !in Segments(path) && ".." !in Segments(path)
  {
    if Segments(path) != [] {
      JoinedSlashes(Segments(path));
    }
  }

  lemma {:induction false} JoinedSlashes(stack: seq<string>)
    requires stack != [] && AllClean(stack)
    ensures var s := Joined(stack);
            && |s| > 1 && s[0] == '/' && s[|s| - 1] != '/'
            && forall i | 0 <= i < |s| - 1 :: s[i] == '/' ==> s[i + 1] != '/'
  {
    var init, last := stack[..|stack| - 1], stack[|stack| - 1];
    assert IsClean(last);
    var a, s := Joined(init), Joined(stack);
    assert s == a + "/" + last;
    assert forall k | 0 <= k < |last| :: last[k] in last && last[k] != '/';
    assert forall j | |a| < j < |s| :: s[j] == last[j - |a| - 1];
    if init != [] {
      JoinedSlashes(init);
    }
    forall i | 0 <= i < |s| - 1 && s[i] == '/'
      ensures s[i + 1] != '/'
    {
      assert i <= |a|;
      if i == |a| {
        assert s[i + 1] == last[0];
      }
    }
  }

  lemma ResolveIsIdempotent(cwd: string, input: string)
    requires AllClean(Segments(cwd))
    ensures Resolved(cwd, Resolved(cwd, input)) == Resolved(cwd, input)
    ensures Normal(input) ==> Resolved(cwd, input) == input
  {
    ResolvedIsNormal(cwd, input);
    NormalIsFixed(cwd, Resolved(cwd, input));
    if Normal(input) {
      NormalIsFixed(cwd, input);
    }
  }

  lemma NormalIsFixed(cwd: string, path: string)
    requires Normal(path)
    ensures Resolved(cwd, path) == path
  {
    NormalHasNoExtraSlash(path);
    FoldOfClean([], Segments(path));
    assert [] + Segments(path) == Segments(path);
  }

  /** Changing directory twice is changing once to the joined path, when the second is relative and the first not empty. */
  lemma ResolveTwice(cwd: string, a: string, b: string)
    requires AllClean(Segments(cwd))
    ensures Resolved(Resolved(cwd, a), b) ==
            if b != "" && b[0] == '/' then Resolved(cwd, b)
            else if a == "" then Resolved(cwd, b)
            else Resolved(cwd, a + "/" + b)
  {
    var start := Base(cwd, a);
    var mid := Fold(start, Segments(a));
    SegmentsAreSegments(a);
    FoldIsClean(start, Segments(a));
    RenderRoundTrip(mid);
    SegmentsSplit(a, b);
    FoldAppend(start, Segments(a), Segments(b));
    assert a != "" ==> (a + "/" + b)[0] == a[0];
  }

  lemma FoldOne(stack: seq<string>, s: string)
    ensures Fold(stack, [s]) == Step(stack, s)
  {
    assert [s][..0] == [];
  }

  /** A name goes one level down, ".." takes the last name away again, and "." and "" stay. */
  lemma ComponentMoves(stack: seq<string>, s: string)
    requires AllClean(stack) && IsClean(s)
    ensures Resolved(Render(stack), s) == Render(stack + [s])
    ensures Resolved(Render(stack + [s]), "..") == Render(stack)
    ensures Resolved(Render(stack), ".") == Render(stack) && Resolved(Render(stack), "") == Render(stack)
  {
    RenderRoundTrip(stack);
    RenderRoundTrip(stack + [s]);
    OneSegment(s);
    OneSegment(".");
    OneSegment("..");
    FoldOne(stack, s);
    FoldOne(stack, ".");
    FoldOne(stack + [s], "..");
  }

  /** The root is its own parent. */
  lemma RootIsItsParent(cwd: string)
    ensures Resolved("/", "..") == "/" && Resolved(cwd, "/..") == "/"
  {
    OneSegment("..");
    FoldOne([], "..");
    assert "/"[1..] == "" && "/.."[1..] == "..";
  }

  /** Anywhere in a path, a name and the ".." behind it cancel, and so does ".". */
  lemma DotsCancel(cwd: string, a: string, s: string, b: string)
    requires IsClean(s)
    ensures Resolved(cwd, a + "/" + s + "/.." + "/" + b) == Resolved(cwd, a + "/" + b)
    ensures Resolved(cwd, a + "/." + "/" + b) == Resolved(cwd, a + "/" + b)
    ensures Resolved(cwd, "/.." + "/" + b) == Resolved(cwd, "/" + b)
  {
    var base, all := Base(cwd, a + "/"), Segments(a);
    SegmentsSplit(a, b);
    FoldAppend(base, all, Segments(b));
    CancelledAt(base, a, s, b);
    assert (a + "/")[0] == (a + "/" + s + "/.." + "/" + b)[0] == (a + "/." + "/" + b)[0] == (a + "/" + b)[0];
    CancelledAtRoot(b);
  }

  lemma CancelledAt(base: seq<string>, a: string, s: string, b: string)
    requires IsClean(s)
    ensures Fold(base, Segments(a + "/" + s + "/.." + "/" + b)) == Fold(Fold(base, Segments(a)), Segments(b))
    ensures Fold(base, Segments(a + "/." + "/" + b)) == Fold(Fold(base, Segments(a)), Segments(b))
  {
    var stack := Fold(base, Segments(a));
    AppendOne(base, a, s);
    AppendOne(base, a + "/" + s, "..");
    assert a + "/" + s + "/" + ".." == a + "/" + s + "/..";
    AppendOne(base, a, ".");
    assert a + "/" + "." == a + "/.";
    SegmentsSplit(a + "/" + s + "/..", b);
    FoldAppend(base, Segments(a + "/" + s + "/.."), Segments(b));
    SegmentsSplit(a + "/.", b);
    FoldAppend(base, Segments(a + "/."), Segments(b));
  }

  lemma AppendOne(base: seq<string>, a: string, s: string)
    requires IsSegment(s)
    ensures Fold(base, Segments(a + "/" + s)) == Step(Fold(base, Segments(a)), s)
  {
    SegmentsSplit(a, s);
    OneSegment(s);
    FoldAppend(base, Segments(a), [s]);
    FoldOne(Fold(base, Segments(a)), s);
  }

  lemma CancelledAtRoot(b: string)
    ensures Fold([], Segments("/.." + "/" + b)) == Fold([], Segments("/" + b))
  {
    AppendOne([], "", "..");
    assert "" + "/" + ".." == "/..";
    SegmentsSplit("/..", b);
    FoldAppend([], Segments("/.."), Segments(b));
    assert ("/" + b)[1..] == b;
  }

  /** A name followed by ".." leads back to where it started, from every working directory. */
  lemma ThereAndBack(cwd: string, s: string)
    requires IsClean(s)
    ensures Resolved(cwd, s + "/..") == Resolved(cwd, "") && Resolved(cwd, s + "/.") == Resolved(cwd, s)
  {
    var base := Segments(cwd);
    OneSegment(s);
    FoldOne(base, s);
    AppendOne(base, s, "..");
    AppendOne(base, s, ".");
    assert s + "/" + ".." == s + "/.." && s + "/" + "." == s + "/.";
  }

  /** The step as the buffer has room for it: a component is cut where the buffer ends, to nothing if need be. */
  function Stored(stack: seq<string>, s: string): seq<string>
  {
    if s == "." || s == ".." then Step(stack, s) else
      var room := BUFFER - 2 - |Joined(stack)|;
      if room <= 0 then stack else stack + [if |s| <= room then s else s[..room]]
  }

  function StoredAll(stack: seq<string>, segments: seq<string>): seq<string>
  {
    if segments == [] then stack else Stored(StoredAll(stack, segments[..|segments| - 1]), segments[|segments| - 1])
  }

  /** No component meets a full buffer. */
  ghost predicate NoOverrun(stack: seq<string>, segments: seq<string>)
  {
    forall k | 0 <= k < |segments| && IsClean(segments[k]) :: |Joined(StoredAll(stack, segments[..k]))| < BUFFER - 1
  }

  /** Every path on the way fits the buffer. */
  ghost predicate Fitting(stack: seq<string>, segments: seq<string>)
  {
    forall k | 0 <= k <= |segments| :: |Joined(Fold(stack, segments[..k]))| < BUFFER
  }

  /** One step loses nothing exactly when its result fits. */
  lemma StoredIff(stack: seq<string>, s: string)
    requires IsSegment(s)
    ensures Stored(stack, s) == Step(stack, s) <==> s == "." || s == ".." || |Joined(Step(stack, s))| < BUFFER
  {
    if IsClean(s) {
      assert (stack + [s])[..|stack|] == stack;
      assert (stack + [s])[|stack|] == s;
    }
  }

  lemma OverrunSnoc(base: seq<string>, done: seq<string>, s: string)
    requires NoOverrun(base, done) && (IsClean(s) ==> |Joined(StoredAll(base, done))| < BUFFER - 1)
    ensures NoOverrun(base, done + [s])
  {
    var more := done + [s];
    forall k | 0 <= k < |more| && IsClean(more[k])
      ensures |Joined(StoredAll(base, more[..k]))| < BUFFER - 1
    {
      assert more[..k] == done[..k];
      if k == |done| {
        assert done[..k] == done;
      }
    }
  }

  lemma FittingInit(stack: seq<string>, init: seq<string>, s: string)
    requires Fitting(stack, init + [s])
    ensures Fitting(stack, init) && |Joined(Fold(stack, init + [s]))| < BUFFER
  {
    var all := init + [s];
    assert all[..|all|] == all;
    forall k | 0 <= k <= |init|
      ensures |Joined(Fold(stack, init[..k]))| < BUFFER
    {
      assert init[..k] == all[..k];
    }
  }

  /** If every path on the way fits, the buffer never overruns and holds the folded path. */
  lemma {:induction false} FittingIsExact(stack: seq<string>, segments: seq<string>)
    requires Fitting(stack, segments) && forall i | 0 <= i < |segments| :: IsSegment(segments[i])
    ensures NoOverrun(stack, segments) && StoredAll(stack, segments) == Fold(stack, segments)
  {
    if segments != [] {
      var init, s := segments[..|segments| - 1], segments[|segments| - 1];
      assert segments == init + [s];
      FittingInit(stack, init, s);
      FittingIsExact(stack, init);
      StoredIff(Fold(stack, init), s);
      JoinedMore(Fold(stack, init), s);
      OverrunSnoc(stack, init, s);
    }
  }

  lemma JoinedMore(stack: seq<string>, s: string)
    ensures Joined(stack + [s]) == Joined(stack) + "/" + s && |Joined(stack + [s])| == |Joined(stack)| + 1 + |s|
  {
    assert (stack + [s])[..|stack|] == stack;
  }

  /** Without ".." the buffer holds the folded path exactly when that path fits. */
  lemma {:induction false} StoredAllIff(stack: seq<string>, segments: seq<string>)
    requires |Joined(stack)| < BUFFER && forall i | 0 <= i < |segments| :: IsSegment(segments[i]) && segments[i] != ".."
    ensures StoredAll(stack, segments) == Fold(stack, segments) <==> |Joined(Fold(stack, segments))| < BUFFER
    ensures |Joined(StoredAll(stack, segments))| < BUFFER
  {
    if segments != [] {
      var init, s := segments[..|segments| - 1], segments[|segments| - 1];
      StoredAllIff(stack, init);
      var kept, all := StoredAll(stack, init), Fold(stack, init);
      StoredIff(all, s);
      if s != "." {
        JoinedMore(all, s);
        JoinedMore(kept, if |s| <= BUFFER - 2 - |Joined(kept)| || |Joined(kept)| >= BUFFER - 2 then s else s[..BUFFER - 2 - |Joined(kept)|]);
      }
    }
  }

  /** If the stored stack has lost no component, it is right as far as the folded one fits. */
  ghost predicate Agree(kept: seq<string>, all: seq<string>)
  {
    && |Joined(kept)| < BUFFER && |kept| <= |all|
    && (|kept| == |all| ==> forall i | 0 <= i <= |all| && |Joined(all[..i])| < BUFFER :: kept[..i] == all[..i])
  }

  lemma AgreeStep(kept: seq<string>, all: seq<string>, s: string)
    requires Agree(kept, all) && IsSegment(s)
    ensures Agree(Stored(kept, s), Step(all, s))
  {
    if s == ".." {
      AgreePop(kept, all);
    } else if s != "." {
      AgreePush(kept, all, s);
    }
  }

  lemma AgreePop(kept: seq<string>, all: seq<string>)
    requires Agree(kept, all)
    ensures Agree(Step(kept, ".."), Step(all, ".."))
  {
    if kept != [] {
      var k, a := kept[..|kept| - 1], all[..|all| - 1];
      assert |Joined(k)| <= |Joined(kept)|;
      forall i | 0 <= i <= |a| && |k| == |a| && |Joined(a[..i])| < BUFFER
        ensures k[..i] == a[..i]
      {
        assert a[..i] == all[..i] && k[..i] == kept[..i];
      }
    }
  }

  lemma AgreePush(kept: seq<string>, all: seq<string>, s: string)
    requires Agree(kept, all) && IsClean(s)
    ensures Agree(Stored(kept, s), all + [s])
  {
    var room := BUFFER - 2 - |Joined(kept)|;
    if room > 0 {
      var cut := if |s| <= room then s else s[..room];
      JoinedMore(kept, cut);
      forall i | 0 <= i <= |all| + 1 && |kept| == |all| && |Joined((all + [s])[..i])| < BUFFER
        ensures (kept + [cut])[..i] == (all + [s])[..i]
      {
        if i <= |all| {
          assert (all + [s])[..i] == all[..i] && (kept + [cut])[..i] == kept[..i];
        } else {
          assert (all + [s])[..i] == all + [s] && (kept + [cut])[..i] == kept + [cut];
          JoinedMore(all, s);
          assert all[..|all|] == all && kept[..|all|] == kept;
        }
      }
    }
  }

  lemma {:induction false} StoredAgrees(stack: seq<string>, segments: seq<string>)
    requires |Joined(stack)| < BUFFER && forall i | 0 <= i < |segments| :: IsSegment(segments[i])
    ensures Agree(StoredAll(stack, segments), Fold(stack, segments))
  {
    if segments != [] {
      var init := segments[..|segments| - 1];
      StoredAgrees(stack, init);
      AgreeStep(StoredAll(stack, init), Fold(stack, init), segments[|segments| - 1]);
    }
  }

  /** For all inputs: the buffer holds the folded path exactly when that path fits and no component dropped for want
      of room has left the depth wrong. */
  lemma StoredExactIff(stack: seq<string>, segments: seq<string>)
    requires |Joined(stack)| < BUFFER && forall i | 0 <= i < |segments| :: IsSegment(segments[i])
    ensures var kept, all := StoredAll(stack, segments), Fold(stack, segments);
            kept == all <==> |kept| == |all| && |Joined(all)| < BUFFER
  {
    var kept, all := StoredAll(stack, segments), Fold(stack, segments);
    StoredAgrees(stack, segments);
    assert all[..|all|] == all && kept[..|kept|] == kept;
  }

  /** A component is dropped when the text before it leaves no character of room. */
  ghost predicate NoneDropped(stack: seq<string>, segments: seq<string>)
  {
    forall k | 0 <= k < |segments| && IsClean(segments[k]) :: |Joined(StoredAll(stack, segments[..k]))| < BUFFER - 2
  }

  lemma {:induction false} SameDepth(stack: seq<string>, segments: seq<string>)
    requires NoneDropped(stack, segments) && forall i | 0 <= i < |segments| :: IsSegment(segments[i])
    ensures |StoredAll(stack, segments)| == |Fold(stack, segments)|
  {
    if segments != [] {
      var init, s := segments[..|segments| - 1], segments[|segments| - 1];
      forall k | 0 <= k < |init| && IsClean(init[k])
        ensures |Joined(StoredAll(stack, init[..k]))| < BUFFER - 2
      {
        assert init[..k] == segments[..k] && init[k] == segments[k];
      }
      SameDepth(stack, init);
    }
  }

  /** So, as long as no component is dropped, ".." or not, the result is right exactly when it fits. */
  lemma NoneDroppedIff(stack: seq<string>, segments: seq<string>)
    requires |Joined(stack)| < BUFFER && NoneDropped(stack, segments) && forall i | 0 <= i < |segments| :: IsSegment(segments[i])
    ensures StoredAll(stack, segments) == Fold(stack, segments) <==> |Joined(Fold(stack, segments))| < BUFFER
  {
    SameDepth(stack, segments);
    StoredExactIff(stack, segments);
  }

  /** The stack as it is in the buffer: with or without a slash at the end. */
  ghost predicate Shows(s: string, stack: seq<string>)
  {
    s == Joined(stack) + "/" || (stack != [] && s == Joined(stack))
  }

  predicate IsText(s: string)
  {
    '\0' !in s
  }

  /** The first `n` characters of the buffer. */
  ghost function Text(temp: array<char>, n: nat): string
    requires n <= temp.Length
    reads temp
  {
    temp[..n]
  }

  lemma EndsInName(stack: seq<string>)
    requires stack != [] && IsSegment(stack[|stack| - 1])
    ensures |Joined(stack)| > 1 && Joined(stack)[|Joined(stack)| - 1] != '/'
  {
    var last := stack[|stack| - 1];
    assert last[|last| - 1] in last;
    assert Joined(stack)[|Joined(stack)| - 1] == last[|last| - 1];
  }

  /** Whether the working directory and a slash fit the buffer. */
  predicate BaseFits(cwd: string)
  {
    |cwd| + (if cwd != "" && cwd[|cwd| - 1] == '/' then 0 else 1) < BUFFER
  }

  /** Copies the working directory; `ok` is false when the code goes on to write place 128. */
  method CopyBase(temp: array<char>, cwd: string) returns (ok: bool, len: nat)
    requires temp.Length == BUFFER
    modifies temp
    ensures ok <==> BaseFits(cwd)
    ensures ok ==> 0 < len < BUFFER && Text(temp, len) == if cwd != "" && cwd[|cwd| - 1] == '/' then cwd else cwd + "/"
  {
    len := 0;
    while len < |cwd|
      invariant len <= |cwd| && len <= BUFFER && temp[..len] == cwd[..len]
    {
      if len == BUFFER {
        return false, len;
      }
      temp[len] := cwd[len];
      len := len + 1;
    }
    if len == 0 || temp[len - 1] != '/' {
      if len == BUFFER {
        return false, len;
      }
      temp[len] := '/';
      len := len + 1;
    }
    if len == BUFFER {
      return false, len;
    }
    temp[len] := '\0';
    ok := true;
  }

  /** Drops the last component but keeps the slash in front of it. */
  method Pop(temp: array<char>, n: nat, ghost stack: seq<string>) returns (len: nat)
    requires temp.Length == BUFFER && 1 < n < BUFFER && Shows(Text(temp, n), stack)
    requires forall i | 0 <= i < |stack| :: IsSegment(stack[i])
    modifies temp
    ensures 0 < len < n && stack != [] && Text(temp, len) == Joined(stack[..|stack| - 1]) + "/"
  {
    assert stack != [];
    ghost var init, last := Joined(stack[..|stack| - 1]) + "/", stack[|stack| - 1];
    ghost var full := init + last;
    assert Joined(stack) == full && IsSegment(last);
    assert temp[..n] == full || temp[..n] == full + "/";
    len := n - 1;
    assert |init| <= len <= |full| && temp[..len] == full[..len];
    while len > 0 && temp[len - 1] != '/'
      invariant |init| <= len <= |full| && len < n && temp[..len] == full[..len]
    {
      assert temp[len - 1] == full[len - 1];
      len := len - 1;
    }
    assert full[..|init|] == init;
    temp[len] := '\0';
  }

  /** Adds a component, behind a slash if the buffer does not end in one. When the slash takes the last place, the
      terminator is written to place 128: `ok` is false. */
  method Push(temp: array<char>, n: nat, input: string, p: nat, end: nat, ghost stack: seq<string>) returns (ok: bool, len: nat)
    requires temp.Length == BUFFER && 0 < n < BUFFER && p < end <= |input| && Shows(Text(temp, n), stack)
    requires forall i | 0 <= i < |stack| :: IsSegment(stack[i])
    modifies temp
    ensures ok <==> |Joined(stack)| < BUFFER - 1
    ensures ok ==> 0 < len < BUFFER && len == Least(|Joined(stack)| + 1 + (end - p), BUFFER - 1)
    ensures ok ==> Text(temp, len) == Joined(stack) + "/" + input[p..end][..len - |Joined(stack)| - 1]
  {
    ghost var was := temp[..n];
    assert was[n - 1] == temp[n - 1];
    if was == Joined(stack) {
      EndsInName(stack);
    }
    len := n;
    if len > 1 && temp[len - 1] != '/' {
      temp[len] := '/';
      len := len + 1;
    }
    assert stack == [] ==> was == "/";
    assert Text(temp, len) == Joined(stack) + "/";
    if len == BUFFER {
      return false, len;
    }
    len := CopySegment(temp, len, input, p, end);
    temp[len] := '\0';
    ok := true;
  }

  function Least(a: int, b: int): int
  {
    if a <= b then a else b
  }

  /** Copies input[p..end], never past place 126. */
  method CopySegment(temp: array<char>, n: nat, input: string, p: nat, end: nat) returns (len: nat)
    requires temp.Length == BUFFER && p <= end <= |input| && n < BUFFER
    modifies temp
    ensures len == Least(n + (end - p), BUFFER - 1) && Text(temp, len) == old(Text(temp, n)) + input[p..end][..len - n]
  {
    len := n;
    ghost var base := temp[..n];
    for k := 0 to end - p
      invariant len == Least(n + k, BUFFER - 1) && temp[..n] == base
      invariant temp[n..len] == input[p..p + (len - n)]
    {
      if len < BUFFER - 1 {
        temp[len] := input[p + k];
        len := len + 1;
        assert temp[n..len] == temp[n..len - 1] + [input[p + k]];
      }
    }
    assert temp[..len] == temp[..n] + temp[n..len];
    SliceStart(input, p, end, len - n);
  }

  lemma SliceStart(s: string, p: nat, end: nat, m: nat)
    requires p <= end <= |s| && m <= end - p
    ensures s[p..end][..m] == s[p..p + m]
  {
  }

  lemma SegmentFrom(s: string, n: nat)
    requires 0 < n <= |s| && (forall i | 0 <= i < n :: s[i] != '/') && (n < |s| ==> s[n] == '/')
    ensures IsSegment(s[..n]) && Segments(s) == [s[..n]] + Segments(s[n..])
  {
    SegmentLengthIs(s, n);
  }

  lemma SegmentBetween(input: string, p: nat, end: nat)
    requires p < end <= |input| && (forall i | p <= i < end :: input[i] != '/') && (end < |input| ==> input[end] == '/')
    ensures IsSegment(input[p..end]) && Segments(input[p..]) == [input[p..end]] + Segments(input[end..])
  {
    var s, n := input[p..], end - p;
    SegmentFrom(s, n);
    assert s[..n] == input[p..end] && s[n..] == input[end..];
  }

  method NextSegment(input: string, start: nat) returns (p: nat, end: nat)
    requires start <= |input|
    ensures start <= p <= end <= |input| && (p == end ==> p == |input|)
    ensures Segments(input[start..]) == (if p == end then [] else [input[p..end]]) + Segments(input[end..])
    ensures p < end ==> IsSegment(input[p..end])
  {
    p := SkipSlashes(input, start);
    end := p;
    while end < |input| && input[end] != '/'
      invariant p <= end <= |input| && forall i | p <= i < end :: input[i] != '/'
    {
      end := end + 1;
    }
    if p < end {
      SegmentBetween(input, p, end);
    }
  }

  method SkipSlashes(input: string, start: nat) returns (p: nat)
    requires start <= |input|
    ensures start <= p <= |input| && (p < |input| ==> input[p] != '/')
    ensures Segments(input[start..]) == Segments(input[p..])
  {
    p := start;
    while p < |input| && input[p] == '/'
      invariant start <= p <= |input| && Segments(input[start..]) == Segments(input[p..])
    {
      assert input[p..][1..] == input[p + 1..];
      p := p + 1;
    }
  }

  /** The buffer holds the stack as a string of `len` characters. */
  ghost predicate Holds(temp: array<char>, len: nat, stack: seq<string>)
    reads temp
  {
    0 < len < temp.Length == BUFFER && Shows(temp[..len], stack) && forall i | 0 <= i < |stack| :: IsSegment(stack[i])
  }

  lemma DotTests(input: string, p: nat, end: nat, s: string)
    requires p < end <= |input| && s == input[p..end]
    ensures s == "." <==> end - p == 1 && input[p] == '.'
    ensures s == ".." <==> end - p == 2 && input[p] == '.' && input[p + 1] == '.'
  {
    assert s[0] == input[p] && (|s| == 2 ==> s[1] == input[p + 1]);
  }

  /** One segment: "." is skipped, ".." pops unless at the root, anything else is appended as far as it fits. */
  method TakeSegment(temp: array<char>, n: nat, input: string, p: nat, end: nat, ghost stack: seq<string>)
      returns (ok: bool, len: nat)
    requires Holds(temp, n, stack) && p < end <= |input| && IsSegment(input[p..end])
    modifies temp
    ensures ok <==> (IsClean(input[p..end]) ==> |Joined(stack)| < BUFFER - 1)
    ensures ok ==> Holds(temp, len, Stored(stack, input[p..end]))
    ensures input[p..end] == "." ==> Holds(temp, len, stack)
    ensures input[p..end] == ".." ==> Holds(temp, len, if stack == [] then [] else stack[..|stack| - 1])
  {
    ghost var s := input[p..end];
    DotTests(input, p, end, s);
    ok, len := true, n;
    if end - p == 1 && input[p] == '.' {
    } else if end - p == 2 && input[p] == '.' && input[p + 1] == '.' {
      if len > 1 {
        len := Pop(temp, len, stack);
      } else {
        assert stack == [];
      }
    } else {
      ok, len := Push(temp, len, input, p, end, stack);
      if ok {
        StoredShows(temp[..len], stack, s, s[..len - |Joined(stack)| - 1]);
      }
    }
  }

  /** The text behind the slash is the component as far as there was room for it. */
  lemma StoredShows(text: string, stack: seq<string>, s: string, cut: string)
    requires IsClean(s) && |Joined(stack)| < BUFFER - 1 && forall i | 0 <= i < |stack| :: IsSegment(stack[i])
    requires |cut| <= |s| && cut == s[..|cut|] && |cut| == Least(|s|, BUFFER - 2 - |Joined(stack)|)
    requires text == Joined(stack) + "/" + cut
    ensures Shows(text, Stored(stack, s)) && forall i | 0 <= i < |Stored(stack, s)| :: IsSegment(Stored(stack, s)[i])
  {
    if cut == "" {
      assert Stored(stack, s) == stack && text == Joined(stack) + "/";
    } else {
      CutStored(stack, s, cut);
      JoinedMore(stack, cut);
    }
  }

  lemma CutStored(stack: seq<string>, s: string, cut: string)
    requires IsClean(s) && cut != "" && |cut| <= |s| && cut == s[..|cut|] && |cut| == Least(|s|, BUFFER - 2 - |Joined(stack)|)
    ensures Stored(stack, s) == stack + [cut] && IsSegment(cut)
  {
    assert |s| <= |cut| ==> cut == s;
  }

  lemma NextOf(all: seq<string>, done: seq<string>, s: string, rest: seq<string>)
    requires all == done + ([s] + rest)
    ensures |done| < |all| && all[|done|] == s && all[..|done|] == done && all == done + [s] + rest
  {
  }

  lemma StoredSnoc(stack: seq<string>, done: seq<string>, s: string)
    ensures StoredAll(stack, done + [s]) == Stored(StoredAll(stack, done), s)
  {
    assert (done + [s])[..|done|] == done;
  }

  /** The trailing slash goes, unless it is the root. */
  method Trim(temp: array<char>, n: nat, ghost stack: seq<string>) returns (len: nat)
    requires Holds(temp, n, stack)
    modifies temp
    ensures len <= n && temp[..len] == Render(stack) && temp[len] == '\0'
  {
    len := n;
    ghost var was := temp[..n];
    assert was[n - 1] == temp[n - 1];
    if stack != [] {
      EndsInName(stack);
      if was == Joined(stack) + "/" {
        assert was[..n - 1] == Joined(stack);
      }
    }
    if len > 1 && temp[len - 1] == '/' {
      len := len - 1;
    }
    temp[len] := '\0';
  }

  /** Copies a terminated string. */
  method CopyOut(dest: array<char>, temp: array<char>, ghost n: nat)
    requires n < temp.Length == BUFFER && dest.Length >= BUFFER && dest != temp
    requires IsText(temp[..n]) && temp[n] == '\0'
    modifies dest
    ensures dest[..n] == temp[..n] && dest[n] == '\0'
  {
    var i := 0;
    assert forall k | 0 <= k < n :: temp[k] in temp[..n];
    while temp[i] != '\0'
      invariant 0 <= i <= n && dest[..i] == temp[..i]
      decreases n - i
    {
      dest[i] := temp[i];
      i := i + 1;
    }
    dest[i] := '\0';
  }

  /** Every component behind one slash, as resolve_path leaves a path; a component may be a cut one. */
  ghost predicate IsPlain(path: string)
  {
    path == Render(Segments(path))
  }

  lemma BaseShows(cwd: string)
    requires IsPlain(cwd)
    ensures Joined(Segments(cwd)) + "/" == if cwd != "" && cwd[|cwd| - 1] == '/' then cwd else cwd + "/"
    ensures forall i | 0 <= i < |Segments(cwd)| :: IsSegment(Segments(cwd)[i])
  {
    SegmentsAreSegments(cwd);
    if Segments(cwd) != [] {
      EndsInName(Segments(cwd));
    }
  }

  ghost predicate AllText(stack: seq<string>)
  {
    forall i | 0 <= i < |stack| :: IsText(stack[i])
  }

  lemma {:induction false} SegmentsAreText(s: string)
    requires IsText(s)
    ensures AllText(Segments(s))
  {
    if s != "" {
      if s[0] == '/' {
        SegmentsAreText(s[1..]);
      } else {
        var n := SegmentLength(s);
        assert n > 0;
        SegmentsAreText(s[n..]);
      }
    }
  }

  lemma {:induction false} StoredIsText(stack: seq<string>, segments: seq<string>)
    requires AllText(stack) && AllText(segments)
    ensures AllText(StoredAll(stack, segments))
  {
    if segments != [] {
      StoredIsText(stack, segments[..|segments| - 1]);
      assert IsText(segments[|segments| - 1]);
    }
  }

  lemma {:induction false} JoinedIsText(stack: seq<string>)
    requires AllText(stack)
    ensures IsText(Joined(stack))
  {
    if stack != [] {
      JoinedIsText(stack[..|stack| - 1]);
      assert IsText(stack[|stack| - 1]);
    }
  }

  lemma OutputIsText(cwd: string, input: string)
    requires IsText(cwd) && IsText(input)
    ensures IsText(Render(StoredAll(Base(cwd, input), Segments(input))))
  {
    SegmentsAreText(cwd);
    SegmentsAreText(input);
    StoredIsText(Base(cwd, input), Segments(input));
    JoinedIsText(StoredAll(Base(cwd, input), Segments(input)));
  }

  /** The working directory, which matters only to a relative path, fits the buffer, and no component meets a full one. */
  ghost predicate Roomy(cwd: string, input: string)
  {
    (input == "" || input[0] != '/' ==> BaseFits(cwd)) && NoOverrun(Base(cwd, input), Segments(input))
  }

  /** The buffer starts as the root or as the working directory. */
  method StartBuffer(temp: array<char>, cwd: string, input: string) returns (ok: bool, len: nat, p: nat)
    requires temp.Length == BUFFER && (input == "" || input[0] != '/' ==> IsPlain(cwd))
    modifies temp
    ensures ok <==> (input == "" || input[0] != '/' ==> BaseFits(cwd))
    ensures ok ==> Holds(temp, len, Base(cwd, input)) && p <= |input| && Segments(input[p..]) == Segments(input)
  {
    if input != "" && input[0] == '/' {
      temp[0], temp[1] := '/', '\0';
      ok, len, p := true, 1, 1;
      assert temp[..1] == "/";
    } else {
      BaseShows(cwd);
      ok, len := CopyBase(temp, cwd);
      p := 0;
      assert input[0..] == input;
    }
  }

  lemma OverrunAt(base: seq<string>, all: seq<string>, k: nat)
    requires k < |all| && IsClean(all[k]) && |Joined(StoredAll(base, all[..k]))| >= BUFFER - 1
    ensures !NoOverrun(base, all)
  {
  }

  method TakeAll(temp: array<char>, n: nat, input: string, start: nat, ghost base: seq<string>) returns (ok: bool, len: nat)
    requires start <= |input| && Holds(temp, n, base)
    modifies temp
    ensures ok <==> NoOverrun(base, Segments(input[start..]))
    ensures ok ==> Holds(temp, len, StoredAll(base, Segments(input[start..])))
  {
    len := n;
    var p := start;
    ghost var all, stack, done := Segments(input[start..]), base, [];
    while p < |input|
      invariant p <= |input| && Holds(temp, len, stack)
      invariant all == done + Segments(input[p..]) && stack == StoredAll(base, done)
      invariant NoOverrun(base, done)
      decreases |input| - p
    {
      var q, end := NextSegment(input, p);
      if q < end {
        ghost var s := input[q..end];
        NextOf(all, done, s, Segments(input[end..]));
        ok, len := TakeSegment(temp, len, input, q, end, stack);
        if !ok {
          OverrunAt(base, all, |done|);
          return;
        }
        StoredSnoc(base, done, s);
        OverrunSnoc(base, done, s);
        done, stack := done + [s], Stored(stack, s);
      }
      p := end;
    }
    assert done + [] == done;
    ok := true;
  }

  /** The whole of resolve_path, up to the first write behind its buffer, which happens exactly when the input is not
      roomy. `dest` receives the folded stack, with components cut where the buffer ended, as a terminated string;
      nothing is cut if every path on the way fits. The result can be the working directory of a later call. */
  method ResolvePath(dest: array<char>, cwd: string, input: string) returns (ok: bool)
    requires dest.Length >= BUFFER && IsText(cwd) && IsText(input) && (input == "" || input[0] != '/' ==> IsPlain(cwd))
    modifies dest
    ensures ok <==> Roomy(cwd, input)
    ensures var r := Render(StoredAll(Base(cwd, input), Segments(input)));
            ok ==> |r| < BUFFER && dest[..|r|] == r && dest[|r|] == '\0' && IsPlain(r)
    ensures Fitting(Base(cwd, input), Segments(input)) ==> Render(StoredAll(Base(cwd, input), Segments(input))) == Resolved(cwd, input)
  {
    var temp := new char[BUFFER];
    var len, p;
    SegmentsAreSegments(input);
    if Fitting(Base(cwd, input), Segments(input)) {
      FittingIsExact(Base(cwd, input), Segments(input));
    }
    ok, len, p := StartBuffer(temp, cwd, input);
    if ok {
      ok, len := TakeAll(temp, len, input, p, Base(cwd, input));
    }
    if ok {
      RenderRoundTrip(StoredAll(Base(cwd, input), Segments(input)));
      len := Trim(temp, len, StoredAll(Base(cwd, input), Segments(input)));
      OutputIsText(cwd, input);
      CopyOut(dest, temp, len);
    }
  }
}
