/** Path normalisation and the current directory of the shell (normalize_path and cmd_cd of src/lib/shell.c). */
module Paths {
  import opened Common

  const BUFFER := 255
  const SEGMENT := 63
  const DEPTH := 32

  // ---------------------------------------------------------------- what a path means

  /** The components of a path between its slashes, empty ones included. */
  function Split(s: string): (r: seq<string>)
    ensures r != []
  {
    if s == "" then [""] else Before(s[0], Split(s[1..]))
  }

  /** A character put in front of the path that has the given components. */
  function Before(ch: char, r: seq<string>): (b: seq<string>)
    requires r != []
    ensures b != []
  {
    if ch == '/' then [""] + r else [[ch] + r[0]] + r[1..]
  }

  /** One component, applied to the names from the root down. */
  function Step(stack: seq<string>, c: string): seq<string> {
    if c == "" || c == "." then stack
    else if c == ".." then (if stack == [] then [] else stack[..|stack| - 1])
    else stack + [c]
  }

  function Resolve(stack: seq<string>, cs: seq<string>): seq<string>
    decreases cs
  {
    if cs == [] then stack else Resolve(Step(stack, cs[0]), cs[1..])
  }

  function Slashed(stack: seq<string>): string {
    if stack == [] then "" else Slashed(stack[..|stack| - 1]) + "/" + stack[|stack| - 1]
  }

  function Render(stack: seq<string>): string {
    if stack == [] then "/" else Slashed(stack)
  }

  predicate IsName(c: string) {
    c != "" && '/' !in c
  }

  /** A name that can stand in a normalised path. */
  predicate Proper(c: string) {
    IsName(c) && c != "." && c != ".."
  }

  ghost predicate AllProper(cs: seq<string>) {
    forall i | 0 <= i < |cs| :: Proper(cs[i])
  }

  /** Names without slashes, "." and ".." among them perhaps. */
  ghost predicate Plain(cs: seq<string>) {
    forall i | 0 <= i < |cs| :: IsName(cs[i])
  }

  ghost predicate Short(cs: seq<string>) {
    forall i | 0 <= i < |cs| :: |cs[i]| <= SEGMENT
  }

  /** The names in a normalised path. */
  function Names(p: string): seq<string>
    requires p != ""
  {
    if p == "/" then [] else Split(p[1..])
  }

  /** No empty component, no "." and no "..", and not too long for the shell's buffers. */
  ghost predicate Normal(p: string) {
    && p != "" && p[0] == '/' && |p| <= BUFFER
    && AllProper(Names(p)) && Short(Names(p)) && |Names(p)| <= DEPTH
  }

  // ---------------------------------------------------------------- what the code does

  /** The contents of temp: the path, after the current directory if it is relative, cut off at 255. */
  function Joined(cwd: string, path: string): string
    requires cwd != ""
  {
    if path != "" && path[0] == '/' then path
    else cwd + (if cwd[|cwd| - 1] != '/' then "/" else "") + path
  }

  function Cut(s: string): (r: string)
    ensures |r| <= BUFFER && r <= s
  {
    if |s| <= BUFFER then s else s[..BUFFER]
  }

  /** Length of the first segment: up to a slash, the end or 63 characters. */
  function Span(s: string, n: nat): (k: nat)
    ensures k <= |s| && k <= n && '/' !in s[..k]
    ensures k < |s| && k < n ==> s[k] == '/'
  {
    if s == "" || n == 0 || s[0] == '/' then 0 else 1 + Span(s[1..], n - 1)
  }

  function AfterSlash(s: string): (r: string)
    ensures |r| == if s != "" && s[0] == '/' then |s| - 1 else |s|
  {
    if s != "" && s[0] == '/' then s[1..] else s
  }

  /** The segments that the parsing loop finds. */
  function Pieces(s: string): seq<string>
    decreases |s|
  {
    if s == "" then []
    else
      var k := Span(s, SEGMENT);
      [s[..k]] + Pieces(AfterSlash(s[k..]))
  }

  /** The stack of at most 32 names. */
  function Put(stack: seq<string>, c: string): seq<string> {
    if |stack| >= DEPTH && |Step(stack, c)| > |stack| then stack else Step(stack, c)
  }

  function PutAll(stack: seq<string>, cs: seq<string>): seq<string>
    decreases cs
  {
    if cs == [] then stack else PutAll(Put(stack, cs[0]), cs[1..])
  }

  /** One name more in the result buffer, as much of it as fits. */
  function Append(result: string, c: string): (r: string)
    ensures |r| >= |result| && (|result| < 254 ==> |r| > |result|)
  {
    if |result| >= 254 then result
    else result + "/" + if |result| + 1 + |c| <= 255 then c else c[..254 - |result|]
  }

  function AppendAll(result: string, stack: seq<string>): (r: string)
    ensures |r| >= |result| && (|result| < 254 && stack != [] ==> |r| > |result|)
    decreases stack
  {
    if stack == [] then result else AppendAll(Append(result, stack[0]), stack[1..])
  }

  /** The text that normalize_path parses, and the names it ends up with. */
  function Text(cwd: string, path: string): string
    requires cwd != ""
  {
    AfterSlash(Cut(Joined(cwd, path)))
  }

  function NamesFound(cwd: string, path: string): seq<string>
    requires cwd != ""
  {
    PutAll([], Pieces(Text(cwd, path)))
  }

  function Normalize(cwd: string, path: string): (r: string)
    requires cwd != ""
    ensures r != ""
  {
    var stack := NamesFound(cwd, path);
    if stack == [] then "/" else AppendAll("", stack)
  }

  // ---------------------------------------------------------------- the loops

  method BuildTemp(cwd: string, path: string) returns (temp: string)
    requires cwd != "" && |cwd| <= BUFFER
    ensures temp == Cut(Joined(cwd, path))
  {
    if path != "" && path[0] == '/' {
      temp := "";
      var i := 0;
      while i < |path| && i < BUFFER
        invariant i <= |path| && i <= BUFFER && temp == path[..i]
      {
        temp := temp + [path[i]];
        i := i + 1;
      }
    } else {
      temp := cwd;
      if temp[|temp| - 1] != '/' {
        if |temp| < BUFFER { temp := temp + "/"; }
      }
      ghost var base := cwd + (if cwd[|cwd| - 1] != '/' then "/" else "");
      var i := 0;
      while i < |path| && |temp| < BUFFER
        invariant i <= |path| && |temp| <= BUFFER
        invariant if |base| > BUFFER then temp == cwd && i == 0 && |temp| == BUFFER else temp == base + path[..i]
      {
        temp := temp + [path[i]];
        i := i + 1;
      }
      assert base + path == Joined(cwd, path);
      assert |base| <= BUFFER ==> base + path[..i] == (base + path)[..|base| + i];
    }
  }

  /** One round of the parsing loop: the next segment and what is left of the text. */
  method NextSegment(text: string) returns (segment: string, rest: string)
    requires text != ""
    ensures segment == text[..Span(text, SEGMENT)] && rest == AfterSlash(text[Span(text, SEGMENT)..])
  {
    segment := "";
    var i := 0;
    while i < |text| && text[i] != '/' && |segment| < SEGMENT
      invariant i <= |text| && |segment| == i <= SEGMENT && segment == text[..i]
      invariant Span(text, SEGMENT) == i + Span(text[i..], SEGMENT - i)
    {
      segment := segment + [text[i]];
      i := i + 1;
    }
    rest := text[i..];
    if i < |text| && text[i] == '/' { rest := text[i + 1..]; }
  }

  /** What the parsing loop does with a segment. */
  method PutSegment(stack: seq<string>, segment: string) returns (r: seq<string>)
    ensures r == Put(stack, segment)
  {
    r := stack;
    if segment == "" || segment == "." {
      return;
    } else if segment == ".." {
      if |stack| > 0 { r := stack[..|stack| - 1]; }
    } else if |stack| < DEPTH {
      r := stack + [segment];
    }
  }

  /** One round of the loop that builds the result. */
  method CopySegment(result: string, segment: string) returns (r: string)
    ensures r == Append(result, segment)
  {
    r := result;
    if |result| < 254 {
      r := result + "/";
      var j := 0;
      while j < |segment| && |result| + 1 + j < 255
        invariant j <= |segment| && |result| + 1 + j <= 255 && r == result + "/" + segment[..j]
      {
        r := r + [segment[j]];
        j := j + 1;
      }
      assert j == |segment| ==> segment[..j] == segment;
    }
  }

  /** normalize_path with a path. */
  method NormalizePath(cwd: string, path: string) returns (result: string)
    requires cwd != "" && |cwd| <= BUFFER
    ensures result == Normalize(cwd, path)
  {
    hide Joined, Cut, Span, Put, Append;
    var text := BuildTemp(cwd, path);
    if text != "" && text[0] == '/' { text := text[1..]; }
    var stack: seq<string> := [];
    ghost var all := PutAll([], Pieces(text));
    while text != ""
      invariant PutAll(stack, Pieces(text)) == all
      decreases |text|
    {
      var segment;
      segment, text := NextSegment(text);
      stack := PutSegment(stack, segment);
    }
    if |stack| == 0 { return "/"; }
    result := "";
    var i := 0;
    while i < |stack|
      invariant 0 <= i <= |stack| && AppendAll(result, stack[i..]) == AppendAll("", stack)
    {
      result := CopySegment(result, stack[i]);
      assert stack[i..][1..] == stack[i + 1..];
      i := i + 1;
    }
  }

  // ---------------------------------------------------------------- splitting

  lemma {:induction false} SplitConcat(a: string, b: string)
    requires '/' !in a
    ensures Split(a) == [a] && Split(a + "/" + b) == [a] + Split(b)
  {
    if a == "" {
      assert a + "/" + b == "/" + b;
      assert ("/" + b)[1..] == b;
    } else {
      SplitConcat(a[1..], b);
      assert (a + "/" + b)[1..] == a[1..] + "/" + b;
      assert [a[0]] + a[1..] == a;
    }
  }

  /** Splitting the concatenation of two paths with a slash between. */
  lemma {:induction false} SplitJoin(a: string, b: string)
    ensures Split(a + "/" + b) == Split(a) + Split(b)
  {
    if a == "" {
      SplitConcat("", b);
    } else {
      hide Split, Before;
      SplitJoin(a[1..], b);
      assert a + "/" + b == [a[0]] + (a[1..] + "/" + b);
      SplitMore(a, a[1..]);
      SplitMore(a + "/" + b, a[1..] + "/" + b);
      BeforeJoin(a[0], Split(a[1..]), Split(b));
    }
  }

  lemma SplitMore(s: string, rest: string)
    requires s != "" && s[1..] == rest
    ensures Split(s) == Before(s[0], Split(rest))
  {
  }

  lemma BeforeJoin(ch: char, r: seq<string>, t: seq<string>)
    requires r != []
    ensures Before(ch, r + t) == Before(ch, r) + t
  {
  }

  lemma {:induction false} NoSlashInside(s: string)
    ensures forall i | 0 <= i < |Split(s)| :: '/' !in Split(s)[i]
  {
    if s != "" { NoSlashInside(s[1..]); }
  }

  lemma {:induction false} SlashedSplit(stack: seq<string>)
    requires stack != [] && forall i | 0 <= i < |stack| :: '/' !in stack[i]
    ensures Slashed(stack) != "" && Slashed(stack)[0] == '/' && Split(Slashed(stack)[1..]) == stack
  {
    hide Split;
    var n := |stack| - 1;
    var last := stack[n];
    if n == 0 {
      SplitConcat(last, "");
      assert Slashed(stack[..0]) == "";
      assert Slashed(stack) == "/" + last;
      assert stack == [last];
    } else {
      SlashedSplit(stack[..n]);
      var s := Slashed(stack[..n]);
      SplitJoin(s[1..], last);
      SplitConcat(last, "");
      assert Slashed(stack)[1..] == s[1..] + "/" + last;
      assert stack == stack[..n] + [last];
    }
  }

  /** Rendering and splitting are inverse: the names in a rendered path are the names rendered. */
  lemma NamesOfRender(stack: seq<string>)
    requires Plain(stack)
    ensures Render(stack) != "" && Render(stack)[0] == '/' && Names(Render(stack)) == stack
  {
    if stack != [] {
      SlashedSplit(stack);
      SlashedFront(stack[0], stack[1..]);
      assert [stack[0]] + stack[1..] == stack && stack[0] != "";
    }
  }

  lemma NoSlashed()
    ensures Slashed([]) == ""
  {
  }

  lemma {:induction false} SlashedOfSplit(s: string)
    ensures Slashed(Split(s)) == "/" + s
  {
    hide Slashed;
    if s == "" {
      SlashedFront("", []);
      assert [""] + [] == [""];
      NoSlashed();
    } else {
      var r := Split(s[1..]);
      SlashedOfSplit(s[1..]);
      SplitMore(s, s[1..]);
      hide Split;
      if s[0] == '/' { SlashedFront("", r); } else { SlashedGrow(s[0], r); }
      assert [s[0]] + s[1..] == s;
    }
  }

  lemma {:induction false} SlashedFront(c: string, r: seq<string>)
    ensures Slashed([c] + r) == "/" + c + Slashed(r)
  {
    var s := [c] + r;
    if r == [] {
      assert s == [c] && s[..0] == [];
    } else {
      assert s[..|s| - 1] == [c] + r[..|r| - 1];
      SlashedFront(c, r[..|r| - 1]);
    }
  }

  lemma SlashedGrow(ch: char, r: seq<string>)
    requires r != []
    ensures Slashed([[ch] + r[0]] + r[1..]) == "/" + [ch] + Slashed(r)[1..] && Slashed(r) != ""
  {
    hide Slashed;
    var rest := Slashed(r[1..]);
    SlashedFront(r[0], r[1..]);
    SlashedFront([ch] + r[0], r[1..]);
    assert [r[0]] + r[1..] == r;
    assert Slashed(r)[1..] == r[0] + rest;
    assert "/" + ([ch] + r[0]) + rest == "/" + [ch] + (r[0] + rest);
  }

  /** A normalised path is the rendering of its names. */
  lemma RenderOfNames(p: string)
    requires p != "" && p[0] == '/'
    ensures Render(Names(p)) == p
  {
    if p != "/" { SlashedOfSplit(p[1..]); }
  }

  // ---------------------------------------------------------------- resolving

  lemma {:induction false} ResolveJoin(stack: seq<string>, a: seq<string>, b: seq<string>)
    ensures Resolve(stack, a + b) == Resolve(Resolve(stack, a), b)
    decreases a
  {
    if a == [] {
      assert a + b == b;
    } else {
      assert (a + b)[1..] == a[1..] + b;
      ResolveJoin(Step(stack, a[0]), a[1..], b);
    }
  }

  /** Proper names only pile up. */
  lemma {:induction false} ResolveProper(stack: seq<string>, cs: seq<string>)
    requires AllProper(cs)
    ensures Resolve(stack, cs) == stack + cs
    decreases cs
  {
    if cs != [] {
      assert Proper(cs[0]);
      ResolveProper(stack + [cs[0]], cs[1..]);
      assert stack + [cs[0]] + cs[1..] == stack + cs;
    }
  }

  /** Resolving leaves no ".", ".." or empty name. */
  lemma {:induction false} ResolveKeepsProper(stack: seq<string>, cs: seq<string>)
    requires AllProper(stack) && forall i | 0 <= i < |cs| :: '/' !in cs[i]
    ensures AllProper(Resolve(stack, cs))
    decreases cs
  {
    if cs != [] { ResolveKeepsProper(Step(stack, cs[0]), cs[1..]); }
  }

  /** No prefix of the components leads more than 32 names deep. */
  ghost predicate Shallow(stack: seq<string>, cs: seq<string>)
    decreases cs
  {
    |stack| <= DEPTH && (cs == [] || Shallow(Step(stack, cs[0]), cs[1..]))
  }

  lemma {:induction false} PutIsStep(stack: seq<string>, cs: seq<string>)
    requires Shallow(stack, cs)
    ensures PutAll(stack, cs) == Resolve(stack, cs)
    decreases cs
  {
    if cs != [] { PutIsStep(Step(stack, cs[0]), cs[1..]); }
  }

  // ---------------------------------------------------------------- parsing

  /** What the segment buffer of 63 characters makes of a component. */
  function Chunks(c: string): seq<string>
    decreases |c|
  {
    if |c| <= SEGMENT then [c] else [c[..SEGMENT]] + Chunks(c[SEGMENT..])
  }

  function Chopped(cs: seq<string>): seq<string> {
    if cs == [] then [] else Chunks(cs[0]) + Chopped(cs[1..])
  }

  lemma {:induction false} ChoppedShort(cs: seq<string>)
    requires Short(cs)
    ensures Chopped(cs) == cs
  {
    if cs != [] {
      ChoppedShort(cs[1..]);
      assert [cs[0]] + cs[1..] == cs;
    }
  }

  lemma {:induction false} ChoppedJoin(a: seq<string>, b: seq<string>)
    ensures Chopped(a + b) == Chopped(a) + Chopped(b)
  {
    if a == [] {
      assert a + b == b;
    } else {
      assert (a + b)[1..] == a[1..] + b;
      ChoppedJoin(a[1..], b);
    }
  }

  lemma {:induction false} ChunksFine(c: string)
    requires '/' !in c
    ensures Short(Chunks(c)) && forall i | 0 <= i < |Chunks(c)| :: '/' !in Chunks(c)[i]
    decreases |c|
  {
    if |c| > SEGMENT {
      ChunksFine(c[SEGMENT..]);
    }
  }

  lemma {:induction false} ChoppedFine(cs: seq<string>)
    requires forall i | 0 <= i < |cs| :: '/' !in cs[i]
    ensures Short(Chopped(cs)) && forall i | 0 <= i < |Chopped(cs)| :: '/' !in Chopped(cs)[i]
  {
    if cs != [] {
      ChunksFine(cs[0]);
      ChoppedFine(cs[1..]);
    }
  }

  lemma {:induction false} SplitPrefix(a: string, b: string)
    requires '/' !in a
    ensures Split(a + b) == [a + Split(b)[0]] + Split(b)[1..]
  {
    if a == "" {
      assert a + b == b && a + Split(b)[0] == Split(b)[0];
    } else {
      SplitPrefix(a[1..], b);
      assert (a + b)[1..] == a[1..] + b;
      assert [a[0]] + (a[1..] + Split(b)[0]) == a + Split(b)[0];
    }
  }

  /** The parsing loop finds the components, but for empty ones at the end. One of more than 63 characters
      counts as its pieces of 63. */
  lemma {:induction false} PiecesAreComponents(stack: seq<string>, s: string)
    ensures PutAll(stack, Pieces(s)) == PutAll(stack, Chopped(Split(s)))
    decreases |s|
  {
    if s == "" {
      assert Chopped([""]) == [""] + Chopped([]) == [""];
      assert PutAll(Put(stack, ""), []) == stack;
    } else {
      var k := Span(s, SEGMENT);
      if k == |s| {
        assert s[..k] == s;
        SplitConcat(s, "");
        assert Chopped([s]) == [s] + Chopped([]) == [s];
        assert AfterSlash(s[k..]) == "";
        assert Pieces(s) == [s] + [];
      } else if s[k] == '/' {
        PieceAtSlash(stack, s, k);
        PiecesAreComponents(Put(stack, s[..k]), s[k + 1..]);
      } else {
        LongPiece(stack, s);
        PiecesAreComponents(Put(stack, s[..k]), s[k..]);
      }
    }
  }

  lemma PieceAtSlash(stack: seq<string>, s: string, k: nat)
    requires s != "" && k == Span(s, SEGMENT) && k < |s| && s[k] == '/'
    ensures PutAll(stack, Pieces(s)) == PutAll(Put(stack, s[..k]), Pieces(s[k + 1..]))
    ensures PutAll(stack, Chopped(Split(s))) == PutAll(Put(stack, s[..k]), Chopped(Split(s[k + 1..])))
  {
    var c, rest := s[..k], s[k + 1..];
    assert s == c + "/" + rest && AfterSlash(s[k..]) == rest;
    SplitConcat(c, rest);
    assert Split(s)[0] == c && Split(s)[1..] == Split(rest);
    assert Pieces(s) == [c] + Pieces(rest);
    assert Chopped(Split(s)) == [c] + Chopped(Split(rest));
  }

  lemma LongPiece(stack: seq<string>, s: string)
    requires |s| > SEGMENT && Span(s, SEGMENT) == SEGMENT && s[SEGMENT] != '/'
    ensures PutAll(stack, Pieces(s)) == PutAll(Put(stack, s[..SEGMENT]), Pieces(s[SEGMENT..]))
    ensures PutAll(stack, Chopped(Split(s))) == PutAll(Put(stack, s[..SEGMENT]), Chopped(Split(s[SEGMENT..])))
  {
    var c, rest := s[..63], s[63..];
    assert s == c + rest && AfterSlash(rest) == rest;
    assert Pieces(s) == [c] + Pieces(rest);
    SplitPrefix(c, rest);
    var first := Split(rest)[0];
    LongFirst(rest, 1);
    assert (c + first)[..63] == c && (c + first)[63..] == first;
    assert Chunks(c + first) == [c] + Chunks(first);
    assert Chopped(Split(s)) == Chunks(c + first) + Chopped(Split(rest)[1..]);
    assert Chopped(Split(rest)) == Chunks(first) + Chopped(Split(rest)[1..]);
    assert Chopped(Split(s)) == [c] + Chopped(Split(rest));
  }

  /** With short components the first segment ends at a slash or at the end. */
  lemma FirstPiece(s: string, k: nat)
    requires |Split(s)[0]| <= SEGMENT && k == Span(s, SEGMENT)
    ensures k < |s| ==> s[k] == '/'
  {
    if k < |s| && s[k] != '/' {
      assert s[..k + 1] == s[..k] + [s[k]];
      hide Split, Span;
      LongFirst(s, k + 1);
    }
  }

  lemma {:induction false} LongFirst(s: string, k: nat)
    requires k <= |s| && '/' !in s[..k]
    ensures |Split(s)[0]| >= k
  {
    if k > 0 {
      assert s[..k][0] == s[0];
      assert s[1..][..k - 1] == s[..k][1..];
      LongFirst(s[1..], k - 1);
    }
  }

  lemma SplitAbsolute(s: string)
    requires s != "" && s[0] == '/'
    ensures Split(s) == [""] + Split(s[1..])
  {
  }

  // ---------------------------------------------------------------- building the result

  function Weight(stack: seq<string>): nat {
    if stack == [] then 0 else Weight(stack[1..]) + 1 + |stack[0]|
  }

  lemma {:induction false} WeightPush(stack: seq<string>, c: string)
    ensures Weight(stack + [c]) == Weight(stack) + 1 + |c|
  {
    if stack == [] {
      assert ([c])[1..] == [];
    } else {
      assert (stack + [c])[1..] == stack[1..] + [c];
      WeightPush(stack[1..], c);
    }
  }

  lemma WeightPut(stack: seq<string>, c: string)
    ensures Weight(Put(stack, c)) <= Weight(stack) + 1 + |c|
  {
    WeightPush(stack, c);
    if stack != [] {
      WeightPush(stack[..|stack| - 1], stack[|stack| - 1]);
      assert stack[..|stack| - 1] + [stack[|stack| - 1]] == stack;
    }
  }

  /** The names found never need more room than the text they came from. */
  lemma {:induction false} PiecesFit(stack: seq<string>, s: string)
    requires Short(Split(s))
    ensures Weight(PutAll(stack, Pieces(s))) <= Weight(stack) + |s| + 1
    decreases |s|
  {
    if s != "" {
      var k := Span(s, SEGMENT);
      FirstPiece(s, k);
      WeightPut(stack, s[..k]);
      if k < |s| {
        var rest := s[k + 1..];
        assert s == s[..k] + "/" + rest;
        assert AfterSlash(s[k..]) == rest;
        SplitConcat(s[..k], rest);
        assert forall i | 0 <= i < |Split(rest)| :: Split(rest)[i] == Split(s)[i + 1];
        PiecesFit(Put(stack, s[..k]), rest);
        assert Pieces(s) == [s[..k]] + Pieces(rest);
      } else {
        assert AfterSlash(s[k..]) == "";
        assert Pieces(s) == [s[..k]] + [];
      }
    }
  }

  /** The names as they come out in the result when `used` characters are taken: whole ones, and at the end
      perhaps one that is cut. */
  function Shown(used: nat, stack: seq<string>): seq<string>
    decreases stack
  {
    if stack == [] || used >= 254 then []
    else
      var c := stack[0];
      if used + 1 + |c| <= 255 then [c] + Shown(used + 1 + |c|, stack[1..]) else [c[..254 - used]]
  }

  lemma {:induction false} AppendFull(result: string, stack: seq<string>)
    requires |result| >= 254
    ensures AppendAll(result, stack) == result
    decreases stack
  {
    if stack != [] { AppendFull(result, stack[1..]); }
  }

  lemma AppendCut(result: string, stack: seq<string>)
    requires stack != [] && |result| < 254 && |result| + 1 + |stack[0]| > 255
    ensures AppendAll(result, stack) == result + ("/" + stack[0][..254 - |result|])
  {
    var full := Append(result, stack[0]);
    assert full == result + ("/" + stack[0][..254 - |result|]);
    AppendFull(full, stack[1..]);
  }

  lemma {:induction false} AppendAllIs(result: string, stack: seq<string>)
    ensures AppendAll(result, stack) == result + Slashed(Shown(|result|, stack))
    decreases stack
  {
    hide Append, Slashed;
    assert Slashed([]) == "" by { NoSlashed(); }
    if stack == [] {
    } else if |result| >= 254 {
      AppendFull(result, stack);
    } else if |result| + 1 + |stack[0]| > 255 {
      hide AppendAll;
      AppendCut(result, stack);
      var cut := stack[0][..254 - |result|];
      SlashedFront(cut, []);
      assert [cut] + [] == [cut] && "/" + cut + "" == "/" + cut;
    } else {
      var c := stack[0];
      AppendWhole(result, c);
      AppendAllIs(result + ("/" + c), stack[1..]);
      var more := Shown(|result| + 1 + |c|, stack[1..]);
      hide AppendAll;
      SlashedFront(c, more);
      assert result + ("/" + c) + Slashed(more) == result + ("/" + c + Slashed(more));
    }
  }

  lemma AppendWhole(result: string, c: string)
    requires |result| < 254 && |result| + 1 + |c| <= 255
    ensures Append(result, c) == result + ("/" + c)
  {
  }

  /** When everything fits, everything is shown. */
  lemma {:induction false} ShownWhole(used: nat, stack: seq<string>)
    requires Plain(stack)
    requires used + Weight(stack) <= 255
    ensures Shown(used, stack) == stack
    decreases stack
  {
    if stack != [] {
      assert stack[0] != "";
      ShownWhole(used + 1 + |stack[0]|, stack[1..]);
      assert [stack[0]] + stack[1..] == stack;
    }
  }

  /** The name in whose middle the result buffer ends is cut to "." or "..". */
  predicate CutAt(used: nat, stack: seq<string>, k: nat)
    requires k < |stack|
  {
    var room := 254 - (used + Weight(stack[..k]));
    1 <= room <= 2 && |stack[k]| > room && stack[k][..room] == if room == 1 then "." else ".."
  }

  ghost predicate CutToDots(used: nat, stack: seq<string>) {
    exists k: nat :: k < |stack| && CutAt(used, stack, k)
  }

  lemma CutFirst(used: nat, stack: seq<string>)
    requires stack != []
    ensures var room := 254 - used;
            CutAt(used, stack, 0) <==>
              1 <= room <= 2 && |stack[0]| > room && stack[0][..room] == if room == 1 then "." else ".."
  {
    assert Weight(stack[..0]) == 0;
  }

  lemma CutLater(used: nat, stack: seq<string>, k: nat)
    requires k + 1 < |stack|
    ensures CutAt(used, stack, k + 1) <==> CutAt(used + 1 + |stack[0]|, stack[1..], k)
  {
    assert stack[..k + 1][0] == stack[0] && stack[..k + 1][1..] == stack[1..][..k];
    assert Weight(stack[..k + 1]) == Weight(stack[1..][..k]) + 1 + |stack[0]|;
  }

  lemma CutShift(used: nat, stack: seq<string>)
    requires stack != [] && !CutAt(used, stack, 0)
    ensures CutToDots(used, stack) <==> CutToDots(used + 1 + |stack[0]|, stack[1..])
  {
    hide CutAt;
    if CutToDots(used, stack) {
      var k: nat :| k < |stack| && CutAt(used, stack, k);
      assert k != 0;
      CutLater(used, stack, k - 1);
    }
    if CutToDots(used + 1 + |stack[0]|, stack[1..]) {
      var k: nat :| k < |stack[1..]| && CutAt(used + 1 + |stack[0]|, stack[1..], k);
      CutLater(used, stack, k);
    }
  }

  /** A full buffer cuts nothing. */
  lemma CutNothing(used: nat, stack: seq<string>)
    requires used >= 254 || used + Weight(stack) <= 255
    ensures !CutToDots(used, stack)
  {
    if k: nat :| k < |stack| && CutAt(used, stack, k) {
      assert stack == stack[..k] + [stack[k]] + stack[k + 1..];
      WeightPush(stack[..k], stack[k]);
      WeightJoin(stack[..k] + [stack[k]], stack[k + 1..]);
    }
  }

  lemma {:induction false} WeightJoin(a: seq<string>, b: seq<string>)
    ensures Weight(a + b) == Weight(a) + Weight(b)
  {
    if a == [] {
      assert a + b == b;
    } else {
      assert (a + b)[1..] == a[1..] + b;
      WeightJoin(a[1..], b);
    }
  }

  /** What is shown of proper names is short enough, and proper again unless a name is cut to "." or "..". */
  lemma {:induction false} ShownProper(used: nat, stack: seq<string>)
    requires AllProper(stack) && Short(stack)
    ensures var s := Shown(used, stack);
            && Plain(s) && Short(s) && |s| <= |stack| && (used < 254 && stack != [] ==> s != [])
            && used + Weight(s) <= (if used <= 255 then 255 else used)
            && (AllProper(s) <==> !CutToDots(used, stack))
    decreases stack
  {
    if stack == [] || used >= 254 {
      CutNothing(used, stack);
    } else {
      var c := stack[0];
      assert Proper(c);
      CutFirst(used, stack);
      if used + 1 + |c| <= 255 {
        ShownProper(used + 1 + |c|, stack[1..]);
        CutShift(used, stack);
        var more := Shown(used + 1 + |c|, stack[1..]);
        ProperCons(c, more);
      } else {
        CutEnds(used, stack);
      }
    }
  }

  lemma ProperCons(c: string, more: seq<string>)
    requires Proper(c)
    ensures AllProper([c] + more) <==> AllProper(more)
  {
    var s := [c] + more;
    if AllProper(s) {
      forall i | 0 <= i < |more| ensures Proper(more[i]) {
        assert Proper(s[i + 1]);
      }
    }
  }

  /** The case of a first name that does not fit. */
  lemma CutEnds(used: nat, stack: seq<string>)
    requires stack != [] && used < 254 && used + 1 + |stack[0]| > 255 && Proper(stack[0]) && |stack[0]| <= SEGMENT
    ensures var cut := stack[0][..254 - used];
            && cut != "" && '/' !in cut && |cut| <= SEGMENT && Weight([cut]) == 255 - used
            && (AllProper([cut]) <==> !CutToDots(used, stack))
  {
    var c := stack[0];
    var cut := c[..254 - used];
    assert Weight([cut][1..]) == 0;
    assert forall ch | ch in cut :: ch in c;
    CutFirst(used, stack);
    if !CutAt(used, stack, 0) {
      CutShift(used, stack);
      CutNothing(used + 1 + |c|, stack[1..]);
    }
    assert AllProper([cut]) <==> Proper(cut);
    assert cut == "." ==> |cut| == 1;
    assert cut == ".." ==> |cut| == 2;
  }

  lemma {:induction false} SlashedLength(stack: seq<string>)
    ensures |Slashed(stack)| == Weight(stack)
  {
    if stack != [] {
      SlashedFront(stack[0], stack[1..]);
      assert [stack[0]] + stack[1..] == stack;
      SlashedLength(stack[1..]);
    }
  }

  /** The stack holds proper short names, 32 at most. */
  ghost predicate GoodStack(stack: seq<string>) {
    AllProper(stack) && Short(stack) && |stack| <= DEPTH
  }

  lemma {:induction false} PutAllGood(stack: seq<string>, cs: seq<string>)
    requires GoodStack(stack) && Short(cs) && forall i | 0 <= i < |cs| :: '/' !in cs[i]
    ensures GoodStack(PutAll(stack, cs))
    decreases cs
  {
    if cs != [] { PutAllGood(Put(stack, cs[0]), cs[1..]); }
  }

  // ---------------------------------------------------------------- main results

  lemma {:induction false} PiecesAreShort(s: string)
    ensures Short(Pieces(s)) && forall i | 0 <= i < |Pieces(s)| :: '/' !in Pieces(s)[i]
    decreases |s|
  {
    if s != "" { PiecesAreShort(AfterSlash(s[Span(s, SEGMENT)..])); }
  }

  lemma FoundGood(cwd: string, path: string)
    requires cwd != ""
    ensures GoodStack(NamesFound(cwd, path))
  {
    PiecesAreShort(Text(cwd, path));
    PutAllGood([], Pieces(Text(cwd, path)));
  }

  /** For every input: the result is the rendering of what is shown of the names found. */
  lemma NormalizeIsRender(cwd: string, path: string)
    requires cwd != ""
    ensures var shown := Shown(0, NamesFound(cwd, path));
            && Normalize(cwd, path) == Render(shown) && Plain(shown) && Short(shown)
            && |shown| <= |NamesFound(cwd, path)| <= DEPTH && |Normalize(cwd, path)| <= BUFFER
            && (AllProper(shown) <==> !CutToDots(0, NamesFound(cwd, path)))
  {
    var stack := NamesFound(cwd, path);
    FoundGood(cwd, path);
    ShownProper(0, stack);
    AppendAllIs("", stack);
    SlashedLength(Shown(0, stack));
  }

  /** Whatever was typed, the result has no empty, "." or ".." component and fits the shell's buffers exactly if
      the end of the 255-byte buffer does not cut a name to "." or "..". That is so at least whenever the names
      fit, and so whenever no component is longer than 63. */
  lemma ResultIsNormal(cwd: string, path: string)
    requires cwd != ""
    ensures Normal(Normalize(cwd, path)) <==> !CutToDots(0, NamesFound(cwd, path))
    ensures Weight(NamesFound(cwd, path)) <= BUFFER ==> Normal(Normalize(cwd, path))
    ensures Short(Split(Text(cwd, path))) && Joined(cwd, path)[0] == '/' ==> Weight(NamesFound(cwd, path)) <= BUFFER
  {
    NormalizeIsRender(cwd, path);
    NamesOfRender(Shown(0, NamesFound(cwd, path)));
    if Weight(NamesFound(cwd, path)) <= BUFFER { CutNothing(0, NamesFound(cwd, path)); }
    if Short(Split(Text(cwd, path))) {
      PiecesFit([], Text(cwd, path));
    }
  }

  lemma {:induction false} GoodIsShallow(stack: seq<string>, cs: seq<string>)
    requires AllProper(cs) && |stack| + |cs| <= DEPTH
    ensures Shallow(stack, cs)
    decreases cs
  {
    if cs != [] {
      assert Proper(cs[0]);
      GoodIsShallow(stack + [cs[0]], cs[1..]);
    }
  }

  /** Where the path is looked up from. */
  function Start(cwd: string, path: string): seq<string>
    requires cwd != ""
  {
    if path != "" && path[0] == '/' then [] else Names(cwd)
  }

  /** normalize_path evaluates the components of the path on a stack that starts with the names of the current
      directory, or empty if the path is absolute: it renders the resulting names exactly if they fit. A
      component of more than 63 characters counts as its pieces; without such ones the names always fit. */
  lemma NormalizeIsStackEvaluation(cwd: string, path: string)
    requires Normal(cwd) && |Joined(cwd, path)| <= BUFFER
    requires Shallow(Start(cwd, path), Chopped(Split(path)))
    ensures var names := Resolve(Start(cwd, path), Chopped(Split(path)));
            && NamesFound(cwd, path) == names
            && (Normalize(cwd, path) == Render(names) <==> Weight(names) <= BUFFER)
            && (Short(Split(path)) ==> Chopped(Split(path)) == Split(path) && Weight(names) <= BUFFER)
  {
    FoundIsResolve(cwd, path);
    var names := NamesFound(cwd, path);
    NormalizeIsRender(cwd, path);
    FoundGood(cwd, path);
    ShownProper(0, names);
    NamesOfRender(Shown(0, names));
    assert Plain(names) by { assert forall i | 0 <= i < |names| :: Proper(names[i]); }
    NamesOfRender(names);
    if Weight(names) <= BUFFER { ShownWhole(0, names); }
    if Short(Split(path)) {
      ChoppedShort(Split(path));
      TextSplit(cwd, path);
      PiecesFit([], Text(cwd, path));
    }
  }

  lemma FoundIsResolve(cwd: string, path: string)
    requires Normal(cwd) && |Joined(cwd, path)| <= BUFFER
    requires Shallow(Start(cwd, path), Chopped(Split(path)))
    ensures NamesFound(cwd, path) == Resolve(Start(cwd, path), Chopped(Split(path)))
  {
    var s, start := Text(cwd, path), Start(cwd, path);
    TextSplit(cwd, path);
    PiecesAreComponents([], s);
    if path != "" && path[0] == '/' {
      SplitAbsolute(path);
      assert Split(path)[0] == "" && Split(path)[1..] == Split(s);
      assert Chopped(Split(path)) == [""] + Chopped(Split(s));
      hide Chopped, Split, Text;
      AbsoluteStart(Chopped(Split(s)));
    } else {
      ChoppedJoin(start, Split(path));
      ChoppedShort(start);
      hide Chopped, Split, Text;
      GoodIsShallow([], start);
      ResolveProper([], start);
      assert [] + start == start;
      ShallowJoin([], start, Chopped(Split(path)));
      PutIsStep([], start + Chopped(Split(path)));
      ResolveJoin([], start, Chopped(Split(path)));
    }
  }

  lemma AbsoluteStart(cs: seq<string>)
    requires Shallow([], [""] + cs)
    ensures PutAll([], cs) == Resolve([], [""] + cs)
  {
    assert ([""] + cs)[1..] == cs;
    PutIsStep([], cs);
  }

  lemma {:induction false} ShallowJoin(stack: seq<string>, a: seq<string>, b: seq<string>)
    requires Shallow(stack, a) && Shallow(Resolve(stack, a), b)
    ensures Shallow(stack, a + b)
    decreases a
  {
    if a == [] {
      assert a + b == b;
    } else {
      assert (a + b)[1..] == a[1..] + b;
      ShallowJoin(Step(stack, a[0]), a[1..], b);
    }
  }

  lemma RelativeText(cwd: string, path: string)
    requires Normal(cwd) && cwd != "/" && |Joined(cwd, path)| <= BUFFER && (path == "" || path[0] != '/')
    ensures Text(cwd, path) == cwd[1..] + "/" + path
  {
    RenderOfNames(cwd);
    SlashedEnd(Names(cwd));
    hide Split, Slashed, Names;
    assert Joined(cwd, path) == cwd + "/" + path;
    assert (cwd + "/" + path)[1..] == cwd[1..] + "/" + path;
  }

  /** The components of the text parsed: those of the current directory and of the path. */
  lemma TextSplit(cwd: string, path: string)
    requires Normal(cwd) && |Joined(cwd, path)| <= BUFFER
    ensures Short(Split(path)) ==> Short(Split(Text(cwd, path)))
    ensures Split(Text(cwd, path)) ==
            if path != "" && path[0] == '/' then Split(path)[1..] else Names(cwd) + Split(path)
  {
    if path != "" && path[0] == '/' {
      SplitAbsolute(path);
      var s := Text(cwd, path);
      assert forall i | 0 <= i < |Split(s)| :: Split(s)[i] == Split(path)[i + 1];
    } else if cwd == "/" {
      hide Split;
      assert Joined(cwd, path) == "/" + path;
      assert Text(cwd, path) == path;
      assert [] + Split(path) == Split(path);
    } else {
      RelativeText(cwd, path);
      SplitJoin(cwd[1..], path);
    }
  }

  /** A rendered path does not end with a slash. */
  lemma SlashedEnd(stack: seq<string>)
    requires AllProper(stack) && stack != []
    ensures Slashed(stack) != "" && Slashed(stack)[|Slashed(stack)| - 1] != '/'
  {
    var last := stack[|stack| - 1];
    assert Proper(last);
    assert Slashed(stack)[|Slashed(stack)| - 1] == last[|last| - 1];
    assert last[|last| - 1] in last;
  }

  /** Components that are no names make the stack shorter than their number. */
  lemma {:induction false} PutAllLength(stack: seq<string>, cs: seq<string>)
    requires Plain(cs)
    ensures |PutAll(stack, cs)| <= |stack| + |cs|
    ensures !AllProper(cs) ==> |PutAll(stack, cs)| < |stack| + |cs|
    decreases cs
  {
    if cs != [] {
      PutAllLength(Put(stack, cs[0]), cs[1..]);
      if Proper(cs[0]) { ProperCons(cs[0], cs[1..]); }
      assert [cs[0]] + cs[1..] == cs;
    }
  }

  /** What normalize_path leaves alone are exactly the normalised paths. */
  lemma FixedIsNormal(cwd: string, p: string)
    requires cwd != ""
    ensures Normalize(cwd, p) == p <==> Normal(p)
  {
    if Normal(p) {
      NormalIsFixed(cwd, p);
    } else if Normalize(cwd, p) == p {
      NormalizeIsRender(cwd, p);
      var shown := Shown(0, NamesFound(cwd, p));
      NamesOfRender(shown);
      assert !AllProper(shown);
      assert Text(cwd, p) == p[1..];
      assert Split(p[1..]) == shown;
      ChoppedShort(shown);
      PiecesAreComponents([], p[1..]);
      PutAllLength([], shown);
    }
  }

  lemma NormalIsFixed(cwd: string, p: string)
    requires cwd != "" && Normal(p)
    ensures Normalize(cwd, p) == p
  {
    assert Joined(cwd, p) == p == Joined("/", p);
    RootIsNormal();
    RenderOfNames(p);
    hide Chopped, Split, Render, Names;
    NormalComponents(p);
    NormalizeIsStackEvaluation("/", p);
  }

  /** What there is to evaluate in a normalised path. */
  lemma NormalComponents(p: string)
    requires Normal(p)
    ensures Short(Split(p)) && Shallow([], Chopped(Split(p))) && Resolve([], Chopped(Split(p))) == Names(p)
  {
    SplitAbsolute(p);
    if p == "/" {
      assert Split(p) == ["", ""];
      ChoppedShort(["", ""]);
      assert Step([], "") == [] && ["", ""][1..] == [""] && [""][1..] == [];
    } else {
      var names := Names(p);
      assert Split(p) == [""] + names && ([""] + names)[1..] == names;
      hide Split;
      ChoppedShort([""] + names);
      hide Chopped;
      GoodIsShallow([], names);
      ResolveProper([], names);
      assert [] + names == names;
    }
  }

  /** Normalising twice is normalising once exactly if no name is cut to "." or "..". */
  lemma Idempotent(cwd: string, path: string)
    requires cwd != ""
    ensures Normalize(cwd, Normalize(cwd, path)) == Normalize(cwd, path) <==> !CutToDots(0, NamesFound(cwd, path))
  {
    ResultIsNormal(cwd, path);
    FixedIsNormal(cwd, Normalize(cwd, path));
  }

  /** Going to a and from there to b is going to a/b, if the names of the first step fit. */
  lemma TwoStepsAreOne(cwd: string, a: string, b: string)
    requires Normal(cwd) && a != "" && (b == "" || b[0] != '/')
    requires |Joined(cwd, a + "/" + b)| <= BUFFER && |Joined(cwd, a)| <= BUFFER
    requires Shallow(Start(cwd, a), Chopped(Split(a)))
    requires Shallow(Resolve(Start(cwd, a), Chopped(Split(a))), Chopped(Split(b)))
    requires Weight(Resolve(Start(cwd, a), Chopped(Split(a)))) <= BUFFER
    requires Normalize(cwd, a) != "" && |Joined(Normalize(cwd, a), b)| <= BUFFER
    ensures Normalize(Normalize(cwd, a), b) == Normalize(cwd, a + "/" + b)
  {
    var there := Resolve(Start(cwd, a), Chopped(Split(a)));
    NormalizeIsStackEvaluation(cwd, a);
    ResultIsNormal(cwd, a);
    FoundGood(cwd, a);
    assert Plain(there) by { assert forall i | 0 <= i < |there| :: Proper(there[i]); }
    NamesOfRender(there);
    FoundIsResolve(Normalize(cwd, a), b);
    SplitJoin(a, b);
    ChoppedJoin(Split(a), Split(b));
    assert (a + "/" + b)[0] == a[0];
    assert Start(cwd, a + "/" + b) == Start(cwd, a);
    ShallowJoin(Start(cwd, a), Chopped(Split(a)), Chopped(Split(b)));
    ResolveJoin(Start(cwd, a), Chopped(Split(a)), Chopped(Split(b)));
    FoundIsResolve(cwd, a + "/" + b);
  }

  // ---------------------------------------------------------------- names that are too long

  /** The bound on names is exact: a path of one name is left alone exactly if the name has at most 63
      characters; a longer one is taken apart. */
  lemma LongNamesAreCut(c: string)
    requires Proper(c) && |c| < BUFFER
    ensures Normalize("/", "/" + c) == "/" + c <==> |c| <= SEGMENT
  {
    var p := "/" + c;
    SplitConcat(c, "");
    assert p[1..] == c;
    assert Names(p) == [c] && [c][0] == c;
    FixedIsNormal("/", p);
  }

  function Repeat(ch: char, n: nat): (s: string)
    ensures |s| == n && forall c | c in s :: c == ch
  {
    seq(n, _ => ch)
  }

  lemma RepeatProper(ch: char, n: nat)
    requires ch != '/' && ch != '.' && n > 0
    ensures Proper(Repeat(ch, n))
  {
    assert Repeat(ch, n)[0] == ch;
  }

  /** An input whose result is not normalised: one component of 64 characters makes two names, the five names
      take one character more than there is, and ".a" is cut to ".". */
  lemma CutToADot()
    ensures |DotPath()| == BUFFER && CutToDots(0, NamesFound("/", DotPath()))
    ensures !Normal(Normalize("/", DotPath()))
    ensures Normalize("/", Normalize("/", DotPath())) != Normalize("/", DotPath())
  {
    var x, y, z := Repeat('x', 64), Repeat('y', 63), Repeat('z', 58);
    DotNames(x, y, z);
    NamesPut(x, y, z);
    DotIsCut(x, y, z);
    hide Repeat, DotText, NamesFound, CutToDots, Normalize;
    ResultIsNormal("/", DotPath());
    Idempotent("/", DotPath());
  }

  function DotText(x: string, y: string, z: string): string {
    x + "/" + (y + "/" + (y + "/" + (z + "/" + ".a")))
  }

  function DotPath(): string {
    "/" + DotText(Repeat('x', 64), Repeat('y', 63), Repeat('z', 58))
  }

  function SixNames(x: string, y: string, z: string): seq<string>
    requires |x| == 64
  {
    [x[..63], x[63..], y, y, z, ".a"]
  }

  lemma SplitFive(a: string, b: string, c: string, d: string, e: string)
    requires '/' !in a && '/' !in b && '/' !in c && '/' !in d && '/' !in e
    ensures Split(a + "/" + (b + "/" + (c + "/" + (d + "/" + e)))) == [a, b, c, d, e]
  {
    hide Split;
    SplitConcat(e, "");
    SplitConcat(d, e);
    SplitConcat(c, d + "/" + e);
    SplitConcat(b, c + "/" + (d + "/" + e));
    SplitConcat(a, b + "/" + (c + "/" + (d + "/" + e)));
  }

  lemma ChoppedFirst(x: string, rest: seq<string>)
    requires |x| == 64 && Short(rest)
    ensures Chopped([x] + rest) == [x[..63], x[63..]] + rest
  {
    ChoppedShort(rest);
    assert Chunks(x) == [x[..63]] + [x[63..]];
    assert ([x] + rest)[1..] == rest;
  }

  lemma RootText(text: string)
    requires |text| < BUFFER
    ensures Text("/", "/" + text) == text
  {
    assert ("/" + text)[1..] == text;
  }

  lemma DotPieces(x: string, y: string, z: string)
    requires |x| == 64 && |y| == 63 && |z| == 58 && '/' !in x && '/' !in y && '/' !in z
    ensures Chopped(Split(DotText(x, y, z))) == SixNames(x, y, z)
  {
    var rest := [y, y, z, ".a"];
    SplitFive(x, y, y, z, ".a");
    hide Chopped, Split;
    ChoppedFirst(x, rest);
    assert [x] + rest == [x, y, y, z, ".a"];
    assert [x[..63], x[63..]] + rest == SixNames(x, y, z);
  }

  lemma DotNames(x: string, y: string, z: string)
    requires |x| == 64 && |y| == 63 && |z| == 58 && '/' !in x && '/' !in y && '/' !in z
    ensures NamesFound("/", "/" + DotText(x, y, z)) == PutAll([], SixNames(x, y, z))
  {
    var text := DotText(x, y, z);
    assert |text| == 254;
    DotPieces(x, y, z);
    hide Text, DotText, Chopped, Split, Pieces, PutAll, SixNames;
    RootText(text);
    PiecesAreComponents([], text);
  }

  lemma DotIsCut(x: string, y: string, z: string)
    requires |x| == 64 && |y| == 63 && |z| == 58
    ensures CutToDots(0, SixNames(x, y, z))
  {
    var names := SixNames(x, y, z);
    FiveNames(x, y, z);
    assert names[..5] == [x[..63], x[63..], y, y, z];
    assert ".a"[..1] == ".";
    assert CutAt(0, names, 5);
  }

  lemma FiveNames(x: string, y: string, z: string)
    requires |x| == 64 && |y| == 63 && |z| == 58
    ensures Weight([x[..63], x[63..], y, y, z]) == 253
  {
    var a := [x[..63], x[63..], y, y, z];
    assert a[1..] == [x[63..], y, y, z] && a[1..][1..] == [y, y, z];
    assert [y, y, z][1..] == [y, z] && [y, z][1..] == [z] && [z][1..] == [];
    assert Weight([z]) == 59;
    assert Weight([y, z]) == 123;
    assert Weight([y, y, z]) == 187;
    assert Weight([x[63..], y, y, z]) == 189;
  }

  lemma NamesPut(x: string, y: string, z: string)
    requires x == Repeat('x', 64) && y == Repeat('y', 63) && z == Repeat('z', 58)
    ensures PutAll([], SixNames(x, y, z)) == SixNames(x, y, z)
  {
    var names := SixNames(x, y, z);
    assert x[..63] == Repeat('x', 63) && x[63..] == Repeat('x', 1);
    RepeatProper('x', 63);
    RepeatProper('x', 1);
    RepeatProper('y', 63);
    RepeatProper('z', 58);
    assert AllProper(names) && |names| == 6;
    hide SixNames, PutAll, Resolve;
    GoodIsShallow([], names);
    PutIsStep([], names);
    ResolveProper([], names);
    assert [] + names == names;
  }

  // ---------------------------------------------------------------- cd

  /** What vfs_lookup_inode finds at the normalised path. */
  datatype Found = Nothing | File | Directory

  /** cmd_cd; the argument may be missing. */
  function Cd(cwd: string, args: Option<string>, found: Found): string
    requires cwd != ""
  {
    if args.None? || args.value == "" then "/"
    else if found.Directory? then Normalize(cwd, args.value)
    else cwd
  }

  datatype CdCall = CdCall(args: Option<string>, found: Found)

  function CdRun(cwd: string, calls: seq<CdCall>): (r: string)
    requires cwd != ""
    ensures r != ""
  {
    if calls == [] then cwd
    else
      var c := calls[|calls| - 1];
      Cd(CdRun(cwd, calls[..|calls| - 1]), c.args, c.found)
  }

  /** The last cd of the run that changed the directory got a path of which no name was cut to "." or "..". */
  ghost predicate LastCdFits(cwd: string, calls: seq<CdCall>)
    requires cwd != ""
  {
    calls == [] ||
    var c, before := calls[|calls| - 1], calls[..|calls| - 1];
    if c.args.None? || c.args.value == "" then true
    else if c.found.Directory? then !CutToDots(0, NamesFound(CdRun(cwd, before), c.args.value))
    else LastCdFits(cwd, before)
  }

  /** After any run of cd the current directory is a normalised path exactly if the last cd that changed it
      had no name cut to "." or "..". */
  lemma {:induction false} CurrentDirStaysNormal(cwd: string, calls: seq<CdCall>)
    requires Normal(cwd)
    ensures Normal(CdRun(cwd, calls)) <==> LastCdFits(cwd, calls)
  {
    if calls != [] {
      var c, before := calls[|calls| - 1], calls[..|calls| - 1];
      CurrentDirStaysNormal(cwd, before);
      RootIsNormal();
      if c.args.Some? { ResultIsNormal(CdRun(cwd, before), c.args.value); }
    }
  }

  lemma RootIsNormal()
    ensures Normal("/")
  {
  }
}
