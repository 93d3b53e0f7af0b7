/** What single components of a path do to the result of normalize_path (src/lib/shell.c): "." nothing, ".." takes
    the last name away, and a name joins the end - up to the limits of the shell's buffers. */
module PathSteps {
  import opened Common
  import opened Paths

  /** The names after one more component. */
  ghost predicate OneMore(before: seq<string>, c: string, after: seq<string>) {
    if c == "" || c == "." then after == before
    else if c == ".." then if before == [] then after == [] else after == before[..|before| - 1]
    else after == if |before| < 32 then before + [c] else before
  }

  lemma {:induction false} PutAllJoin(stack: seq<string>, a: seq<string>, b: seq<string>)
    ensures PutAll(stack, a + b) == PutAll(PutAll(stack, a), b)
    decreases a
  {
    if a == [] {
      assert a + b == b;
    } else {
      assert (a + b)[1..] == a[1..] + b;
      PutAllJoin(Put(stack, a[0]), a[1..], b);
    }
  }

  lemma PutOne(stack: seq<string>, c: string)
    ensures OneMore(stack, c, PutAll(stack, [c]))
  {
    assert [c][1..] == [];
    assert PutAll(Put(stack, c), []) == Put(stack, c);
  }

  /** What parsing one more component does. */
  lemma PiecesMore(s: string, c: string)
    requires '/' !in c && |c| <= SEGMENT
    ensures OneMore(PutAll([], Pieces(s)), c, PutAll([], Pieces(s + "/" + c)))
  {
    PiecesAreComponents([], s);
    PiecesAreComponents([], s + "/" + c);
    SplitJoin(s, c);
    SplitConcat(c, "");
    ChoppedJoin(Split(s), [c]);
    ChoppedShort([c]);
    hide Pieces, Chopped, Split, OneMore, PutAll;
    PutAllJoin([], Chopped(Split(s)), [c]);
    PutOne(PutAll([], Chopped(Split(s))), c);
  }

  lemma TextMore(cwd: string, a: string, c: string)
    requires cwd != "" && a != "" && |Joined(cwd, a + "/" + c)| <= BUFFER
    ensures Text(cwd, a + "/" + c) == Text(cwd, a) + "/" + c
  {
    assert (a + "/" + c)[0] == a[0];
    assert Joined(cwd, a + "/" + c) == Joined(cwd, a) + "/" + c;
    var j := Joined(cwd, a);
    assert j != "";
    assert (j + "/" + c)[1..] == j[1..] + "/" + c;
  }

  /** Whatever the path before it: one component more does this to the names found. */
  lemma ComponentMore(cwd: string, a: string, c: string)
    requires cwd != "" && a != "" && '/' !in c && |c| <= 63 && |Joined(cwd, a + "/" + c)| <= 255
    ensures OneMore(NamesFound(cwd, a), c, NamesFound(cwd, a + "/" + c))
  {
    TextMore(cwd, a, c);
    PiecesMore(Text(cwd, a), c);
  }

  /** The names found depend on the text only. */
  lemma NamesOfText(cwd: string, p: string, cwd': string, p': string)
    requires cwd != "" && cwd' != "" && Text(cwd, p) == Text(cwd', p')
    ensures NamesFound(cwd, p) == NamesFound(cwd', p') && Normalize(cwd, p) == Normalize(cwd', p')
  {
  }

  lemma NamesOfNormal(p: string)
    requires Normal(p)
    ensures NamesFound("/", p) == Names(p) && Render(Names(p)) == p
  {
    RootIsNormal();
    RenderOfNames(p);
    NormalComponents(p);
    hide Chopped, Split, Normal;
    FoundIsResolve("/", p);
  }

  /** One component from a normalised directory. */
  lemma FromNormal(cwd: string, c: string)
    requires Normal(cwd) && '/' !in c && |c| <= SEGMENT && |Joined(cwd, c)| <= BUFFER
    ensures OneMore(Names(cwd), c, NamesFound(cwd, c))
  {
    NamesOfNormal(cwd);
    if cwd == "/" {
      assert Joined("/", c) == "/" + c;
      assert Text("/", c) == c;
      PiecesAreComponents([], c);
      SplitConcat(c, "");
      ChoppedShort([c]);
      PutOne([], c);
    } else {
      RenderOfNames(cwd);
      SlashedEnd(Names(cwd));
      hide Split, Names;
      assert Joined(cwd, c) == cwd + "/" + c == Joined("/", cwd + "/" + c);
      NamesOfText(cwd, c, "/", cwd + "/" + c);
      ComponentMore("/", cwd, c);
    }
  }

  /** The result when the names fit. */
  lemma RenderedWhole(cwd: string, path: string)
    requires cwd != "" && Weight(NamesFound(cwd, path)) <= BUFFER
    ensures Normalize(cwd, path) == Render(NamesFound(cwd, path)) && Plain(NamesFound(cwd, path))
    ensures Names(Normalize(cwd, path)) == NamesFound(cwd, path)
  {
    var names := NamesFound(cwd, path);
    NormalizeIsRender(cwd, path);
    FoundGood(cwd, path);
    assert Plain(names) by { assert forall i | 0 <= i < |names| :: Proper(names[i]); }
    ShownWhole(0, names);
    NamesOfRender(names);
  }

  lemma RenderLength(names: seq<string>)
    requires Plain(names)
    ensures |Render(names)| == (if names == [] then 1 else Weight(names)) && (names != [] ==> Weight(names) >= 2 * |names|)
  {
    SlashedLength(names);
    WeightNames(names);
  }

  lemma {:induction false} WeightNames(names: seq<string>)
    requires Plain(names)
    ensures Weight(names) >= 2 * |names|
  {
    if names != [] {
      assert IsName(names[0]);
      WeightNames(names[1..]);
    }
  }

  // ---------------------------------------------------------------- from a normalised directory

  /** Appending a slash, or a slash and a dot that still fits, to a normalised path changes nothing. */
  lemma NothingMore(p: string, c: string)
    requires Normal(p) && (c == "" || c == ".") && |p| + 1 + |c| <= BUFFER
    ensures NamesFound("/", p + "/" + c) == Names(p)
  {
    NamesOfNormal(p);
    ComponentMore("/", p, c);
  }

  lemma CutText(p: string, c: string)
    requires Normal(p) && p != "/" && c in {".", ".."}
    ensures var n := |p| + 1 + |c|;
            Text(p, c) == if n <= BUFFER then Text("/", p + "/" + c)
                          else if |p| == BUFFER then Text("/", p)
                          else Text("/", p + "/" + c[..254 - |p|])
  {
    RenderOfNames(p);
    SlashedEnd(Names(p));
    hide Names, Normal;
    assert Joined(p, c) == p + "/" + c;
  }

  lemma WeightFits(p: string)
    requires Normal(p)
    ensures Weight(Names(p)) <= BUFFER && Plain(Names(p)) && (p != "/" ==> Weight(Names(p)) == |p|)
  {
    NamesOfNormal(p);
    assert forall i | 0 <= i < |Names(p)| :: Proper(Names(p)[i]);
    SlashedLength(Names(p));
  }

  /** "cd ." stays in the directory, whichever it is. */
  lemma DotStays(p: string)
    requires Normal(p)
    ensures Normalize(p, ".") == p
  {
    NamesOfNormal(p);
    WeightFits(p);
    if |Joined(p, ".")| <= BUFFER {
      FromNormal(p, ".");
    } else {
      CutText(p, ".");
      if |p| == 254 { assert "."[..0] == ""; NothingMore(p, ""); NamesOfText(p, ".", "/", p + "/" + ""); }
      else { NamesOfText(p, ".", "/", p); }
    }
    hide Names, Normal;
    RenderedWhole(p, ".");
  }

  /** "cd .." goes to the parent of any directory whose path has at most 252 characters; with 253 or more the
      ".." is cut off with the path, and the shell stays where it is. From the root it stays in the root. */
  lemma DotDotGoesUp(front: seq<string>, c: string)
    requires Normal(Render(front + [c])) && Plain(front + [c])
    ensures var p := Render(front + [c]);
            && Normalize(p, "..") == (if |p| <= 252 then Render(front) else p)
            && Render(front) != p
            && Normalize("/", "..") == "/"
  {
    var p := Render(front + [c]);
    NamesOfRender(front + [c]);
    WeightFits(p);
    TakeLast(front, c);
    ParentDiffers(front, c);
    RootUp();
    NamesOfNormal(p);
    hide Names, Normal, Render, Plain, Joined, NamesFound, Normalize;
    if |p| <= 252 {
      JoinedLength(p);
      FromNormal(p, "..");
    } else {
      LongStays(p);
    }
    RenderedWhole(p, "..");
  }

  lemma ParentDiffers(front: seq<string>, c: string)
    requires Plain(front + [c])
    ensures Render(front) != Render(front + [c])
  {
    assert Plain(front) by { assert forall i | 0 <= i < |front| :: front[i] == (front + [c])[i]; }
    RenderLength(front);
    RenderLength(front + [c]);
    WeightPush(front, c);
    assert IsName((front + [c])[|front|]);
  }

  lemma JoinedLength(p: string)
    requires p != ""
    ensures |Joined(p, "..")| <= |p| + 3
  {
  }

  lemma LongStays(p: string)
    requires Normal(p) && |p| >= 253
    ensures NamesFound(p, "..") == Names(p)
  {
    CutText(p, "..");
    NamesOfNormal(p);
    if |p| == 253 {
      assert ".."[..1] == ".";
      NothingMore(p, ".");
      NamesOfText(p, "..", "/", p + "/" + ".");
    } else if |p| == 254 {
      assert ".."[..0] == "";
      NothingMore(p, "");
      NamesOfText(p, "..", "/", p + "/" + "");
    } else {
      NamesOfText(p, "..", "/", p);
    }
  }

  lemma RootUp()
    ensures Normalize("/", "..") == "/"
  {
    RootIsNormal();
    FromNormal("/", "..");
    assert Names("/") == [];
  }

  /** "cd name" goes down one step exactly if there is room for a name more on the stack and in the buffer. */
  lemma NameGoesDown(cwd: string, c: string)
    requires Normal(cwd) && Proper(c) && |c| <= 63
    ensures Normalize(cwd, c) == Render(Names(cwd) + [c])
            <==> |Names(cwd)| < 32 && |Render(Names(cwd) + [c])| <= 255
  {
    var names := Names(cwd);
    WeightFits(cwd);
    NamesOfNormal(cwd);
    assert Plain(names + [c]);
    RenderLength(names + [c]);
    WeightPush(names, c);
    NormalizeIsRender(cwd, c);
    RoomForJoined(cwd, c);
    hide Render, Normal, Joined;
    if |Render(names + [c])| <= 255 {
      FromNormal(cwd, c);
      RenderedWhole(cwd, c);
      if |names| == 32 {
        RenderLength(names);
        assert |Normalize(cwd, c)| < |Render(names + [c])|;
      }
    }
  }

  lemma RoomForJoined(cwd: string, c: string)
    requires Normal(cwd) && Proper(c)
    ensures |Joined(cwd, c)| == Weight(Names(cwd) + [c])
  {
    WeightFits(cwd);
    WeightPush(Names(cwd), c);
    if cwd != "/" {
      NamesOfNormal(cwd);
      SlashedEnd(Names(cwd));
    } else {
      assert Names("/") == [] && Weight([]) == 0;
    }
    assert c[0] in c;
  }

  // ---------------------------------------------------------------- after any path

  /** The names found for a path whose names fit are those of its result. */
  lemma FoundIsResult(cwd: string, a: string, names: seq<string>)
    requires cwd != "" && Plain(names) && Weight(NamesFound(cwd, a)) <= BUFFER && Normalize(cwd, a) == Render(names)
    ensures NamesFound(cwd, a) == names && Weight(names) <= BUFFER
  {
    NamesOfRender(names);
    RenderedWhole(cwd, a);
  }

  lemma TakeLast(front: seq<string>, c: string)
    ensures (front + [c])[..|front + [c]| - 1] == front && Weight(front) <= Weight(front + [c])
  {
    WeightPush(front, c);
  }

  /** The same after any path whose names fit: a/.. leads to the parent of where a leads, and a/. leads to where
      a leads. */
  lemma UpAfterAnyPath(cwd: string, a: string, front: seq<string>, c: string)
    requires cwd != "" && a != "" && Plain(front + [c]) && Weight(NamesFound(cwd, a)) <= BUFFER
    requires Normalize(cwd, a) == Render(front + [c]) && |Joined(cwd, a + "/" + "..")| <= 255
    ensures Normalize(cwd, a + "/" + "..") == Render(front)
  {
    FoundIsResult(cwd, a, front + [c]);
    TakeLast(front, c);
    ComponentMore(cwd, a, "..");
    hide Render, Names, NamesFound, Joined, Normalize, Plain;
    assert NamesFound(cwd, a + "/" + "..") == front;
    RenderedWhole(cwd, a + "/" + "..");
  }

  lemma StayAfterAnyPath(cwd: string, a: string)
    requires cwd != "" && a != "" && Weight(NamesFound(cwd, a)) <= BUFFER && |Joined(cwd, a + "/" + ".")| <= 255
    ensures Normalize(cwd, a + "/" + ".") == Normalize(cwd, a)
  {
    ComponentMore(cwd, a, ".");
    hide Render, Names, NamesFound, Joined, Normalize, Plain;
    RenderedWhole(cwd, a + "/" + ".");
    RenderedWhole(cwd, a);
  }

  /** And a/d leads one step further down exactly if there is room for a name more. */
  lemma DownAfterAnyPath(cwd: string, a: string, names: seq<string>, d: string)
    requires cwd != "" && a != "" && Plain(names) && Weight(NamesFound(cwd, a)) <= BUFFER
    requires Normalize(cwd, a) == Render(names) && Proper(d) && |d| <= 63 && |Joined(cwd, a + "/" + d)| <= 255
    ensures Normalize(cwd, a + "/" + d) == Render(names + [d]) <==> |names| < 32 && |Render(names + [d])| <= 255
  {
    FoundIsResult(cwd, a, names);
    ComponentMore(cwd, a, d);
    RenderLength(names);
    RenderLength(names + [d]);
    WeightPush(names, d);
    NormalizeIsRender(cwd, a + "/" + d);
    FoundGood(cwd, a);
    hide Render, Names, NamesFound, Joined, Normalize, Plain, Shown, CutToDots;
    if |Render(names + [d])| <= 255 {
      RenderedWhole(cwd, a + "/" + d);
    }
  }
}
