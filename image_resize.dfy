/**
  The pure part of resizing one image: the new dimensions and the name of
  the file the resized copy is saved to. Opening, resampling and saving
  the image are not modelled; the plan takes the image's size as input.
 */
module ImageResize {
  import opened PowerOfTwo
  import opened Numerals
  import opened PosixPath

  /** The text inserted before the extension: "_" + width + "x" + height. */
  function DimensionTag(w: nat, h: nat): (tag: string)
    ensures |tag| >= 4 && tag[0] == '_'
    ensures forall i :: 0 <= i < |tag| ==> tag[i] != '.' && tag[i] != '/'
  {
    "_" + Decimal(w) + "x" + Decimal(h)
  }

  /**
    The name of the resized copy: the path's base, the dimension tag, then
    the path's extension.
   */
  function OutputPath(path: string, w: nat, h: nat): (out: string)
    ensures |out| > |path|
    ensures out != path
    ensures out[..|SplitExt(path).0|] == SplitExt(path).0
    ensures out[|out| - |SplitExt(path).1|..] == SplitExt(path).1
  {
    var (base, ext) := SplitExt(path);
    base + DimensionTag(w, h) + ext
  }

  /** A tag free of '.' and '/' that starts with a non-dot character. */
  ghost predicate PlainTag(tag: string) {
    && |tag| >= 1 && tag[0] != '.' && tag[0] != '/'
    && forall i :: 0 <= i < |tag| ==> tag[i] != '.' && tag[i] != '/'
  }

  /** Inserting a plain tag before a non-empty extension leaves that extension in place. */
  lemma SplitExtTaggedWithExt(path: string, tag: string)
    requires SplitExt(path).1 != [] && PlainTag(tag)
    ensures SplitExt(SplitExt(path).0 + tag + SplitExt(path).1) == (SplitExt(path).0 + tag, SplitExt(path).1)
  {
    var (base, ext) := SplitExt(path);
    var out := base + tag + ext;
    SplitExtSpec(path);
    var i :| ExtStartsAt(path, i);
    assert i == |base|;
    var d := |base| + |tag|;
    assert out[|base|] == tag[0];
    assert ExtStartsAt(out, d);
    SplitExtSpec(out);
    assert out[..d] == base + tag && out[d..] == ext;
  }

  /** Appending a plain tag to a path without extension gives a path without extension. */
  lemma SplitExtTaggedWithoutExt(path: string, tag: string)
    requires SplitExt(path).1 == [] && PlainTag(tag)
    ensures SplitExt(path + tag) == (path + tag, [])
  {
    var out := path + tag;
    SplitExtSpec(path);
    forall i | ExtStartsAt(out, i)
      ensures false
    {
      assert i < |path|;
      assert forall k :: 0 <= k < |path| ==> path[k] == out[k];
      var j :| 0 <= j < i && out[j] != '.' && out[j] != '/'
               && forall l :: j < l < i ==> out[l] != '/';
      assert ExtStartsAt(path, i);
    }
    SplitExtSpec(out);
  }

  /**
    The output keeps the input's extension: splitting the output path again
    gives the tagged base and the very same extension.
   */
  lemma OutputPathKeepsExtension(path: string, w: nat, h: nat)
    ensures SplitExt(OutputPath(path, w, h)) == (SplitExt(path).0 + DimensionTag(w, h), SplitExt(path).1)
  {
    var (base, ext) := SplitExt(path);
    var tag := DimensionTag(w, h);
    if ext != [] {
      SplitExtTaggedWithExt(path, tag);
    } else {
      assert base + tag + ext == path + tag;
      SplitExtTaggedWithoutExt(path, tag);
    }
  }

  /** The output lies in the input's directory: both have the same last '/' and the same text up to it. */
  lemma OutputPathSameDirectory(path: string, w: nat, h: nat)
    ensures LastIndexOf(OutputPath(path, w, h), '/') == LastIndexOf(path, '/')
    ensures var s := LastIndexOf(path, '/'); OutputPath(path, w, h)[..s + 1] == path[..s + 1]
  {
    var (base, ext) := SplitExt(path);
    var tag := DimensionTag(w, h);
    var out := OutputPath(path, w, h);
    var s := LastIndexOf(path, '/');
    assert out == base + tag + ext;
    assert s < |base|;
    LastIndexOfUnique(out, '/', s);
  }

  /** A tag determines the dimensions it was made from. */
  lemma DimensionTagInjective(w1: nat, h1: nat, w2: nat, h2: nat)
    requires DimensionTag(w1, h1) == DimensionTag(w2, h2)
    ensures w1 == w2 && h1 == h2
  {
    var a, b := Decimal(w1), Decimal(h1);
    var c, d := Decimal(w2), Decimal(h2);
    var t := DimensionTag(w1, h1);
    assert t == "_" + a + "x" + b;
    assert t == "_" + c + "x" + d;
    assert t[1 + |a|] == 'x' && t[1 + |c|] == 'x';
    assert a == t[1..1 + |a|] == c;
    assert b == t[2 + |a|..] == d;
    DecimalInjective(w1, w2);
    DecimalInjective(h1, h2);
  }

  /** Different target dimensions for the same input give different output names. */
  lemma OutputPathInjective(path: string, w1: nat, h1: nat, w2: nat, h2: nat)
    requires OutputPath(path, w1, h1) == OutputPath(path, w2, h2)
    ensures w1 == w2 && h1 == h2
  {
    var (base, ext) := SplitExt(path);
    var o1, o2 := OutputPath(path, w1, h1), OutputPath(path, w2, h2);
    var t1, t2 := DimensionTag(w1, h1), DimensionTag(w2, h2);
    assert o1 == base + t1 + ext && o2 == base + t2 + ext;
    assert t1 == o1[|base|..|o1| - |ext|];
    assert t2 == o2[|base|..|o2| - |ext|];
    DimensionTagInjective(w1, h1, w2, h2);
  }

  /** What resizing one image produces: its new size and the path it is saved to. */
  datatype Plan = Plan(newWidth: nat, newHeight: nat, outputPath: string)

  /** Either a plan, or the math domain error that log2 raises for a zero dimension. */
  datatype PlanResult = Planned(plan: Plan) | MathDomainError

  /** One image's plan, from its path and its original size. */
  function ResizePlan(path: string, width: nat, height: nat): (r: PlanResult)
    ensures r.Planned? <==> width >= 1 && height >= 1
    ensures r.Planned? ==>
      && IsPowerOfTwo(r.plan.newWidth) && width <= r.plan.newWidth < 2 * width
      && IsPowerOfTwo(r.plan.newHeight) && height <= r.plan.newHeight < 2 * height
      && SplitExt(r.plan.outputPath).1 == SplitExt(path).1
      && r.plan.outputPath != path
  {
    if width == 0 || height == 0 then
      MathDomainError
    else
      var newWidth := NearestPowerOfTwo(width);
      var newHeight := NearestPowerOfTwo(height);
      OutputPathKeepsExtension(path, newWidth, newHeight);
      Planned(Plan(newWidth, newHeight, OutputPath(path, newWidth, newHeight)))
  }

  /** The plan's name is the output path built from the plan's own dimensions. */
  lemma ResizePlanNamesItsDimensions(path: string, width: nat, height: nat)
    requires width >= 1 && height >= 1
    ensures var p := ResizePlan(path, width, height).plan;
      p.outputPath == OutputPath(path, p.newWidth, p.newHeight)
  {
  }

  /**
    Width and height are rounded independently: the new width depends only
    on the original width, and the new height only on the original height.
   */
  lemma ResizeDimensionsIndependent(path1: string, path2: string, w1: nat, w2: nat, h1: nat, h2: nat)
    requires w1 >= 1 && w2 >= 1 && h1 >= 1 && h2 >= 1
    ensures ResizePlan(path1, w1, h1).plan.newWidth == ResizePlan(path2, w1, h2).plan.newWidth
    ensures ResizePlan(path1, w1, h1).plan.newHeight == ResizePlan(path2, w2, h1).plan.newHeight
  {
  }

  /** The output names for the 300x200 and 256x256 examples. */
  lemma OutputPathExamples()
    ensures OutputPath("photos/cat.png", 512, 256) == "photos/cat_512x256.png"
    ensures OutputPath("icons/logo.jpg", 256, 256) == "icons/logo_256x256.jpg"
  {
    DecimalExamples();
    SplitExtExamples();
    assert DimensionTag(512, 256) == "_512x256";
    assert DimensionTag(256, 256) == "_256x256";
  }

  /** A 300x200 image becomes 512x256 and is saved beside the original with the size in its name. */
  lemma ResizePlanExampleLandscape()
    ensures ResizePlan("photos/cat.png", 300, 200) == Planned(Plan(512, 256, "photos/cat_512x256.png"))
  {
    NearestExamples();
    assert ResizePlan("photos/cat.png", 300, 200) == Planned(Plan(512, 256, OutputPath("photos/cat.png", 512, 256)));
    OutputPathExamples();
  }

  /** A 256x256 image already has power-of-two sides and keeps its size. */
  lemma ResizePlanExampleSquare()
    ensures ResizePlan("icons/logo.jpg", 256, 256) == Planned(Plan(256, 256, "icons/logo_256x256.jpg"))
  {
    NearestExamples();
    assert ResizePlan("icons/logo.jpg", 256, 256) == Planned(Plan(256, 256, OutputPath("icons/logo.jpg", 256, 256)));
    OutputPathExamples();
  }
}
