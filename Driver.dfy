/** The decisions of the site walk (crumbler.py:419-512): the settings read
    from the merged arguments, where each source directory is mirrored, which
    directories are skipped, and what becomes of each file. Walking the tree,
    creating directories, reading, writing and copying files are left to the
    caller; the answers of `os.path.samefile` are a parameter. */
module Driver {
  import opened Strings
  import opened Paths
  import Args
  import Fragment

  /** Python's `s[:n]`: the first `n` characters, or all of a shorter `s`. */
  function Take(s: string, n: nat): (r: string)
    ensures |r| == if n <= |s| then n else |s|
  {
    if n <= |s| then s[..n] else s
  }

  /** Python's `s[-n:]` for a positive `n`: the last `n` characters, or all
      of a shorter `s`. */
  function Last(s: string, n: nat): (r: string)
    ensures |r| == if n <= |s| then n else |s|
  {
    if n <= |s| then s[|s| - n..] else s
  }

  // ---------------------------------------------------------------------
  // Settings (crumbler.py:423-431, :486, :504-508)

  /** What the walk reads from the merged arguments. */
  datatype Site = Site(root: string, webroot: string, isLocal: bool, baseOut: string,
                       title: Option<string>, htmlArg: string, breadcrumbArg: string)

  /** The settings of a successful parse, once merged with the defaults.
      `base_out` is the output directory joined to the root, so a relative
      output directory starts textually with the root: that is why the walk
      needs a skip test at all. */
  function SiteOf(args: Args.ArgMap): (s: Site)
    requires Args.Keys <= args.Keys && Args.Typed(args)
    ensures s.baseOut == Join(s.root, args["dirout"].s)
    ensures EndsWith(s.baseOut, args["dirout"].s)
    ensures !StartsWith(args["dirout"].s, "/") ==> StartsWith(s.baseOut, s.root)
  {
    JoinEnds(args["path"].s, args["dirout"].s);
    assert Args.HasShape("path", args["path"]) && Args.HasShape("webpath", args["webpath"]);
    assert Args.HasShape("local", args["local"]) && Args.HasShape("dirout", args["dirout"]);
    assert Args.HasShape("html", args["html"]) && Args.HasShape("breadcrumb", args["breadcrumb"]);
    assert Args.HasShape("title", args["title"]);
    var root := args["path"].s;
    Site(root, args["webpath"].s, args["local"].on, Join(root, args["dirout"].s),
         if args["title"].Str? then Some(args["title"].s) else None,
         args["html"].s, args["breadcrumb"].s)
  }

  /** The merged defaults make up this site. */
  lemma DefaultSite(args: Args.ArgMap)
    requires Args.Keys <= args.Keys && Args.Typed(args)
    requires forall k :: k in Args.Keys && k != "css" && k != "js" ==> args[k] == Args.Default(k)
    ensures SiteOf(args) == Site("./", "", false, "./build", None, "", "")
  {
    assert args["path"] == Args.Str("./") && args["dirout"] == Args.Str("build");
    assert args["webpath"] == Args.Str("") && args["local"] == Args.Flag(false) && args["title"] == Args.Null;
    assert args["html"] == Args.Str("") && args["breadcrumb"] == Args.Str("");
    assert Join("./", "build") == "./build" by {
      assert !StartsWith("build", "/") by { assert "build"[0] != '/'; }
    }
  }

  /** With no arguments at all the site is the current directory, built
      into `./build` for the web. */
  lemma SiteDefaults(argv: seq<string>)
    requires |argv| <= 1
    ensures Args.Parse(argv).Ok?
    ensures var args := Args.Merged(Args.Parse(argv).args);
            Args.Keys <= args.Keys && Args.Typed(args)
            && SiteOf(args) == Site("./", "", false, "./build", None, "", "")
  {
    Args.ParsedSettings(argv);
    var parsed := Args.Parse(argv).args;
    assert parsed == Args.Init.args;
    Args.MergedSpec(parsed);
    DefaultSite(Args.Merged(parsed));
  }

  // ---------------------------------------------------------------------
  // rt_out (crumbler.py:460-462)

  /** The output directory mirroring the walked directory `rt`. */
  function MirrorOut(root: string, baseOut: string, rt: string): string {
    Join(baseOut, SlashTrim(Drop(rt, |root|)))
  }

  /** A directory the walk reaches below the root, `os.path.join(root,
      rel)`, is mirrored at `os.path.join(base_out, rel)`. */
  lemma MirrorOutBelowRoot(root: string, baseOut: string, rel: string)
    requires rel != "" && rel[0] != '/' && rel[|rel| - 1] != '/' && !EndsWith(rel, "/\n")
    ensures MirrorOut(root, baseOut, Join(root, rel)) == Join(baseOut, rel)
  {
    var rt := Join(root, rel);
    assert !StartsWith(rel, "/");
    var d := Drop(rt, |root|);
    if root == "" || root[|root| - 1] == '/' {
      assert rt == root + rel && d == rel;
    } else {
      assert rt == root + "/" + rel && d == "/" + rel;
      assert d[1..] == rel;
    }
  }

  /** The root itself is mirrored at `os.path.join(base_out, '')`. */
  lemma MirrorOutRoot(root: string, baseOut: string)
    ensures MirrorOut(root, baseOut, root) == Join(baseOut, "")
  {
  }

  // ---------------------------------------------------------------------
  // The skip test (crumbler.py:467)

  /** As written: `rt[:len(base_out)] == base_out`, a test on characters. */
  predicate InOutputTree(rt: string, baseOut: string) {
    Take(rt, |baseOut|) == baseOut
  }

  /** The test is exactly "`rt` starts with `base_out`". */
  lemma InOutputTreeIsPrefix(rt: string, baseOut: string)
    ensures InOutputTree(rt, baseOut) <==> StartsWith(rt, baseOut)
  {
  }

  /** A name without separators that does not begin one. */
  predicate IsName(d: string) {
    d != "" && '/' !in d
  }

  /** The prefix the walk puts before a name directly under `root`. */
  lemma JoinName(root: string, d: string)
    requires IsName(d)
    ensures Join(root, d) == (if root == "" || root[|root| - 1] == '/' then root else root + "/") + d
  {
    assert d[0] in d;
  }

  /** As written, a directory directly under the root is skipped when its
      name merely starts with the output directory's name: `./builder` is
      skipped along with `./build`. */
  lemma SiblingSkipped(root: string, out: string, d: string)
    requires IsName(out) && IsName(d)
    ensures InOutputTree(Join(root, d), Join(root, out)) <==> StartsWith(d, out)
  {
    JoinName(root, d);
    JoinName(root, out);
    var p := if root == "" || root[|root| - 1] == '/' then root else root + "/";
    if StartsWith(d, out) {
      assert (p + d)[..|p + out|] == p + d[..|out|];
    }
    if StartsWith(p + d, p + out) {
      assert d[..|out|] == (p + d)[|p|..|p + out|];
    }
  }

  /** The sibling the test catches: `./builder` when the output is
      `./build`. */
  lemma BuilderSkipped()
    ensures InOutputTree("./builder", "./build")
    ensures !UnderOutput("./builder", "./build")
  {
    assert "./builder"[..7] == "./build";
    assert Join("./build", "") == "./build/";
    assert !StartsWith("./builder", "./build/") by {
      assert "./builder"[7] != "./build/"[7];
    }
  }

  /** Corrected: `rt` is the output directory or lies inside it, compared by
      whole path components. */
  predicate UnderOutput(rt: string, baseOut: string) {
    rt == baseOut || StartsWith(rt, Join(baseOut, ""))
  }

  /** A directory directly under the root is skipped exactly when it is the
      output directory. */
  lemma UnderOutputOnlyOutput(root: string, out: string, d: string)
    requires IsName(out) && IsName(d)
    ensures UnderOutput(Join(root, d), Join(root, out)) <==> d == out
  {
    JoinName(root, d);
    JoinName(root, out);
    var p := if root == "" || root[|root| - 1] == '/' then root else root + "/";
    var b := p + out;
    assert b[|b| - 1] == out[|out| - 1] && out[|out| - 1] in out;
    assert Join(b, "") == b + "/";
    if |d| > |out| {
      assert (p + d)[|b|] == d[|out|] && d[|out|] in d;
    }
    if p + d == b {
      assert d == (p + d)[|p|..] == b[|p|..] == out;
    }
  }

  /** Everything the walk finds inside the output directory is skipped. */
  lemma UnderOutputInside(baseOut: string, rel: string)
    requires baseOut != "" && rel != "" && rel[0] != '/'
    ensures UnderOutput(Join(baseOut, rel), baseOut)
  {
    assert !StartsWith(rel, "/");
    var j := Join(baseOut, "");
    assert Join(baseOut, rel) == j + rel;
  }

  /** Corrected skipping only ever spares directories the written test
      skips too. */
  lemma UnderOutputIsInOutputTree(rt: string, baseOut: string)
    requires UnderOutput(rt, baseOut)
    ensures InOutputTree(rt, baseOut)
  {
    if rt != baseOut {
      var j := Join(baseOut, "");
      assert StartsWith(j, baseOut);
      assert rt[..|baseOut|] == j[..|baseOut|];
    }
  }

  // ---------------------------------------------------------------------
  // A directory of the walk (crumbler.py:459-475)

  /** What the walk does in a directory it does not skip: it creates
      `rtOut` and builds the breadcrumbs of `crumbPath` from `startPath`. */
  datatype DirPlan = Skipped | Visit(rtOut: string, crumbPath: string, startPath: string)

  /** A visited directory: mirrored under `base_out`, its breadcrumbs built
      for what follows the root, starting from the directory itself. */
  function VisitOf(s: Site, rt: string): DirPlan {
    Visit(MirrorOut(s.root, s.baseOut, rt), Drop(rt, |s.root|), rt)
  }

  /** The walk's plan for `rt`, with the skip test as written. */
  function PlanDir(s: Site, rt: string): DirPlan {
    if InOutputTree(rt, s.baseOut) then Skipped else VisitOf(s, rt)
  }

  /** The same plan with the corrected skip test. */
  function PlanDirCorrected(s: Site, rt: string): DirPlan {
    if UnderOutput(rt, s.baseOut) then Skipped else VisitOf(s, rt)
  }

  /** As written, a directory is skipped exactly when its path starts with
      `base_out`. For a directory `d` directly under the root, with the
      output directory `out` also directly under it, that is exactly when
      `d`'s name starts with `out`'s; a visited one is mirrored at
      `join(base_out, d)` and gets the breadcrumbs of what follows the root,
      starting from itself. */
  lemma PlanDirSpec(s: Site, rt: string, out: string, d: string)
    ensures PlanDir(s, rt).Skipped? <==> StartsWith(rt, s.baseOut)
    ensures IsName(out) && IsName(d) && s.baseOut == Join(s.root, out) ==>
              var p := PlanDir(s, Join(s.root, d));
              && (p.Skipped? <==> StartsWith(d, out))
              && (p.Visit? ==>
                    p.rtOut == Join(s.baseOut, d) && s.root + p.crumbPath == Join(s.root, d)
                    && p.startPath == Join(s.root, d))
  {
    InOutputTreeIsPrefix(rt, s.baseOut);
    if IsName(out) && IsName(d) && s.baseOut == Join(s.root, out) {
      SiblingSkipped(s.root, out, d);
      VisitShape(s, d);
    }
  }

  /** Corrected, a directory directly under the root is skipped exactly when
      it is the output directory; a visited one is planned as before. */
  lemma PlanDirCorrectedSpec(s: Site, out: string, d: string)
    requires IsName(out) && IsName(d) && s.baseOut == Join(s.root, out)
    ensures var p := PlanDirCorrected(s, Join(s.root, d));
            && (p.Skipped? <==> d == out)
            && (p.Visit? ==> p == VisitOf(s, Join(s.root, d)) && p.rtOut == Join(s.baseOut, d))
  {
    UnderOutputOnlyOutput(s.root, out, d);
    VisitShape(s, d);
  }

  /** Corrected, everything inside the output directory is skipped. */
  lemma PlanDirCorrectedInside(s: Site, rel: string)
    requires rel != "" && rel[0] != '/'
    ensures PlanDirCorrected(s, Join(s.baseOut, rel)).Skipped?
  {
    if s.baseOut == "" {
      assert Join("", "") == "";
    } else {
      UnderOutputInside(s.baseOut, rel);
    }
  }

  /** The visit of a directory directly under the root. */
  lemma VisitShape(s: Site, d: string)
    requires IsName(d)
    ensures var p := VisitOf(s, Join(s.root, d));
            p.rtOut == Join(s.baseOut, d) && s.root + p.crumbPath == Join(s.root, d)
  {
    NameMirrored(s.root, s.baseOut, d);
    JoinName(s.root, d);
    DropPrefix(s.root, Join(s.root, d));
  }

  /** A directory directly under the root is mirrored under its own name. */
  lemma NameMirrored(root: string, baseOut: string, d: string)
    requires IsName(d)
    ensures MirrorOut(root, baseOut, Join(root, d)) == Join(baseOut, d)
  {
    assert d[0] in d && d[|d| - 1] in d;
    assert !EndsWith(d, "/\n") by {
      if |d| >= 2 { assert d[|d| - 2..][0] == d[|d| - 2] && d[|d| - 2] in d; }
    }
    MirrorOutBelowRoot(root, baseOut, d);
  }

  /** What follows a prefix, put back after it, gives the string. */
  lemma DropPrefix(p: string, s: string)
    requires StartsWith(s, p)
    ensures p + Drop(s, |p|) == s
  {
    assert s == s[..|p|] + s[|p|..];
  }

  /** The site `./` built into `./build`: as written the walk skips
      `./builder` and never publishes it; corrected, it visits it. */
  lemma BuilderPlans(s: Site)
    requires s.root == "./" && s.baseOut == "./build"
    ensures PlanDir(s, "./builder").Skipped?
    ensures PlanDirCorrected(s, "./builder").Visit?
  {
    BuilderSkipped();
  }

  // ---------------------------------------------------------------------
  // A file of a visited directory (crumbler.py:478-510)

  datatype Parser = HtmlParser | XmlParser

  /** What becomes of a file: rendered with a parser, into the page
      template or alone (`{body}`), written to `out`; copied into the output
      directory; or left where it is. */
  datatype FilePlan = Render(parser: Parser, bodyOnly: bool, out: string)
                    | Copy(src: string, destDir: string)
                    | Leave

  predicate IsMarkdownName(fileName: string) {
    Last(fileName, 3) == ".md"
  }

  predicate IsSvgName(fileName: string) {
    Last(fileName, 4) == ".svg"
  }

  /** The suffix tests are `str.endswith` in disguise. */
  lemma NameTests(fileName: string)
    ensures IsMarkdownName(fileName) <==> EndsWith(fileName, ".md")
    ensures IsSvgName(fileName) <==> EndsWith(fileName, ".svg")
    ensures !(IsMarkdownName(fileName) && IsSvgName(fileName))
  {
    if IsMarkdownName(fileName) {
      assert fileName[|fileName| - 1] == 'd';
    }
  }

  /** The plan of `fileName` in `rt`, mirrored at `rtOut`; `self` is the
      generator's own path and `same` answers `os.path.samefile`. */
  function PlanFile(s: Site, rt: string, rtOut: string, fileName: string, self: string,
                    same: (string, string) -> bool): FilePlan {
    if IsMarkdownName(fileName) || IsSvgName(fileName) then
      if IsSvgName(fileName) then Render(XmlParser, true, Fragment.OutputPath(fileName, rtOut))
      else Render(HtmlParser, false, Fragment.OutputPath(fileName, rtOut))
    else
      var src := Join(rt, fileName);
      if !same(src, self) && !same(src, Join(s.root, s.htmlArg))
         && !same(src, Join(s.root, s.breadcrumbArg))
      then Copy(src, rtOut)
      else Leave
  }

  /** A markdown page is rendered into the page template as `<stem>.html`;
      a drawing is rendered alone under its own name. */
  lemma PlanFileRenders(s: Site, rt: string, rtOut: string, stem: string, self: string,
                        same: (string, string) -> bool)
    requires '/' !in stem && exists k :: 0 <= k < |stem| && stem[k] != '.'
    ensures PlanFile(s, rt, rtOut, stem + ".md", self, same)
            == Render(HtmlParser, false, Join(rtOut, stem + ".html"))
    ensures PlanFile(s, rt, rtOut, stem + ".svg", self, same)
            == Render(XmlParser, true, Join(rtOut, stem + ".svg"))
  {
    NameTests(stem + ".md");
    NameTests(stem + ".svg");
    assert (stem + ".md")[|stem + ".md"| - 3..] == ".md";
    assert (stem + ".svg")[|stem + ".svg"| - 4..] == ".svg";
    Fragment.OutputPathMarkdown(stem, rtOut);
  }

  /** Any other file is copied exactly when it is none of the generator
      itself, the page template and the breadcrumb template; it is copied
      from the walked directory into its mirror. */
  lemma PlanFileCopies(s: Site, rt: string, rtOut: string, fileName: string, self: string,
                       same: (string, string) -> bool)
    requires !EndsWith(fileName, ".md") && !EndsWith(fileName, ".svg")
    ensures var src := Join(rt, fileName);
            var p := PlanFile(s, rt, rtOut, fileName, self, same);
            && (p.Copy? <==> !same(src, self) && !same(src, Join(s.root, s.htmlArg))
                              && !same(src, Join(s.root, s.breadcrumbArg)))
            && (p.Copy? ==> p == Copy(src, rtOut))
            && !p.Render?
  {
    NameTests(fileName);
  }
}
