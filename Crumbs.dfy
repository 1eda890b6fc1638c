/** Index location and breadcrumbs: `Breadcrumb._get_crumb`
    (crumbler.py:130-169), `Breadcrumb.__init__` and `exists`
    (crumbler.py:101-128) and `get_breadcrumbs` (crumbler.py:322-350). */
module Crumbs {
  import opened Strings
  import opened Paths

  // ---------------------------------------------------------------------
  // Index location

  /** The directory `_get_crumb` looks in: the trimmed path joined to the
      trimmed root. */
  function IndexDir(path: string, root: string): string {
    Join(SlashTrim(root), SlashTrim(path))
  }

  /** The base name `_get_crumb` looks for: the given one, else the last
      component of the directory. */
  function IndexBase(path: string, root: string, base: Option<string>): string {
    if base.Some? then base.value else Basename(IndexDir(path, root))
  }

  /** The three candidate index files of `_get_crumb`, in the order they are
      tried: `<dir>/<base>.md`, `<dir>/index.md`, and `<base>.md` next to
      the directory (`./<relpath of dir/..>/<base>.md`). */
  function Candidates(path: string, root: string, base: Option<string>, cwd: string): (c: seq<string>)
    ensures |c| == 3
  {
    var dir := IndexDir(path, root);
    var fileBase := IndexBase(path, root, base) + ".md";
    var parent := Join(dir, "..");
    [Join(dir, fileBase),
     Join(dir, "index.md"),
     Join(Join(".", RelPath(parent, ".", cwd)), fileBase)]
  }

  /** The first and third candidates are named after the base name, the
      second is `index.md`. */
  lemma CandidateNames(path: string, root: string, base: Option<string>, cwd: string)
    ensures var c := Candidates(path, root, base, cwd);
            var fileBase := IndexBase(path, root, base) + ".md";
            EndsWith(c[0], fileBase) && EndsWith(c[1], "index.md") && EndsWith(c[2], fileBase)
  {
    var dir := IndexDir(path, root);
    var fileBase := IndexBase(path, root, base) + ".md";
    var parent := Join(dir, "..");
    JoinEnds(dir, "..");
    JoinEnds(dir, fileBase);
    JoinEnds(dir, "index.md");
    JoinEnds(Join(".", RelPath(parent, ".", cwd)), fileBase);
  }

  /** The first two candidates lie in the directory; the third is a path
      relative to the working directory, `./<rel>/<base>.md`, where `rel`
      is where the directory's parent is seen from there. */
  lemma CandidatePlaces(path: string, root: string, base: Option<string>, cwd: string)
    ensures var c := Candidates(path, root, base, cwd);
            var dir := IndexDir(path, root);
            var fileBase := IndexBase(path, root, base) + ".md";
            && StartsWith(c[1], dir)
            && (!StartsWith(fileBase, "/") ==>
                  StartsWith(c[0], dir)
                  && c[2] == "./" + RelPath(Join(dir, ".."), ".", cwd) + "/" + fileBase)
  {
    var dir := IndexDir(path, root);
    var fileBase := IndexBase(path, root, base) + ".md";
    JoinEnds(dir, fileBase);
    JoinEnds(dir, "index.md");
    var rel := RelPath(Join(dir, ".."), ".", cwd);
    if !StartsWith(fileBase, "/") {
      RelPathRelative(Join(dir, ".."), ".", cwd);
      DotJoin(rel, fileBase);
    }
  }

  /** `os.path.join('.', rel, name)` for a relative `rel` and `name`. */
  lemma DotJoin(rel: string, name: string)
    requires rel != "" && rel[0] != '/' && rel[|rel| - 1] != '/' && !StartsWith(name, "/")
    ensures Join(Join(".", rel), name) == "./" + rel + "/" + name
  {
    assert !StartsWith(rel, "/");
    assert Join(".", rel) == "./" + rel;
  }

  /** How a found candidate is reported: relative to `start` when local and
      a start is given, the raw string after the trimmed root (plus `cut`
      more characters) when local without one, or a web URL. */
  function Format(c: string, cut: nat, root: string, start: string, isLocal: bool,
                  webroot: string, cwd: string): string
    requires c != ""
  {
    if isLocal then
      if start != "" then RelPath(c, start, cwd)
      else Drop(c, |SlashTrim(root)| + cut)
    else GetUrlPath(c, "", SlashTrim(root), webroot, cwd)
  }

  /** A web answer is root-anchored; a local answer with a start is a
      non-empty relative path. */
  lemma FormatShape(c: string, cut: nat, root: string, start: string, isLocal: bool,
                    webroot: string, cwd: string)
    requires c != ""
    ensures var r := Format(c, cut, root, start, isLocal, webroot, cwd);
            (!isLocal ==> StartsWith(r, "/"))
            && (isLocal && start != "" ==> r != "" && r[0] != '/')
  {
    if isLocal {
      if start != "" { RelPathRelative(c, start, cwd); }
    } else {
      GetUrlPathAbsolute(c, "", SlashTrim(root), webroot, cwd);
    }
  }

  function CutOf(k: nat): nat {
    if k == 2 then 1 else 0
  }

  /** `_get_crumb`: the first existing candidate, formatted; None when none
      exists. Only the third candidate skips one character more in the
      local, start-less form. */
  function GetCrumb(path: string, root: string, base: Option<string>, start: string,
                    isLocal: bool, webroot: string, fs: FileSystem): Option<string>
  {
    var c := Candidates(path, root, base, fs.cwd);
    if fs.Exists(c[0]) then Some(Format(c[0], 0, root, start, isLocal, webroot, fs.cwd))
    else if fs.Exists(c[1]) then Some(Format(c[1], 0, root, start, isLocal, webroot, fs.cwd))
    else if fs.Exists(c[2]) then Some(Format(c[2], 1, root, start, isLocal, webroot, fs.cwd))
    else None
  }

  /** Candidate `k` exists and none before it does. */
  ghost predicate IsFirstExisting(c: seq<string>, k: int, fs: FileSystem) {
    0 <= k < |c| && fs.Exists(c[k]) && forall j :: 0 <= j < k ==> !fs.Exists(c[j])
  }

  /** The precedence rule: the answer is the first existing candidate, and
      there is no answer exactly when no candidate exists. */
  lemma GetCrumbPrecedence(path: string, root: string, base: Option<string>, start: string,
                           isLocal: bool, webroot: string, fs: FileSystem)
    ensures var c := Candidates(path, root, base, fs.cwd);
            && (GetCrumb(path, root, base, start, isLocal, webroot, fs).None?
                <==> !fs.Exists(c[0]) && !fs.Exists(c[1]) && !fs.Exists(c[2]))
            && (forall k :: IsFirstExisting(c, k, fs) ==>
                  GetCrumb(path, root, base, start, isLocal, webroot, fs)
                  == Some(Format(c[k], CutOf(k), root, start, isLocal, webroot, fs.cwd)))
  {
    var c := Candidates(path, root, base, fs.cwd);
    GetCrumbNone(path, root, base, start, isLocal, webroot, fs);
    forall k | IsFirstExisting(c, k, fs)
      ensures GetCrumb(path, root, base, start, isLocal, webroot, fs)
              == Some(Format(c[k], CutOf(k), root, start, isLocal, webroot, fs.cwd))
    {
      GetCrumbAt(path, root, base, start, isLocal, webroot, fs, k);
    }
  }

  lemma GetCrumbNone(path: string, root: string, base: Option<string>, start: string,
                     isLocal: bool, webroot: string, fs: FileSystem)
    ensures var c := Candidates(path, root, base, fs.cwd);
            GetCrumb(path, root, base, start, isLocal, webroot, fs).None?
            <==> !fs.Exists(c[0]) && !fs.Exists(c[1]) && !fs.Exists(c[2])
  {
  }

  lemma GetCrumbAt(path: string, root: string, base: Option<string>, start: string,
                   isLocal: bool, webroot: string, fs: FileSystem, k: int)
    requires IsFirstExisting(Candidates(path, root, base, fs.cwd), k, fs)
    ensures var c := Candidates(path, root, base, fs.cwd);
            GetCrumb(path, root, base, start, isLocal, webroot, fs)
            == Some(Format(c[k], CutOf(k), root, start, isLocal, webroot, fs.cwd))
  {
    var c := Candidates(path, root, base, fs.cwd);
    if k >= 1 { assert !fs.Exists(c[0]); }
    if k == 2 { assert !fs.Exists(c[1]); }
  }

  /** A web-mode answer is always a root-anchored URL. */
  lemma GetCrumbWebAbsolute(path: string, root: string, base: Option<string>, start: string,
                            webroot: string, fs: FileSystem)
    ensures var r := GetCrumb(path, root, base, start, false, webroot, fs);
            r.Some? ==> StartsWith(r.value, "/")
  {
    var c := Candidates(path, root, base, fs.cwd);
    if fs.Exists(c[0]) {
      FormatShape(c[0], 0, root, start, false, webroot, fs.cwd);
    } else if fs.Exists(c[1]) {
      FormatShape(c[1], 0, root, start, false, webroot, fs.cwd);
    } else if fs.Exists(c[2]) {
      FormatShape(c[2], 1, root, start, false, webroot, fs.cwd);
    }
  }

  // ---------------------------------------------------------------------
  // Display text and template rendering

  /** What `str.title` makes of one character, given whether the character
      before it is a letter. */
  function TitleChar(c: char, afterLetter: bool): char {
    if IsLetter(c) then (if afterLetter then Lower(c) else Upper(c)) else c
  }

  /** `str.title` from a position whose previous character is (or is not) a
      letter. */
  function TitleFrom(s: string, prevLetter: bool): (r: string)
    ensures |r| == |s|
  {
    if s == [] then []
    else [TitleChar(s[0], prevLetter)] + TitleFrom(s[1..], IsLetter(s[0]))
  }

  /** Each letter is upper-cased exactly when the character before it is not
      a letter, and lower-cased otherwise; other characters are kept. */
  lemma {:induction false} TitleFromAt(s: string, prevLetter: bool)
    ensures forall k :: 0 <= k < |s| ==>
              TitleFrom(s, prevLetter)[k]
              == TitleChar(s[k], if k == 0 then prevLetter else IsLetter(s[k - 1]))
    decreases |s|
  {
    if s != [] {
      TitleFromAt(s[1..], IsLetter(s[0]));
      var r := TitleFrom(s, prevLetter);
      var t := TitleFrom(s[1..], IsLetter(s[0]));
      forall k | 1 <= k < |s|
        ensures r[k] == TitleChar(s[k], IsLetter(s[k - 1]))
      {
        assert r[k] == t[k - 1];
        assert s[1..][k - 1] == s[k];
        if k > 1 { assert s[1..][k - 2] == s[k - 1]; }
      }
    }
  }

  function Title(s: string): string {
    TitleFrom(s, false)
  }

  /** The default crumb text: the base name with '_' turned into spaces,
      title-cased. */
  function DisplayText(base: string): string {
    Title(Replace(base, "_", " "))
  }

  /** The text is as long as the base name and holds no underscore. */
  lemma DisplayTextSpec(base: string)
    ensures |DisplayText(base)| == |base|
    ensures '_' !in DisplayText(base)
  {
    var spaced := Replace(base, "_", " ");
    ReplaceCharPointwise(base, '_', ' ');
    ReplaceCharGone(base, '_', " ");
    TitleFromAt(spaced, false);
    var r := Title(spaced);
    forall k | 0 <= k < |r| ensures r[k] != '_' {
      assert spaced[k] in spaced;
      assert spaced[k] != '_';
      assert r[k] == TitleChar(spaced[k], if k == 0 then false else IsLetter(spaced[k - 1]));
    }
  }

  /** The breadcrumb template rendered with `{href}` and `{text}` replaced;
      everything else is copied. */
  function Render(t: string, href: string, text: string): string
    decreases |t|
  {
    if t == "" then ""
    else if StartsWith(t, "{href}") then href + Render(t[6..], href, text)
    else if StartsWith(t, "{text}") then text + Render(t[6..], href, text)
    else [t[0]] + Render(t[1..], href, text)
  }

  /** A template without '{' comes out as it is. */
  lemma {:induction false} RenderPlain(t: string, href: string, text: string)
    requires '{' !in t
    ensures Render(t, href, text) == t
    decreases |t|
  {
    if t != "" {
      assert !StartsWith(t, "{href}") && !StartsWith(t, "{text}") by {
        if |t| >= 6 { assert t[..6][0] == t[0]; }
      }
      assert '{' !in t[1..];
      RenderPlain(t[1..], href, text);
      assert t == [t[0]] + t[1..];
    }
  }

  /** A non-empty template gives a non-empty crumb when both values are
      non-empty. */
  lemma RenderNonEmpty(t: string, href: string, text: string)
    requires t != "" && href != "" && text != ""
    ensures Render(t, href, text) != ""
  {
  }

  // ---------------------------------------------------------------------
  // Breadcrumb

  /** `f'{crumb_path[:-3]}.html'`: the last three characters (the `.md`)
      give way to `.html`. */
  function HtmlFileName(crumb: string): string {
    DropLast(crumb, 3) + ".html"
  }

  /** The name ends with `.html`, and putting `.md` back in its place gives
      the crumb again. */
  lemma HtmlFileNameSpec(crumb: string)
    ensures var r := HtmlFileName(crumb);
            EndsWith(r, ".html")
            && (EndsWith(crumb, ".md") ==> r[..|r| - 5] + ".md" == crumb)
  {
    var stem := DropLast(crumb, 3);
    var r := stem + ".html";
    assert r[..|r| - 5] == stem;
    assert r[|r| - 5..] == ".html";
    assert EndsWith(crumb, ".md") ==> crumb == crumb[..|crumb| - 3] + ".md";
  }

  /** The crumb's base name: that of the trimmed path, or of the trimmed root
      when the path is empty. */
  function CrumbBase(root: string, path: string): string {
    var p := SlashTrim(path);
    if p != "" then Basename(p) else Basename(SlashTrim(root))
  }

  function CrumbText(text: string, base: string): string {
    if text == "" then DisplayText(base) else text
  }

  /** What `__init__` asks `_get_crumb` for. */
  function ResolveCrumb(root: string, path: string, start: string, isLocal: bool,
                        webroot: string, fs: FileSystem): Option<string> {
    GetCrumb(SlashTrim(path), SlashTrim(root), Some(CrumbBase(root, path)), start,
             isLocal, webroot, fs)
  }

  /** The `html` a Breadcrumb ends up with: empty when no index was found. */
  function CrumbHtml(root: string, path: string, text: string, template: string, start: string,
                     isLocal: bool, webroot: string, fs: FileSystem): string {
    match ResolveCrumb(root, path, start, isLocal, webroot, fs)
    case None => ""
    case Some(c) =>
      Render(template, HtmlFileName(SlashTrim(c)), CrumbText(text, CrumbBase(root, path)))
  }

  /** A crumb has html only when an index was found; with a non-empty
      template and no explicit text it has html exactly when one was found
      and its base name is not empty. */
  lemma CrumbHtmlOnlyWhenFound(root: string, path: string, template: string, start: string,
                               isLocal: bool, webroot: string, fs: FileSystem)
    ensures CrumbHtml(root, path, "", template, start, isLocal, webroot, fs) != ""
            ==> ResolveCrumb(root, path, start, isLocal, webroot, fs).Some?
    ensures template != "" && CrumbBase(root, path) != ""
            && ResolveCrumb(root, path, start, isLocal, webroot, fs).Some?
            ==> CrumbHtml(root, path, "", template, start, isLocal, webroot, fs) != ""
  {
    var found := ResolveCrumb(root, path, start, isLocal, webroot, fs);
    if found.Some? && template != "" && CrumbBase(root, path) != "" {
      var href := HtmlFileName(SlashTrim(found.value));
      HtmlFileNameSpec(SlashTrim(found.value));
      DisplayTextSpec(CrumbBase(root, path));
      RenderNonEmpty(template, href, DisplayText(CrumbBase(root, path)));
    }
  }

  /** One navigation entry. The fields keep the class defaults (`None`, `''`)
      when no index file is found. */
  class Breadcrumb {
    var path: Option<string>
    var mdFile: Option<string>
    var htmlFile: Option<string>
    var text: string
    var html: string

    constructor (root: string, path: string, text: string, template: string, start: string,
                 isLocal: bool, webroot: string, fs: FileSystem)
      ensures var found := ResolveCrumb(root, path, start, isLocal, webroot, fs);
              && (found.None? ==>
                    this.path.None? && mdFile.None? && htmlFile.None? && this.text == "" && html == "")
              && (found.Some? ==>
                    && this.path == Some(SlashTrim(path))
                    && mdFile == Some(SlashTrim(found.value))
                    && htmlFile == Some(HtmlFileName(SlashTrim(found.value)))
                    && this.text == CrumbText(text, CrumbBase(root, path))
                    && html == Render(template, htmlFile.value, this.text))
      ensures html == CrumbHtml(root, path, text, template, start, isLocal, webroot, fs)
    {
      var found := ResolveCrumb(root, path, start, isLocal, webroot, fs);
      this.path := None;
      mdFile := None;
      htmlFile := None;
      this.text := "";
      html := "";
      if found.Some? {
        var crumbPath := SlashTrim(found.value);
        this.path := Some(SlashTrim(path));
        mdFile := Some(crumbPath);
        htmlFile := Some(HtmlFileName(crumbPath));
        var t := CrumbText(text, CrumbBase(root, path));
        this.text := t;
        html := Render(template, HtmlFileName(crumbPath), t);
      }
    }

    /** `exists()`: the crumb has rendered html. */
    predicate Exists()
      reads this
    {
      |html| > 0
    }
  }

  // ---------------------------------------------------------------------
  // get_breadcrumbs

  /** The settings `get_breadcrumbs` passes on to every Breadcrumb. */
  datatype TrailSettings = TrailSettings(root: string, startPath: string, template: string,
                                         isLocal: bool, webroot: string, fs: FileSystem)

  /** `''.join(parts)` */
  function Concat(parts: seq<string>): string {
    if parts == [] then "" else parts[0] + Concat(parts[1..])
  }

  /** The directory of level `i`: the root for 0, else the first `i`
      components joined. */
  function LevelPath(comps: seq<string>, i: nat): string
    requires i <= |comps|
  {
    if i == 0 then "" else JoinAll(comps[..i])
  }

  /** The html of the crumb for level `i`, empty when it has no index. */
  function LevelHtml(ts: TrailSettings, comps: seq<string>, i: nat): string
    requires i <= |comps|
  {
    CrumbHtml(ts.root, LevelPath(comps, i), "", ts.template, ts.startPath,
              ts.isLocal, ts.webroot, ts.fs)
  }

  /** `[f(0), ..., f(n - 1)]`. */
  function Tabulate(f: nat -> string, n: nat): (r: seq<string>)
    ensures |r| == n
  {
    if n == 0 then [] else Tabulate(f, n - 1) + [f(n - 1)]
  }

  /** Entry `i` of the table is `f(i)`. */
  lemma {:induction false} TabulateAt(f: nat -> string, n: nat, i: nat)
    requires i < n
    ensures Tabulate(f, n)[i] == f(i)
  {
    if i < n - 1 {
      TabulateAt(f, n - 1, i);
    }
  }

  /** The html of every level `0..|comps|`, crumb or not (empty past the
      deepest level). */
  function Levels(ts: TrailSettings, comps: seq<string>): nat -> string {
    (i: nat) => if i <= |comps| then LevelHtml(ts, comps, i) else ""
  }

  /** The non-empty entries, in their order. */
  function Kept(s: seq<string>): (r: seq<string>)
    ensures |r| <= |s|
    ensures forall k :: 0 <= k < |r| ==> r[k] != ""
  {
    if s == [] then []
    else Kept(s[..|s| - 1]) + (if s[|s| - 1] != "" then [s[|s| - 1]] else [])
  }

  /** Filtering keeps the order: the kept entries of a concatenation are
      those of the first part followed by those of the second. */
  lemma {:induction false} KeptAppend(a: seq<string>, b: seq<string>)
    ensures Kept(a + b) == Kept(a) + Kept(b)
    decreases |b|
  {
    if b != [] {
      var b' := b[..|b| - 1];
      assert (a + b)[..|a + b| - 1] == a + b';
      KeptAppend(a, b');
    } else {
      assert a + b == a;
    }
  }

  lemma KeptSnoc(s: seq<string>, x: string)
    ensures Kept(s + [x]) == Kept(s) + (if x != "" then [x] else [])
  {
    assert (s + [x])[..|s|] == s;
  }

  /** A missing level never stops a deeper one: every non-empty level is
      kept. */
  lemma KeptKeepsEach(s: seq<string>, k: nat)
    requires k < |s| && s[k] != ""
    ensures s[k] in Kept(s)
  {
    var a := s[..k];
    var b := s[k + 1..];
    assert s == (a + [s[k]]) + b;
    KeptAppend(a + [s[k]], b);
    KeptSnoc(a, s[k]);
    assert Kept(s) == Kept(a) + [s[k]] + Kept(b);
    assert Kept(s)[|Kept(a)|] == s[k];
  }

  /** The html of the crumbs `get_breadcrumbs` keeps for the components
      `comps`: every level, in order, whose crumb exists. */
  function Trail(ts: TrailSettings, comps: seq<string>): seq<string> {
    Kept(Tabulate(Levels(ts, comps), |comps| + 1))
  }

  /** Every level whose crumb exists has its html in the trail, whatever
      the levels above it gave. */
  lemma TrailKeepsFoundLevels(ts: TrailSettings, comps: seq<string>, i: nat)
    requires i <= |comps| && LevelHtml(ts, comps, i) != ""
    ensures LevelHtml(ts, comps, i) in Trail(ts, comps)
  {
    TabulateAt(Levels(ts, comps), |comps| + 1, i);
    KeptKeepsEach(Tabulate(Levels(ts, comps), |comps| + 1), i);
  }

  /** The html of each crumb, in order. */
  function Htmls(cs: seq<Breadcrumb>): (r: seq<string>)
    reads set c | c in cs
    ensures |r| == |cs| && forall k :: 0 <= k < |cs| ==> r[k] == cs[k].html
  {
    if cs == [] then [] else Htmls(cs[..|cs| - 1]) + [cs[|cs| - 1].html]
  }

  /** The crumb of level `i`, as the loop of `get_breadcrumbs` builds it. */
  method NewLevel(ts: TrailSettings, comps: seq<string>, i: nat) returns (crumb: Breadcrumb)
    requires i <= |comps|
    ensures fresh(crumb) && crumb.html == Levels(ts, comps)(i)
  {
    crumb := new Breadcrumb(ts.root, LevelPath(comps, i), "", ts.template, ts.startPath,
                            ts.isLocal, ts.webroot, ts.fs);
  }

  /** `if crumb.exists(): crumbs.append(crumb)`, stated against the table
      `f` of the html of every level: after level `i` the kept crumbs are
      the non-empty entries of levels `0..i`. */
  method KeepIfExists(crumbs: seq<Breadcrumb>, crumb: Breadcrumb, ghost f: nat -> string, ghost i: nat)
    returns (r: seq<Breadcrumb>)
    requires Htmls(crumbs) == Kept(Tabulate(f, i)) && crumb.html == f(i)
    ensures Htmls(r) == Kept(Tabulate(f, i + 1))
  {
    KeptSnoc(Tabulate(f, i), crumb.html);
    r := crumbs;
    if crumb.Exists() {
      assert (crumbs + [crumb])[..|crumbs|] == crumbs;
      r := crumbs + [crumb];
    }
  }

  /** The crumb of the root alone, as `get_breadcrumbs` returns it for a
      path without components. */
  method RootCrumb(ts: TrailSettings) returns (crumb: Breadcrumb)
    ensures fresh(crumb)
    ensures crumb.html == CrumbHtml(ts.root, "", "", ts.template, ts.startPath, ts.isLocal, ts.webroot, ts.fs)
  {
    crumb := new Breadcrumb(ts.root, "", "", ts.template, ts.startPath, ts.isLocal, ts.webroot, ts.fs);
  }

  /** `get_breadcrumbs`: when the trimmed path has some non-separator
      character, levels 0..n (root, then every prefix of the n components)
      are tried in ancestor-to-descendant order and the crumbs that exist
      are kept; otherwise the single root crumb is returned unfiltered. */
  method GetBreadcrumbs(root: string, path: string, startPath: string, template: string,
                        isLocal: bool, webroot: string, fs: FileSystem)
    returns (crumbs: seq<Breadcrumb>)
    ensures var comps := Split(SlashTrim(path));
            Concat(comps) != "" ==>
              Htmls(crumbs) == Trail(TrailSettings(root, startPath, template, isLocal, webroot, fs), comps)
    ensures Concat(Split(SlashTrim(path))) == "" ==>
              |crumbs| == 1
              && crumbs[0].html == CrumbHtml(root, "", "", template, startPath, isLocal, webroot, fs)
  {
    var comps := Split(SlashTrim(path));
    var ts := TrailSettings(root, startPath, template, isLocal, webroot, fs);
    if Concat(comps) != "" {
      ghost var f := Levels(ts, comps);
      crumbs := [];
      var i := 0;
      while i < |comps| + 1
        invariant 0 <= i <= |comps| + 1
        invariant Htmls(crumbs) == Kept(Tabulate(f, i))
      {
        var crumb := NewLevel(ts, comps, i);
        crumbs := KeepIfExists(crumbs, crumb, f, i);
        i := i + 1;
      }
    } else {
      var crumb := RootCrumb(ts);
      crumbs := [crumb];
    }
  }
}
