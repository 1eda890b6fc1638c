/** POSIX path handling as Python's `posixpath` does it (`join`, `basename`,
    `splitext`, `normpath`, `abspath`, `relpath`), the generator's own
    `slash_trim` (crumbler.py:414-415) and `get_url_path`
    (crumbler.py:361-370). The separator is fixed as '/', and the process's
    working directory is an explicit parameter.

    The functions carry only their cheapest facts (lengths, non-emptiness);
    everything else they promise is stated as a lemma next to them. */
module Paths {
  import opened Strings

  // ---------------------------------------------------------------------
  // Splitting and joining on '/'

  /** `'/'.join(parts)` */
  function JoinSlash(parts: seq<string>): string {
    if |parts| == 0 then ""
    else if |parts| == 1 then parts[0]
    else parts[0] + "/" + JoinSlash(parts[1..])
  }

  /** The joined string starts with the first part. */
  lemma JoinSlashHead(parts: seq<string>)
    requires |parts| > 0
    ensures StartsWith(JoinSlash(parts), parts[0])
  {
  }

  /** The joined string ends with the last part. */
  lemma {:induction false} JoinSlashLast(parts: seq<string>)
    requires |parts| > 0
    ensures EndsWith(JoinSlash(parts), parts[|parts| - 1])
    decreases |parts|
  {
    if |parts| > 1 {
      JoinSlashLast(parts[1..]);
      var t := JoinSlash(parts[1..]);
      var l := parts[|parts| - 1];
      assert parts[1..][|parts| - 2] == l;
      var r := parts[0] + "/" + t;
      assert r[|r| - |l|..] == t[|t| - |l|..];
    }
  }

  /** `s.split('/')`: never empty. */
  function Split(s: string): (r: seq<string>)
    ensures |r| >= 1
  {
    if s == [] then [""]
    else
      var rest := Split(s[1..]);
      if s[0] == '/' then [""] + rest
      else [[s[0]] + rest[0]] + rest[1..]
  }

  /** No part of `s.split('/')` holds a separator, and joining the parts
      back with '/' gives `s` again. */
  lemma {:induction false} SplitJoin(s: string)
    ensures forall k :: 0 <= k < |Split(s)| ==> '/' !in Split(s)[k]
    ensures JoinSlash(Split(s)) == s
    decreases |s|
  {
    if s != [] {
      SplitJoin(s[1..]);
      var rest := Split(s[1..]);
      var parts := Split(s);
      if s[0] == '/' {
        assert parts == [""] + rest;
        assert parts[1..] == rest;
        assert s == "/" + s[1..];
        forall k | 0 <= k < |parts| ensures '/' !in parts[k] {
          if k > 0 { assert parts[k] == rest[k - 1]; }
        }
      } else {
        assert parts == [[s[0]] + rest[0]] + rest[1..];
        assert |rest| > 1 ==> JoinSlash(rest) == rest[0] + "/" + JoinSlash(rest[1..]);
        assert |rest| > 1 ==> parts[1..] == rest[1..];
        assert JoinSlash(parts) == [s[0]] + JoinSlash(rest);
        assert s == [s[0]] + s[1..];
        forall k | 0 <= k < |parts| ensures '/' !in parts[k] {
          if k > 0 { assert parts[k] == rest[k]; }
        }
      }
    }
  }

  /** The parts that are not empty, in their order. */
  function NonEmpty(parts: seq<string>): seq<string> {
    if parts == [] then []
    else if parts[0] == "" then NonEmpty(parts[1..])
    else [parts[0]] + NonEmpty(parts[1..])
  }

  /** Every part kept is non-empty and is one of the given parts. */
  lemma {:induction false} NonEmptyParts(parts: seq<string>)
    ensures forall k :: 0 <= k < |NonEmpty(parts)| ==>
              NonEmpty(parts)[k] != "" && NonEmpty(parts)[k] in parts
    decreases |parts|
  {
    if parts != [] {
      NonEmptyParts(parts[1..]);
      var r := NonEmpty(parts);
      var t := NonEmpty(parts[1..]);
      forall k | 0 <= k < |r| ensures r[k] != "" && r[k] in parts {
        if parts[0] == "" {
          assert r[k] == t[k] && t[k] in parts[1..];
        } else if k > 0 {
          assert r[k] == t[k - 1] && t[k - 1] in parts[1..];
        }
      }
    }
  }

  function Repeat(x: string, n: nat): (r: seq<string>)
    ensures |r| == n
  {
    if n == 0 then [] else [x] + Repeat(x, n - 1)
  }

  /** Every entry of `Repeat(x, n)` is `x`. */
  lemma {:induction false} RepeatAt(x: string, n: nat, k: nat)
    requires k < n
    ensures Repeat(x, n)[k] == x
  {
    if k > 0 {
      RepeatAt(x, n - 1, k - 1);
    }
  }

  // ---------------------------------------------------------------------
  // posixpath.join, basename, splitext

  /** `os.path.join(a, b)`: an absolute `b` replaces `a`; otherwise a
      separator is put between them unless `a` is empty or ends with one. */
  function Join(a: string, b: string): (r: string)
    ensures |r| >= |b|
  {
    if StartsWith(b, "/") then b
    else if a == "" || a[|a| - 1] == '/' then a + b
    else a + "/" + b
  }

  /** The joined path ends with `b`, and starts with `a` unless `b` is
      absolute. */
  lemma JoinEnds(a: string, b: string)
    ensures EndsWith(Join(a, b), b)
    ensures StartsWith(b, "/") || StartsWith(Join(a, b), a)
  {
    var r := Join(a, b);
    assert r[|r| - |b|..] == b;
  }

  /** `os.path.join(*parts)`, folded from the left. */
  function JoinAll(parts: seq<string>): string
    requires |parts| > 0
  {
    if |parts| == 1 then parts[0]
    else Join(JoinAll(parts[..|parts| - 1]), parts[|parts| - 1])
  }

  /** `p.rfind(c)`: -1 when `c` does not occur. */
  function LastIndex(p: string, c: char): (r: int)
    ensures -1 <= r < |p|
  {
    if p == [] then -1
    else if p[|p| - 1] == c then |p| - 1
    else LastIndex(p[..|p| - 1], c)
  }

  /** `rfind` finds the last occurrence, and -1 means none. */
  lemma {:induction false} LastIndexSpec(p: string, c: char)
    ensures LastIndex(p, c) == -1 ==> c !in p
    ensures LastIndex(p, c) >= 0 ==>
              p[LastIndex(p, c)] == c && c !in p[LastIndex(p, c) + 1..]
    decreases |p|
  {
    if p != [] && p[|p| - 1] != c {
      var init := p[..|p| - 1];
      LastIndexSpec(init, c);
      var r := LastIndex(init, c);
      assert p == init + [p[|p| - 1]];
      assert r >= 0 ==> p[r + 1..] == init[r + 1..] + [p[|p| - 1]];
    }
  }

  /** `os.path.basename(p)`: what follows the last separator. */
  function Basename(p: string): string {
    p[LastIndex(p, '/') + 1..]
  }

  /** The base name holds no separator, ends the path, and is preceded by a
      separator unless it is the whole path. */
  lemma BasenameSpec(p: string)
    ensures '/' !in Basename(p)
    ensures EndsWith(p, Basename(p))
    ensures |Basename(p)| < |p| ==> p[|p| - |Basename(p)| - 1] == '/'
  {
    LastIndexSpec(p, '/');
  }

  predicate HasNonDot(p: string, lo: int, hi: int)
    requires 0 <= lo <= hi <= |p|
  {
    exists k :: lo <= k < hi && p[k] != '.'
  }

  /** `os.path.splitext(p)`: the extension starts at the last '.' of the last
      component, unless everything before that dot in the component is dots. */
  function SplitExt(p: string): (string, string) {
    var sep := LastIndex(p, '/');
    var dot := LastIndex(p, '.');
    if dot > sep && HasNonDot(p, sep + 1, dot) then (p[..dot], p[dot..])
    else (p, "")
  }

  /** The two halves put together give the path back; the extension is
      empty or one '.' followed by neither a separator nor another '.'. */
  lemma SplitExtSpec(p: string)
    ensures SplitExt(p).0 + SplitExt(p).1 == p
    ensures var e := SplitExt(p).1;
            e == "" || (e[0] == '.' && '/' !in e && '.' !in e[1..])
  {
    var sep := LastIndex(p, '/');
    var dot := LastIndex(p, '.');
    if dot > sep && HasNonDot(p, sep + 1, dot) {
      assert p[..dot] + p[dot..] == p;
      ExtensionShape(p, sep, dot);
    }
  }

  /** What follows the last '.' when it comes after the last '/' is that
      dot followed by neither a separator nor another dot. */
  lemma ExtensionShape(p: string, sep: int, dot: int)
    requires sep == LastIndex(p, '/') && dot == LastIndex(p, '.') && sep < dot
    ensures p[dot..][0] == '.' && '/' !in p[dot..] && '.' !in p[dot..][1..]
  {
    LastIndexSpec(p, '/');
    LastIndexSpec(p, '.');
    assert '/' !in p[sep + 1..] by {
      if sep == -1 { assert p[0..] == p; }
    }
    NotInSuffix(p, '/', sep + 1, dot);
    assert p[dot..][1..] == p[dot + 1..];
  }

  /** A character missing from a suffix is missing from every shorter one. */
  lemma NotInSuffix(s: string, c: char, i: nat, j: nat)
    requires i <= j <= |s| && c !in s[i..]
    ensures c !in s[j..]
  {
    forall k | 0 <= k < |s[j..]| ensures s[j..][k] != c {
      assert s[j..][k] == s[i..][j - i + k];
    }
  }

  /** `os.path.splitext(p)[0]` */
  function Stem(p: string): string {
    SplitExt(p).0
  }

  /** A plain file name `<stem>.md` splits into `<stem>` and `.md`. */
  lemma SplitExtMarkdown(stem: string)
    requires '/' !in stem
    requires exists k :: 0 <= k < |stem| && stem[k] != '.'
    ensures SplitExt(stem + ".md") == (stem, ".md")
  {
    var p := stem + ".md";
    MarkdownNameNoSep(stem);
    LastIndexSpec(p, '/');
    LastIndexSpec(p, '.');
    var sep := LastIndex(p, '/');
    var dot := LastIndex(p, '.');
    assert sep == -1;
    assert p[|stem|] == '.' && p[|stem| + 1..] == "md";
    assert dot == |stem|;
    var k :| 0 <= k < |stem| && stem[k] != '.';
    assert p[k] == stem[k];
    assert HasNonDot(p, 0, dot);
    assert p[..dot] == stem;
  }

  /** `<stem>.md` holds no separator when `<stem>` holds none. */
  lemma MarkdownNameNoSep(stem: string)
    requires '/' !in stem
    ensures '/' !in stem + ".md"
  {
    var p := stem + ".md";
    assert p[|stem|..] == ".md";
    forall k | 0 <= k < |p| ensures p[k] != '/' {
      if k < |stem| { assert p[k] == stem[k]; }
    }
  }

  /** A plain file name `<stem>.md` is its own base name, and its stem is
      `<stem>`. */
  lemma StemOfMarkdown(stem: string)
    requires '/' !in stem
    requires exists k :: 0 <= k < |stem| && stem[k] != '.'
    ensures Stem(Basename(stem + ".md")) == stem
  {
    var p := stem + ".md";
    MarkdownNameNoSep(stem);
    LastIndexSpec(p, '/');
    assert Basename(p) == p;
    SplitExtMarkdown(stem);
  }

  // ---------------------------------------------------------------------
  // posixpath.normpath, abspath, relpath

  /** One step of `normpath`'s loop over the components. */
  function NormStep(acc: seq<string>, c: string, absolute: bool): seq<string> {
    if c == "" || c == "." then acc
    else if c != ".." || (!absolute && acc == []) || (acc != [] && acc[|acc| - 1] == "..") then acc + [c]
    else if acc != [] then acc[..|acc| - 1]
    else acc
  }

  function NormFold(acc: seq<string>, comps: seq<string>, absolute: bool): seq<string>
    decreases |comps|
  {
    if comps == [] then acc
    else NormFold(NormStep(acc, comps[0], absolute), comps[1..], absolute)
  }

  /** `os.path.normpath(p)`: drops empty and '.' components, folds '..',
      keeps one leading separator (two when the path starts with exactly
      two), and never returns the empty string. */
  function NormPath(p: string): (r: string)
    ensures r != ""
  {
    if p == "" then "."
    else
      var lead := if !StartsWith(p, "/") then ""
                  else if StartsWith(p, "//") && !StartsWith(p, "///") then "//"
                  else "/";
      var q := lead + JoinSlash(NormFold([], Split(p), lead != ""));
      if q == "" then "." else q
  }

  /** `os.path.abspath(p)` with `cwd` standing for `os.getcwd()`. */
  function AbsPath(p: string, cwd: string): (r: string)
    ensures r != ""
  {
    NormPath(if StartsWith(p, "/") then p else Join(cwd, p))
  }

  /** The non-empty components of the absolute form of `p`, as `relpath`
      lists them. */
  function Components(p: string, cwd: string): seq<string> {
    NonEmpty(Split(AbsPath(p, cwd)))
  }

  /** Components are non-empty and hold no separator. */
  lemma ComponentsParts(p: string, cwd: string)
    ensures forall k :: 0 <= k < |Components(p, cwd)| ==>
              Components(p, cwd)[k] != "" && '/' !in Components(p, cwd)[k]
  {
    var parts := Split(AbsPath(p, cwd));
    SplitJoin(AbsPath(p, cwd));
    NonEmptyParts(parts);
    var r := NonEmpty(parts);
    forall k | 0 <= k < |r| ensures r[k] != "" && '/' !in r[k] {
      var j :| 0 <= j < |parts| && parts[j] == r[k];
    }
  }

  /** Length of the longest common prefix (`os.path.commonprefix` on lists). */
  function CommonPrefixLen(a: seq<string>, b: seq<string>): (r: nat)
    ensures r <= |a| && r <= |b|
  {
    if a == [] || b == [] || a[0] != b[0] then 0
    else 1 + CommonPrefixLen(a[1..], b[1..])
  }

  /** The common prefix is shared by both lists, and cannot be extended. */
  lemma {:induction false} CommonPrefixSpec(a: seq<string>, b: seq<string>)
    ensures var n := CommonPrefixLen(a, b);
            a[..n] == b[..n] && (n < |a| && n < |b| ==> a[n] != b[n])
    decreases |a|
  {
    if a != [] && b != [] && a[0] == b[0] {
      CommonPrefixSpec(a[1..], b[1..]);
      var n := CommonPrefixLen(a[1..], b[1..]);
      assert a[..n + 1] == [a[0]] + a[1..][..n];
      assert b[..n + 1] == [b[0]] + b[1..][..n];
    }
  }

  /** A list extended by a tail shares all of itself with the extension. */
  lemma {:induction false} CommonPrefixOfExtension(a: seq<string>, tail: seq<string>)
    ensures CommonPrefixLen(a, a + tail) == |a|
    decreases |a|
  {
    if a != [] {
      assert (a + tail)[0] == a[0];
      assert (a + tail)[1..] == a[1..] + tail;
      CommonPrefixOfExtension(a[1..], tail);
    }
  }

  /** The relative path from the directory with components `sl` to the one
      with components `pl`: climb out of `sl` with '..' as far as the common
      prefix, then descend into the rest of `pl`. The parts are non-empty
      and hold no separator, so `join(*rel)` is the parts joined with '/'. */
  function RelFromComponents(sl: seq<string>, pl: seq<string>): string {
    var i := CommonPrefixLen(sl, pl);
    var rel := Repeat("..", |sl| - i) + pl[i..];
    if rel == [] then "." else JoinSlash(rel)
  }

  /** `os.path.relpath(p, start)` on the components of both absolute paths.
      Python raises on an empty `p`; every caller passes a non-empty one. */
  function RelPath(p: string, start: string, cwd: string): string
    requires p != ""
  {
    RelFromComponents(Components(start, cwd), Components(p, cwd))
  }

  /** A relative path is never empty, never absolute, and does not end with
      a separator. */
  lemma RelPathRelative(p: string, start: string, cwd: string)
    requires p != ""
    ensures RelPath(p, start, cwd) != "" && RelPath(p, start, cwd)[0] != '/'
    ensures RelPath(p, start, cwd)[|RelPath(p, start, cwd)| - 1] != '/'
  {
    ComponentsParts(p, cwd);
    RelFromComponentsShape(Components(start, cwd), Components(p, cwd));
  }

  /** `RelFromComponents` on components that are non-empty and hold no
      separator. */
  lemma RelFromComponentsShape(sl: seq<string>, pl: seq<string>)
    requires forall k :: 0 <= k < |pl| ==> pl[k] != "" && '/' !in pl[k]
    ensures var r := RelFromComponents(sl, pl);
            r != "" && r[0] != '/' && r[|r| - 1] != '/'
  {
    var i := CommonPrefixLen(sl, pl);
    var rel := Repeat("..", |sl| - i) + pl[i..];
    if rel != [] {
      RelPartsShape(sl, pl, i, rel);
      JoinSlashHead(rel);
      JoinSlashLast(rel);
      EndsOfJoin(rel);
    }
  }

  /** The parts `relpath` joins are non-empty and hold no separator. */
  lemma RelPartsShape(sl: seq<string>, pl: seq<string>, i: nat, rel: seq<string>)
    requires i <= |sl| && i <= |pl| && rel == Repeat("..", |sl| - i) + pl[i..]
    requires forall k :: 0 <= k < |pl| ==> pl[k] != "" && '/' !in pl[k]
    ensures forall k :: 0 <= k < |rel| ==> rel[k] != "" && '/' !in rel[k]
  {
    var rep := Repeat("..", |sl| - i);
    forall k | 0 <= k < |rel| ensures rel[k] != "" && '/' !in rel[k] {
      if k < |rep| {
        RepeatAt("..", |sl| - i, k);
        assert rel[k] == "..";
      } else {
        assert rel[k] == pl[i + k - |rep|];
      }
    }
  }

  /** Parts that are non-empty and hold no separator join into a string that
      neither starts nor ends with one. */
  lemma EndsOfJoin(parts: seq<string>)
    requires |parts| > 0
    requires forall k :: 0 <= k < |parts| ==> parts[k] != "" && '/' !in parts[k]
    requires StartsWith(JoinSlash(parts), parts[0])
    requires EndsWith(JoinSlash(parts), parts[|parts| - 1])
    ensures var r := JoinSlash(parts); r != "" && r[0] != '/' && r[|r| - 1] != '/'
  {
    var r := JoinSlash(parts);
    var first := parts[0];
    var last := parts[|parts| - 1];
    assert r[0] == r[..|first|][0] == first[0] && first[0] in first;
    assert r[|r| - 1] == r[|r| - |last|..][|last| - 1] == last[|last| - 1] && last[|last| - 1] in last;
  }

  /** A path taken relative to one of its ancestors is the list of the
      remaining components. */
  lemma RelPathDescendant(p: string, start: string, cwd: string, tail: seq<string>)
    requires p != "" && tail != []
    requires Components(p, cwd) == Components(start, cwd) + tail
    ensures RelPath(p, start, cwd) == JoinSlash(tail)
  {
    RelFromAncestor(Components(start, cwd), tail);
  }

  lemma RelFromAncestor(sl: seq<string>, tail: seq<string>)
    requires tail != []
    ensures RelFromComponents(sl, sl + tail) == JoinSlash(tail)
  {
    var pl := sl + tail;
    CommonPrefixOfExtension(sl, tail);
    var rel := Repeat("..", |sl| - CommonPrefixLen(sl, pl)) + pl[CommonPrefixLen(sl, pl)..];
    assert Repeat("..", 0) == [];
    assert rel == tail;
  }

  /** A path relative to itself is '.'. */
  lemma RelPathSelf(p: string, cwd: string)
    requires p != ""
    ensures RelPath(p, p, cwd) == "."
  {
    var l := Components(p, cwd);
    CommonPrefixOfExtension(l, []);
    assert l + [] == l;
  }

  // ---------------------------------------------------------------------
  // The file system, as far as the generator asks about it

  /** `os.path.exists` answered by a set of existing absolute, normalised
      paths, with `cwd` standing for the process's working directory. */
  datatype FileSystem = FileSystem(cwd: string, existing: set<string>) {
    predicate Exists(p: string) {
      p != "" && AbsPath(p, cwd) in existing
    }
  }

  // ---------------------------------------------------------------------
  // crumbler.py's own helpers

  /** `slash_trim` (crumbler.py:414-415): `re.sub('^/|/$', '', s)`. The `$`
      of Python's regular expressions also matches just before a final
      newline, so a '/' in that position is the one removed. */
  function SlashTrim(s: string): string {
    var t := if |s| > 0 && s[0] == '/' then s[1..] else s;
    if |t| > 0 && t[|t| - 1] == '/' then t[..|t| - 1]
    else if |t| > 1 && t[|t| - 2] == '/' && t[|t| - 1] == '\n' then t[..|t| - 2] + "\n"
    else t
  }

  /** `slash_trim` removes at most one character at each end; a string with
      no separator at either end (nor before a final newline) is left as it
      is; without a final newline the result is exactly the string with its
      leading '/' and its trailing '/' removed, each where present. */
  lemma SlashTrimSpec(s: string)
    ensures |s| - 2 <= |SlashTrim(s)| <= |s|
    ensures (s == "" || (s[0] != '/' && s[|s| - 1] != '/' && !EndsWith(s, "/\n")))
            ==> SlashTrim(s) == s
    ensures !EndsWith(s, "\n") ==>
              var r := SlashTrim(s);
              var i := if StartsWith(s, "/") then 1 else 0;
              i + |r| <= |s| && r == s[i..i + |r|] && |s| - (i + |r|) <= 1
              && (i + |r| < |s| ==> s[|s| - 1] == '/')
    ensures !EndsWith(s, "\n") ==>
              var i := if StartsWith(s, "/") then 1 else 0;
              var j := if |s| > i && s[|s| - 1] == '/' then 1 else 0;
              SlashTrim(s) == s[i..|s| - j]
  {
    var i := if StartsWith(s, "/") then 1 else 0;
    var t := if |s| > 0 && s[0] == '/' then s[1..] else s;
    assert t == s[i..];
    if !EndsWith(s, "\n") {
      var j := if |s| > i && s[|s| - 1] == '/' then 1 else 0;
      assert |s| > 0 ==> s[|s| - 1] != '\n' by {
        if |s| > 0 { assert s[|s| - 1..] == [s[|s| - 1]]; }
      }
      assert |t| > 0 ==> t[|t| - 1] == s[|s| - 1];
      assert SlashTrim(s) == s[i..|s| - j];
    }
  }

  /** The part of `get_url_path` before the web root is joined: the link with
      every `file:///` removed, joined to `path`, made absolute, and taken
      relative to the absolute root. */
  function UrlRelPart(link: string, path: string, root: string, cwd: string): string {
    var l := Replace(link, "file:///", "");
    RelPath(AbsPath(Join(path, l), cwd), AbsPath(root, cwd), cwd)
  }

  /** `get_url_path` (crumbler.py:361-370): a root-anchored web URL. */
  function GetUrlPath(link: string, path: string, root: string, webroot: string, cwd: string): string {
    var u := Replace(Join(webroot, UrlRelPart(link, path, root, cwd)), "\\", "/");
    if StartsWith(u, "/") then u else "/" + u
  }

  /** The URL always starts with '/' and holds no backslash. */
  lemma GetUrlPathAbsolute(link: string, path: string, root: string, webroot: string, cwd: string)
    ensures StartsWith(GetUrlPath(link, path, root, webroot, cwd), "/")
    ensures '\\' !in GetUrlPath(link, path, root, webroot, cwd)
  {
    ReplaceCharGone(Join(webroot, UrlRelPart(link, path, root, cwd)), '\\', "/");
  }

  /** With an empty web root the URL is the relative path with backslashes
      turned into '/', led by a '/' of its own unless its leading backslash
      already became one. */
  lemma GetUrlPathEmptyWebroot(link: string, path: string, root: string, cwd: string)
    ensures var rel := UrlRelPart(link, path, root, cwd);
            GetUrlPath(link, path, root, "", cwd)
            == (if StartsWith(rel, "\\") then "" else "/") + Replace(rel, "\\", "/")
  {
    RelPathRelative(AbsPath(Join(path, Replace(link, "file:///", "")), cwd), AbsPath(root, cwd), cwd);
    EmptyWebrootUrl(UrlRelPart(link, path, root, cwd));
  }

  /** The last steps of `get_url_path` on a relative path under an empty
      web root. */
  lemma EmptyWebrootUrl(rel: string)
    requires rel != "" && rel[0] != '/'
    ensures var u := Replace(Join("", rel), "\\", "/");
            (if StartsWith(u, "/") then u else "/" + u)
            == (if StartsWith(rel, "\\") then "" else "/") + Replace(rel, "\\", "/")
  {
    assert Join("", rel) == rel;
    ReplaceCharPointwise(rel, '\\', '/');
    var u := Replace(rel, "\\", "/");
    assert u[0] == (if rel[0] == '\\' then '/' else rel[0]);
    assert StartsWith(u, "/") <==> StartsWith(rel, "\\");
  }

  /** A link without `file:///` is used as written. */
  lemma FileSchemeAbsent(link: string)
    requires !Occurs(link, "file:///")
    ensures Replace(link, "file:///", "") == link
  {
    ReplaceAbsent(link, "file:///", "");
  }

  /** Removal is a single left-to-right pass, so what remains can spell the
      pattern again: when the first character of the pattern differs from
      the next two, hiding the pattern inside its own first two characters
      leaves exactly the pattern behind. */
  lemma RemovalCanReappear(pat: string)
    requires |pat| >= 3 && pat[0] != pat[1] && pat[0] != pat[2]
    ensures Replace([pat[0]] + ([pat[1]] + (pat + pat[2..])), pat, "") == pat
  {
    var tail := pat[2..];
    var s2 := pat + tail;
    var s1 := [pat[1]] + s2;
    var s0 := [pat[0]] + s1;
    ReplaceHit(s2, pat, "");
    assert s2[|pat|..] == tail;
    assert Replace(tail, pat, "") == tail;
    assert Replace(s2, pat, "") == tail;
    ReplaceMiss(s1, pat, "", 0);
    assert s1[1..] == s2;
    assert Replace(s1, pat, "") == [pat[1]] + tail;
    ReplaceMiss(s0, pat, "", 2);
    assert s0[1..] == s1;
    assert Replace(s0, pat, "") == [pat[0]] + ([pat[1]] + tail);
    SplitTwo(pat);
  }

  lemma SplitTwo(s: string)
    requires |s| >= 2
    ensures [s[0]] + ([s[1]] + s[2..]) == s
  {
  }

  /** `get_url_path` can still see a `file:///` after removing them all:
      `fifile:///le:///` becomes `file:///`. */
  lemma FileSchemeCanReappear(pat: string)
    requires pat == "file:///"
    ensures Replace([pat[0]] + ([pat[1]] + (pat + pat[2..])), pat, "") == pat
  {
    RemovalCanReappear(pat);
  }

  /** One step of `Replace` where the pattern starts the string. */
  lemma ReplaceHit(s: string, pat: string, repl: string)
    requires |pat| > 0 && |pat| <= |s| && s[..|pat|] == pat
    ensures Replace(s, pat, repl) == repl + Replace(s[|pat|..], pat, repl)
  {
  }

  /** One step of `Replace` where the pattern does not start the string,
      shown by a mismatch at position `k`. */
  lemma ReplaceMiss(s: string, pat: string, repl: string, k: nat)
    requires k < |pat| <= |s| && s[k] != pat[k]
    ensures Replace(s, pat, repl) == [s[0]] + Replace(s[1..], pat, repl)
  {
    assert s[..|pat|][k] == s[k];
  }
}
