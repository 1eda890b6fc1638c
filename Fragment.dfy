/** A page body once parsed (`DocFragment`, crumbler.py:170-319): link and
    image rewriting, the title choice and the output file name. The parsed
    document is an array of element records, in document order. */
module Fragment {
  import opened Strings
  import opened Paths

  /** One element of the parsed document: its tag, the attributes the
      rewriting reads or writes (`None` when absent) and its text. */
  datatype Element = Element(tag: string, href: Option<string>, xlinkHref: Option<string>,
                             src: Option<string>, text: string)

  /** What the rewriting needs to know about the page: local or web mode,
      the page's directory, the site root, the web root, and the working
      directory `os.path.abspath` resolves against. */
  datatype UrlSettings = UrlSettings(isLocal: bool, path: string, root: string, webroot: string,
                                     cwd: string)

  // ---------------------------------------------------------------------
  // re.match(r'{.*}', href)

  /** From position `i` on, a '}' comes before any newline. */
  function ClosesOnLine(h: string, i: nat): bool
    decreases |h| - i
  {
    if i >= |h| then false
    else if h[i] == '}' then true
    else if h[i] == '\n' then false
    else ClosesOnLine(h, i + 1)
  }

  /** `re.match(r'{.*}', h)` succeeds: `h` opens with '{' and a '}' follows on
      the same line ('.' does not match a newline). */
  predicate IsPlaceholder(h: string) {
    |h| > 0 && h[0] == '{' && ClosesOnLine(h, 1)
  }

  /** The scan finds a '}' exactly when one follows with no newline in
      between. */
  lemma {:induction false} ClosesOnLineSpec(h: string, i: nat)
    ensures ClosesOnLine(h, i) <==> exists j :: i <= j < |h| && h[j] == '}' && '\n' !in h[i..j]
    decreases |h| - i
  {
    if i < |h| {
      if h[i] == '}' {
        assert h[i..i] == [];
      } else if h[i] == '\n' {
        forall j | i <= j < |h| && h[j] == '}' ensures '\n' in h[i..j] {
          assert h[i..j][0] == h[i];
        }
      } else {
        ClosesOnLineSpec(h, i + 1);
        forall j | i + 1 <= j < |h|
          ensures ('\n' in h[i..j]) <==> ('\n' in h[i + 1..j])
        {
          assert h[i..j] == [h[i]] + h[i + 1..j];
        }
      }
    }
  }

  /** The breadcrumb template's `{href}` is a placeholder. */
  lemma TemplateHrefIsPlaceholder()
    ensures IsPlaceholder("{href}")
  {
    var h := "{href}";
    assert h[5] == '}';
    assert ClosesOnLine(h, 5);
    assert ClosesOnLine(h, 1);
  }

  // ---------------------------------------------------------------------
  // re.sub(r'\.md(?:\b|$)', '.html', href)

  /** `.md` starts at `i` and ends the string or is followed by a non-word
      character: where the pattern matches. */
  predicate MdAt(s: string, i: int) {
    0 <= i && i + 3 <= |s| && s[i] == '.' && s[i + 1] == 'm' && s[i + 2] == 'd'
    && (i + 3 == |s| || !IsWordChar(s[i + 3]))
  }

  predicate NoMdLink(s: string) {
    forall i :: 0 <= i < |s| ==> !MdAt(s, i)
  }

  /** Every match, found left to right without overlap, replaced by `.html`. */
  function ReplaceMd(s: string): (r: string)
    ensures |s| > 0 ==> |r| > 0
    decreases |s|
  {
    if |s| < 3 then s
    else if MdAt(s, 0) then ".html" + ReplaceMd(s[3..])
    else [s[0]] + ReplaceMd(s[1..])
  }

  /** The first character is kept: a match starts with the '.' that
      `.html` also starts with. */
  lemma ReplaceMdHead(s: string)
    requires |s| > 0
    ensures ReplaceMd(s)[0] == s[0]
  {
  }

  /** A match is decided on the text from its position on. */
  lemma MdAtShift(p: string, t: string, i: int)
    requires i >= 0
    ensures MdAt(p + t, |p| + i) <==> MdAt(t, i)
  {
    if 0 <= i && i + 3 <= |t| {
      var s := p + t;
      assert s[|p| + i] == t[i] && s[|p| + i + 1] == t[i + 1] && s[|p| + i + 2] == t[i + 2];
      if i + 3 < |t| {
        assert s[|p| + i + 3] == t[i + 3];
      }
    }
  }

  /** Where nothing matches before `k`, the characters up to and including
      position `k` come out unchanged: at `k` either the character is
      copied or a match starts, and `.html` starts with its '.'. */
  lemma {:induction false} ReplaceMdPrefix(s: string, k: nat)
    requires k < |s|
    requires forall j :: 0 <= j < k ==> !MdAt(s, j)
    ensures |ReplaceMd(s)| > k && ReplaceMd(s)[..k + 1] == s[..k + 1]
    decreases k
  {
    if k == 0 {
      ReplaceMdHead(s);
    } else if |s| >= 3 {
      var t := s[1..];
      assert s == [s[0]] + t;
      forall j | 0 <= j < k - 1 ensures !MdAt(t, j) {
        MdAtShift([s[0]], t, j);
      }
      ReplaceMdPrefix(t, k - 1);
      assert ReplaceMd(s) == [s[0]] + ReplaceMd(t);
    }
  }

  /** No `.md` link survives the substitution. */
  lemma {:induction false} ReplaceMdNoLink(s: string)
    ensures NoMdLink(ReplaceMd(s))
    decreases |s|
  {
    var r := ReplaceMd(s);
    if |s| >= 3 {
      if MdAt(s, 0) {
        var t := ReplaceMd(s[3..]);
        ReplaceMdNoLink(s[3..]);
        assert r == ".html" + t;
        forall i | 0 <= i < |r| ensures !MdAt(r, i) {
          if i >= 5 {
            MdAtShift(".html", t, i - 5);
          } else if i == 0 {
            assert r[1] == ".html"[1];
          } else {
            assert r[i] == ".html"[i];
          }
        }
      } else {
        var t := ReplaceMd(s[1..]);
        ReplaceMdNoLink(s[1..]);
        assert r == [s[0]] + t;
        forall i | 0 <= i < |r| ensures !MdAt(r, i) {
          if i >= 1 {
            MdAtShift([s[0]], t, i - 1);
          } else {
            NotMdAtStart(s);
          }
        }
      }
    }
  }

  /** When `s` has no match at 0, neither has its substitution: the first
      place where `s` departs from `.md` is copied, or is the '.' of a
      `.html`. */
  lemma NotMdAtStart(s: string)
    requires |s| >= 3 && !MdAt(s, 0)
    ensures !MdAt(ReplaceMd(s), 0)
  {
    var r := ReplaceMd(s);
    var k := if s[0] != '.' then 0 else if s[1] != 'm' then 1 else if s[2] != 'd' then 2 else 3;
    assert forall j :: 0 <= j < k ==> s[j] == ".md"[j];
    ReplaceMdPrefix(s, k);
    assert r[k] == r[..k + 1][k] == s[..k + 1][k] == s[k];
  }

  /** Text without a `.md` link is left as it is. */
  lemma {:induction false} ReplaceMdIdle(s: string)
    requires NoMdLink(s)
    ensures ReplaceMd(s) == s
    decreases |s|
  {
    if |s| >= 3 {
      assert !MdAt(s, 0);
      var t := s[1..];
      assert s == [s[0]] + t;
      forall i | 0 <= i < |t| ensures !MdAt(t, i) {
        MdAtShift([s[0]], t, i);
      }
      ReplaceMdIdle(t);
    }
  }

  /** A second substitution changes nothing. */
  lemma ReplaceMdIdempotent(s: string)
    ensures ReplaceMd(ReplaceMd(s)) == ReplaceMd(s)
  {
    ReplaceMdNoLink(s);
    ReplaceMdIdle(ReplaceMd(s));
  }

  /** A link ending in `.md`, with no match before that, points to `.html`
      instead: the same renaming the generator gives the page it links to. */
  lemma {:induction false} ReplaceMdSuffix(s: string)
    requires NoMdLink(s)
    ensures ReplaceMd(s + ".md") == s + ".html"
    decreases |s|
  {
    var w := s + ".md";
    if |s| == 0 {
      assert w == ".md" && MdAt(w, 0);
      assert w[3..] == "";
    } else {
      NoMdAtJoin(s);
      var t := s[1..];
      assert s == [s[0]] + t;
      forall i | 0 <= i < |t| ensures !MdAt(t, i) {
        MdAtShift([s[0]], t, i);
      }
      ReplaceMdSuffix(t);
      assert w[1..] == t + ".md";
      assert ReplaceMd(w) == [s[0]] + ReplaceMd(t + ".md");
    }
  }

  /** No match starts at the head of a non-empty link-free text followed by
      `.md`: it would need `.md` within the text, or a '.' before the
      appended `.md` to be followed by 'm' and 'd'. */
  lemma NoMdAtJoin(s: string)
    requires NoMdLink(s) && |s| > 0
    ensures !MdAt(s + ".md", 0)
  {
    var w := s + ".md";
    if |s| == 1 {
      assert w[1] == '.';
    } else if |s| == 2 {
      assert w[2] == '.';
    } else {
      assert !MdAt(s, 0);
      assert w[0] == s[0] && w[1] == s[1] && w[2] == s[2];
      if |s| == 3 {
        assert w[3] == '.' && !IsWordChar('.');
      } else {
        assert w[3] == s[3];
      }
    }
  }

  // ---------------------------------------------------------------------
  // fix_links

  /** `link.get('href')` is missing or empty, so `fix_links` falls back to
      `xlink:href`. */
  predicate NoHref(e: Element) {
    e.tag == "a" && (e.href.None? || e.href.value == "")
  }

  /** An anchor `fix_links` cannot read: without an href and without an
      `xlink:href`, `re.match` is handed None and raises. */
  predicate Unreadable(e: Element) {
    NoHref(e) && e.xlinkHref.None?
  }

  /** A link as the page will point to it: unchanged in local mode, a web
      URL otherwise. */
  function UrlOf(h: string, u: UrlSettings): string {
    if u.isLocal then h else GetUrlPath(h, u.path, u.root, u.webroot, u.cwd)
  }

  /** How `fix_links` rewrites a link: `UrlOf`, then `.md` links made to
      point to `.html`. */
  function NewHref(h: string, u: UrlSettings): string {
    ReplaceMd(UrlOf(h, u))
  }

  /** `NewHref` as the function the passes below take. */
  function Rewrite(u: UrlSettings): string -> string {
    h => NewHref(h, u)
  }

  /** A rewritten link holds no `.md` link; in local mode it is the link
      with its `.md` links pointed to `.html`, so that a link-free
      `<stem>.md` becomes `<stem>.html`. */
  lemma RewriteSpec(u: UrlSettings, h: string)
    ensures NoMdLink(Rewrite(u)(h))
    ensures u.isLocal ==> Rewrite(u)(h) == ReplaceMd(h)
    ensures u.isLocal && EndsWith(h, ".md") && NoMdLink(h[..|h| - 3]) ==>
              Rewrite(u)(h) == h[..|h| - 3] + ".html"
  {
    ReplaceMdNoLink(UrlOf(h, u));
    if u.isLocal && EndsWith(h, ".md") && NoMdLink(h[..|h| - 3]) {
      assert h == h[..|h| - 3] + ".md";
      ReplaceMdSuffix(h[..|h| - 3]);
    }
  }

  /** One element of `fix_links`, given whether an anchor without href was
      met before: the element afterwards and the flag afterwards; None when
      the element makes the pass raise. */
  function LinkStep(e: Element, xlink: bool, rewrite: string -> string): Option<(Element, bool)> {
    if e.tag != "a" then Some((e, xlink))
    else
      var useXlink := xlink || NoHref(e);
      var href := if NoHref(e) then e.xlinkHref else e.href;
      if href.None? then None
      else if IsPlaceholder(href.value) then Some((e, useXlink))
      else if useXlink then Some((e.(xlinkHref := Some(rewrite(href.value))), true))
      else Some((e.(href := Some(rewrite(href.value))), false))
  }

  /** The elements `0..n` after `fix_links` has gone over them, and the flag. */
  datatype LinkState = LinkState(done: seq<Element>, xlink: bool)

  /** `fix_links` over the first `n` elements; None when one of them makes
      it raise. */
  function LinksUpTo(elems: seq<Element>, n: nat, rewrite: string -> string): (r: Option<LinkState>)
    requires n <= |elems|
    ensures r.Some? ==> |r.value.done| == n
  {
    if n == 0 then Some(LinkState([], false))
    else
      match LinksUpTo(elems, n - 1, rewrite)
      case None => None
      case Some(st) =>
        match LinkStep(elems[n - 1], st.xlink, rewrite)
        case None => None
        case Some(step) => Some(LinkState(st.done + [step.0], step.1))
  }

  /** The whole of `fix_links` on a document. */
  function LinkPass(elems: seq<Element>, rewrite: string -> string): (r: Option<seq<Element>>)
    ensures r.Some? ==> |r.value| == |elems|
  {
    match LinksUpTo(elems, |elems|, rewrite)
    case None => None
    case Some(st) => Some(st.done)
  }

  /** An anchor without href occurs before position `j`. */
  ghost predicate SeenNoHref(elems: seq<Element>, j: int) {
    exists k :: 0 <= k < j && k < |elems| && NoHref(elems[k])
  }

  /** A step fails exactly on an unreadable anchor, whatever the flag. */
  lemma LinkStepFails(e: Element, xlink: bool, rewrite: string -> string)
    ensures LinkStep(e, xlink, rewrite).None? <==> Unreadable(e)
    ensures LinkStep(e, xlink, rewrite).Some? ==> LinkStep(e, xlink, rewrite).value.1 == (xlink || NoHref(e))
  {
  }

  /** The pass raises exactly when the document holds an unreadable anchor. */
  lemma {:induction false} LinksUpToFails(elems: seq<Element>, n: nat, rewrite: string -> string)
    requires n <= |elems|
    ensures LinksUpTo(elems, n, rewrite).None? <==> exists k :: 0 <= k < n && Unreadable(elems[k])
  {
    if n > 0 {
      LinksUpToFails(elems, n - 1, rewrite);
      var prev := LinksUpTo(elems, n - 1, rewrite);
      if prev.Some? {
        LinkStepFails(elems[n - 1], prev.value.xlink, rewrite);
      }
    }
  }

  /** What the pass makes of each element: element `j` goes through one
      step whose flag says whether an anchor without href came before it;
      the final flag says whether one occurs at all. */
  lemma {:induction false} LinksUpToShape(elems: seq<Element>, n: nat, rewrite: string -> string)
    requires n <= |elems| && LinksUpTo(elems, n, rewrite).Some?
    ensures var st := LinksUpTo(elems, n, rewrite).value;
            && (st.xlink <==> SeenNoHref(elems, n))
            && forall j :: 0 <= j < n ==>
                 LinkStep(elems[j], SeenNoHref(elems, j), rewrite)
                 == Some((st.done[j], SeenNoHref(elems, j + 1)))
  {
    if n > 0 {
      LinksUpToShape(elems, n - 1, rewrite);
      var prev := LinksUpTo(elems, n - 1, rewrite).value;
      var st := LinksUpTo(elems, n, rewrite).value;
      LinkStepFails(elems[n - 1], prev.xlink, rewrite);
      assert SeenNoHref(elems, n) <==> SeenNoHref(elems, n - 1) || NoHref(elems[n - 1]);
      forall j | 0 <= j < n
        ensures LinkStep(elems[j], SeenNoHref(elems, j), rewrite)
                == Some((st.done[j], SeenNoHref(elems, j + 1)))
      {
        if j < n - 1 {
          assert st.done[j] == prev.done[j];
        }
      }
    }
  }

  /** Element `j` of a successful pass, in terms of the step that made it. */
  lemma LinkPassAt(elems: seq<Element>, rewrite: string -> string, j: nat)
    requires LinkPass(elems, rewrite).Some? && j < |elems|
    ensures LinkStep(elems[j], SeenNoHref(elems, j), rewrite)
            == Some((LinkPass(elems, rewrite).value[j], SeenNoHref(elems, j + 1)))
  {
    LinksUpToShape(elems, |elems|, rewrite);
  }

  /** Whatever it does, the pass changes only hrefs and xlink:hrefs, and
      only those of anchors. */
  lemma LinkPassTouchesOnlyAnchors(elems: seq<Element>, rewrite: string -> string, j: nat)
    requires LinkPass(elems, rewrite).Some? && j < |elems|
    ensures var e := LinkPass(elems, rewrite).value[j];
            && e.tag == elems[j].tag && e.src == elems[j].src && e.text == elems[j].text
            && (elems[j].tag != "a" ==> e == elems[j])
  {
    LinkPassAt(elems, rewrite, j);
  }

  /** An anchor whose link is a placeholder, such as the `{href}` of the
      breadcrumb template, comes out untouched; the link read is the href,
      or the xlink:href when the href is missing or empty. */
  lemma LinkPassKeepsPlaceholder(elems: seq<Element>, rewrite: string -> string, j: nat)
    requires LinkPass(elems, rewrite).Some? && j < |elems| && elems[j].tag == "a"
    requires var h := if NoHref(elems[j]) then elems[j].xlinkHref else elems[j].href;
             h.Some? && IsPlaceholder(h.value)
    ensures LinkPass(elems, rewrite).value[j] == elems[j]
  {
    LinkPassAt(elems, rewrite, j);
  }

  /** The breadcrumb template's anchor comes out of both passes of
      `fix_html` as it is, as far as each of them completes. */
  lemma TemplateAnchorKept(elems: seq<Element>, rewrite: string -> string,
                           isLocal: bool, toUrl: string -> string, j: nat)
    requires j < |elems| && elems[j].tag == "a" && elems[j].href == Some("{href}")
    ensures var links := LinkPass(elems, rewrite);
            && (links.Some? ==> links.value[j] == elems[j])
            && (links.Some? && ImgPass(links.value, isLocal, toUrl).Some? ==>
                  ImgPass(links.value, isLocal, toUrl).value[j] == elems[j])
  {
    var links := LinkPass(elems, rewrite);
    if links.Some? {
      TemplateHrefIsPlaceholder();
      LinkPassKeepsPlaceholder(elems, rewrite, j);
      if ImgPass(links.value, isLocal, toUrl).Some? {
        ImgsUpToAt(links.value, |links.value|, isLocal, toUrl);
      }
    }
  }

  /** Before any anchor without href, an anchor's href is rewritten in
      place. */
  lemma LinkPassRewritesHref(elems: seq<Element>, rewrite: string -> string, j: nat)
    requires LinkPass(elems, rewrite).Some? && j < |elems| && !SeenNoHref(elems, j)
    requires elems[j].tag == "a" && elems[j].href.Some? && elems[j].href.value != ""
    requires !IsPlaceholder(elems[j].href.value)
    ensures var e := LinkPass(elems, rewrite).value[j];
            && e.href == Some(rewrite(elems[j].href.value))
            && e.xlinkHref == elems[j].xlinkHref
  {
    LinkPassAt(elems, rewrite, j);
  }

  /** The sticky flag: once an anchor without href has been met, every later
      anchor's link is written to `xlink:href`, its href left as it was. */
  lemma LinkPassStickyXlink(elems: seq<Element>, rewrite: string -> string, k: nat, j: nat)
    requires LinkPass(elems, rewrite).Some? && k < j < |elems| && NoHref(elems[k])
    requires elems[j].tag == "a" && elems[j].href.Some? && elems[j].href.value != ""
    requires !IsPlaceholder(elems[j].href.value)
    ensures var e := LinkPass(elems, rewrite).value[j];
            && e.href == elems[j].href
            && e.xlinkHref == Some(rewrite(elems[j].href.value))
  {
    assert SeenNoHref(elems, j);
    LinkPassAt(elems, rewrite, j);
  }

  // ---------------------------------------------------------------------
  // fix_imgs

  /** How `fix_imgs` turns an image source into a web URL. */
  function WebUrl(u: UrlSettings): string -> string {
    h => UrlOf(h, u.(isLocal := false))
  }

  /** A web URL is root-anchored. */
  lemma WebUrlAbsolute(u: UrlSettings, h: string)
    ensures StartsWith(WebUrl(u)(h), "/")
  {
    GetUrlPathAbsolute(h, u.path, u.root, u.webroot, u.cwd);
  }

  /** One element of `fix_imgs`: in web mode an image's src goes through
      `toUrl` (a missing src makes the pass raise); in local mode it is
      written back as it was. */
  function ImgStep(e: Element, isLocal: bool, toUrl: string -> string): Option<Element> {
    if e.tag != "img" || isLocal then Some(e)
    else if e.src.None? then None
    else Some(e.(src := Some(toUrl(e.src.value))))
  }

  /** `fix_imgs` over the first `n` elements. */
  function ImgsUpTo(elems: seq<Element>, n: nat, isLocal: bool, toUrl: string -> string)
    : (r: Option<seq<Element>>)
    requires n <= |elems|
    ensures r.Some? ==> |r.value| == n
  {
    if n == 0 then Some([])
    else
      match ImgsUpTo(elems, n - 1, isLocal, toUrl)
      case None => None
      case Some(done) =>
        match ImgStep(elems[n - 1], isLocal, toUrl)
        case None => None
        case Some(e) => Some(done + [e])
  }

  function ImgPass(elems: seq<Element>, isLocal: bool, toUrl: string -> string)
    : (r: Option<seq<Element>>)
    ensures r.Some? ==> |r.value| == |elems|
  {
    ImgsUpTo(elems, |elems|, isLocal, toUrl)
  }

  /** In local mode the pass changes nothing. */
  lemma {:induction false} ImgsUpToLocal(elems: seq<Element>, n: nat, toUrl: string -> string)
    requires n <= |elems|
    ensures ImgsUpTo(elems, n, true, toUrl) == Some(elems[..n])
  {
    if n > 0 {
      ImgsUpToLocal(elems, n - 1, toUrl);
      assert elems[..n] == elems[..n - 1] + [elems[n - 1]];
    }
  }

  /** The pass fails exactly when, in web mode, an image has no src. */
  lemma {:induction false} ImgsUpToFails(elems: seq<Element>, n: nat, isLocal: bool, toUrl: string -> string)
    requires n <= |elems|
    ensures ImgsUpTo(elems, n, isLocal, toUrl).None? <==>
              !isLocal && exists k :: 0 <= k < n && elems[k].tag == "img" && elems[k].src.None?
  {
    if n > 0 {
      ImgsUpToFails(elems, n - 1, isLocal, toUrl);
    }
  }

  /** On success every element is its own step's result. */
  lemma {:induction false} ImgsUpToAt(elems: seq<Element>, n: nat, isLocal: bool, toUrl: string -> string)
    requires n <= |elems| && ImgsUpTo(elems, n, isLocal, toUrl).Some?
    ensures forall j :: 0 <= j < n ==>
              ImgStep(elems[j], isLocal, toUrl) == Some(ImgsUpTo(elems, n, isLocal, toUrl).value[j])
  {
    if n > 0 {
      ImgsUpToAt(elems, n - 1, isLocal, toUrl);
      var prev := ImgsUpTo(elems, n - 1, isLocal, toUrl).value;
      var done := ImgsUpTo(elems, n, isLocal, toUrl).value;
      assert done == prev + [ImgStep(elems[n - 1], isLocal, toUrl).value];
      forall j | 0 <= j < n - 1 ensures done[j] == prev[j] { }
    }
  }

  /** In web mode every image of a successful pass points to its converted
      source, a root-anchored URL, and nothing but image srcs changes. */
  lemma ImgPassWeb(elems: seq<Element>, u: UrlSettings, j: nat)
    requires ImgPass(elems, false, WebUrl(u)).Some? && j < |elems|
    ensures var e := ImgPass(elems, false, WebUrl(u)).value[j];
            && (elems[j].tag == "img" ==>
                  elems[j].src.Some? && e.src == Some(WebUrl(u)(elems[j].src.value))
                  && StartsWith(e.src.value, "/"))
            && e.(src := elems[j].src) == elems[j]
  {
    ImgsUpToAt(elems, |elems|, false, WebUrl(u));
    if elems[j].tag == "img" {
      WebUrlAbsolute(u, elems[j].src.value);
    }
  }

  // ---------------------------------------------------------------------
  // find_title and the output name

  /** The text of the first h1, if any (`soup.h1`). */
  function FirstH1(elems: seq<Element>): (r: Option<string>)
    ensures r.Some? <==> exists k :: 0 <= k < |elems| && elems[k].tag == "h1"
  {
    if elems == [] then None
    else if elems[0].tag == "h1" then Some(elems[0].text)
    else FirstH1(elems[1..])
  }

  /** The title `find_title` picks: the first h1's text, else the default
      (even an empty one), else the file's base name without extension. */
  function TitleOf(elems: seq<Element>, default: Option<string>, fileName: string): string {
    match FirstH1(elems)
    case Some(t) => t
    case None => if default.Some? then default.value else Stem(Basename(fileName))
  }

  /** An h1 wins, and the first one is taken. */
  lemma TitlePrefersH1(elems: seq<Element>, default: Option<string>, fileName: string, k: nat)
    requires k < |elems| && elems[k].tag == "h1"
    requires forall j :: 0 <= j < k ==> elems[j].tag != "h1"
    ensures TitleOf(elems, default, fileName) == elems[k].text
  {
    FirstH1At(elems, k);
  }

  lemma {:induction false} FirstH1At(elems: seq<Element>, k: nat)
    requires k < |elems| && elems[k].tag == "h1"
    requires forall j :: 0 <= j < k ==> elems[j].tag != "h1"
    ensures FirstH1(elems) == Some(elems[k].text)
  {
    if k > 0 {
      FirstH1At(elems[1..], k - 1);
    }
  }

  /** Without an h1, a given default is used even when it is empty. */
  lemma TitleDefault(elems: seq<Element>, default: string, fileName: string)
    requires forall j :: 0 <= j < |elems| ==> elems[j].tag != "h1"
    ensures TitleOf(elems, Some(default), fileName) == default
  {
  }

  /** Without an h1 or a default, `<stem>.md` is titled `<stem>`. */
  lemma TitleFromFileName(elems: seq<Element>, stem: string)
    requires forall j :: 0 <= j < |elems| ==> elems[j].tag != "h1"
    requires '/' !in stem && exists k :: 0 <= k < |stem| && stem[k] != '.'
    ensures TitleOf(elems, None, stem + ".md") == stem
  {
    StemOfMarkdown(stem);
  }

  /** The file `write_file` writes: `<stem>.html` for a markdown file, the
      same name otherwise, in the output directory. */
  function OutputPath(fileName: string, pathOut: string): string {
    if EndsWith(fileName, ".md") then Join(pathOut, Stem(Basename(fileName)) + ".html")
    else Join(pathOut, fileName)
  }

  /** A markdown page becomes an `.html` file; `<stem>.md` becomes
      `<stem>.html`. */
  lemma OutputPathMarkdown(stem: string, pathOut: string)
    requires '/' !in stem && exists k :: 0 <= k < |stem| && stem[k] != '.'
    ensures OutputPath(stem + ".md", pathOut) == Join(pathOut, stem + ".html")
    ensures EndsWith(OutputPath(stem + ".md", pathOut), ".html")
  {
    var name := stem + ".md";
    assert EndsWith(name, ".md") by {
      assert name[|name| - 3..] == ".md";
    }
    StemOfMarkdown(stem);
    JoinEnds(pathOut, stem + ".html");
    assert (stem + ".html")[|stem + ".html"| - 5..] == ".html";
  }

  /** Any other file (an `.svg` drawing) keeps its name. */
  lemma OutputPathOther(fileName: string, pathOut: string)
    requires !EndsWith(fileName, ".md")
    ensures OutputPath(fileName, pathOut) == Join(pathOut, fileName)
    ensures EndsWith(OutputPath(fileName, pathOut), fileName)
  {
    JoinEnds(pathOut, fileName);
  }

  // ---------------------------------------------------------------------
  // DocFragment

  /** A page being converted. `fragment` stands for `str(soup)`: the
      elements as they were last serialised. */
  class DocFragment {
    const fileName: string
    const pathOut: string
    const settings: UrlSettings
    const soup: array<Element>
    var fragment: seq<Element>
    var title: Option<string>

    constructor (elems: seq<Element>, fileName: string, pathOut: string, settings: UrlSettings)
      ensures this.fileName == fileName && this.pathOut == pathOut && this.settings == settings
      ensures fresh(soup) && soup[..] == elems && fragment == elems && title.None?
    {
      this.fileName := fileName;
      this.pathOut := pathOut;
      this.settings := settings;
      soup := new Element[|elems|](i requires 0 <= i < |elems| => elems[i]);
      fragment := elems;
      title := None;
    }

    /** `fix_links`: on success the soup is the pass's result and is
        serialised; when an anchor raises, the anchors before it are already
        rewritten, the rest untouched, and nothing is serialised. */
    method FixLinks() returns (ok: bool)
      modifies this, soup
      ensures var r := LinkPass(old(soup[..]), Rewrite(settings));
              && ok == r.Some?
              && (ok ==> soup[..] == r.value && fragment == soup[..])
      ensures !ok ==>
                fragment == old(fragment)
                && exists k :: 0 <= k < soup.Length && Unreadable(old(soup[..])[k])
                     && LinksUpTo(old(soup[..]), k, Rewrite(settings)).Some?
                     && soup[..] == LinksUpTo(old(soup[..]), k, Rewrite(settings)).value.done + old(soup[..])[k..]
      ensures title == old(title)
    {
      ghost var orig := soup[..];
      var isXlink := false;
      var i := 0;
      while i < soup.Length
        invariant 0 <= i <= soup.Length
        invariant LinksUpTo(orig, i, Rewrite(settings)) == Some(LinkState(soup[..i], isXlink))
        invariant forall k :: i <= k < soup.Length ==> soup[k] == orig[k]
        invariant fragment == old(fragment) && title == old(title)
      {
        var step := LinkStep(soup[i], isXlink, Rewrite(settings));
        if step.None? {
          LinkStepFails(orig[i], isXlink, Rewrite(settings));
          LinksUpToFails(orig, |orig|, Rewrite(settings));
          assert soup[..] == soup[..i] + orig[i..];
          return false;
        }
        soup[i] := step.value.0;
        isXlink := step.value.1;
        assert soup[..i + 1] == soup[..i] + [soup[i]];
        i := i + 1;
      }
      assert soup[..] == soup[..i];
      fragment := soup[..];
      ok := true;
    }

    /** `fix_imgs`: on success the soup is the pass's result and is
        serialised; in web mode an image without src makes it raise. */
    method FixImgs() returns (ok: bool)
      modifies this, soup
      ensures var r := ImgPass(old(soup[..]), settings.isLocal, WebUrl(settings));
              && ok == r.Some?
              && (ok ==> soup[..] == r.value && fragment == soup[..])
      ensures !ok ==>
                fragment == old(fragment)
                && exists k :: 0 <= k < soup.Length && old(soup[..])[k].tag == "img"
                     && old(soup[..])[k].src.None? && !settings.isLocal
                     && ImgsUpTo(old(soup[..]), k, settings.isLocal, WebUrl(settings)).Some?
                     && soup[..] == ImgsUpTo(old(soup[..]), k, settings.isLocal, WebUrl(settings)).value
                                    + old(soup[..])[k..]
      ensures title == old(title)
    {
      ghost var orig := soup[..];
      var i := 0;
      while i < soup.Length
        invariant 0 <= i <= soup.Length
        invariant ImgsUpTo(orig, i, settings.isLocal, WebUrl(settings)) == Some(soup[..i])
        invariant forall k :: i <= k < soup.Length ==> soup[k] == orig[k]
        invariant fragment == old(fragment) && title == old(title)
      {
        var img := ImgStep(soup[i], settings.isLocal, WebUrl(settings));
        if img.None? {
          ImgsUpToFails(orig, |orig|, settings.isLocal, WebUrl(settings));
          assert soup[..] == soup[..i] + orig[i..];
          return false;
        }
        soup[i] := img.value;
        assert soup[..i + 1] == soup[..i] + [soup[i]];
        i := i + 1;
      }
      assert soup[..] == soup[..i];
      fragment := soup[..];
      ok := true;
    }

    /** `fix_html`: links, then images; a raising link pass stops it. When
        only the image pass raises, the link pass has already serialised
        the page with its links rewritten. */
    method FixHtml() returns (ok: bool)
      modifies this, soup
      ensures var links := LinkPass(old(soup[..]), Rewrite(settings));
              var imgs := if links.Some? then ImgPass(links.value, settings.isLocal, WebUrl(settings)) else None;
              && ok == imgs.Some?
              && (ok ==> soup[..] == imgs.value && fragment == soup[..])
              && (links.None? ==> fragment == old(fragment))
              && (links.Some? && !ok ==> fragment == links.value)
      ensures title == old(title)
    {
      ok := FixLinks();
      if ok {
        ok := FixImgs();
      }
    }

    /** `find_title(default)` */
    method FindTitle(default: Option<string>) returns (t: string)
      modifies this
      ensures t == TitleOf(soup[..], default, fileName) && title == Some(t)
      ensures fragment == old(fragment)
    {
      t := TitleOf(soup[..], default, fileName);
      title := Some(t);
    }
  }
}
