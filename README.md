# crumbler in Dafny

This project models the decision logic of `crumbler.py`, a single-file
static-site generator, in Dafny. The generator walks a directory tree. It
turns every Markdown page (and every SVG drawing) into an HTML page with
breadcrumb navigation, and it copies every other file into a mirrored
output tree. The model covers these parts:

- **Paths** (`Paths.dfy`). POSIX `os.path` as pure functions: `join`,
  `basename`, `splitext`, `normpath`, `abspath` and `relpath`. The working
  directory is a parameter. Also the generator's `slash_trim` and
  `get_url_path`. `os.path.exists` is answered by a `FileSystem` value that
  holds the set of existing absolute paths.
- **Breadcrumbs** (`Crumbs.dfy`).
  - `_get_crumb` tries three index files in a fixed order and formats the
    first one that exists in one of three ways.
  - The `Breadcrumb` class fills its fields in its constructor.
  - `get_breadcrumbs` is a loop that walks from the root down to the page
    and keeps the crumbs that exist.
- **Pages** (`Fragment.dfy`).
  - The `DocFragment` class holds the parsed page as an array of element
    records, which its methods rewrite in place.
  - `fix_links` rewrites each anchor's link: a web URL in web mode, and
    `.md` links turned into `.html`. A `{...}` placeholder is left alone.
    Once an anchor without `href` has been seen, the `is_xlink` flag stays
    set, so every later anchor is written to `xlink:href`.
  - `fix_imgs` rewrites each image source.
  - `find_title` falls back from the first `h1` to the given default, then
    to the file's stem. `write_file` chooses the output name.
  - The passes are stated generically over the rewriting function. The
    lemmas about them therefore hold for any rewriting.
- **Command line** (`Args.dfy`). `parse_sys_args` is a state machine over
  the tokens, proved against a step function. It is followed by the merge
  with `DEFAULT_ARGS`. Every way the parser exits ends as one `Error`.
  This includes `--help`, because the bare `except:` catches `SystemExit`.
- **Driver** (`Driver.dfy`). The per-directory and per-file decisions of
  the main loop:
  - the settings read from the merged arguments;
  - the mirrored output directory;
  - the test that skips the output tree;
  - what happens to each file: rendered with the HTML or the XML parser,
    copied, or left where it is.

`slash_trim` uses Python's `$`, which also matches just before
a final newline. A '/' in front of a final newline is therefore the one
removed, so the result is not always a contiguous piece of the input.

## Model

| member | source | states |
|---|---|---|
| Paths.JoinEnds | crumbler.py:141-145 | `os.path.join(a, b)` ends with `b`, and starts with `a` unless `b` is absolute |
| Paths.BasenameSpec | crumbler.py:112 | the base name holds no separator and ends the path; when it is not the whole path, a separator comes right before it |
| Paths.SplitExtSpec | crumbler.py:259 | the stem and the extension put back together give the path; the extension is empty or a '.' followed by neither '/' nor another '.' |
| Paths.SplitExtMarkdown | crumbler.py:259 | `<stem>.md` splits into `<stem>` and `.md` when the stem has no separator and is not all dots |
| Paths.StemOfMarkdown | crumbler.py:291 | the stem of the base name of `<stem>.md` is `<stem>` |
| Paths.SplitJoin | crumbler.py:329 | `split('/')` parts hold no separator and join back to the input |
| Paths.ComponentsParts | crumbler.py:149 | the components `relpath` compares are non-empty and hold no separator |
| Paths.CommonPrefixSpec | crumbler.py:149 | the common prefix `relpath` climbs to is shared by both paths and is maximal |
| Paths.RelPathRelative | crumbler.py:149 | `os.path.relpath` gives a non-empty path that neither starts nor ends with '/' |
| Paths.RelPathDescendant | crumbler.py:149 | a path taken relative to one of its ancestors is its remaining components joined with '/' |
| Paths.RelPathSelf | crumbler.py:149 | a path relative to itself is '.' |
| Paths.SlashTrimSpec | crumbler.py:414-415 | `slash_trim` removes at most two characters and leaves a string without a separator at either end (nor before a final newline) as it is; without a final newline the result is exactly the input with its leading '/' and its trailing '/' removed, each where present |
| Paths.GetUrlPathAbsolute | crumbler.py:361-370 | `get_url_path` always returns a string that starts with '/' and holds no backslash |
| Paths.GetUrlPathEmptyWebroot | crumbler.py:361-370 | with an empty web root the URL is the relative path with backslashes made '/', preceded by a '/' of its own unless the path's leading backslash already became one |
| Paths.FileSchemeAbsent | crumbler.py:362 | a link without `file:///` is used as written |
| Paths.FileSchemeCanReappear | crumbler.py:362 | the removal is one left-to-right pass, so `fifile:///le:///` becomes `file:///` |
| Crumbs.CandidateNames | crumbler.py:144-162 | the first and third candidates end with `<base>.md`, the second with `index.md` |
| Crumbs.CandidatePlaces | crumbler.py:144-162 | the first two candidates lie in the directory; the third is `./<rel>/<base>.md`, with `rel` the relative path from the working directory to the directory's parent |
| Crumbs.FormatShape | crumbler.py:147-151 | a web answer starts with '/'; a local answer with a start directory is a non-empty relative path |
| Crumbs.GetCrumbPrecedence | crumbler.py:139-169 | `_get_crumb` answers with the first existing candidate, formatted (one character more cut for the third in the local start-less form); it answers None exactly when no candidate exists |
| Crumbs.GetCrumbWebAbsolute | crumbler.py:151-168 | in web mode every answer starts with '/' |
| Crumbs.TitleFromAt | crumbler.py:120 | `str.title` upper-cases a letter exactly when the character before it is not a letter, lower-cases the others, and keeps the rest |
| Crumbs.DisplayTextSpec | crumbler.py:120 | the default crumb text is as long as the base name and holds no underscore |
| Crumbs.RenderPlain | crumbler.py:122 | a template without '{' renders as itself |
| Crumbs.RenderNonEmpty | crumbler.py:122 | a non-empty template rendered with non-empty values is non-empty |
| Crumbs.HtmlFileNameSpec | crumbler.py:118 | `html_file` ends with `.html`, and putting `.md` back in place of `.html` gives the `.md` crumb |
| Crumbs.CrumbHtmlOnlyWhenFound | crumbler.py:113-128 | a crumb has html only when `_get_crumb` found a file; with a non-empty template and a non-empty base name it has html whenever one was found |
| Crumbs.Breadcrumb.constructor | crumbler.py:95-122 | the fields keep their class defaults when no index is found; otherwise they hold the trimmed path, the trimmed crumb path, its `.html` name, the text (or the default text) and the rendered template |
| Crumbs.KeptAppend | crumbler.py:340-341 | keeping the existing crumbs of two runs of levels keeps those of the first, then those of the second |
| Crumbs.KeptKeepsEach | crumbler.py:340-341 | a missing level never drops a deeper one: every level with html is kept |
| Crumbs.TrailKeepsFoundLevels | crumbler.py:331-341 | every level whose crumb exists is in the trail |
| Crumbs.NewLevel | crumbler.py:333-339 | the crumb built for level `i` (the root, or the first `i` components joined) has that level's html |
| Crumbs.KeepIfExists | crumbler.py:340-341 | after level `i`, the kept crumbs are exactly the existing crumbs of levels `0..i`, in order |
| Crumbs.RootCrumb | crumbler.py:343-349 | the root crumb has the html of the empty path |
| Crumbs.GetBreadcrumbs | crumbler.py:322-350 | with components, the result is levels 0..n in ancestor-to-descendant order, keeping exactly the existing crumbs; with none, it is the single unfiltered root crumb |
| Fragment.ClosesOnLineSpec | crumbler.py:239 | the scan finds a '}' exactly when one follows with no newline in between |
| Fragment.TemplateHrefIsPlaceholder | crumbler.py:239 | the breadcrumb template's `{href}` matches `{.*}` |
| Fragment.ReplaceMdNoLink | crumbler.py:242 | after the substitution no `.md` followed by a non-word character or the end is left |
| Fragment.ReplaceMdIdle | crumbler.py:242 | text without such a `.md` is left as it is |
| Fragment.ReplaceMdIdempotent | crumbler.py:242 | a second substitution changes nothing |
| Fragment.ReplaceMdSuffix | crumbler.py:242 | a link `<stem>.md` with no match in `<stem>` becomes `<stem>.html`, the name the page it points to is written under |
| Fragment.RewriteSpec | crumbler.py:240-242 | a rewritten link holds no `.md` link; in local mode it is the link with its `.md` links made `.html`, so a link-free `<stem>.md` becomes `<stem>.html` |
| Fragment.LinkStepFails | crumbler.py:235-239 | one anchor makes the pass raise exactly when it has neither a usable `href` nor an `xlink:href`; the flag afterwards is the flag before or "this anchor had no href" |
| Fragment.LinksUpToFails | crumbler.py:234-239 | the pass raises exactly when the document holds such an anchor |
| Fragment.LinksUpToShape | crumbler.py:233-246 | each element goes through one step whose flag says whether an anchor without href came before it |
| Fragment.LinkPassTouchesOnlyAnchors | crumbler.py:234-246 | only the links of anchors change; tags, sources and texts stay |
| Fragment.LinkPassKeepsPlaceholder | crumbler.py:235-239 | an anchor whose link read (the href, else the xlink:href) matches `{.*}` comes out untouched |
| Fragment.TemplateAnchorKept | crumbler.py:214-239 | the `{href}` anchor of the breadcrumb template comes out of `fix_html`'s link pass and image pass as it is, as far as each completes |
| Fragment.LinkPassRewritesHref | crumbler.py:240-246 | before any anchor without href, a link is rewritten in its `href` and `xlink:href` is left alone |
| Fragment.LinkPassStickyXlink | crumbler.py:236-244 | after an anchor without href, every later anchor's link goes to `xlink:href` and its `href` stays |
| Fragment.WebUrlAbsolute | crumbler.py:225 | an image source converted for the web starts with '/' |
| Fragment.ImgsUpToLocal | crumbler.py:222-226 | in local mode `fix_imgs` changes nothing |
| Fragment.ImgsUpToFails | crumbler.py:223-225 | the pass raises exactly when, in web mode, an image has no `src` |
| Fragment.ImgsUpToAt | crumbler.py:222-226 | on success every element is the result of its own step |
| Fragment.ImgPassWeb | crumbler.py:222-226 | in web mode every image gets its converted source, which starts with '/', and nothing else changes |
| Fragment.FirstH1 | crumbler.py:253 | there is an h1 text exactly when the page has an h1 |
| Fragment.FirstH1At | crumbler.py:253 | `soup.h1` is the first h1 |
| Fragment.TitlePrefersH1 | crumbler.py:253-255 | the first h1's text is the title whatever the default |
| Fragment.TitleDefault | crumbler.py:256-257 | without an h1 a given default is the title, even an empty one |
| Fragment.TitleFromFileName | crumbler.py:258-259 | without an h1 or a default, `<stem>.md` is titled `<stem>` |
| Fragment.OutputPathMarkdown | crumbler.py:288-291 | `<stem>.md` is written as `<stem>.html` in the output directory |
| Fragment.OutputPathOther | crumbler.py:292-295 | any other file keeps its name in the output directory |
| Fragment.DocFragment.constructor | crumbler.py:175-204 | the page starts with its parsed elements as both soup and fragment, and no title |
| Fragment.DocFragment.FixLinks | crumbler.py:230-248 | the soup becomes the link pass's result and is serialised exactly when no anchor raises; on a raise the anchors before the failing one are already rewritten and nothing is serialised |
| Fragment.DocFragment.FixImgs | crumbler.py:219-228 | the soup becomes the image pass's result and is serialised exactly when no image raises; when a web-mode image without `src` raises, the images before it are already rewritten, the rest untouched, and nothing is serialised |
| Fragment.DocFragment.FixHtml | crumbler.py:214-217 | links first, then images; when both succeed the soup is the image pass over the link pass and is serialised; when the link pass raises nothing is serialised; when only the image pass raises, the page serialised is the link pass's result (crumbler.py:247) |
| Fragment.DocFragment.FindTitle | crumbler.py:250-260 | the title is the h1 text, else the default, else the stem, and it is stored |
| Args.Shortcut | crumbler.py:23-33 | every one-letter flag names a known key |
| Args.ParseSysArgs | crumbler.py:373-411 | the loop computes exactly the state machine's outcome |
| Args.RunAppend | crumbler.py:380-407 | reading tokens in two runs is reading them in one; an exit stays an exit |
| Args.StepSpec | crumbler.py:380-407 | a step exits exactly on `--help`, an unknown flag, or an empty value for a pending scalar flag, and it keeps the state well formed |
| Args.RunWellFormed | crumbler.py:380-407 | the loop only ever holds known keys with values of their shape, and `css`/`js` stay lists |
| Args.FatalFails | crumbler.py:381-410 | `--help`, an unknown long flag or an unknown letter anywhere makes the parser fail |
| Args.NoCauseNoError | crumbler.py:380-410 | without such tokens and without empty tokens the parser never fails |
| Args.ParseKeys | crumbler.py:373-411 | a successful parse holds only known keys, each with a value of its shape |
| Args.HelpFails | crumbler.py:382-410 | `--help` anywhere ends in the error |
| Args.LocalFlag | crumbler.py:399-402 | `-l` and `--local` set `local` to true, take no value and cancel a pending flag |
| Args.FlagPending | crumbler.py:399-404 | any other known flag becomes the pending one |
| Args.ScalarFlagValue | crumbler.py:393-398 | a scalar flag takes exactly the next value token; an empty value is an error |
| Args.FlagThenFlag | crumbler.py:399-404 | a flag followed at once by another flag is left unset |
| Args.ListFlagValues | crumbler.py:391-392 | after `css`/`js` every value token up to the next flag is appended, in order |
| Args.MergedByKeys | crumbler.py:423-425 | a dictionary with each given value and each missing default is the merge |
| Args.MergeDefaults | crumbler.py:423-425 | the merge loop fills in exactly the missing defaults |
| Args.MergedSpec | crumbler.py:423-425 | after the merge every known key has a value, given values win, and missing keys get their defaults |
| Args.ParsedSettings | crumbler.py:421-425 | after a successful parse and the merge, exactly the known keys are present, each with a value of its shape |
| Driver.SiteOf | crumbler.py:427-431 | `base_out` ends with the output directory and, when that is relative, starts textually with the root |
| Driver.DefaultSite | crumbler.py:76-86 | the defaults describe the site `./`, built into `./build` for the web |
| Driver.SiteDefaults | crumbler.py:421-431 | with no arguments the parse succeeds and yields that site |
| Driver.MirrorOutBelowRoot | crumbler.py:460-462 | a directory `join(root, rel)` is mirrored at `join(base_out, rel)` |
| Driver.MirrorOutRoot | crumbler.py:460-462 | the root is mirrored at `join(base_out, '')` |
| Driver.InOutputTreeIsPrefix | crumbler.py:467 | the skip test as written is "starts with `base_out`" |
| Driver.SiblingSkipped | crumbler.py:467 | as written, a directory under the root is skipped exactly when its name starts with the output directory's name |
| Driver.BuilderSkipped | crumbler.py:467 | `./builder` is skipped as written when the output is `./build`, but not under the corrected test |
| Driver.UnderOutputOnlyOutput | crumbler.py:467 | corrected, a directory under the root is skipped exactly when it is the output directory |
| Driver.UnderOutputInside | crumbler.py:467 | corrected, everything inside the output directory is skipped |
| Driver.UnderOutputIsInOutputTree | crumbler.py:467 | the corrected test skips only directories the written one skips too |
| Driver.PlanDirSpec | crumbler.py:459-475 | as written, a directory is skipped exactly when its path starts with `base_out`; a directory `d` directly under the root is skipped exactly when its name starts with the output directory's name, and when visited it is mirrored at `join(base_out, d)` and gets the breadcrumbs of what follows the root, starting from itself |
| Driver.PlanDirCorrectedSpec | crumbler.py:459-475 | with the corrected test, a directory directly under the root is skipped exactly when it is the output directory, and is otherwise planned as the written walk plans it |
| Driver.PlanDirCorrectedInside | crumbler.py:467 | with the corrected test, everything inside the output directory is skipped |
| Driver.BuilderPlans | crumbler.py:459-475 | for the site `./` built into `./build`, the walk as written skips `./builder`; the corrected walk visits it |
| Driver.NameTests | crumbler.py:478-479 | the `[-3:]` and `[-4:]` tests are suffix tests, and no name passes both |
| Driver.PlanFileRenders | crumbler.py:478-499 | a Markdown page is rendered with the HTML parser into the page template as `<stem>.html`; a drawing is rendered with the XML parser alone under its own name |
| Driver.PlanFileCopies | crumbler.py:501-510 | any other file is copied into the mirror exactly when it is none of the generator, the page template and the breadcrumb template |

## Findings

| source | as written | input that shows it | evidently intended | confidence | as-written member | corrected member |
|---|---|---|---|---|---|---|
| crumbler.py:467 | `rt[:len(base_out)] != base_out` compares characters, not path components | root `./` and output `build`: the directory `./builder` is skipped and never published | skip only the output directory and what lies inside it | high; not executed | Driver.BuilderPlans | Driver.PlanDirCorrectedSpec |

`Driver.PlanDir` is the walk as written, with `Driver.InOutputTree`.
`Driver.PlanDirCorrected` is the same walk with the corrected test,
`Driver.UnderOutput`. `Driver.UnderOutputOnlyOutput` and
`Driver.UnderOutputIsInOutputTree` prove that the correction skips only
the output directory and what lies inside it.

## Left out

- Markdown conversion and its `toc` side channel (crumbler.py:172, :206-212, :317) belong to a foreign library. A page enters the model already parsed.
- BeautifulSoup parsing and serialisation (crumbler.py:227, :247, :262-269) belong to a foreign library. The soup is an array of element records in document order, holding a tag, `href`, `xlink:href`, `src` and text. The serialised `fragment` is a snapshot of those records.
- Fragment.ImgStep: in local mode an image without `src` keeps no `src`. BeautifulSoup would write the attribute back with no value.
- File I/O is not modelled: `read_file`, the writing in `write_file`, `get_file_from_sys_args`, `copy`, `os.makedirs` and `os.walk` (crumbler.py:271-319, :352-358, :459-510). The driver's decisions are pure functions of the walked directory and file name.
- `os.path.samefile` is a parameter of Driver.PlanFile. `os.path.exists` is a set of absolute paths. The process's working directory is a parameter.
- Python's `str.format` is reduced to the `{href}` and `{text}` placeholders of the breadcrumb template (crumbler.py:122). The page template's `format` in `write_file` (crumbler.py:311-317) is not modelled.
- The joining of the CSS and JS tags (crumbler.py:451-455) and of the crumbs' html with newlines (crumbler.py:469) are string assembly for output. They are not modelled.
- The progress bar, and all `print` and `exit` output (crumbler.py:463-466, :384, :395, :406, :409), are user interface only. Every exit of the parser is the single `Error` outcome.
- The per-file `try`/`except` (crumbler.py:477, :511-512) is not modelled. A page whose link or image pass raises is seen as `ok == false` from the DocFragment methods.
- Windows separators are not modelled; the separator is '/'. Symbolic links and `..` across them are not modelled either; paths are normalised textually, as `posixpath` does.
- `\w` and `str.title` are taken on ASCII letters, digits and '_'. Python applies them to all of Unicode.
- Crumbs.GetBreadcrumbs: the crumbs' `path`, `md_file` and `text` fields are stated by the constructor. The loop's contract speaks of their html only.
- Crumbs.CandidateNames: it states the candidates' file names only. Where they lie is stated by Crumbs.CandidatePlaces, with the limit given on the next line.
- Crumbs.CandidatePlaces: the third candidate is stated as a path relative to the working directory. It is not proved that this path and `join(dir, '..', base.md)` normalise to the same absolute path, which would need a proof of `normpath` folding the `..` components.
