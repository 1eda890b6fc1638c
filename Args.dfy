/** The command line (`parse_sys_args`, crumbler.py:373-411, and the merge
    with the defaults at crumbler.py:423-425). The tokens after the program
    name are read left to right; a pending flag waits for its value, list
    flags collect every value up to the next flag. Every way the parser
    exits, `--help` included, ends as one `Error`. */
module Args {
  import opened Strings

  /** A value in the argument dictionary. */
  datatype ArgValue = Str(s: string) | List(items: seq<string>) | Flag(on: bool) | Null

  type ArgMap = map<string, ArgValue>

  /** The keys `DEFAULT_ARGS` knows. */
  const Keys: set<string> :=
    {"breadcrumb", "css", "dirout", "html", "js", "local", "path", "title", "webpath"}

  /** `DEFAULT_ARGS`, in its own order. */
  const DefaultOrder: seq<string> :=
    ["breadcrumb", "css", "dirout", "html", "js", "local", "path", "title", "webpath"]

  /** The default of each key; `path` is `os.path.join('.', '')`. */
  function Default(k: string): ArgValue {
    if k == "css" || k == "js" then List([])
    else if k == "dirout" then Str("build")
    else if k == "local" then Flag(false)
    else if k == "path" then Str("./")
    else if k == "title" then Null
    else Str("")
  }

  /** `ARGV_SHORTCUTS`: the long name of a one-letter flag. */
  function Shortcut(c: char): (r: Option<string>)
    ensures r.Some? ==> r.value in Keys
  {
    match c
    case 'b' => Some("breadcrumb")
    case 'c' => Some("css")
    case 'd' => Some("dirout")
    case 'h' => Some("html")
    case 'j' => Some("js")
    case 'l' => Some("local")
    case 'p' => Some("path")
    case 't' => Some("title")
    case 'w' => Some("webpath")
    case _ => None
  }

  /** `re.match(r'-\w$', tok)`: a dash and one word character, which `$`
      also accepts before a final newline. */
  predicate IsShortFlag(tok: string) {
    (|tok| == 2 || (|tok| == 3 && tok[2] == '\n')) && tok[0] == '-' && IsWordChar(tok[1])
  }

  /** What a token is to the parser. */
  datatype Token = Help | Long(name: string) | Short(letter: char) | Value

  function Classify(tok: string): Token {
    if |tok| >= 2 && tok[..2] == "--" then
      if tok[2..] == "help" then Help else Long(tok[2..])
    else if IsShortFlag(tok) then Short(tok[1])
    else Value
  }

  /** The dictionary so far and the flag waiting for its value. */
  datatype State = State(args: ArgMap, nextKey: Option<string>)

  const Init: State := State(map["css" := List([]), "js" := List([])], None)

  /** The end of the loop body once a flag named `key` was read: a known
      flag becomes pending (`local` is set at once instead), an unknown
      non-empty one is an error, and the empty name of `--` does nothing. */
  function AfterKey(st: State, key: string): Option<State> {
    if key in Keys then
      if key == "local" then Some(State(st.args["local" := Flag(true)], None))
      else Some(State(st.args, Some(key)))
    else if key != "" then None
    else Some(st)
  }

  /** A value token: appended to a pending list flag, stored for a pending
      scalar flag (an empty one is an error), ignored with nothing pending. */
  function TakeValue(st: State, tok: string): Option<State> {
    if st.nextKey.None? then Some(st)
    else
      var k := st.nextKey.value;
      if k == "css" || k == "js" then
        if k in st.args && st.args[k].List? then
          Some(st.(args := st.args[k := List(st.args[k].items + [tok])]))
        else None
      else if k in Keys then
        if tok == "" then None else Some(State(st.args[k := Str(tok)], None))
      else Some(st)
  }

  /** One pass of the loop; None when the parser exits. */
  function Step(st: State, tok: string): Option<State> {
    match Classify(tok)
    case Help => None
    case Long(name) => AfterKey(st, name)
    case Short(c) => if Shortcut(c).None? then None else AfterKey(st, Shortcut(c).value)
    case Value => TakeValue(st, tok)
  }

  /** The loop over `toks`, from `st`. */
  function Run(st: State, toks: seq<string>): Option<State>
    decreases |toks|
  {
    if toks == [] then Some(st)
    else
      match Step(st, toks[0])
      case None => None
      case Some(next) => Run(next, toks[1..])
  }

  datatype Outcome = Ok(args: ArgMap) | Error

  /** `parse_sys_args` on `sys.argv`, whose first entry is the program. */
  function Parse(argv: seq<string>): Outcome {
    match Run(Init, if |argv| <= 1 then [] else argv[1..])
    case None => Error
    case Some(st) => Ok(st.args)
  }

  /** `parse_sys_args` as the loop it is. */
  method ParseSysArgs(argv: seq<string>) returns (r: Outcome)
    ensures r == Parse(argv)
  {
    var args := Init.args;
    var nextKey: Option<string> := None;
    var i := 1;
    while i < |argv|
      invariant 1 <= i && (i <= |argv| || |argv| <= 1)
      invariant Parse(argv) == match Run(State(args, nextKey), if i < |argv| then argv[i..] else [])
                               case None => Error
                               case Some(st) => Ok(st.args)
    {
      var tok := argv[i];
      assert argv[i..][0] == tok && argv[i..][1..] == if i + 1 < |argv| then argv[i + 1..] else [];
      var key: Option<string> := None;
      if |tok| >= 2 && tok[..2] == "--" {
        if tok[2..] == "help" {
          return Error;
        }
        key := Some(tok[2..]);
      } else if IsShortFlag(tok) {
        key := Shortcut(tok[1]);
        if key.None? {
          return Error;
        }
      } else if nextKey.Some? {
        var k := nextKey.value;
        if k == "css" || k == "js" {
          if k !in args || !args[k].List? {
            return Error;
          }
          args := args[k := List(args[k].items + [tok])];
        } else if k in Keys {
          if tok == "" {
            return Error;
          }
          args := args[k := Str(tok)];
          nextKey := None;
        }
      }
      if key.Some? && key.value in Keys {
        nextKey := None;
        if key.value == "local" {
          args := args["local" := Flag(true)];
        } else {
          nextKey := key;
        }
      } else if key.Some? && key.value != "" {
        return Error;
      }
      i := i + 1;
    }
    return Ok(args);
  }

  // ---------------------------------------------------------------------
  // What the parser promises

  /** Reading `a` then `b` is reading `a + b`; an exit stays an exit. */
  lemma {:induction false} RunAppend(st: State, a: seq<string>, b: seq<string>)
    ensures Run(st, a + b) == match Run(st, a)
                              case None => None
                              case Some(mid) => Run(mid, b)
    decreases |a|
  {
    if a == [] {
      assert a + b == b;
    } else {
      assert (a + b)[0] == a[0] && (a + b)[1..] == a[1..] + b;
      match Step(st, a[0])
      case None =>
      case Some(next) => RunAppend(next, a[1..], b);
    }
  }

  /** The shape of each value: lists for `css` and `js`, a flag for
      `local`, a string (or nothing) for `title`, a string otherwise. */
  predicate HasShape(k: string, v: ArgValue) {
    if k == "css" || k == "js" then v.List?
    else if k == "local" then v.Flag?
    else if k == "title" then v.Str? || v.Null?
    else v.Str?
  }

  predicate Typed(args: ArgMap) {
    forall k :: k in args ==> HasShape(k, args[k])
  }

  /** The states the loop can be in: only known keys, each value of its
      shape, `css` and `js` present, and only a known flag other than
      `local` pending. */
  predicate WellFormed(st: State) {
    && st.args.Keys <= Keys
    && Typed(st.args)
    && "css" in st.args && "js" in st.args
    && (st.nextKey.Some? ==> st.nextKey.value in Keys && st.nextKey.value != "local")
  }

  /** A token that ends the parser whatever the state: `--help`, an unknown
      long flag, or a one-letter flag without a long name. */
  predicate Fatal(tok: string) {
    match Classify(tok)
    case Help => true
    case Long(name) => name !in Keys && name != ""
    case Short(c) => Shortcut(c).None?
    case Value => false
  }

  /** Every step keeps the state well formed, and the parser exits at a
      step exactly on a fatal token or on an empty value for a pending
      scalar flag. */
  lemma StepSpec(st: State, tok: string)
    requires WellFormed(st)
    ensures Step(st, tok).None? <==>
              Fatal(tok)
              || (Classify(tok) == Value && tok == "" && st.nextKey.Some?
                  && st.nextKey.value != "css" && st.nextKey.value != "js")
    ensures Step(st, tok).Some? ==> WellFormed(Step(st, tok).value)
  {
  }

  /** The loop keeps the state well formed. */
  lemma {:induction false} RunWellFormed(st: State, toks: seq<string>)
    requires WellFormed(st) && Run(st, toks).Some?
    ensures WellFormed(Run(st, toks).value)
    decreases |toks|
  {
    if toks != [] {
      StepSpec(st, toks[0]);
      RunWellFormed(Step(st, toks[0]).value, toks[1..]);
    }
  }

  /** A fatal token anywhere makes the parser exit. */
  lemma {:induction false} FatalFails(st: State, toks: seq<string>, i: nat)
    requires i < |toks| && Fatal(toks[i])
    ensures Run(st, toks).None?
    decreases i
  {
    match Step(st, toks[0])
    case None =>
    case Some(next) => if i > 0 { FatalFails(next, toks[1..], i - 1); }
  }

  /** Without fatal and empty tokens the parser never exits. */
  lemma {:induction false} NoCauseNoError(st: State, toks: seq<string>)
    requires WellFormed(st)
    requires forall i :: 0 <= i < |toks| ==> !Fatal(toks[i]) && toks[i] != ""
    ensures Run(st, toks).Some?
    decreases |toks|
  {
    if toks != [] {
      StepSpec(st, toks[0]);
      NoCauseNoError(Step(st, toks[0]).value, toks[1..]);
    }
  }

  /** What the parser returns holds only known keys, each value of its
      shape, with `css` and `js` present. */
  lemma ParseKeys(argv: seq<string>)
    requires Parse(argv).Ok?
    ensures Parse(argv).args.Keys <= Keys && Typed(Parse(argv).args)
    ensures "css" in Parse(argv).args && "js" in Parse(argv).args
  {
    RunWellFormed(Init, if |argv| <= 1 then [] else argv[1..]);
  }

  /** `--help` ends the parser as an error wherever it stands. */
  lemma HelpFails(argv: seq<string>, i: nat)
    requires 1 <= i < |argv| && argv[i] == "--help"
    ensures Parse(argv) == Error
  {
    assert argv[1..][i - 1] == "--help";
    assert "--help"[..2] == "--" && "--help"[2..] == "help";
    FatalFails(Init, argv[1..], i - 1);
  }

  /** `-l` and `--local` set `local` to true, take no value and cancel a
      pending flag. */
  lemma LocalFlag(st: State, tok: string)
    requires tok == "-l" || tok == "--local"
    ensures Step(st, tok) == Some(State(st.args["local" := Flag(true)], None))
  {
    if tok == "--local" {
      assert tok[..2] == "--" && tok[2..] == "local";
    } else {
      assert tok[..2] != "--" by { assert tok[1] != '-'; }
      assert Classify(tok) == Short('l');
    }
  }

  /** The key a known flag token names. */
  function FlagKey(tok: string): Option<string> {
    match Classify(tok)
    case Long(name) => if name in Keys then Some(name) else None
    case Short(c) => Shortcut(c)
    case _ => None
  }

  /** A known flag token other than `local` makes its key pending. */
  lemma FlagPending(st: State, tok: string)
    requires FlagKey(tok).Some? && FlagKey(tok).value != "local"
    ensures Step(st, tok) == Some(State(st.args, FlagKey(tok)))
  {
  }

  /** A scalar flag takes exactly the next token when that is a non-empty
      value; an empty one is an error. */
  lemma ScalarFlagValue(st: State, flag: string, v: string)
    requires FlagKey(flag).Some? && FlagKey(flag).value !in {"css", "js", "local"}
    requires Classify(v) == Value
    ensures var k := FlagKey(flag).value;
            Run(st, [flag, v]) == if v == "" then None else Some(State(st.args[k := Str(v)], None))
  {
    var k := FlagKey(flag).value;
    FlagPending(st, flag);
    var mid := State(st.args, Some(k));
    assert [flag, v][1..] == [v];
    assert Run(st, [flag, v]) == Run(mid, [v]);
    assert Step(mid, v) == if v == "" then None else Some(State(st.args[k := Str(v)], None));
    match Step(mid, v)
    case None =>
    case Some(s2) => assert Run(mid, [v]) == Run(s2, []) == Some(s2);
  }

  /** A flag followed at once by another flag is left unset: the pair reads
      as the second flag alone. */
  lemma FlagThenFlag(st: State, flag: string, other: string)
    requires FlagKey(flag).Some? && FlagKey(flag).value != "local"
    requires FlagKey(other).Some?
    ensures Run(st, [flag, other]) == Step(State(st.args, None), other)
  {
    FlagPending(st, flag);
    var mid := State(st.args, FlagKey(flag));
    assert [flag, other][1..] == [other];
    assert Run(st, [flag, other]) == Run(mid, [other]);
    assert Step(mid, other) == Step(State(st.args, None), other);
    match Step(mid, other)
    case None =>
    case Some(s2) => assert Run(mid, [other]) == Run(s2, []) == Some(s2);
  }

  /** After `--css` or `--js` (or `-c`, `-j`), every value up to the next
      flag is appended to the list, empty values included. */
  lemma {:induction false} ListFlagValues(st: State, vs: seq<string>)
    requires WellFormed(st) && st.nextKey.Some?
    requires st.nextKey.value == "css" || st.nextKey.value == "js"
    requires forall i :: 0 <= i < |vs| ==> Classify(vs[i]) == Value
    ensures var k := st.nextKey.value;
            Run(st, vs) == Some(st.(args := st.args[k := List(st.args[k].items + vs)]))
    decreases |vs|
  {
    var k := st.nextKey.value;
    if vs == [] {
      assert st.args[k].items + vs == st.args[k].items;
      assert st.args[k := List(st.args[k].items + vs)] == st.args;
    } else {
      var next := st.(args := st.args[k := List(st.args[k].items + [vs[0]])]);
      assert Step(st, vs[0]) == Some(next);
      ListFlagValues(next, vs[1..]);
      assert st.args[k].items + [vs[0]] + vs[1..] == st.args[k].items + vs;
      assert next.args[k := List(next.args[k].items + vs[1..])]
          == st.args[k := List(st.args[k].items + vs)];
    }
  }

  // ---------------------------------------------------------------------
  // for key in DEFAULT_ARGS: if key not in sys_args: sys_args[key] = ...

  /** The parsed dictionary with every missing known key set to its
      default. */
  function Merged(parsed: ArgMap): ArgMap {
    map k | k in parsed.Keys + Keys :: if k in parsed then parsed[k] else Default(k)
  }

  lemma DefaultOrderKeys()
    ensures forall k :: k in DefaultOrder <==> k in Keys
  {
  }

  /** A dictionary holding the parsed keys and the known ones, each with its
      given value or else its default, is the merge. */
  lemma MergedByKeys(parsed: ArgMap, args: ArgMap)
    requires forall k :: k in args <==> k in parsed || k in DefaultOrder
    requires forall k :: k in args ==> args[k] == if k in parsed then parsed[k] else Default(k)
    ensures args == Merged(parsed)
  {
    DefaultOrderKeys();
  }

  /** The merge loop. */
  method MergeDefaults(parsed: ArgMap) returns (args: ArgMap)
    ensures args == Merged(parsed)
  {
    args := parsed;
    for i := 0 to |DefaultOrder|
      invariant forall k :: k in args <==> k in parsed || k in DefaultOrder[..i]
      invariant forall k :: k in args ==> args[k] == if k in parsed then parsed[k] else Default(k)
    {
      var key := DefaultOrder[i];
      assert DefaultOrder[..i + 1] == DefaultOrder[..i] + [key];
      if key !in args {
        args := args[key := Default(key)];
      }
    }
    assert DefaultOrder[..|DefaultOrder|] == DefaultOrder;
    MergedByKeys(parsed, args);
  }

  /** After the merge every known key has a value, given ones win, and a
      parsed dictionary gains no other key. */
  lemma MergedSpec(parsed: ArgMap)
    ensures Keys <= Merged(parsed).Keys
    ensures forall k :: k in parsed ==> Merged(parsed)[k] == parsed[k]
    ensures forall k :: k in Keys && k !in parsed ==> Merged(parsed)[k] == Default(k)
    ensures parsed.Keys <= Keys ==> Merged(parsed).Keys == Keys
  {
  }

  /** The settings the driver reads after a successful parse: every known
      key, each value of its shape. */
  lemma ParsedSettings(argv: seq<string>)
    requires Parse(argv).Ok?
    ensures Merged(Parse(argv).args).Keys == Keys && Typed(Merged(Parse(argv).args))
  {
    ParseKeys(argv);
    MergedSpec(Parse(argv).args);
    var m := Merged(Parse(argv).args);
    forall k | k in m ensures HasShape(k, m[k]) {
      if k !in Parse(argv).args {
        assert m[k] == Default(k);
      }
    }
  }
}
