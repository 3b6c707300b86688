/** StatusMain: the command-line flag parser of main, its dispatch, the module-tree
    dump of showModule and the listing of showModuleRegistry. Printed output is
    returned as the string that would have been printed. */
module Status {
  import opened Wrappers
  import opened Metadata
  import opened Resolution
  import opened Registry
  import Text

  // ---------------------------------------------------------------------------
  // Flag parsing
  // ---------------------------------------------------------------------------

  /** A flag's value. NoArg is the NOARG constant, stored for a flag without a value;
      main compares against it by identity, so an explicit empty argument is Given(""). */
  datatype FlagValue = NoArg | Given(value: string)

  type Flags = map<string, FlagValue>

  /** arg.startsWith("-") */
  predicate IsFlag(arg: string) {
    |arg| >= 1 && arg[0] == '-'
  }

  /** The flag's name: the text after "--", or else after "-". */
  function FlagName(arg: string): (r: string)
    requires IsFlag(arg)
    ensures arg == (if |arg| >= 2 && arg[1] == '-' then "--" else "-") + r
  {
    if |arg| >= 2 && arg[1] == '-' then arg[2..] else arg[1..]
  }

  /** The parser's state between two arguments: the pending flag and the flags map. */
  datatype ParseState = ParseState(pending: Option<string>, flags: Flags)

  /** The flags once a pending flag is closed without a value. */
  function Close(st: ParseState): Flags {
    if st.pending.Some? then st.flags[st.pending.value := NoArg] else st.flags
  }

  /** One argument: a flag closes the pending one and becomes pending; any other
      argument is the pending flag's value; with no pending flag, parsing stops (None). */
  function Step(st: ParseState, arg: string): Option<ParseState> {
    if IsFlag(arg) then Some(ParseState(Some(FlagName(arg)), Close(st)))
    else if st.pending.Some? then Some(ParseState(None, st.flags[st.pending.value := Given(arg)]))
    else None
  }

  function Run(st: ParseState, args: seq<string>): Option<ParseState>
    decreases |args|
  {
    if args == [] then Some(st)
    else match Step(st, args[0])
      case None => None
      case Some(next) => Run(next, args[1..])
  }

  /** The flags of a command line, or None when main prints the synopsis while parsing. */
  function ParseArgs(args: seq<string>): Option<Flags> {
    match Run(ParseState(None, map[]), args)
    case None => None
    case Some(st) => Some(Close(st))
  }

  /** The argument loop of main. */
  method ParseArguments(args: seq<string>) returns (r: Option<Flags>)
    ensures r == ParseArgs(args)
  {
    var flag: Option<string> := None;
    var flags: Flags := map[];
    var i := 0;
    while i < |args|
      invariant 0 <= i <= |args|
      invariant Run(ParseState(None, map[]), args) == Run(ParseState(flag, flags), args[i..])
    {
      var arg := args[i];
      assert args[i..] == [arg] + args[i + 1..];
      if |arg| >= 1 && arg[0] == '-' {
        if flag.Some? {
          flags := flags[flag.value := NoArg];
        }
        if |arg| >= 2 && arg[1] == '-' {
          flag := Some(arg[2..]);
        } else {
          flag := Some(arg[1..]);
        }
      } else {
        if flag.Some? {
          flags := flags[flag.value := Given(arg)];
          flag := None;
        } else {
          return None;
        }
      }
      i := i + 1;
    }
    if flag.Some? {
      flags := flags[flag.value := NoArg];
    }
    return Some(flags);
  }

  /** Argument k stops the parse when it is no flag and nothing is pending before it. */
  predicate StopsAt(args: seq<string>, k: nat, pendingBefore: bool)
    requires k < |args|
  {
    !IsFlag(args[k]) && (if k == 0 then !pendingBefore else !IsFlag(args[k - 1]))
  }

  lemma {:induction false} RunStops(st: ParseState, args: seq<string>)
    ensures Run(st, args).None? <==> exists k :: 0 <= k < |args| && StopsAt(args, k, st.pending.Some?)
    decreases |args|
  {
    if args != [] {
      var rest := args[1..];
      match Step(st, args[0])
      case None =>
        assert StopsAt(args, 0, st.pending.Some?);
      case Some(next) =>
        RunStops(next, rest);
        assert !StopsAt(args, 0, st.pending.Some?);
        if Run(next, rest).None? {
          var k :| 0 <= k < |rest| && StopsAt(rest, k, next.pending.Some?);
          assert StopsAt(args, k + 1, st.pending.Some?);
        } else {
          forall k | 0 < k < |args|
            ensures !StopsAt(args, k, st.pending.Some?)
          {
            assert !StopsAt(rest, k - 1, next.pending.Some?);
          }
        }
    }
  }

  /** main prints the synopsis during parsing exactly when some argument is no flag and
      does not follow a flag (the first argument follows nothing). */
  lemma ParseStops(args: seq<string>)
    ensures ParseArgs(args).None? <==> exists k :: 0 <= k < |args| && StopsAt(args, k, false)
  {
    RunStops(ParseState(None, map[]), args);
  }

  /** Argument k names flag `key`. */
  predicate Names(args: seq<string>, k: nat, key: string)
    requires k < |args|
  {
    IsFlag(args[k]) && FlagName(args[k]) == key
  }

  lemma {:induction false} RunKeys(st: ParseState, args: seq<string>, key: string)
    requires Run(st, args).Some?
    ensures key in Close(Run(st, args).value) <==> key in Close(st) || exists k :: 0 <= k < |args| && Names(args, k, key)
    decreases |args|
  {
    if args != [] {
      var rest := args[1..];
      var next := Step(st, args[0]).value;
      RunKeys(next, rest, key);
      assert key in Close(next) <==> key in Close(st) || Names(args, 0, key);
      if exists k :: 0 <= k < |rest| && Names(rest, k, key) {
        var k :| 0 <= k < |rest| && Names(rest, k, key);
        assert Names(args, k + 1, key);
      }
      if exists k :: 0 <= k < |args| && Names(args, k, key) {
        var k :| 0 <= k < |args| && Names(args, k, key);
        if k > 0 {
          assert Names(rest, k - 1, key);
        }
      }
    }
  }

  /** A parsed command line holds exactly the flags named in it. */
  lemma ParseKeys(args: seq<string>, key: string)
    requires ParseArgs(args).Some?
    ensures key in ParseArgs(args).value <==> exists k :: 0 <= k < |args| && Names(args, k, key)
  {
    RunKeys(ParseState(None, map[]), args, key);
  }

  /** The value a flag at index k receives: the next argument when that is no flag,
      otherwise NOARG. */
  function ValueAfter(args: seq<string>, k: nat): FlagValue
    requires k < |args|
  {
    if k + 1 < |args| && !IsFlag(args[k + 1]) then Given(args[k + 1]) else NoArg
  }

  lemma {:induction false} RunKeeps(st: ParseState, args: seq<string>, key: string)
    requires Run(st, args).Some? && key in st.flags && st.pending != Some(key)
    requires forall k :: 0 <= k < |args| ==> !Names(args, k, key)
    ensures key in Close(Run(st, args).value) && Close(Run(st, args).value)[key] == st.flags[key]
    decreases |args|
  {
    if args != [] {
      assert !Names(args, 0, key);
      var next := Step(st, args[0]).value;
      forall k | 0 <= k < |args[1..]| ensures !Names(args[1..], k, key) {
        assert !Names(args, k + 1, key);
      }
      RunKeeps(next, args[1..], key);
    } else {
    }
  }

  lemma RunPending(key: string, f: Flags, args: seq<string>)
    requires Run(ParseState(Some(key), f), args).Some?
    requires forall k :: 0 <= k < |args| ==> !Names(args, k, key)
    ensures key in Close(Run(ParseState(Some(key), f), args).value)
    ensures Close(Run(ParseState(Some(key), f), args).value)[key] == if args != [] && !IsFlag(args[0]) then Given(args[0]) else NoArg
  {
    if args != [] {
      var next := Step(ParseState(Some(key), f), args[0]).value;
      assert !Names(args, 0, key);
      forall k | 0 <= k < |args[1..]| ensures !Names(args[1..], k, key) {
        assert !Names(args, k + 1, key);
      }
      RunKeeps(next, args[1..], key);
    }
  }

  lemma {:induction false} RunValue(st: ParseState, args: seq<string>, k: nat)
    requires Run(st, args).Some? && k < |args| && IsFlag(args[k])
    requires forall j :: k < j < |args| ==> !Names(args, j, FlagName(args[k]))
    ensures FlagName(args[k]) in Close(Run(st, args).value)
    ensures Close(Run(st, args).value)[FlagName(args[k])] == ValueAfter(args, k)
    decreases k
  {
    var next := Step(st, args[0]).value;
    if k == 0 {
      var key := FlagName(args[0]);
      forall j | 0 <= j < |args[1..]| ensures !Names(args[1..], j, key) {
        assert !Names(args, j + 1, key);
      }
      RunPending(key, Close(st), args[1..]);
    } else {
      forall j | k - 1 < j < |args[1..]| ensures !Names(args[1..], j, FlagName(args[k])) {
        assert !Names(args, j + 1, FlagName(args[k]));
      }
      RunValue(next, args[1..], k - 1);
    }
  }

  /** The value of a flag is the value after its last occurrence: the next argument
      when that is no flag, otherwise NOARG. */
  lemma ParseValue(args: seq<string>, k: nat)
    requires ParseArgs(args).Some? && k < |args| && IsFlag(args[k])
    requires forall j :: k < j < |args| ==> !Names(args, j, FlagName(args[k]))
    ensures FlagName(args[k]) in ParseArgs(args).value
    ensures ParseArgs(args).value[FlagName(args[k])] == ValueAfter(args, k)
  {
    ParseKeys(args, FlagName(args[k]));
    assert Names(args, k, FlagName(args[k]));
    RunValue(ParseState(None, map[]), args, k);
  }

  // ---------------------------------------------------------------------------
  // Dispatch
  // ---------------------------------------------------------------------------

  /** What main does once the flags are parsed. */
  datatype Command = Synopsis | ShowRegistry | ShowModule(name: string, recursive: bool, long: bool, verbose: bool)

  /** The value of -m, or of --module when there is no -m. */
  function ModuleFlag(f: Flags): Option<FlagValue> {
    if "m" in f then Some(f["m"]) else if "module" in f then Some(f["module"]) else None
  }

  /** main after the argument loop: help first, then the registry listing, then a
      module with a value; anything else is the synopsis. */
  function Dispatch(parsed: Option<Flags>): Command {
    match parsed
    case None => Synopsis
    case Some(f) =>
      if "h" in f || "help" in f then Synopsis
      else if "s" in f || "showmoduleregistry" in f then ShowRegistry
      else match ModuleFlag(f)
        case Some(Given(name)) => ShowModule(name, "recursive" in f || "r" in f, "long" in f, "verbose" in f || "v" in f)
        case _ => Synopsis
  }

  /** main: parse the arguments, then pick the command. The synopsis is printed here;
      the other two commands print through ShowModuleRegistry and ShowModuleByName,
      which need the registry. */
  method MainCommand(args: seq<string>) returns (c: Command, text: string)
    ensures c == Dispatch(ParseArgs(args))
    ensures text == if c.Synopsis? then Lines(SynopsisLines) else ""
  {
    var parsed := ParseArguments(args);
    c := Dispatch(parsed);
    text := "";
    if c.Synopsis? {
      text := PrintSynopsis();
    }
  }

  /** Some argument names flag `key`. */
  predicate Mentions(args: seq<string>, key: string) {
    exists k :: 0 <= k < |args| && Names(args, k, key)
  }

  /** The dispatch order, read off the command line: -h/--help wins over everything,
      -s/--showmoduleregistry over the module flags, and without any of these or a
      module flag main shows the synopsis. */
  lemma DispatchOrder(args: seq<string>)
    requires ParseArgs(args).Some?
    ensures Mentions(args, "h") || Mentions(args, "help") ==> Dispatch(ParseArgs(args)) == Synopsis
    ensures !Mentions(args, "h") && !Mentions(args, "help") && (Mentions(args, "s") || Mentions(args, "showmoduleregistry"))
      ==> Dispatch(ParseArgs(args)) == ShowRegistry
    ensures (!Mentions(args, "h") && !Mentions(args, "help") && !Mentions(args, "s") && !Mentions(args, "showmoduleregistry")
             && !Mentions(args, "m") && !Mentions(args, "module")) ==> Dispatch(ParseArgs(args)) == Synopsis
  {
    ParseKeys(args, "h");
    ParseKeys(args, "help");
    ParseKeys(args, "s");
    ParseKeys(args, "showmoduleregistry");
    ParseKeys(args, "m");
    ParseKeys(args, "module");
  }

  /** The module command, read off the command line: the last -m (or, without any -m,
      the last --module) names the module when the next argument is its value, and
      leaves main showing the synopsis when it has no value; the option flags count
      wherever they occur. */
  lemma ModuleCommand(args: seq<string>, k: nat)
    requires ParseArgs(args).Some? && k < |args| && IsFlag(args[k])
    requires FlagName(args[k]) == "m" || (FlagName(args[k]) == "module" && !Mentions(args, "m"))
    requires forall j :: k < j < |args| ==> !Names(args, j, FlagName(args[k]))
    requires !Mentions(args, "h") && !Mentions(args, "help") && !Mentions(args, "s") && !Mentions(args, "showmoduleregistry")
    ensures Dispatch(ParseArgs(args)) == match ValueAfter(args, k)
      case NoArg => Synopsis
      case Given(name) => ShowModule(name, Mentions(args, "recursive") || Mentions(args, "r"), Mentions(args, "long"), Mentions(args, "verbose") || Mentions(args, "v"))
  {
    DispatchOrder(args);
    ParseValue(args, k);
    ParseKeys(args, "h");
    ParseKeys(args, "help");
    ParseKeys(args, "s");
    ParseKeys(args, "showmoduleregistry");
    ParseKeys(args, "m");
    ParseKeys(args, "recursive");
    ParseKeys(args, "r");
    ParseKeys(args, "long");
    ParseKeys(args, "verbose");
    ParseKeys(args, "v");
  }

  /** What a sequence of println calls prints: each line followed by a line break. */
  function Lines(ls: seq<string>): string {
    if ls == [] then "" else ls[0] + "\n" + Lines(ls[1..])
  }

  /** A synopsis line for a long option: four spaces, "--", the option and its help text. */
  function OptionLine(option: string, help: string): string {
    "    --" + option + help
  }

  /** The long options the synopsis lists, in its order. */
  const SynopsisOptions: seq<string> := ["module", "showmoduleregistry", "help"]

  /** The four lines of synopsis(). */
  const SynopsisLines: seq<string> := [
    "Synopsis:",
    OptionLine("module", " <module> [--recursive [--long]][--verbose] display information about the named Module"),
    OptionLine("showmoduleregistry", "                                show all known Modules"),
    OptionLine("help", "                                              this message")
  ]

  /** synopsis(): one println per line. */
  method PrintSynopsis() returns (text: string)
    ensures text == Lines(SynopsisLines)
  {
    var l := SynopsisLines;
    text := l[0] + "\n";
    text := text + l[1] + "\n";
    text := text + l[2] + "\n";
    text := text + l[3] + "\n";
    LinesOfFour(l);
  }

  /** Four println calls print Lines of the four lines. */
  lemma LinesOfFour(l: seq<string>)
    requires |l| == 4
    ensures Lines(l) == l[0] + "\n" + l[1] + "\n" + l[2] + "\n" + l[3] + "\n"
  {
    assert l[4..] == [];
    assert l[3..][1..] == l[4..];
    assert Lines(l[3..]) == l[3] + "\n";
    assert l[2..][1..] == l[3..];
    assert Lines(l[2..]) == l[2] + "\n" + (l[3] + "\n");
    assert l[1..][1..] == l[2..];
    assert Lines(l[1..]) == l[1] + "\n" + (l[2] + "\n" + (l[3] + "\n"));
    assert Lines(l) == l[0] + "\n" + (l[1] + "\n" + (l[2] + "\n" + (l[3] + "\n")));
  }

  /** The synopsis starts with its "Synopsis:" heading line and then has one line per
      long option main dispatches on (--module, --showmoduleregistry, --help), each
      starting with four spaces, "--" and the option; help shows the synopsis, the
      registry option the listing, and a module option with a value that module. */
  lemma SynopsisShape(name: string)
    ensures Lines(SynopsisLines)[..10] == "Synopsis:\n"
    ensures |SynopsisLines| == |SynopsisOptions| + 1
    ensures forall k :: 0 <= k < |SynopsisOptions| ==>
      && |SynopsisLines[k + 1]| >= 6 + |SynopsisOptions[k]|
      && SynopsisLines[k + 1][..6] == "    --"
      && SynopsisLines[k + 1][6..6 + |SynopsisOptions[k]|] == SynopsisOptions[k]
    ensures Dispatch(Some(map[SynopsisOptions[2] := NoArg])) == Synopsis
    ensures Dispatch(Some(map[SynopsisOptions[1] := NoArg])) == ShowRegistry
    ensures Dispatch(Some(map[SynopsisOptions[0] := Given(name)])) == ShowModule(name, false, false, false)
  {
    assert Lines(SynopsisLines) == ("Synopsis:" + "\n") + Lines(SynopsisLines[1..]);
    forall k | 0 <= k < |SynopsisOptions|
      ensures && |SynopsisLines[k + 1]| >= 6 + |SynopsisOptions[k]|
              && SynopsisLines[k + 1][..6] == "    --"
              && SynopsisLines[k + 1][6..6 + |SynopsisOptions[k]|] == SynopsisOptions[k]
    {
      OptionLinePrefix(SynopsisOptions[k], SynopsisLines[k + 1][6 + |SynopsisOptions[k]|..]);
      assert SynopsisLines[k + 1] == OptionLine(SynopsisOptions[k], SynopsisLines[k + 1][6 + |SynopsisOptions[k]|..]);
    }
  }

  lemma OptionLinePrefix(option: string, help: string)
    ensures |OptionLine(option, help)| >= 6 + |option|
    ensures OptionLine(option, help)[..6] == "    --"
    ensures OptionLine(option, help)[6..6 + |option|] == option
  {
  }

  // ---------------------------------------------------------------------------
  // The module tree
  // ---------------------------------------------------------------------------

  /** The string forms that the Module, ModuleRequirement and ModuleMeta classes define. */
  datatype Show = Show(ofModule: Module -> string, ofRequirement: Requirement -> string, ofMeta: Meta -> string)

  /** What a dump prints, the modules shown so far (None in long mode, where nothing
      is tracked) and whether it ended in a NullPointerException. */
  datatype Dump = Dump(text: string, seen: Option<set<Module>>, crashed: bool)

  /** The registry state and options a dump runs with. */
  datatype View = View(env: Env, t: Tables, show: Show, recursive: bool, verbose: bool)

  ghost predicate ViewOk(v: View) {
    Ranked(v.env) && WellFormed(v.env, v.t)
  }

  /** A module's text and, in verbose mode, its jar in parentheses, with " optional"
      and a line break inside them for an optional requirement. */
  function Heading(show: Show, req: Requirement, mod: Module, verbose: bool): string {
    show.ofModule(mod) + (if verbose then " (" + mod.meta.jar + (if req.optional then " optional\n" else "") + ")" else "")
  }

  /** The line for a requirement without a module. */
  function UnresolvedLine(show: Show, req: Requirement): string {
    if req.optional then "<optional not resolved: " + show.ofRequirement(req) + ">\n"
    else "<NOT RESOLVED: " + show.ofRequirement(req) + ">\n"
  }

  /** The verbose, non-recursive line for one requirement, one level deeper. */
  function RequirementLine(env: Env, show: Show, req: Requirement, indent: nat): string {
    Text.Indent(indent + 1) + show.ofRequirement(req) + " (" + LineTail(req.optional, |env.candidates(req)| > 0)
  }

  /** The text after a requirement line's head: "optional, " and a line break for an
      optional requirement, then whether it resolves. */
  function LineTail(optional: bool, resolvable: bool): string {
    (if optional then "optional, \n" else "") + (if resolvable then "resolvable" else "unresolvable") + ")\n"
  }

  /** A requirement line starts with the requirement at one more level of indentation,
      marks an optional requirement with "optional, " (followed by a line break), and ends
      with "unresolvable)" exactly when the requirement has no candidate. */
  lemma RequirementLineParts(env: Env, show: Show, req: Requirement, indent: nat)
    ensures var line := RequirementLine(env, show, req, indent);
      var head := Text.Indent(indent + 1) + show.ofRequirement(req) + " (";
      && head <= line && |line| >= |head| + 12
      && (req.optional <==> line[|head|..|head| + 11] == "optional, \n")
      && (|env.candidates(req)| == 0 <==> line[|line| - 14..] == "unresolvable)\n")
      && line[|line| - 12..] == "resolvable)\n"
  {
    var head := Text.Indent(indent + 1) + show.ofRequirement(req) + " (";
    LineParts(head, req.optional, |env.candidates(req)| > 0);
  }

  lemma LineParts(head: string, optional: bool, resolvable: bool)
    requires |head| >= 2 && head[|head| - 1] == '('
    ensures var line := head + LineTail(optional, resolvable);
      && head <= line && |line| >= |head| + 12
      && (optional <==> line[|head|..|head| + 11] == "optional, \n")
      && (!resolvable <==> line[|line| - 14..] == "unresolvable)\n")
      && line[|line| - 12..] == "resolvable)\n"
  {
    var line := head + LineTail(optional, resolvable);
    assert line[|head|..] == LineTail(optional, resolvable);
    TailOptional(optional, resolvable);
    TailEnd(head, optional, resolvable);
  }

  lemma TailOptional(optional: bool, resolvable: bool)
    ensures |LineTail(optional, resolvable)| >= 12
    ensures optional <==> LineTail(optional, resolvable)[..11] == "optional, \n"
  {
    if !optional {
      assert LineTail(optional, resolvable)[0] != 'o';
      assert "optional, \n"[0] == 'o';
    }
  }

  lemma TailEnd(head: string, optional: bool, resolvable: bool)
    requires |head| >= 2 && head[|head| - 1] == '('
    ensures var line := head + LineTail(optional, resolvable);
      && (!resolvable <==> line[|line| - 14..] == "unresolvable)\n")
      && line[|line| - 12..] == "resolvable)\n"
  {
    var front := head + (if optional then "optional, \n" else "");
    var line := head + LineTail(optional, resolvable);
    var ending := "resolvable)\n";
    assert |ending| == 12;
    if resolvable {
      assert line == front + ending;
      EndsWith(front, ending);
      assert front[|front| - 1] != 'n';
      assert line[|line| - 14..][1] == front[|front| - 1];
    } else {
      assert "unresolvable)\n" == "un" + ending;
      assert line == front + "unresolvable)\n";
      assert line == (front + "un") + ending;
      EndsWith(front + "un", ending);
      EndsWith(front, "unresolvable)\n");
    }
  }

  lemma EndsWith(front: string, tail: string)
    ensures (front + tail)[|front + tail| - |tail|..] == tail
  {
  }


  function RequirementLines(env: Env, show: Show, reqs: seq<Requirement>, indent: nat): string
    decreases |reqs|
  {
    if reqs == [] then "" else RequirementLines(env, show, reqs[..|reqs| - 1], indent) + RequirementLine(env, show, reqs[|reqs| - 1], indent)
  }

  /** The forward array a recursive dump walks; a module without one has no children
      only when it has no requirements. */
  function Slots(v: View, mod: Module): seq<Option<Module>> {
    if mod in v.t.forward then v.t.forward[mod] else []
  }

  /** A child in a forward array ranks below its parent, so the dump terminates. */
  lemma ChildBelow(v: View, mod: Module, slots: seq<Option<Module>>, i: nat)
    requires Ranked(v.env) && AlignedSlots(v.env, v.t, mod.meta.reqs, slots) && i < |slots|
    ensures slots[i].Some? ==> v.env.depth(slots[i].value.meta) < v.env.depth(mod.meta)
  {
    if slots[i].Some? {
      assert SlotOk(v.env, v.t, mod.meta.reqs[i], slots[i]);
    var cands := v.env.candidates(mod.meta.reqs[i]);
      var j :| 0 <= j < |cands| && cands[j] == slots[i].value.meta;
    }
  }

  /** showModule(req, mod, indent, haveAlready, recursive, verbose, out). */
  function DumpModule(v: View, req: Requirement, mod: Option<Module>, indent: nat, seen: Option<set<Module>>): Dump
    requires ViewOk(v)
    decreases if mod.Some? then 2 * v.env.depth(mod.value.meta) + 1 else 0, 0
  {
    match mod
    case None => Dump(Text.Indent(indent) + UnresolvedLine(v.show, req), seen, false)
    case Some(m) =>
      var head := Text.Indent(indent) + Heading(v.show, req, m, v.verbose);
      if seen.Some? && m in seen.value then Dump(head + " -- repeated, see above\n", seen, false)
      else
        var have := if seen.Some? then Some(seen.value + {m}) else None;
        if v.recursive then
          if m !in v.t.forward && m.meta.reqs != [] then Dump(head + "\n", have, true)
          else DumpChildren(v, m, Slots(v, m), 0, indent + 1, have, head + "\n")
        else if v.verbose then Dump(head + "\n" + RequirementLines(v.env, v.show, m.meta.reqs, indent), have, false)
        else Dump(head + "\n", have, false)
  }

  /** The children of a module, from slot i on, each paired with the requirement at
      the same index, after the text `acc` printed so far. */
  function DumpChildren(v: View, mod: Module, slots: seq<Option<Module>>, i: nat, indent: nat, seen: Option<set<Module>>, acc: string): Dump
    requires ViewOk(v) && AlignedSlots(v.env, v.t, mod.meta.reqs, slots) && i <= |slots|
    decreases 2 * v.env.depth(mod.meta), |slots| - i + 1
  {
    if i == |slots| then Dump(acc, seen, false)
    else
      ChildBelow(v, mod, slots, i);
      var d := DumpModule(v, mod.meta.reqs[i], slots[i], indent, seen);
      if d.crashed then Dump(acc + d.text, d.seen, true)
      else DumpChildren(v, mod, slots, i + 1, indent, d.seen, acc + d.text)
  }

  /** The recursive showModule, printing as it goes; proved to print DumpModule. */
  method ShowModuleTree(reg: ModuleRegistry, show: Show, req: Requirement, mod: Option<Module>, indent: nat,
                        haveAlready: Option<set<Module>>, recursive: bool, verbose: bool) returns (d: Dump)
    requires reg.Valid()
    ensures d == DumpModule(View(reg.env, reg.Tables(), show, recursive, verbose), req, mod, indent, haveAlready)
    decreases if mod.Some? then 2 * reg.env.depth(mod.value.meta) + 1 else 0, 0
  {
    var text := PrintIndent(indent);
    if mod.None? {
      if req.optional {
        text := text + "<optional not resolved: " + show.ofRequirement(req) + ">\n";
      } else {
        text := text + "<NOT RESOLVED: " + show.ofRequirement(req) + ">\n";
      }
      return Dump(text, haveAlready, false);
    }
    var m := mod.value;
    text := text + show.ofModule(m);
    if verbose {
      text := text + " (" + m.meta.jar;
      if req.optional {
        text := text + " optional\n";
      }
      text := text + ")";
    }
    assert text == Text.Indent(indent) + Heading(show, req, m, verbose);
    if haveAlready.Some? && m in haveAlready.value {
      return Dump(text + " -- repeated, see above\n", haveAlready, false);
    }
    text := text + "\n";
    var have := haveAlready;
    if have.Some? {
      have := Some(have.value + {m});
    }
    if recursive {
      var deps := reg.DetermineRuntimeDependencies(m);
      if deps.None? && |m.meta.reqs| > 0 {
        // deps[0] dereferences null
        return Dump(text, have, true);
      }
      d := PrintChildren(reg, show, m, if deps.Some? then deps.value else [], indent + 1, have, recursive, verbose, text);
    } else if verbose {
      var lines := PrintRequirementLines(reg, show, m.meta.reqs, indent);
      d := Dump(text + lines, have, false);
    } else {
      d := Dump(text, have, false);
    }
  }

  /** The children loop of showModule. */
  method PrintChildren(reg: ModuleRegistry, show: Show, m: Module, slots: seq<Option<Module>>, indent: nat,
                       haveAlready: Option<set<Module>>, recursive: bool, verbose: bool, printed: string) returns (d: Dump)
    requires reg.Valid() && AlignedSlots(reg.env, reg.Tables(), m.meta.reqs, slots)
    ensures d == DumpChildren(View(reg.env, reg.Tables(), show, recursive, verbose), m, slots, 0, indent, haveAlready, printed)
    decreases 2 * reg.env.depth(m.meta), |slots| + 1
  {
    ghost var v := View(reg.env, reg.Tables(), show, recursive, verbose);
    var reqs := m.meta.reqs;
    var text, have := printed, haveAlready;
    var i := 0;
    while i < |reqs|
      invariant 0 <= i <= |reqs|
      invariant DumpChildren(v, m, slots, 0, indent, haveAlready, printed) == DumpChildren(v, m, slots, i, indent, have, text)
    {
      ChildBelow(v, m, slots, i);
      var child := ShowModuleTree(reg, show, reqs[i], slots[i], indent, have, recursive, verbose);
      text, have := text + child.text, child.seen;
      if child.crashed {
        return Dump(text, have, true);
      }
      i := i + 1;
    }
    return Dump(text, have, false);
  }

  /** The indentation loop: four spaces per level. */
  method PrintIndent(indent: nat) returns (text: string)
    ensures text == Text.Indent(indent)
  {
    text := "";
    var k := 0;
    while k < indent
      invariant 0 <= k <= indent && text == Text.Indent(k)
    {
      text := "    " + text;
      k := k + 1;
    }
  }

  /** The verbose, non-recursive requirement loop of showModule. */
  method PrintRequirementLines(reg: ModuleRegistry, show: Show, reqs: seq<Requirement>, indent: nat) returns (text: string)
    ensures text == RequirementLines(reg.env, show, reqs, indent)
  {
    text := "";
    var i := 0;
    while i < |reqs|
      invariant 0 <= i <= |reqs| && text == RequirementLines(reg.env, show, reqs[..i], indent)
    {
      var line := PrintRequirementLine(reg, show, reqs[i], indent);
      assert reqs[..i + 1][..i] == reqs[..i];
      text := text + line;
      i := i + 1;
    }
    assert reqs[..i] == reqs;
  }

  /** The body of the requirement loop for one requirement. */
  method PrintRequirementLine(reg: ModuleRegistry, show: Show, req: Requirement, indent: nat) returns (line: string)
    ensures line == RequirementLine(reg.env, show, req, indent)
  {
    line := PrintIndent(indent + 1);
    line := line + show.ofRequirement(req) + " (";
    if req.optional {
      line := line + "optional, \n";
    }
    if |reg.env.candidates(req)| > 0 {
      line := line + "resolvable";
    } else {
      line := line + "unresolvable";
    }
    line := line + ")\n";
  }

  /** In long mode nothing is tracked; otherwise the shown set only grows, gains the
      module itself, and gains registered modules only. */
  lemma {:induction false} DumpSeen(v: View, req: Requirement, mod: Option<Module>, indent: nat, seen: Option<set<Module>>)
    requires ViewOk(v) && (mod.Some? ==> Registered(v.t, mod.value))
    ensures var d := DumpModule(v, req, mod, indent, seen);
      && (seen.None? <==> d.seen.None?)
      && (seen.Some? ==> seen.value <= d.seen.value && forall x :: x in d.seen.value - seen.value ==> Registered(v.t, x))
      && (seen.Some? && mod.Some? ==> mod.value in d.seen.value)
    decreases if mod.Some? then 2 * v.env.depth(mod.value.meta) + 1 else 0, 0
  {
    if mod.Some? {
      var m := mod.value;
      if !(seen.Some? && m in seen.value) && v.recursive && !(m !in v.t.forward && m.meta.reqs != []) {
        var have := if seen.Some? then Some(seen.value + {m}) else None;
        var slots := Slots(v, m);
        assert AlignedSlots(v.env, v.t, m.meta.reqs, slots);
        ChildrenSeen(v, m, slots, 0, indent + 1, have, Text.Indent(indent) + Heading(v.show, req, m, v.verbose) + "\n");
      }
    }
  }

  lemma {:induction false} ChildrenSeen(v: View, mod: Module, slots: seq<Option<Module>>, i: nat, indent: nat, seen: Option<set<Module>>, acc: string)
    requires ViewOk(v) && AlignedSlots(v.env, v.t, mod.meta.reqs, slots) && i <= |slots|
    ensures var d := DumpChildren(v, mod, slots, i, indent, seen, acc);
      && (seen.None? <==> d.seen.None?)
      && (seen.Some? ==> seen.value <= d.seen.value && forall x :: x in d.seen.value - seen.value ==> Registered(v.t, x))
    decreases 2 * v.env.depth(mod.meta), |slots| - i + 1
  {
    if i < |slots| {
      ChildBelow(v, mod, slots, i);
      assert SlotOk(v.env, v.t, mod.meta.reqs[i], slots[i]);
      DumpSeen(v, mod.meta.reqs[i], slots[i], indent, seen);
      var d := DumpModule(v, mod.meta.reqs[i], slots[i], indent, seen);
      if !d.crashed {
        ChildrenSeen(v, mod, slots, i + 1, indent, d.seen, acc + d.text);
      }
    }
  }

  /** A module already shown prints one line and is not expanded again. */
  lemma DumpRepeated(v: View, req: Requirement, mod: Module, indent: nat, seen: set<Module>)
    requires ViewOk(v) && mod in seen
    ensures DumpModule(v, req, Some(mod), indent, Some(seen))
      == Dump(Text.Indent(indent) + Heading(v.show, req, mod, v.verbose) + " -- repeated, see above\n", Some(seen), false)
  {
  }

  // ---------------------------------------------------------------------------
  // showModule by name
  // ---------------------------------------------------------------------------

  /** Why main ends in an uncaught exception. */
  datatype Crash = Message(text: string) | Escaped(failure: Failure) | NullDependencies

  /** How showModule by name ends: it printed the dump; main logged a ParseException or
      a caught resolution failure; or an exception escaped main after `printed`. */
  datatype Outcome = Printed(text: string) | LoggedParseError | LoggedFailure(failure: Failure) | Crashed(printed: string, reason: Crash)

  /** The message of the ambiguity exception for several candidates. */
  function MetaList(show: Show, metas: seq<Meta>): string
    decreases |metas|
  {
    if metas == [] then "" else MetaList(show, metas[..|metas| - 1]) + "\n    " + show.ofMeta(metas[|metas| - 1])
  }

  function DumpOutcome(d: Dump): Outcome {
    if d.crashed then Crashed(d.text, NullDependencies) else Printed(d.text)
  }

  /** showModule(name, recursive, long, verbose), within main's exception handler: the
      name must parse and have exactly one candidate (no groupId tie-break here),
      which is resolved and dumped from indent 0, tracking shown modules unless long. */
  method ShowModuleByName(reg: ModuleRegistry, show: Show, parse: string -> Option<Requirement>, name: string,
                          recursive: bool, long: bool, verbose: bool) returns (o: Outcome)
    requires reg.Valid()
    modifies reg
    ensures reg.Valid() && reg.listeners == old(reg.listeners)
    ensures parse(name).None? ==> o == LoggedParseError && reg.Tables() == old(reg.Tables())
    ensures parse(name).Some? && |reg.env.candidates(parse(name).value)| == 0 ==>
      o == Crashed("", Message("Cannot find a module: " + name)) && reg.Tables() == old(reg.Tables())
    ensures parse(name).Some? && |reg.env.candidates(parse(name).value)| > 1 ==>
      o == Crashed("", Message("More than one module found:" + MetaList(show, reg.env.candidates(parse(name).value))))
      && reg.Tables() == old(reg.Tables())
    ensures parse(name).Some? && |reg.env.candidates(parse(name).value)| == 1 ==>
      var resolved := Resolution.Resolve(reg.env, old(reg.Tables()), Some(reg.env.candidates(parse(name).value)[0]), recursive);
      && reg.Tables() == resolved.0
      && (resolved.1.Failure? && Caught(resolved.1.error) ==> o == LoggedFailure(resolved.1.error))
      && (resolved.1.Failure? && !Caught(resolved.1.error) ==> o == Crashed("", Escaped(resolved.1.error)))
      && (resolved.1.Success? ==> o == DumpOutcome(DumpModule(View(reg.env, reg.Tables(), show, recursive, verbose),
            parse(name).value, Some(resolved.1.value), 0, if long then None else Some({}))))
  {
    var req := parse(name);
    if req.None? {
      return LoggedParseError;
    }
    var moduleMetas := reg.env.candidates(req.value);
    if |moduleMetas| == 0 {
      return Crashed("", Message("Cannot find a module: " + name));
    }
    if |moduleMetas| > 1 {
      var msg := "More than one module found:";
      var i := 0;
      while i < |moduleMetas|
        invariant 0 <= i <= |moduleMetas| && msg == "More than one module found:" + MetaList(show, moduleMetas[..i])
      {
        assert moduleMetas[..i + 1][..i] == moduleMetas[..i];
        msg := msg + "\n    " + show.ofMeta(moduleMetas[i]);
        i := i + 1;
      }
      assert moduleMetas[..i] == moduleMetas;
      return Crashed("", Message(msg));
    }
    var resolved := reg.Resolve(Some(moduleMetas[0]), recursive);
    if resolved.Failure? {
      if Caught(resolved.error) {
        return LoggedFailure(resolved.error);
      }
      return Crashed("", Escaped(resolved.error));
    }
    var haveAlready: Option<set<Module>> := if long then None else Some({});
    var d := ShowModuleTree(reg, show, req.value, Some(resolved.value), 0, haveAlready, recursive, verbose);
    return DumpOutcome(d);
  }

  // ---------------------------------------------------------------------------
  // The registry listing
  // ---------------------------------------------------------------------------

  /** The versions of a name's candidates, each after a space, "<?>" for none. */
  function Versions(metas: seq<Meta>): string
    decreases |metas|
  {
    if metas == [] then ""
    else Versions(metas[..|metas| - 1]) + " " + (match metas[|metas| - 1].version case Some(version) => version case None => "<?>")
  }

  /** One line of the listing. */
  function NameLine(env: Env, parse: string -> Option<Requirement>, name: string): string {
    name + ":"
    + (match parse(name) case None => "<Cannot parse into ModuleRequirement>: " + name case Some(req) => Versions(env.candidates(req)))
    + "\n"
  }

  function NameLines(env: Env, parse: string -> Option<Requirement>, names: seq<string>): string
    decreases |names|
  {
    if names == [] then "" else NameLines(env, parse, names[..|names| - 1]) + NameLine(env, parse, names[|names| - 1])
  }

  /** What showModuleRegistry prints for a registry of class `className` whose name set
      is iterated as `names`. */
  function Listing(className: string, env: Env, parse: string -> Option<Requirement>, names: seq<string>): string {
    Description(className, |names|) + "\n" + NameLines(env, parse, Text.Sort(names))
  }

  /** showModuleRegistry: the registry's text, then one line per known name in
      ascending order. */
  method ShowModuleRegistry(reg: ModuleRegistry, className: string, names: seq<string>, parse: string -> Option<Requirement>)
    returns (out: string)
    requires forall i, j :: 0 <= i < j < |names| ==> names[i] != names[j]
    ensures out == Listing(className, reg.env, parse, names)
  {
    var sortedNames := Text.Sort(names);
    var lines := "";
    var i := 0;
    while i < |sortedNames|
      invariant 0 <= i <= |sortedNames| && lines == NameLines(reg.env, parse, sortedNames[..i])
    {
      var line := PrintNameLine(reg, parse, sortedNames[i]);
      assert sortedNames[..i + 1][..i] == sortedNames[..i];
      lines := lines + line;
      i := i + 1;
    }
    assert sortedNames[..i] == sortedNames;
    out := Description(className, |names|) + "\n" + lines;
  }

  /** The body of the listing loop for one name. */
  method PrintNameLine(reg: ModuleRegistry, parse: string -> Option<Requirement>, name: string) returns (line: string)
    ensures line == NameLine(reg.env, parse, name)
  {
    line := name + ":";
    var req := parse(name);
    if req.Some? {
      var versions := reg.env.candidates(req.value);
      ghost var lineStart := line;
      var j := 0;
      while j < |versions|
        invariant 0 <= j <= |versions| && line == lineStart + Versions(versions[..j])
      {
        assert versions[..j + 1][..j] == versions[..j];
        line := line + " ";
        if versions[j].version.Some? {
          line := line + versions[j].version.value;
        } else {
          line := line + "<?>";
        }
        j := j + 1;
      }
      assert versions[..j] == versions;
    } else {
      line := line + "<Cannot parse into ModuleRequirement>: " + name;
    }
    line := line + "\n";
  }

  /** The listing shows the names in ascending order: it is the listing of the one
      sorted permutation of the name set, whatever order the set iterates in. */
  lemma ListingSorted(className: string, env: Env, parse: string -> Option<Requirement>, names: seq<string>, other: seq<string>)
    requires multiset(other) == multiset(names)
    ensures Text.Sorted(Text.Sort(names)) && multiset(Text.Sort(names)) == multiset(names)
    ensures Listing(className, env, parse, other) == Listing(className, env, parse, names)
  {
    Text.SortSorted(names);
    Text.SortIndependentOfOrder(names, other);
    assert |other| == |multiset(other)| == |names|;
  }
}
