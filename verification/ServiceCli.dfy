/** The `service` command line: what the elevated child and the installed service are started
    with, and what they make of it. */
module ServiceCli {
  import opened Text
  import opened CommandLine
  import opened Flags

  const NAME := "termcp-relay"
  const DEFAULT_CONFIG := "config.toml"
  const ELEVATED_OUTPUT := "--elevated-output"
  const CREDENTIAL := "--elevated-credential"

  datatype Options = Options(
    name: string,
    configPath: string,
    logLevel: string,
    logFile: string,
    workDir: string,
    system: bool,
    userName: string,
    password: string,
    needsCredential: bool)
  {
    /** The effective service name. */
    function ServiceName(): string {
      if TrimSpace(name) != "" then TrimSpace(name) else NAME
    }
  }

  /* ---------- what the parent prints ---------- */

  function PrintedAccount(o: Options): seq<string> {
    (if o.system then [Dashed("system")] else [])
    + (Pair("user", o.userName)
       + (if o.name == NAME then [] else Pair("name", o.name)))
  }

  function Printed(o: Options): seq<string> {
    [Dashed("config"), o.configPath]
    + (Pair("log-file", o.logFile)
       + (Pair("work-dir", o.workDir)
          + (Pair("log-level", o.logLevel) + PrintedAccount(o))))
  }

  function ChildArgs(action: string, o: Options): seq<string> {
    ["service", action] + Printed(o)
  }

  /** The flags as the source spells them. */
  lemma Spelled()
    ensures Dashed("config") == "--config" && Dashed("log-file") == "--log-file" && Dashed("work-dir") == "--work-dir"
    ensures Dashed("log-level") == "--log-level" && Dashed("system") == "--system" && Dashed("user") == "--user"
    ensures Dashed("name") == "--name"
  {
  }

  lemma PairEmpty(name: string)
    ensures Pair(name, "") == []
  {
  }

  function Appended(args: seq<string>, name: string, value: string): seq<string> {
    if value == "" then args else args + [Dashed(name), value]
  }

  lemma AppendPair(args: seq<string>, name: string, value: string, rest: seq<string>)
    ensures args + (Pair(name, value) + rest) == Appended(args, name, value) + rest
  {
    hide Dashed;
  }

  lemma AppendNothing(args: seq<string>, name: string, value: string)
    ensures args + Pair(name, value) == Appended(args, name, value)
  {
    hide Dashed;
  }

  /** A flag is appended when it has a value. */
  method AppendFlag(args: seq<string>, name: string, value: string) returns (args': seq<string>)
    ensures args' == Appended(args, name, value)
  {
    args' := args;
    if value != "" {
      args' := args' + ["--" + name, value];
    }
  }

  method BuildChildArgs(action: string, opts: Options) returns (args: seq<string>)
    ensures args == ChildArgs(action, opts)
  {
    hide Dashed, Pair, Appended;
    ghost var r6 := if opts.name == NAME then [] else Pair("name", opts.name);
    ghost var r5 := Pair("user", opts.userName) + r6;
    ghost var r4 := (if opts.system then [Dashed("system")] else []) + r5;
    ghost var r3 := Pair("log-level", opts.logLevel) + r4;
    ghost var r2 := Pair("work-dir", opts.workDir) + r3;
    args := ["service", action, Dashed("config"), opts.configPath];
    assert ChildArgs(action, opts) == args + (Pair("log-file", opts.logFile) + r2);
    AppendPair(args, "log-file", opts.logFile, r2);
    args := AppendFlag(args, "log-file", opts.logFile);
    AppendPair(args, "work-dir", opts.workDir, r3);
    args := AppendFlag(args, "work-dir", opts.workDir);
    AppendPair(args, "log-level", opts.logLevel, r4);
    args := AppendFlag(args, "log-level", opts.logLevel);
    if opts.system {
      assert args + ([Dashed("system")] + r5) == args + [Dashed("system")] + r5;
      args := args + [Dashed("system")];
    } else {
      assert args + ([] + r5) == args + r5;
    }
    AppendPair(args, "user", opts.userName, r6);
    args := AppendFlag(args, "user", opts.userName);
    if opts.name != NAME {
      AppendNothing(args, "name", opts.name);
      args := AppendFlag(args, "name", opts.name);
    } else {
      assert args + [] == args;
    }
  }

  /** The full argument list of an elevated child: the options, the credential file if one was
      written, and the file its output goes to. */
  function ChildCommand(action: string, o: Options, credential: Option<string>, report: string): seq<string> {
    ChildArgs(action, o)
    + (if credential.Some? then [CREDENTIAL, credential.value] else [])
    + [ELEVATED_OUTPUT, report]
  }

  /* ---------- what a process makes of its arguments ---------- */

  const SERVE_FLAGS: Defs := map["config" := StringFlag, "log-level" := StringFlag, "log-file" := StringFlag,
                                 "work-dir" := StringFlag]

  const SERVE_DEFAULTS: Values := map["config" := DEFAULT_CONFIG, "log-level" := "", "log-file" := "", "work-dir" := ""]

  datatype Dispatch =
    | Help
    | Version
    | Init(args: seq<string>)
    | Service(args: seq<string>)
    | Serve(opts: Options)
    | Exit(code: int)

  /** `main`: the first argument may name a subcommand; otherwise the relay is served. */
  function MainDispatch(args: seq<string>): Dispatch {
    if args != [] && args[0] in ["help", "-h", "--help"] then Help
    else if args != [] && args[0] in ["version", "--version"] then Version
    else if args != [] && args[0] == "init" then Init(args[1..])
    else if args != [] && args[0] == "service" then Service(args[1..])
    else
      match ParseFlags(SERVE_FLAGS, SERVE_DEFAULTS, args)
      case HelpAsked => Exit(0)
      case Invalid => Exit(2)
      case Parsed(v, rest) =>
        Serve(Options("", v["config"], v["log-level"], v["log-file"], v["work-dir"], false, "", "", false))
  }

  const SERVICE_FLAGS: Defs := SERVE_FLAGS + map["user" := StringFlag, "system" := BoolFlag, "name" := StringFlag]

  const SERVICE_DEFAULTS: Values := SERVE_DEFAULTS + map["user" := "", "system" := "false", "name" := NAME]

  predicate IsControl(action: string) {
    action in ["uninstall", "start", "stop", "restart", "status"]
  }

  datatype Invocation = Done(code: int) | Run(action: string, opts: Options)

  /** `Command` once the hidden flags are stripped: usage, help and errors end it, otherwise an
      action is run with the parsed options. */
  function Interpret(args: seq<string>): Invocation {
    if args == [] then Done(2)
    else if args[0] in ["help", "-h", "--help"] then Done(0)
    else
      match ParseFlags(SERVICE_FLAGS, SERVICE_DEFAULTS, args[1..])
      case HelpAsked => Done(0)
      case Invalid => Done(2)
      case Parsed(v, rest) =>
        var system := v["system"] == "true";
        if system && !Blank(v["user"]) then Done(2)
        else if args[0] != "install" && !IsControl(args[0]) then Done(2)
        else Run(args[0], Options(v["name"], v["config"], v["log-level"], v["log-file"], v["work-dir"], system,
                                  if system then "" else v["user"], "", false))
  }

  /** The options a command line gives, flag by flag the last one, or the default. */
  function Chosen(settings: seq<Setting>): Options
    requires AllFit(SERVICE_FLAGS, settings)
  {
    Options(LastGiven(SERVICE_FLAGS, settings, "name", "termcp-relay"),
            LastGiven(SERVICE_FLAGS, settings, "config", "config.toml"),
            LastGiven(SERVICE_FLAGS, settings, "log-level", ""),
            LastGiven(SERVICE_FLAGS, settings, "log-file", ""),
            LastGiven(SERVICE_FLAGS, settings, "work-dir", ""),
            LastGiven(SERVICE_FLAGS, settings, "system", "false") == "true",
            LastGiven(SERVICE_FLAGS, settings, "user", ""),
            "", false)
  }

  /** The flags end here: nothing follows, or something that is no flag. */
  predicate NoFlag(rest: seq<string>) {
    rest == [] || |rest[0]| < 2 || rest[0][0] != '-' || rest[0] == "--"
  }

  predicate Conflicting(o: Options) {
    o.system && !AllSpace(o.userName)
  }

  /** Whatever the order and form of its flags, a command line asks for help, is refused, or runs its
      action with the options it gives. */
  lemma InterpretTyped(action: string, settings: seq<Setting>, rest: seq<string>)
    requires AllFit(SERVICE_FLAGS, settings) && NoFlag(rest)
    ensures var o := Chosen(settings);
            Interpret([action] + Written(settings) + rest) ==
            if action == "help" || action == "-h" || action == "--help" then Done(0)
            else if Conflicting(o) then Done(2)
            else if action !in ["install", "uninstall", "start", "stop", "restart", "status"] then Done(2)
            else Run(action, if o.system then o.(userName := "") else o)
  {
    hide ParseFlags, Assigned, Setting.Fits, Setting.Gives, Setting.Words, Blank, AllSpace, Written, AllFit, Chosen;
    var args := [action] + Written(settings) + rest;
    assert args[1..] == Written(settings) + rest;
    ParseSettings(SERVICE_FLAGS, SERVICE_DEFAULTS, settings, rest);
    ParseEnds(SERVICE_FLAGS, Assigned(SERVICE_FLAGS, SERVICE_DEFAULTS, settings), rest);
    AssignedChoices(settings);
    InterpretParsed(args, Chosen(settings));
  }

  lemma InterpretParsed(args: seq<string>, o: Options)
    requires args != [] && o.password == "" && !o.needsCredential
    requires var parsed := ParseFlags(SERVICE_FLAGS, SERVICE_DEFAULTS, args[1..]);
             && parsed.Parsed?
             && var v := parsed.values;
                && v["name"] == o.name && v["config"] == o.configPath && v["log-level"] == o.logLevel
                && v["log-file"] == o.logFile && v["work-dir"] == o.workDir && (v["system"] == "true" <==> o.system)
                && v["user"] == o.userName
    ensures Interpret(args) ==
            if args[0] in ["help", "-h", "--help"] then Done(0)
            else if Conflicting(o) || (args[0] != "install" && !IsControl(args[0])) then Done(2)
            else Run(args[0], if o.system then o.(userName := "") else o)
  {
    hide ParseFlags, Blank, AllSpace;
    BlankIs(o.userName);
  }

  lemma AssignedChoices(settings: seq<Setting>)
    requires AllFit(SERVICE_FLAGS, settings)
    ensures var v, o := Assigned(SERVICE_FLAGS, SERVICE_DEFAULTS, settings), Chosen(settings);
            && v.Keys >= SERVICE_DEFAULTS.Keys
            && v["name"] == o.name && v["config"] == o.configPath && v["log-level"] == o.logLevel
            && v["log-file"] == o.logFile && v["work-dir"] == o.workDir && (v["system"] == "true" <==> o.system)
            && v["user"] == o.userName && o.password == "" && !o.needsCredential
  {
    hide Assigned, LastGiven, Setting.Fits, Setting.Gives;
    var d := SERVICE_FLAGS;
    AssignedIsLast(d, SERVICE_DEFAULTS, settings, "name");
    AssignedIsLast(d, SERVICE_DEFAULTS, settings, "config");
    AssignedIsLast(d, SERVICE_DEFAULTS, settings, "log-level");
    AssignedIsLast(d, SERVICE_DEFAULTS, settings, "log-file");
    AssignedIsLast(d, SERVICE_DEFAULTS, settings, "work-dir");
    AssignedIsLast(d, SERVICE_DEFAULTS, settings, "system");
    AssignedIsLast(d, SERVICE_DEFAULTS, settings, "user");
  }

  /** Flags that cannot be parsed end it as well: with help if that is what they ask for. */
  lemma InterpretBroken(action: string, settings: seq<Setting>, rest: seq<string>)
    requires AllFit(SERVICE_FLAGS, settings) && action !in ["help", "-h", "--help"]
    ensures var parsed := ParseFlags(SERVICE_FLAGS, Assigned(SERVICE_FLAGS, SERVICE_DEFAULTS, settings), rest);
            !parsed.Parsed? ==>
              Interpret([action] + Written(settings) + rest) == Done(if parsed.HelpAsked? then 0 else 2)
  {
    hide ParseFlags, Assigned, Setting.Fits, Setting.Gives, Setting.Words, Written;
    var args := [action] + Written(settings) + rest;
    assert args[1..] == Written(settings) + rest;
    ParseSettings(SERVICE_FLAGS, SERVICE_DEFAULTS, settings, rest);
  }

  /** What the options become on the way: secrets stay behind, and an empty name is the default. */
  function Received(o: Options): Options {
    o.(password := "", needsCredential := false, name := if o.name == "" then NAME else o.name)
  }

  function PrintedTexts(o: Options): Values {
    SERVICE_DEFAULTS["config" := o.configPath]["log-file" := o.logFile]["work-dir" := o.workDir]
      ["log-level" := o.logLevel]
  }

  /** The flag values of a child that was given `o`. */
  function PrintedValues(o: Options): Values {
    PrintedTexts(o)["system" := if o.system then "true" else "false"]["user" := o.userName]
      ["name" := if o.name == "" then NAME else o.name]
  }

  lemma PrintedLookup(o: Options)
    ensures var v := PrintedValues(o);
            && v.Keys >= SERVICE_DEFAULTS.Keys
            && v["config"] == o.configPath && v["log-file"] == o.logFile && v["work-dir"] == o.workDir
            && v["log-level"] == o.logLevel && (v["system"] == "true" <==> o.system) && v["user"] == o.userName
            && v["name"] == if o.name == "" then NAME else o.name
  {
  }

  lemma PrintedParses(o: Options)
    ensures ParseFlags(SERVICE_FLAGS, SERVICE_DEFAULTS, Printed(o)) == Parsed(PrintedValues(o), [])
  {
    hide ParseFlags, PrintedAccount, Printed;
    TextsParse(o);
    AccountParses(o, PrintedTexts(o));
  }

  lemma TextsParse(o: Options)
    ensures ParseFlags(SERVICE_FLAGS, SERVICE_DEFAULTS, Printed(o))
         == ParseFlags(SERVICE_FLAGS, PrintedTexts(o), PrintedAccount(o))
  {
    hide ParseFlags, Dashed, Pair, PrintedAccount;
    var v1 := SERVICE_DEFAULTS["config" := o.configPath];
    var v2 := v1["log-file" := o.logFile];
    var v3 := v2["work-dir" := o.workDir];
    var r4 := PrintedAccount(o);
    var r3 := Pair("log-level", o.logLevel) + r4;
    var r2 := Pair("work-dir", o.workDir) + r3;
    ParseConfig(o, SERVICE_DEFAULTS, Pair("log-file", o.logFile) + r2);
    ParseText(v1, "log-file", o.logFile, r2);
    ParseText(v2, "work-dir", o.workDir, r3);
    ParseText(v3, "log-level", o.logLevel, r4);
  }

  lemma AccountParses(o: Options, v: Values)
    requires v.Keys >= {"system", "user", "name"} && v["system"] == "false" && v["user"] == "" && v["name"] == NAME
    ensures ParseFlags(SERVICE_FLAGS, v, PrintedAccount(o))
         == Parsed(v["system" := if o.system then "true" else "false"]["user" := o.userName]
                    ["name" := if o.name == "" then NAME else o.name], [])
  {
    hide ParseFlags, Dashed, Pair;
    var v' := v["system" := if o.system then "true" else "false"];
    var r := if o.name == NAME then [] else Pair("name", o.name);
    ParseSystem(v, o.system, Pair("user", o.userName) + r);
    ParseText(v', "user", o.userName, r);
    ParseName(v'["user" := o.userName], o.name);
  }

  lemma ParseConfig(o: Options, v: Values, rest: seq<string>)
    ensures ParseFlags(SERVICE_FLAGS, v, [Dashed("config"), o.configPath] + rest)
         == ParseFlags(SERVICE_FLAGS, v["config" := o.configPath], rest)
  {
    hide ParseFlags, Dashed;
    ParsePair(SERVICE_FLAGS, v, "config", o.configPath, rest);
  }

  lemma ParseText(v: Values, name: string, value: string, rest: seq<string>)
    requires name in ["log-file", "work-dir", "log-level", "user"] && name in v && v[name] == ""
    ensures ParseFlags(SERVICE_FLAGS, v, Pair(name, value) + rest) == ParseFlags(SERVICE_FLAGS, v[name := value], rest)
  {
    hide ParseFlags, Dashed, Pair;
    ParseOptional(SERVICE_FLAGS, v, name, value, rest);
  }

  lemma ParseSystem(v: Values, system: bool, rest: seq<string>)
    requires "system" in v && v["system"] == "false"
    ensures ParseFlags(SERVICE_FLAGS, v, (if system then [Dashed("system")] else []) + rest)
         == ParseFlags(SERVICE_FLAGS, v["system" := if system then "true" else "false"], rest)
  {
    hide ParseFlags;
    if system {
      ParseSwitch(SERVICE_FLAGS, v, "system", rest);
    } else {
      assert v["system" := "false"] == v;
      assert [] + rest == rest;
    }
  }

  /** Printing options for a child and parsing them there gives the same options, exactly when
      --system is not combined with a user name; the command never combines them. */
  lemma InterpretPrinted(action: string, o: Options)
    requires action == "install" || IsControl(action)
    ensures Interpret([action] + Printed(o)) == Run(action, Received(o)) <==> (o.system ==> o.userName == "")
  {
    hide ParseFlags, Printed, Blank, PrintedValues;
    PrintedParses(o);
    PrintedLookup(o);
    BlankNothing();
    assert ([action] + Printed(o))[1..] == Printed(o);
  }

  lemma BlankNothing()
    ensures Blank("")
  {
  }

  lemma ParseName(v: Values, name: string)
    requires "name" in v && v["name"] == NAME
    ensures ParseFlags(SERVICE_FLAGS, v, if name == NAME then [] else Pair("name", name))
         == Parsed(v["name" := if name == "" then NAME else name], [])
  {
    assert v["name" := NAME] == v;
    if name != NAME && name != "" {
      ParsePair(SERVICE_FLAGS, v, "name", name, []);
      assert [Dashed("name"), name] + [] == Pair("name", name);
    }
  }

  /* ---------- stripping the hidden flags ---------- */

  /** The arguments without the flag and the argument behind it; a flag at the very end stays. */
  function Prune(args: seq<string>, flag: string): seq<string> {
    if args == [] then []
    else if args[0] == flag && |args| >= 2 then Prune(args[2..], flag)
    else [args[0]] + Prune(args[1..], flag)
  }

  /** What the flag carried, each time it was stripped. */
  function Carried(args: seq<string>, flag: string): seq<string> {
    if args == [] then []
    else if args[0] == flag && |args| >= 2 then [args[1]] + Carried(args[2..], flag)
    else Carried(args[1..], flag)
  }

  function LastOr(s: seq<string>, default: string): string {
    if s == [] then default else s[|s| - 1]
  }

  lemma PruneFront(x: string, rest: seq<string>, flag: string)
    requires x != flag || rest == []
    ensures Prune([x] + rest, flag) == [x] + Prune(rest, flag)
    ensures Carried([x] + rest, flag) == Carried(rest, flag)
  {
    assert ([x] + rest)[1..] == rest;
  }

  lemma PruneFlag(flag: string, value: string, rest: seq<string>)
    ensures Prune([flag, value] + rest, flag) == Prune(rest, flag)
    ensures Carried([flag, value] + rest, flag) == [value] + Carried(rest, flag)
  {
    assert ([flag, value] + rest)[2..] == rest;
  }

  /** Takes the hidden credential flag out of the arguments. */
  method TakeCredentialArg(args: seq<string>) returns (pruned: seq<string>, path: string)
    ensures pruned == Prune(args, CREDENTIAL)
    ensures path == LastOr(Carried(args, CREDENTIAL), "")
  {
    hide Prune, Carried;
    pruned := [];
    path := "";
    ghost var carried: seq<string> := [];
    assert args[0..] == args;
    PruneNothing(CREDENTIAL);
    var i := 0;
    while i < |args|
      invariant 0 <= i <= |args|
      invariant Prune(args, CREDENTIAL) == pruned + Prune(args[i..], CREDENTIAL)
      invariant Carried(args, CREDENTIAL) == carried + Carried(args[i..], CREDENTIAL)
      invariant path == LastOr(carried, "")
    {
      if args[i] == CREDENTIAL && i + 1 < |args| {
        assert args[i..] == [args[i], args[i + 1]] + args[i + 2..];
        PruneFlag(CREDENTIAL, args[i + 1], args[i + 2..]);
        carried := carried + [args[i + 1]];
        path := args[i + 1];
        i := i + 2;
        continue;
      }
      assert args[i..] == [args[i]] + args[i + 1..];
      PruneFront(args[i], args[i + 1..], CREDENTIAL);
      pruned := pruned + [args[i]];
      i := i + 1;
    }
    assert args[|args|..] == [];
  }

  lemma PruneNothing(flag: string)
    ensures Prune([], flag) == [] && Carried([], flag) == []
  {
  }

  method HasFlag(args: seq<string>, name: string) returns (found: bool)
    ensures found <==> name in args
  {
    for i := 0 to |args|
      invariant name !in args[..i]
    {
      if args[i] == name {
        return true;
      }
    }
    return false;
  }

  lemma {:induction false} PruneClean(args: seq<string>, flag: string, rest: seq<string>)
    requires flag !in args
    ensures Prune(args + rest, flag) == args + Prune(rest, flag)
    ensures Carried(args + rest, flag) == Carried(rest, flag)
  {
    if args == [] {
      assert args + rest == rest;
    } else {
      assert args + rest == [args[0]] + (args[1..] + rest);
      PruneClean(args[1..], flag, rest);
      PruneFront(args[0], args[1..] + rest, flag);
    }
  }

  /** The flag survives pruning only as the very last argument. */
  lemma {:induction false} PrunedHas(args: seq<string>, flag: string)
    ensures flag in Prune(args, flag) ==> args != [] && args[|args| - 1] == flag
    ensures forall x :: x in Prune(args, flag) ==> x in args
    ensures |Prune(args, flag)| <= |args|
  {
    if args != [] {
      if args[0] == flag && |args| >= 2 {
        PrunedHas(args[2..], flag);
      } else {
        PrunedHas(args[1..], flag);
      }
    }
  }

  lemma {:induction false} PruneShortens(args: seq<string>, flag: string, i: nat)
    requires i < |args| - 1 && args[i] == flag
    ensures |Prune(args, flag)| < |args|
  {
    if args[0] == flag {
      PrunedHas(args[2..], flag);
    } else {
      PruneShortens(args[1..], flag, i - 1);
    }
  }

  /** No argument is mistaken for a hidden flag; only a credential flag at the very end, with
      nothing appended behind it, is harmless. */
  predicate Unmistakable(args: seq<string>, credential: Option<string>) {
    && ELEVATED_OUTPUT !in args
    && (forall i :: 0 <= i < |args| && args[i] == CREDENTIAL ==> credential.None? && i == |args| - 1)
  }

  /** The child strips exactly what the parent appended, and gets the two paths, if and only if
      no argument of its own looks like a hidden flag. */
  lemma StripsWhatWasAppended(args: seq<string>, credential: Option<string>, report: string)
    requires report !in [ELEVATED_OUTPUT, CREDENTIAL]
    requires credential.Some? ==> credential.value !in [ELEVATED_OUTPUT, CREDENTIAL]
    ensures var extra := if credential.Some? then [CREDENTIAL, credential.value] else [];
            var all := args + extra + [ELEVATED_OUTPUT, report];
            var once := Prune(all, ELEVATED_OUTPUT);
            (&& Prune(once, CREDENTIAL) == args
             && Carried(all, ELEVATED_OUTPUT) == [report]
             && Carried(once, CREDENTIAL) == (if credential.Some? then [credential.value] else [])
             <==> Unmistakable(args, credential))
  {
    hide Prune, Carried;
    var extra := if credential.Some? then [CREDENTIAL, credential.value] else [];
    var all := args + extra + [ELEVATED_OUTPUT, report];
    var once := Prune(all, ELEVATED_OUTPUT);
    PruneNothing(ELEVATED_OUTPUT);
    PruneNothing(CREDENTIAL);
    if ELEVATED_OUTPUT in args {
      PrunedHas(all, ELEVATED_OUTPUT);
      PrunedHas(once, CREDENTIAL);
    } else {
      PruneFlag(ELEVATED_OUTPUT, report, []);
      assert [ELEVATED_OUTPUT, report] + [] == [ELEVATED_OUTPUT, report];
      PruneClean(args + extra, ELEVATED_OUTPUT, [ELEVATED_OUTPUT, report]);
      assert once == args + extra;
      if credential.Some? {
        PrunedHas(once, CREDENTIAL);
        if CREDENTIAL !in args {
          PruneFlag(CREDENTIAL, credential.value, []);
          assert extra + [] == extra;
          PruneClean(args, CREDENTIAL, extra);
        }
      } else {
        assert once == args;
        StripNoCredential(args);
      }
    }
  }

  lemma StripNoCredential(args: seq<string>)
    ensures Prune(args, CREDENTIAL) == args && Carried(args, CREDENTIAL) == []
       <==> forall i :: 0 <= i < |args| && args[i] == CREDENTIAL ==> i == |args| - 1
  {
    hide Prune, Carried;
    if i :| 0 <= i < |args| - 1 && args[i] == CREDENTIAL {
      PruneShortens(args, CREDENTIAL, i);
    } else if args != [] {
      var front, last := args[..|args| - 1], args[|args| - 1];
      assert args == front + [last];
      PruneNothing(CREDENTIAL);
      PruneFront(last, [], CREDENTIAL);
      assert [last] + [] == [last];
      PruneClean(front, CREDENTIAL, [last]);
    } else {
      PruneNothing(CREDENTIAL);
    }
  }

  /* ---------- the two processes together ---------- */

  /** What the elevated child works with, from its command line on. */
  datatype ChildView = ChildView(elevatedChild: bool, reports: seq<string>, credential: string, invocation: Invocation)

  function View(args: seq<string>): ChildView {
    var once := Prune(args, ELEVATED_OUTPUT);
    ChildView(ELEVATED_OUTPUT in args, Carried(args, ELEVATED_OUTPUT),
              LastOr(Carried(once, CREDENTIAL), ""), Interpret(Prune(once, CREDENTIAL)))
  }

  lemma ViewOfChild(action: string, o: Options, credential: Option<string>, report: string)
    requires action == "install" || IsControl(action)
    requires o.system ==> o.userName == ""
    requires report !in [ELEVATED_OUTPUT, CREDENTIAL]
    requires credential.Some? ==> credential.value !in [ELEVATED_OUTPUT, CREDENTIAL]
    requires Unmistakable(ChildArgs(action, o), credential)
    ensures View(ChildCommand(action, o, credential, report)[1..]) ==
            ChildView(true, [report], credential.GetOr(""), Run(action, Received(o)))
  {
    hide Prune, Carried, Interpret, Printed;
    var args := [action] + Printed(o);
    var extra := if credential.Some? then [CREDENTIAL, credential.value] else [];
    var all := args + extra + [ELEVATED_OUTPUT, report];
    assert ChildArgs(action, o) == ["service"] + args;
    assert ChildCommand(action, o, credential, report) == ["service"] + all;
    assert Unmistakable(args, credential) by {
      assert forall i :: 0 <= i < |args| ==> args[i] == ChildArgs(action, o)[i + 1];
    }
    StripsWhatWasAppended(args, credential, report);
    InterpretPrinted(action, o);
  }

  /** The whole handoff: options are printed, extended, quoted into one command line, split,
      dispatched, stripped and parsed; the child ends up with the parent's options, the exact
      paths, and the knowledge that it is the child. */
  lemma ElevationRoundTrip(action: string, o: Options, credential: Option<string>, report: string)
    requires action == "install" || IsControl(action)
    requires o.system ==> o.userName == ""
    requires report !in [ELEVATED_OUTPUT, CREDENTIAL]
    requires credential.Some? ==> credential.value !in [ELEVATED_OUTPUT, CREDENTIAL]
    requires Unmistakable(ChildArgs(action, o), credential)
    ensures var line := CommandLineOf(ChildCommand(action, o, credential, report));
            var received := MainDispatch(SplitCommandLine(line));
            && received.Service?
            && View(received.args) ==
               ChildView(true, [report], credential.GetOr(""), Run(action, Received(o)))
            && Received(o).ServiceName() == o.ServiceName()
  {
    hide View, SplitCommandLine, CommandLineOf, Unmistakable, Printed, MainDispatch, Options.ServiceName;
    var child := ChildCommand(action, o, credential, report);
    ViewOfChild(action, o, credential, report);
    SplitUndoesJoin(child);
    DispatchService(child);
    SameServiceName(o);
  }

  lemma DispatchService(args: seq<string>)
    requires args != [] && args[0] == "service"
    ensures MainDispatch(args) == Service(args[1..])
  {
    hide ParseFlags;
  }

  /** A blank name is the default one; any other counts without the white space around it. */
  lemma NameIs(o: Options, l: string, x: string, r: string)
    requires o.name == l + x + r && AllSpace(l) && AllSpace(r) && Trimmed(x)
    ensures o.ServiceName() == if x == "" then "termcp-relay" else x
  {
    hide TrimSpace;
    TrimIs(l, x, r);
  }

  /** `main` serves with the flags it is given. */
  lemma MainServes(settings: seq<Setting>)
    requires AllFit(SERVE_FLAGS, settings)
    ensures var d := SERVE_FLAGS;
            MainDispatch(Written(settings)) ==
            Serve(Options("", LastGiven(d, settings, "config", "config.toml"), LastGiven(d, settings, "log-level", ""),
                          LastGiven(d, settings, "log-file", ""), LastGiven(d, settings, "work-dir", ""),
                          false, "", "", false))
  {
    hide ParseFlags, Assigned, LastGiven, Setting.Fits, Setting.Gives, Setting.Words, Written;
    var d, v := SERVE_FLAGS, SERVE_DEFAULTS;
    assert Written(settings) + [] == Written(settings);
    ParseSettings(d, v, settings, []);
    ParseEnds(d, Assigned(d, v, settings), []);
    AssignedIsLast(d, v, settings, "config");
    AssignedIsLast(d, v, settings, "log-level");
    AssignedIsLast(d, v, settings, "log-file");
    AssignedIsLast(d, v, settings, "work-dir");
    WrittenFirst(settings);
  }

  /** Unless the first argument names a subcommand. */
  lemma Subcommands(first: string, rest: seq<string>)
    ensures first == "service" ==> MainDispatch([first] + rest) == Service(rest)
    ensures first == "init" ==> MainDispatch([first] + rest) == Init(rest)
    ensures first == "help" || first == "-h" || first == "--help" ==> MainDispatch([first] + rest) == Help
    ensures first == "version" || first == "--version" ==> MainDispatch([first] + rest) == Version
  {
    hide ParseFlags;
    assert ([first] + rest)[1..] == rest;
  }

  /** Flags that cannot be parsed end the program. */
  lemma MainBroken(settings: seq<Setting>, rest: seq<string>)
    requires AllFit(SERVE_FLAGS, settings) && settings != []
    ensures var parsed := ParseFlags(SERVE_FLAGS, Assigned(SERVE_FLAGS, SERVE_DEFAULTS, settings), rest);
            !parsed.Parsed? ==> MainDispatch(Written(settings) + rest) == Exit(if parsed.HelpAsked? then 0 else 2)
  {
    hide ParseFlags, Assigned, Setting.Fits, Setting.Gives, Written;
    ParseSettings(SERVE_FLAGS, SERVE_DEFAULTS, settings, rest);
    WrittenFirst(settings);
    WrittenSome(settings);
    assert (Written(settings) + rest)[0] == Written(settings)[0];
  }

  lemma WrittenSome(settings: seq<Setting>)
    requires settings != []
    ensures Written(settings) != []
  {
    assert settings[0].Words() != [];
  }

  lemma WrittenFirst(settings: seq<Setting>)
    requires AllFit(SERVE_FLAGS, settings)
    ensures var args := Written(settings);
            args != [] ==> args[0] !in ["help", "-h", "--help", "version", "--version", "init", "service"]
  {
    if settings != [] {
      var s := settings[0];
      assert s in settings;
      FirstWord(s);
      assert Written(settings)[0] == s.Words()[0];
    }
  }

  lemma FirstWord(s: Setting)
    requires s.Fits(SERVE_FLAGS)
    ensures s.Words()[0] !in ["help", "-h", "--help", "version", "--version", "init", "service"]
  {
    var w := s.Words()[0];
    var start := s.dashes + s.name;
    assert start <= w && w[0] == '-';
    assert s.name[0] in ['c', 'l', 'w'];
    assert start[|s.dashes|] == s.name[0] == w[|s.dashes|];
    assert |s.dashes| == 2 ==> start[1] == '-' == w[1];
  }

  lemma SameServiceName(o: Options)
    ensures Received(o).ServiceName() == o.ServiceName()
  {
    hide TrimSpace;
    assert Trimmed(NAME) && Trimmed("");
  }

  /* ---------- the installed service ---------- */

  const DISPLAY_NAME := "termcp-relay SSH daemon"
  const DESCRIPTION := "Standalone SSH daemon: PTY shells, exec, SFTP and TCP port forwarding."

  const PASSWORD_OPTION := "Password"

  /** Recovery: the manager restarts a service that ended unexpectedly. */
  const RESTART_OPTIONS: map<string, string> := map["OnFailure" := "restart", "OnFailureDelayDuration" := "5s"]

  /** What the service manager is given. */
  datatype ServiceConfig = ServiceConfig(
    name: string,
    displayName: string,
    description: string,
    arguments: seq<string>,
    workingDirectory: string,
    userName: string,
    options: map<string, string>)

  /** The service definition; `dir` is filepath.Dir. */
  function Definition(dir: string -> string, o: Options): ServiceConfig {
    ServiceConfig(
      o.ServiceName(), DISPLAY_NAME, DESCRIPTION,
      Pair("config", o.configPath)
      + (Pair("log-file", o.logFile)
         + (Pair("work-dir", o.workDir)
            + (Pair("log-level", o.logLevel) + []))),
      if o.configPath == "" then "" else dir(o.configPath),
      o.userName,
      (if o.userName == "" then map[] else map[PASSWORD_OPTION := o.password]) + RESTART_OPTIONS)
  }

  method ApplyPlatformOptions(options: map<string, string>) returns (options': map<string, string>)
    ensures options' == options + RESTART_OPTIONS
  {
    options' := options["OnFailure" := "restart"]["OnFailureDelayDuration" := "5s"];
  }

  method KserviceConfig(dir: string -> string, opts: Options) returns (cfg: ServiceConfig)
    ensures cfg == Definition(dir, opts)
  {
    hide Dashed, TrimSpace, Pair, Appended;
    ghost var r3 := Pair("log-level", opts.logLevel) + [];
    ghost var r2 := Pair("work-dir", opts.workDir) + r3;
    ghost var r1 := Pair("log-file", opts.logFile) + r2;
    AppendPair([], "config", opts.configPath, r1);
    assert [] + (Pair("config", opts.configPath) + r1) == Pair("config", opts.configPath) + r1;
    var args := AppendFlag([], "config", opts.configPath);
    AppendPair(args, "log-file", opts.logFile, r2);
    args := AppendFlag(args, "log-file", opts.logFile);
    AppendPair(args, "work-dir", opts.workDir, r3);
    args := AppendFlag(args, "work-dir", opts.workDir);
    AppendPair(args, "log-level", opts.logLevel, []);
    args := AppendFlag(args, "log-level", opts.logLevel);
    assert args + [] == args;
    cfg := ServiceConfig(opts.ServiceName(), DISPLAY_NAME, DESCRIPTION, args, "", "", map[]);
    if opts.configPath != "" {
      cfg := cfg.(workingDirectory := dir(opts.configPath));
    }
    if opts.userName != "" {
      cfg := cfg.(userName := opts.userName, options := map[PASSWORD_OPTION := opts.password]);
    }
    var options := ApplyPlatformOptions(cfg.options);
    cfg := cfg.(options := options);
  }

  /** The flag values of a service installed with `o`. */
  function InstalledValues(o: Options): Values {
    SERVE_DEFAULTS["config" := if o.configPath == "" then DEFAULT_CONFIG else o.configPath]
      ["log-file" := o.logFile]["work-dir" := o.workDir]["log-level" := o.logLevel]
  }

  lemma DefinitionParses(dir: string -> string, o: Options)
    ensures ParseFlags(SERVE_FLAGS, SERVE_DEFAULTS, Definition(dir, o).arguments) == Parsed(InstalledValues(o), [])
  {
    hide ParseFlags, Pair, Dashed;
    var d, v0 := SERVE_FLAGS, SERVE_DEFAULTS;
    var v1 := v0["config" := if o.configPath == "" then DEFAULT_CONFIG else o.configPath];
    var v2 := v1["log-file" := o.logFile];
    var v3 := v2["work-dir" := o.workDir];
    var r3 := Pair("log-level", o.logLevel) + [];
    var r2 := Pair("work-dir", o.workDir) + r3;
    var r1 := Pair("log-file", o.logFile) + r2;
    if o.configPath == "" {
      PairEmpty("config");
      assert [] + r1 == r1;
      assert v1 == v0;
    } else {
      PairFull("config", o.configPath);
      ParsePair(d, v0, "config", o.configPath, r1);
    }
    ParseOptional(d, v1, "log-file", o.logFile, r2);
    ParseOptional(d, v2, "work-dir", o.workDir, r3);
    ParseOptional(d, v3, "log-level", o.logLevel, []);
    ParsedNothing(d, v3["log-level" := o.logLevel]);
  }

  /** An installed service starts with what was installed: its arguments are never taken for a
      subcommand, and parsing them gives the installed settings back, the default standing in for
      an empty configuration path. */
  lemma ServiceStartsAsInstalled(dir: string -> string, o: Options)
    ensures MainDispatch(Definition(dir, o).arguments) ==
            Serve(Options("", if o.configPath == "" then DEFAULT_CONFIG else o.configPath,
                          o.logLevel, o.logFile, o.workDir, false, "", "", false))
  {
    hide ParseFlags, Definition;
    DefinitionParses(dir, o);
    StartsWithFlag(dir, o);
  }

  lemma PairFull(name: string, value: string)
    requires value != ""
    ensures Pair(name, value) == [Dashed(name), value]
  {
  }

  lemma ParsedNothing(d: Defs, v: Values)
    ensures ParseFlags(d, v, []) == Parsed(v, [])
  {
  }

  lemma StartsWithFlag(dir: string -> string, o: Options)
    ensures var args := Definition(dir, o).arguments;
            args == [] || args[0] in ["--config", "--log-file", "--work-dir", "--log-level"]
  {
    Spelled();
    hide Dashed, TrimSpace;
  }
}
