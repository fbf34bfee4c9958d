/** The `service` command as processes run it: the elevation through UAC, the one-shot credential
    file, and what the service manager is asked in the end.  Windows build. */
module Elevation {
  import opened Text
  import opened CommandLine
  import opened Flags
  import opened ServiceCli
  import opened Account

  /** What a command line asks for. */
  datatype Request = Install(definition: ServiceConfig) | Control(action: string, name: string)

  /** One call to the service manager, and whether it succeeded. */
  datatype Call = Call(operation: Operation, ok: bool)

  datatype Operation =
    | Register(definition: ServiceConfig)
    | Unregister(name: string)
    | Start(name: string)
    | Stop(name: string)
    | Restart(name: string)

  /** The calls that serve a request.  A running service is stopped before it is removed, and only
      removed if that succeeds; a start that failed for a missing logon right is repeated once. */
  predicate Fulfils(machine: Machine, calls: seq<Call>, request: Request) {
    calls != []
    && match request
       case Install(d) => |calls| == 1 && calls[0].operation == Register(d)
       case Control(action, n) =>
         match action
         case "uninstall" =>
           if !machine.running(n) then |calls| == 1 && calls[0].operation == Unregister(n)
           else
             && calls[0].operation == Stop(n)
             && if calls[0].ok then |calls| == 2 && calls[1].operation == Unregister(n) else |calls| == 1
         case "start" =>
           && calls[0].operation == Start(n)
           && if !calls[0].ok && machine.grants(n) then |calls| == 2 && calls[1].operation == Start(n) else |calls| == 1
         case "stop" => |calls| == 1 && calls[0].operation == Stop(n)
         case "restart" => |calls| == 1 && calls[0].operation == Restart(n)
         case _ => false
  }

  /** A control action asks for something when there is a service to control; status only reads. */
  function ControlRequest(machine: Machine, action: string, o: Options): Option<Request> {
    if action == "status" || machine.Absent(o.ServiceName()) then None else Some(Control(action, o.ServiceName()))
  }

  /** The request a process makes of its options, if it gets as far as making one. */
  function RequestOf(machine: Machine, login: Login, answers: Answers, credPath: string, content: Option<string>,
                     action: string, o: Options): Option<Request> {
    if action == "install" then
      match Prepare(machine, login, o, credPath, content, answers)
      case Ok(r) => Some(Install(Definition(machine.dir, r)))
      case Err => None
    else ControlRequest(machine, action, o)
  }

  /** The request of a whole command line, as far as no other process is involved. */
  function Asked(machine: Machine, login: Login, answers: Answers, content: Option<string>, args: seq<string>)
    : Option<Request>
  {
    var view := View(args);
    match view.invocation
    case Done(_) => None
    case Run(action, o) => RequestOf(machine, login, answers, view.credential, content, action, o)
  }

  /** The calls made since `before` are what it takes to serve this request. */
  predicate Made(machine: Machine, before: seq<Call>, after: seq<Call>, request: Option<Request>) {
    before <= after && if request.Some? then Fulfils(machine, after[|before|..], request.value) else after == before
  }

  /** The exit code tells how the last call ended.  Without a call an installation fails, status fails
      if it cannot be found out, and any other action succeeds exactly if there is no such service. */
  predicate Reported(machine: Machine, action: string, name: string, code: int, before: seq<Call>, after: seq<Call>) {
    && before <= after
    && (code == 0 <==>
          if after != before then after[|after| - 1].ok
          else if action == "install" then false
          else if action == "status" then machine.query(name).Some?
          else machine.Absent(name))
  }

  /* ---------- files ---------- */

  type Files = map<string, string>

  function At(files: Files, path: string): Option<string> {
    if path in files then Some(files[path]) else None
  }

  /** What reading the file handed over at `path` gives. */
  function Content(machine: Machine, files: Files, path: string): Option<string> {
    if machine.canRead(path) then At(files, path) else None
  }

  /** A file this process may be unable to remove again. */
  predicate MayRemain(machine: Machine, login: Login, path: string) {
    !login.removes(path) || !machine.removesOpen
  }

  /** Every file is as before, but for new ones that could not be removed again. */
  ghost predicate Kept(machine: Machine, login: Login, before: Files, after: Files) {
    forall p :: At(after, p) == At(before, p) || (p !in before && MayRemain(machine, login, p))
  }

  /** The files the hidden flags name. */
  function Touched(args: seq<string>): set<string> {
    var view := View(args);
    (set p | p in view.reports) + if view.credential == "" then {} else {view.credential}
  }

  const CREDENTIAL_SUFFIX := ".tmp"
  const REPORT_SUFFIX := ".log"

  /** A name made by os.CreateTemp from a pattern ending in `suffix`. */
  predicate TempName(path: string, suffix: string) {
    |path| > |suffix| && path[|path| - |suffix|..] == suffix
  }

  /** Temporary names are never taken for a hidden flag, nor a report for a credential. */
  lemma TempNamesDiffer(path: string, report: string)
    requires TempName(path, CREDENTIAL_SUFFIX) && TempName(report, REPORT_SUFFIX)
    ensures path != "" && path != report
    ensures path !in [ELEVATED_OUTPUT, CREDENTIAL] && report !in [ELEVATED_OUTPUT, CREDENTIAL]
  {
    assert path[|path| - 1] == path[|path| - 4..][3] == 'p';
    assert report[|report| - 1] == report[|report| - 4..][3] == 'g';
    assert ELEVATED_OUTPUT[|ELEVATED_OUTPUT| - 1] == 't' && CREDENTIAL[|CREDENTIAL| - 1] == 'l';
  }

  /* ---------- when the handoff is faithful ---------- */

  predicate RequiresAdmin(action: string) {
    action in ["install", "uninstall", "start", "stop", "restart"]
  }

  /** The options as the parent hands them on: prepared for an installation, as parsed otherwise. */
  function HandedOn(machine: Machine, login: Login, answers: Answers, action: string, o: Options): Result<Options> {
    if action == "install" then Prepare(machine, login, o, "", None, answers) else Ok(o)
  }

  /** The handoff of these options would be faithful: no option looks like a hidden flag, the
      parent's absolute paths are absolute for the child, and the account elevated to brings no home
      directory the parent lacked. */
  ghost predicate HandsOn(machine: Machine, login: Login, child: Login, answers: Answers, action: string, o: Options) {
    && PathsStable(login, child)
    && SameHome(login, child)
    && (HandedOn(machine, login, answers, action, o).Ok? ==>
          HandsOver(action, HandedOn(machine, login, answers, action, o).value))
  }

  predicate HandsOver(action: string, o: Options) {
    Unmistakable(ChildArgs(action, o), if o.needsCredential then Some("") else None)
  }

  lemma Interpreted(args: seq<string>)
    ensures View(args).invocation.Run? ==>
              var Run(action, o) := View(args).invocation;
              (action == "install" || IsControl(action)) && Unsettled(o)
  {
    hide Flags.ParseFlags, Prune, Carried, Blank;
  }

  /** What an elevated child asks: what its parent would have asked, or nothing, if the child cannot use
      the configuration of an installation or read the password handed over. */
  function ChildRequest(machine: Machine, login: Login, child: Login, answers: Answers, action: string, o: Options,
                        readable: bool): Option<Request> {
    match HandedOn(machine, login, answers, action, o)
    case Err => None
    case Ok(handed) =>
      if action == "install" && (!child.usable(handed.configPath) || (handed.needsCredential && !readable)) then None
      else RequestOf(machine, login, answers, "", None, action, o)
  }

  lemma ChildAsksTheSame(machine: Machine, login: Login, child: Login, answers: Answers, answers': Answers,
                         credPath: string, readable: bool, action: string, o: Options)
    requires PathsStable(login, child) && SameHome(login, child) && Unsettled(o)
    ensures var handed := HandedOn(machine, login, answers, action, o);
            handed.Ok? && (credPath != "" <==> handed.value.needsCredential) ==>
              RequestOf(machine, child, answers', credPath, if readable then Some(handed.value.password) else None,
                        action, Received(handed.value))
                == ChildRequest(machine, login, child, answers, action, o, readable)
  {
    hide Prepare, Definition, Options.ServiceName;
    var handed := HandedOn(machine, login, answers, action, o);
    if handed.Ok? {
      if action == "install" {
        var content := Some(handed.value.password);
        ChildPreparesTheSame(machine, login, child, o, credPath, content, answers, answers');
        ContentNeeded(machine, child, Received(handed.value), credPath, content, answers');
      } else {
        SameServiceName(o);
      }
    }
  }

  /** Without a credential path the content does not count; with one there is no preparing without it. */
  lemma ContentNeeded(machine: Machine, login: Login, o: Options, credPath: string, content: Option<string>,
                      answers: Answers)
    ensures credPath == "" ==>
              Prepare(machine, login, o, "", content, answers) == Prepare(machine, login, o, "", None, answers)
    ensures credPath != "" ==> Prepare(machine, login, o, credPath, None, answers).Err?
  {
    hide PathsOf, TrimSpace, EqualFold, BuiltinServiceAccount, PromptVerified, LocalSystem;
  }

  /* ---------- what a run comes to ---------- */

  /** Everything a run may change. */
  datatype State = State(
    files: Files,
    answers: Answers,
    launches: nat,
    calls: seq<Call>,
    secrets: set<string>,
    handed: string)

  /** The files of a handoff can be made, and the elevation is confirmed. */
  predicate CanLaunch(machine: Machine, needsCredential: bool) {
    && (needsCredential ==> machine.creates(CREDENTIAL_SUFFIX) && machine.restricts && machine.writes)
    && machine.creates(REPORT_SUFFIX) && machine.consents
  }

  predicate Elevates(machine: Machine, action: string, name: string) {
    RequiresAdmin(action) && (action == "install" || !machine.Absent(name))
  }

  /** A process without the rights launches a child for these options. */
  predicate Launches(machine: Machine, login: Login, answers: Answers, action: string, o: Options) {
    && Elevates(machine, action, o.ServiceName())
    && var handed := HandedOn(machine, login, answers, action, o);
       handed.Ok? && CanLaunch(machine, handed.value.needsCredential)
  }

  /** One action, run by a process that is no elevated child and was handed nothing. */
  ghost predicate ActionOutcome(machine: Machine, login: Login, child: Login, s: State, s': State, code: int,
                                action: string, o: Options) {
    && s.calls <= s'.calls
    && if login.elevated then
         && s'.launches == s.launches && s'.files == s.files
         && Made(machine, s.calls, s'.calls, RequestOf(machine, login, s.answers, "", None, action, o))
         && Reported(machine, action, o.ServiceName(), code, s.calls, s'.calls)
       else
         var launches := Launches(machine, login, s.answers, action, o);
         && s'.launches == s.launches + (if launches then 1 else 0)
         && (!launches ==>
               s'.calls == s.calls && Reported(machine, action, o.ServiceName(), code, s.calls, s'.calls))
         && (HandsOn(machine, login, child, s.answers, action, o) ==>
               && Kept(machine, login, s.files, s'.files)
               && Reported(machine, action, o.ServiceName(), code, s.calls, s'.calls)
               && (launches ==>
                     Made(machine, s.calls, s'.calls,
                          ChildRequest(machine, login, child, s.answers, action, o, machine.canRead(s'.handed)))))
  }

  /** Settled options handed over for an elevation: a child is launched exactly if the files can be made and
      it is confirmed; a faithful handoff makes the calls for these options. */
  ghost predicate HandoffOutcome(machine: Machine, login: Login, child: Login, s: State, s': State, code: int,
                                 action: string, o: Options) {
    && s'.launches == s.launches + (if CanLaunch(machine, o.needsCredential) then 1 else 0)
    && s.calls <= s'.calls
    && (s'.launches == s.launches ==> s'.calls == s.calls && code != 0)
    && (HandsOver(action, o) && (o.system ==> o.userName == "") ==>
          && Kept(machine, login, s.files, s'.files)
          && (s'.launches != s.launches ==>
                && Reported(machine, action, o.ServiceName(), code, s.calls, s'.calls)
                && (o.needsCredential ==> s'.handed != "")
                && Made(machine, s.calls, s'.calls,
                        RequestOf(machine, child, s.answers, if o.needsCredential then s'.handed else "",
                                  if machine.canRead(s'.handed) then Some(o.password) else None,
                                  action, Received(o)))))
  }

  lemma ElevatesIs(machine: Machine, action: string, name: string)
    ensures Elevates(machine, action, name) <==> RequiresAdmin(action) && (action == "install" || !machine.Absent(name))
  {
  }

  lemma HandedOutcome(machine: Machine, login: Login, child: Login, s: State, m: State, s': State, code: int,
                      action: string, o: Options, p: Options)
    requires !login.elevated && Unsettled(o) && (action == "install" || IsControl(action))
    requires HandedOn(machine, login, s.answers, action, o) == Ok(p) && p.ServiceName() == o.ServiceName()
    requires m == s.(answers := m.answers) && Elevates(machine, action, p.ServiceName())
    requires HandoffOutcome(machine, login, child, m, s', code, action, p)
    ensures ActionOutcome(machine, login, child, s, s', code, action, o)
  {
    hide Prepare, HandsOver, Options.ServiceName, Received, PathsStable, SameHome, Made, RequestOf, ChildRequest, Kept;
    if HandsOn(machine, login, child, s.answers, action, o) {
      if action == "install" {
        SystemStaysAlone(machine, login, o, s.answers);
      }
      ChildAsksTheSame(machine, login, child, s.answers, m.answers, if p.needsCredential then s'.handed else "",
                       machine.canRead(s'.handed), action, o);
    }
  }

  lemma HandoffBounds(machine: Machine, login: Login, child: Login, s: State, s': State, code: int,
                      action: string, o: Options)
    requires HandoffOutcome(machine, login, child, s, s', code, action, o)
    ensures s.launches <= s'.launches <= s.launches + 1 && s.calls <= s'.calls
    ensures s'.launches == s.launches ==> s'.calls == s.calls
  {
    hide RequestOf;
  }

  lemma DirectOutcome(machine: Machine, login: Login, child: Login, s: State, s': State, code: int,
                      action: string, o: Options)
    requires action == "install" || IsControl(action)
    requires s'.launches == s.launches && s'.files == s.files
    requires Made(machine, s.calls, s'.calls, RequestOf(machine, login, s.answers, "", None, action, o))
    requires Reported(machine, action, o.ServiceName(), code, s.calls, s'.calls)
    requires login.elevated || !Elevates(machine, action, o.ServiceName())
             || HandedOn(machine, login, s.answers, action, o).Err?
    ensures ActionOutcome(machine, login, child, s, s', code, action, o)
  {
    hide Prepare, Options.ServiceName, HandsOn, Fulfils, Definition;
  }

  /* ---------- what a typed command line comes to ---------- */

  /** A command line without hidden flags: an action, flags in any order and form, and whatever follows. */
  predicate Typed(args: seq<string>, action: string, settings: seq<Setting>, rest: seq<string>) {
    && args == [action] + Written(settings) + rest
    && AllFit(SERVICE_FLAGS, settings) && NoFlag(rest)
    && ELEVATED_OUTPUT !in args && CREDENTIAL !in args
  }

  function TypedName(o: Options): string {
    if AllSpace(o.name) then "termcp-relay" else TrimSpace(o.name)
  }

  /** The options an action is run with. */
  function Given(o: Options): Options {
    if o.system then o.(userName := "") else o
  }

  /** There is something to ask of the service manager. */
  ghost predicate Due(machine: Machine, login: Login, answers: Answers, action: string, o: Options) {
    if action == "install" then Preparable(machine, login, o, answers)
    else action != "status" && !machine.Absent(TypedName(o))
  }

  /** The calls are those of the action, for the typed service. */
  ghost predicate MadeAsTyped(machine: Machine, login: Login, answers: Answers, action: string, o: Options,
                              made: seq<Call>) {
    if action == "install" then
      && |made| == 1 && made[0].operation.Register?
      && DefinitionAsTyped(machine, login, o, answers, made[0].operation.definition)
    else Fulfils(machine, made, Control(action, TypedName(o)))
  }

  /** The elevated child can do its part. */
  ghost predicate ChildCan(machine: Machine, login: Login, child: Login, action: string, o: Options, handed: string) {
    action == "install" ==>
      && (exists config :: Absolute(login, GivenConfig(o), config) && child.usable(config))
      && (AskedFor(login, o).Some? ==> machine.canRead(handed))
  }

  predicate Answered(machine: Machine, action: string, o: Options, code: int, made: seq<Call>) {
    code == 0 <==>
      if made != [] then made[|made| - 1].ok
      else if action == "install" then false
      else if action == "status" then machine.query(TypedName(o)).Some?
      else machine.query(TypedName(o)) == Some(false)
  }

  /** An elevated process makes calls exactly when something is due.  Another launches a child exactly when
      something is due, the files of the handoff can be made and the elevation is confirmed, and calls are
      made only through the child, and are if it can do its part.  Where the handoff is faithful, the calls
      are the typed ones, every file is kept, and the exit code tells how it ended. */
  ghost predicate Served(machine: Machine, login: Login, child: Login, s: State, s': State, code: int,
                         action: string, o: Options) {
    && s.calls <= s'.calls
    && var made, due := s'.calls[|s.calls|..], Due(machine, login, s.answers, action, o);
       var launched := due && CanLaunch(machine, action == "install" && AskedFor(login, o).Some?);
       && (if login.elevated then
             s'.launches == s.launches && s'.files == s.files && (made != [] <==> due)
           else
             s'.launches == s.launches + (if launched then 1 else 0) && (!launched ==> made == []))
       && (login.elevated || HandsOn(machine, login, child, s.answers, action, Given(o)) ==>
             && Kept(machine, login, s.files, s'.files)
             && (made != [] ==> MadeAsTyped(machine, login, s.answers, action, o, made))
             && Answered(machine, action, o, code, made)
             && (!login.elevated && launched && ChildCan(machine, login, child, action, o, s'.handed) ==> made != []))
  }

  ghost predicate TypedOutcome(machine: Machine, login: Login, child: Login, s: State, s': State, code: int,
                               action: string, o: Options) {
    if action == "help" || action == "-h" || action == "--help" then code == 0 && s' == s
    else if Conflicting(o) || action !in ["install", "uninstall", "start", "stop", "restart", "status"] then
      code == 2 && s' == s
    else Served(machine, login, child, s, s', code, action, o)
  }

  lemma TypedView(args: seq<string>)
    ensures ELEVATED_OUTPUT !in args && CREDENTIAL !in args ==>
              View(args) == ChildView(false, [], "", Interpret(args))
  {
    hide Prune, Carried, Interpret;
    if ELEVATED_OUTPUT !in args && CREDENTIAL !in args {
      NothingCarried(args);
      PruneNothing(ELEVATED_OUTPUT);
      PruneNothing(CREDENTIAL);
      PruneClean(args, ELEVATED_OUTPUT, []);
      PruneClean(args, CREDENTIAL, []);
      assert args + [] == args;
    }
  }

  lemma TypedNameIs(o: Options)
    ensures o.ServiceName() == TypedName(o) == Given(o).ServiceName()
  {
    hide TrimSpace;
    BlankIs(o.name);
  }

  lemma GivenKind(o: Options)
    requires !Conflicting(o)
    ensures KindOf(Given(o)) == KindOf(o) && (o.system ==> KindOf(o).SystemAccount?)
  {
    hide TrimSpace, Among, SameButCase;
  }

  lemma GivenSame(machine: Machine, login: Login, o: Options, answers: Answers)
    requires !Conflicting(o)
    ensures AskedFor(login, Given(o)) == AskedFor(login, o)
    ensures Preparable(machine, login, Given(o), answers) <==> Preparable(machine, login, o, answers)
    ensures forall d :: DefinitionAsTyped(machine, login, Given(o), answers, d)
                   <==> DefinitionAsTyped(machine, login, o, answers, d)
  {
    hide KindOf, AllSpace, TrimSpace, MainDispatch, RightAnswer;
    GivenKind(o);
    var g := Given(o);
    assert AccountSettles(login, g, answers) <==> AccountSettles(login, o, answers);
    forall d: ServiceConfig
      ensures AccountAsTyped(login, g, answers, d.userName, PasswordOf(d))
         <==> AccountAsTyped(login, o, answers, d.userName, PasswordOf(d))
    {
    }
    forall config, log, dir
      ensures PathsAsTyped(machine, login, g, config, log, dir) <==> PathsAsTyped(machine, login, o, config, log, dir)
    {
    }
  }

  /** What is asked is what was typed, exactly when something is due. */
  lemma RequestAsTyped(machine: Machine, login: Login, answers: Answers, action: string, o: Options)
    requires !Conflicting(o) && Unsettled(Given(o)) && (action == "install" || IsControl(action))
    ensures var request := RequestOf(machine, login, answers, "", None, action, Given(o));
            && (request.Some? <==> Due(machine, login, answers, action, o))
            && forall made :: request.Some? && Fulfils(machine, made, request.value) ==>
                 made != [] && MadeAsTyped(machine, login, answers, action, o, made)
  {
    hide Prepare, Preparable, DefinitionAsTyped, Definition, Options.ServiceName, AllSpace, TrimSpace;
    TypedNameIs(o);
    GivenSame(machine, login, o, answers);
    PreparedAsTyped(machine, login, Given(o), answers);
  }

  lemma LaunchesAsTyped(machine: Machine, login: Login, answers: Answers, action: string, o: Options)
    requires !Conflicting(o) && Unsettled(Given(o)) && (action == "install" || IsControl(action))
    ensures Launches(machine, login, answers, action, Given(o))
       <==> Due(machine, login, answers, action, o)
            && CanLaunch(machine, action == "install" && AskedFor(login, o).Some?)
  {
    hide Prepare, Preparable, DefinitionAsTyped, Definition, Options.ServiceName, AllSpace, TrimSpace, CanLaunch,
         AskedFor;
    TypedNameIs(o);
    GivenSame(machine, login, o, answers);
    PreparedAsTyped(machine, login, Given(o), answers);
  }

  lemma ChildAsTyped(machine: Machine, login: Login, child: Login, answers: Answers, action: string, o: Options,
                     handed: string)
    requires !Conflicting(o) && Unsettled(Given(o)) && (action == "install" || IsControl(action))
    requires HandedOn(machine, login, answers, action, Given(o)).Ok?
    ensures var whole := RequestOf(machine, login, answers, "", None, action, Given(o));
            var request := ChildRequest(machine, login, child, answers, action, Given(o), machine.canRead(handed));
            && (request == None || request == whole)
            && (ChildCan(machine, login, child, action, o, handed) ==> request == whole)
  {
    hide Resolve, Preparable, DefinitionAsTyped, Definition, Options.ServiceName, AllSpace, TrimSpace, AskedFor,
         RequestOf;
    if action == "install" {
      GivenSame(machine, login, o, answers);
      PreparedAsTyped(machine, login, Given(o), answers);
      PreparedKeeps(machine, login, Given(o), "", None, answers);
      BlankIs(o.configPath);
      PreparedConfig(machine, login, Given(o), answers);
    }
  }

  lemma PreparedConfig(machine: Machine, login: Login, o: Options, answers: Answers)
    ensures var prepared := Prepare(machine, login, o, "", None, answers);
            prepared.Ok? ==> Absolute(login, GivenConfig(o), prepared.value.configPath)
  {
    hide Resolve, AllSpace, Blank;
    BlankIs(o.configPath);
    var paths := PathsOf(machine, login, o);
    if paths.Ok? {
      ResolveKeeps(login, paths.value, answers);
    }
  }

  lemma PreparedKeeps(machine: Machine, login: Login, o: Options, credPath: string, content: Option<string>,
                      answers: Answers)
    ensures var prepared := Prepare(machine, login, o, credPath, content, answers);
            prepared.Ok? ==> prepared.value.name == o.name && prepared.value.system == o.system
                             && prepared.value.ServiceName() == o.ServiceName()
  {
    hide PathsOf, BuiltinServiceAccount, LocalSystem, EqualFold, TrimSpace, PromptVerified;
    PathsKeep(machine, login, o);
  }

  /** From what the action comes to, to what was typed. */
  lemma ServedAsTyped(machine: Machine, login: Login, child: Login, s: State, s': State, code: int,
                      action: string, o: Options)
    requires !Conflicting(o) && Unsettled(Given(o)) && (action == "install" || IsControl(action))
    requires ActionOutcome(machine, login, child, s, s', code, action, Given(o))
    ensures Served(machine, login, child, s, s', code, action, o)
  {
    hide RequestOf, Launches, CanLaunch, Due, HandsOn, MadeAsTyped, Fulfils, ChildRequest, ChildCan, AskedFor,
         Options.ServiceName, HandedOn, AllSpace, TrimSpace;
    RequestAsTyped(machine, login, s.answers, action, o);
    LaunchesAsTyped(machine, login, s.answers, action, o);
    TypedNameIs(o);
    var made := s'.calls[|s.calls|..];
    assert s'.calls == s.calls + made;
    assert made != [] ==> made[|made| - 1] == s'.calls[|s'.calls| - 1];
    if !login.elevated && Launches(machine, login, s.answers, action, Given(o)) {
      LaunchedHands(machine, login, s.answers, action, Given(o));
      ChildAsTyped(machine, login, child, s.answers, action, o, s'.handed);
    }
  }

  lemma LaunchedHands(machine: Machine, login: Login, answers: Answers, action: string, o: Options)
    requires Launches(machine, login, answers, action, o)
    ensures HandedOn(machine, login, answers, action, o).Ok?
  {
  }

  /** A command line that hands nothing over: it ends at once, with nothing changed, or comes to what
      its action does. */
  ghost predicate Unhanded(machine: Machine, login: Login, child: Login, s: State, s': State, code: int,
                           args: seq<string>) {
    ELEVATED_OUTPUT !in args && View(args).credential == "" ==>
      match View(args).invocation
      case Done(c) => code == c && s' == s
      case Run(action, o) => ActionOutcome(machine, login, child, s, s', code, action, o)
  }

  /** Typed without hidden flags, an empty line is refused, and any other comes to what it says. */
  ghost predicate AsTyped(machine: Machine, login: Login, child: Login, s: State, s': State, code: int,
                          args: seq<string>) {
    && (args == [] ==> code == 2 && s' == s)
    && forall action, settings, rest :: Typed(args, action, settings, rest) ==>
         TypedOutcome(machine, login, child, s, s', code, action, Chosen(settings))
  }

  lemma TypedRuns(machine: Machine, login: Login, child: Login, s: State, s': State, code: int, args: seq<string>,
                  action: string, settings: seq<Setting>, rest: seq<string>)
    requires Typed(args, action, settings, rest) && Unhanded(machine, login, child, s, s', code, args)
    ensures TypedOutcome(machine, login, child, s, s', code, action, Chosen(settings))
  {
    hide Interpret, View, ActionOutcome, Served, Chosen, AllSpace, Conflicting, Written, AllFit;
    var o := Chosen(settings);
    TypedView(args);
    InterpretTyped(action, settings, rest);
    Interpreted(args);
    if View(args).invocation.Run? {
      ServedAsTyped(machine, login, child, s, s', code, action, o);
    }
  }

  lemma CommandAsTyped(machine: Machine, login: Login, child: Login, s: State, s': State, code: int, args: seq<string>)
    requires Unhanded(machine, login, child, s, s', code, args)
    ensures AsTyped(machine, login, child, s, s', code, args)
  {
    hide Unhanded, TypedOutcome, Chosen, Written, AllFit;
    if args == [] {
      NothingTyped(machine, login, child, s, s', code);
    }
    forall action, settings, rest | Typed(args, action, settings, rest)
      ensures TypedOutcome(machine, login, child, s, s', code, action, Chosen(settings))
    {
      TypedRuns(machine, login, child, s, s', code, args, action, settings, rest);
    }
  }

  lemma NothingTyped(machine: Machine, login: Login, child: Login, s: State, s': State, code: int)
    requires Unhanded(machine, login, child, s, s', code, [])
    ensures code == 2 && s' == s
  {
    TypedView([]);
    hide View, ActionOutcome;
  }

  /** A name that is not taken, starting with `front`. */
  function FreshName(front: string, suffix: string, taken: set<string>): (name: string)
    requires front != ""
    ensures name !in taken && TempName(name, suffix) && |name| >= |front| + |suffix|
    decreases |taken|
  {
    var name := front + suffix;
    assert name[|name| - |suffix|..] == suffix;
    if name in taken then FreshName(front + "x", suffix, taken - {name}) else name
  }

  /** What the child asks with the files as they are. */
  function ChildMakes(machine: Machine, child: Login, answers: Answers, files: Files, credential: Option<string>,
                      action: string, o: Options): Option<Request> {
    var path := credential.GetOr("");
    RequestOf(machine, child, answers, path, Content(machine, files, path), action, Received(o))
  }

  lemma RequestIgnores(machine: Machine, login: Login, answers: Answers, content: Option<string>, action: string,
                       o: Options)
    ensures RequestOf(machine, login, answers, "", content, action, o)
         == RequestOf(machine, login, answers, "", None, action, o)
  {
    hide Prepare, Definition, Options.ServiceName;
    ContentNeeded(machine, login, o, "", content, answers);
  }

  lemma ReportIsNoCredential(machine: Machine, child: Login, answers: Answers, before: Files, after: Files,
                             credential: Option<string>, action: string, o: Options)
    requires credential.Some? ==> At(after, credential.value) == At(before, credential.value)
    ensures ChildMakes(machine, child, answers, after, credential, action, o)
         == ChildMakes(machine, child, answers, before, credential, action, o)
  {
    hide RequestOf, Received;
    RequestIgnores(machine, child, answers, Content(machine, before, ""), action, Received(o));
    RequestIgnores(machine, child, answers, Content(machine, after, ""), action, Received(o));
  }

  lemma NewFileKept(machine: Machine, login: Login, before: Files, after: Files, path: string)
    requires || after == before
             || (&& path !in before && (path in after ==> MayRemain(machine, login, path))
                 && forall q :: q != path ==> At(after, q) == At(before, q))
    ensures Kept(machine, login, before, after)
  {
    hide MayRemain;
  }

  lemma HandoffKept(machine: Machine, login: Login, before: Files, written: Files, left: Files, after: Files,
                    credential: Option<string>)
    requires forall p :: credential != Some(p) ==>
               At(left, p) == At(written, p) || (p !in written && MayRemain(machine, login, p))
    requires match credential
             case None => written == before && after == left
             case Some(p) =>
               && p !in before && written.Keys == before.Keys + {p}
               && (forall q :: q in before ==> written[q] == before[q])
               && after == if login.removes(p) then left - {p} else left
    ensures Kept(machine, login, before, after)
  {
    forall p
      ensures At(after, p) == At(before, p) || (p !in before && MayRemain(machine, login, p))
    {
      if credential != Some(p) {
        assert At(left, p) == At(written, p) || (p !in written && MayRemain(machine, login, p));
      }
    }
  }

  lemma ChildMakesOf(machine: Machine, child: Login, answers: Answers, files: Files, credential: Option<string>,
                     handed: string, password: string, action: string, o: Options)
    requires credential.Some? ==> credential == Some(handed) && At(files, handed) == Some(password)
    ensures ChildMakes(machine, child, answers, files, credential, action, o)
         == RequestOf(machine, child, answers, if credential.Some? then handed else "",
                      if machine.canRead(handed) then Some(password) else None, action, Received(o))
  {
    hide RequestOf, Received;
    RequestIgnores(machine, child, answers, Content(machine, files, ""), action, Received(o));
    var content := if machine.canRead(handed) then Some(password) else None;
    RequestIgnores(machine, child, answers, content, action, Received(o));
  }

  /** The options a resolver writes through. */
  class OptionsRef {
    var value: Options

    constructor (o: Options)
      ensures value == o
    {
      value := o;
    }
  }

  /* ---------- the host ---------- */

  class Host {
    const machine: Machine
    const childLogin: Login // the account UAC elevates to, and where it starts the child
    const tempDir: string

    var files: Files
    var answers: Answers
    var launches: nat
    var calls: seq<Call> // to the service manager
    ghost var secrets: set<string> // every path a password was to be handed over at
    ghost var handed: string // the last of them

    constructor (machine: Machine, childLogin: Login, tempDir: string, files: Files, answers: Answers)
      ensures this.machine == machine && this.childLogin == childLogin && this.tempDir == tempDir
      ensures this.files == files && this.answers == answers && launches == 0 && calls == []
      ensures secrets == {} && handed == ""
    {
      this.machine, this.childLogin, this.tempDir := machine, childLogin, tempDir;
      this.files, this.answers, this.launches, this.calls := files, answers, 0, [];
      secrets, handed := {}, "";
    }

    ghost function Now(): State
      reads this
    {
      State(files, answers, launches, calls, secrets, handed)
    }

    /** os.CreateTemp: a new empty file under a name not taken, or a failure. */
    method CreateTemp(prefix: string, suffix: string) returns (path: Option<string>)
      modifies this`files
      ensures path.Some? <==> machine.creates(suffix)
      ensures path.None? ==> files == old(files)
      ensures path.Some? ==> TempName(path.value, suffix) && path.value !in old(files)
      ensures path.Some? ==> files == old(files)[path.value := ""]
    {
      if !machine.creates(suffix) {
        return None;
      }
      var random: string := *;
      var front := tempDir + "\\" + prefix + random;
      var name := FreshName(front, suffix, files.Keys);
      files := files[name := ""];
      return Some(name);
    }

    /** os.Remove by a process of this account. */
    method Remove(login: Login, path: string)
      modifies this`files
      ensures files == if login.removes(path) then old(files) - {path} else old(files)
    {
      if login.removes(path) {
        files := files - {path};
      }
    }

    /** The same while the file is still open. */
    method RemoveOpen(login: Login, path: string)
      modifies this`files
      ensures files == if MayRemain(machine, login, path) then old(files) else old(files) - {path}
    {
      if machine.removesOpen {
        Remove(login, path);
      }
    }

    /** A new file that holds the password; or a failure, which leaves a file, empty or partly
        written, only where that could not be removed again. */
    method WriteCredentialFile(login: Login, password: string) returns (path: Option<string>)
      modifies this`files, this`secrets, this`handed
      ensures path.Some? <==> machine.creates(CREDENTIAL_SUFFIX) && machine.restricts && machine.writes
      ensures old(secrets) <= secrets
      ensures path.None? ==> Kept(machine, login, old(files), files)
      ensures path.None? ==> forall p :: p in secrets - old(secrets) && p in files ==> MayRemain(machine, login, p)
      ensures path.Some? ==> secrets == old(secrets) + {path.value} && handed == path.value
      ensures path.Some? ==> TempName(path.value, CREDENTIAL_SUFFIX) && path.value !in old(files)
      ensures path.Some? ==> files == old(files)[path.value := password]
    {
      hide TempName, Kept, MayRemain;
      path := CreateTemp("termcp-relay-cred-", CREDENTIAL_SUFFIX);
      if path.None? {
        NewFileKept(machine, login, old(files), files, "");
        return;
      }
      secrets := secrets + {path.value};
      if !machine.restricts || !machine.writes {
        if machine.restricts {
          var part: string := *;
          files := files[path.value := part];
        }
        RemoveOpen(login, path.value);
        NewFileKept(machine, login, old(files), files, path.value);
        return None;
      }
      files := files[path.value := password];
      handed := path.value;
    }

    /** One shot: the file is removed, whether or not it could be read. */
    method ReadCredentialFile(login: Login, path: string) returns (password: Option<string>)
      modifies this`files
      ensures password == Content(machine, old(files), path)
      ensures files == if login.removes(path) then old(files) - {path} else old(files)
    {
      password := if machine.canRead(path) then At(files, path) else None;
      Remove(login, path);
    }

    /** Strips the hidden output flag; each file it names is truncated if it can be opened. */
    method RedirectElevatedOutput(args: seq<string>) returns (pruned: seq<string>)
      modifies this`files
      ensures pruned == Prune(args, ELEVATED_OUTPUT)
      ensures forall p :: At(files, p) ==
                if p in Carried(args, ELEVATED_OUTPUT) && machine.opens(p) then Some("") else At(old(files), p)
    {
      hide Prune, Carried;
      pruned := [];
      ghost var carried: seq<string> := [];
      assert args[0..] == args;
      PruneNothing(ELEVATED_OUTPUT);
      var i := 0;
      while i < |args|
        invariant 0 <= i <= |args|
        invariant Prune(args, ELEVATED_OUTPUT) == pruned + Prune(args[i..], ELEVATED_OUTPUT)
        invariant Carried(args, ELEVATED_OUTPUT) == carried + Carried(args[i..], ELEVATED_OUTPUT)
        invariant forall p :: At(files, p) == if p in carried && machine.opens(p) then Some("") else At(old(files), p)
      {
        if args[i] == ELEVATED_OUTPUT && i + 1 < |args| {
          assert args[i..] == [args[i], args[i + 1]] + args[i + 2..];
          PruneFlag(ELEVATED_OUTPUT, args[i + 1], args[i + 2..]);
          if machine.opens(args[i + 1]) {
            files := files[args[i + 1] := ""];
          }
          carried := carried + [args[i + 1]];
          i := i + 2;
          continue;
        }
        assert args[i..] == [args[i]] + args[i + 1..];
        PruneFront(args[i], args[i + 1..], ELEVATED_OUTPUT);
        pruned := pruned + [args[i]];
        i := i + 1;
      }
      assert args[|args|..] == [];
    }

    /** Up to three prompts; a wrong password is reported and asked for again. */
    method PromptVerifiedPassword(login: Login, user: string) returns (password: Option<string>)
      modifies this`answers
      ensures (password, answers) == PromptVerified(login, user, old(answers), ATTEMPTS)
    {
      for i := 0 to ATTEMPTS
        invariant PromptVerified(login, user, old(answers), ATTEMPTS)
               == PromptVerified(login, user, answers, ATTEMPTS - i)
      {
        if answers == [] {
          return None;
        }
        var answer := answers[0];
        answers := answers[1..];
        if answer.None? {
          return None;
        }
        if login.logon(user, answer.value) {
          return answer;
        }
      }
      return None;
    }

    method ResolveAccount(login: Login, opts: OptionsRef, credPath: string) returns (ok: bool)
      modifies opts, this`files, this`answers
      ensures var content := Content(machine, old(files), credPath);
              var settled := Resolve(login, old(opts.value), credPath, content, old(answers));
              if ok then settled == Ok(opts.value) else settled == Err
      ensures files == if credPath != "" && login.removes(credPath) then old(files) - {credPath} else old(files)
    {
      hide TrimSpace, EqualFold, BuiltinServiceAccount, PromptVerified, LocalSystem;
      if credPath != "" {
        var pw := ReadCredentialFile(login, credPath);
        if pw.None? {
          return false;
        }
        opts.value := opts.value.(password := pw.value, needsCredential := false);
        return true;
      }
      var user := TrimSpace(opts.value.userName);
      if user == "" || opts.value.system || BuiltinServiceAccount(user) {
        if BuiltinServiceAccount(user) && !LocalSystem(user) {
          opts.value := opts.value.(password := "");
          return true;
        }
        opts.value := opts.value.(userName := "", password := "");
        return true;
      }
      if EqualFold(user, "current") {
        if login.token.None? {
          return false;
        }
        user := login.token.value;
        opts.value := opts.value.(userName := user);
      }
      var pw := PromptVerifiedPassword(login, user);
      if pw.None? {
        return false;
      }
      opts.value := opts.value.(password := pw.value, needsCredential := true);
      return true;
    }

    /** The first half of `prepareInstall`. */
    method SettlePaths(login: Login, o: Options) returns (r: Result<Options>)
      ensures r == PathsOf(machine, login, o)
    {
      hide Blank;
      var config := login.abs(if Blank(o.configPath) then DEFAULT_CONFIG else o.configPath);
      if config.None? || !login.usable(config.value) {
        return Err;
      }
      var p := o.(configPath := config.value);
      if p.logFile == "" {
        p := p.(logFile := machine.defaultLog(config.value));
      }
      if p.logFile != "" {
        var log := login.abs(p.logFile);
        if log.None? {
          return Err;
        }
        p := p.(logFile := log.value);
      }
      if Blank(p.workDir) && login.home.Some? && !Blank(login.home.value) {
        p := p.(workDir := login.home.value);
      }
      if !Blank(p.workDir) {
        var dir := login.abs(p.workDir);
        if dir.None? {
          return Err;
        }
        p := p.(workDir := dir.value);
      }
      return Ok(p);
    }

    method PrepareInstall(login: Login, o: Options, credPath: string) returns (r: Result<Options>)
      modifies this`files, this`answers
      ensures r == Prepare(machine, login, o, credPath, Content(machine, old(files), credPath), old(answers))
      ensures files == if PathsOf(machine, login, o).Ok? && credPath != "" && login.removes(credPath)
                       then old(files) - {credPath} else old(files)
    {
      hide Resolve, PathsOf;
      var p := SettlePaths(login, o);
      if p.Err? {
        return Err;
      }
      var opts := new OptionsRef(p.value);
      var ok := ResolveAccount(login, opts, credPath);
      return if ok then Ok(opts.value) else Err;
    }

    /** A call to the service manager, which may refuse. */
    method Ask(operation: Operation) returns (ok: bool)
      modifies this`calls
      ensures calls == old(calls) + [Call(operation, ok)]
    {
      ok := *;
      calls := calls + [Call(operation, ok)];
    }

    method InstallService(o: Options) returns (code: int)
      modifies this`calls
      ensures Made(machine, old(calls), calls, Some(Install(Definition(machine.dir, o)))) && calls != old(calls)
      ensures code == 0 <==> calls[|calls| - 1].ok
    {
      hide Definition;
      var definition := KserviceConfig(machine.dir, o);
      var ok := Ask(Register(definition));
      return if ok then 0 else 1;
    }

    /** Status only reads; an absent service is reported without a call. */
    method ControlService(action: string, o: Options) returns (code: int)
      requires IsControl(action)
      modifies this`calls
      ensures Made(machine, old(calls), calls, ControlRequest(machine, action, o))
      ensures Reported(machine, action, o.ServiceName(), code, old(calls), calls)
    {
      hide Options.ServiceName;
      var name := o.ServiceName();
      if action == "status" {
        return if machine.query(name).None? then 1 else 0;
      }
      if machine.Absent(name) {
        return 0;
      }
      var ok: bool;
      match action {
        case "uninstall" =>
          if machine.running(name) {
            var stopped := Ask(Stop(name));
            if !stopped {
              return 1;
            }
          }
          ok := Ask(Unregister(name));
        case "start" =>
          ok := Ask(Start(name));
          if !ok && machine.grants(name) {
            ok := Ask(Start(name));
          }
        case "stop" =>
          ok := Ask(Stop(name));
        case _ =>
          ok := Ask(Restart(name));
      }
      return if ok then 0 else 1;
    }

    /** The consent prompt, and the elevated child behind it until it ends. */
    method ShellExecute(child: seq<string>, ghost action: string, ghost o: Options, ghost credential: Option<string>,
                        ghost report: string)
      returns (code: int)
      requires child == ChildCommand(action, o, credential, report) && TempName(report, REPORT_SUFFIX)
      requires credential.Some? ==> TempName(credential.value, CREDENTIAL_SUFFIX)
      modifies this
      ensures launches == old(launches) + (if machine.consents then 1 else 0)
      ensures !machine.consents ==> calls == old(calls) && code != 0
      ensures secrets == old(secrets) && handed == old(handed) && old(calls) <= calls
      ensures Transparent(action, o, credential) ==>
                forall p :: p != report && credential != Some(p) ==> At(files, p) == At(old(files), p)
      ensures Transparent(action, o, credential) && machine.consents ==>
                && Made(machine, old(calls), calls,
                        ChildMakes(machine, childLogin, old(answers), old(files), credential, action, o))
                && Reported(machine, action, o.ServiceName(), code, old(calls), calls)
      decreases 1, 0
    {
      hide View, MainDispatch, RequestOf, CommandLineOf, SplitCommandLine, Transparent, Printed, Received, Touched,
           Fulfils, Reported, Options.ServiceName, TypedOutcome, ActionOutcome, Typed;
      if !machine.consents {
        return 1;
      }
      launches := launches + 1;
      var line := JoinArgs(child);
      var received := SplitCommandLine(line);
      SplitUndoesJoin(child);
      DispatchService(child);
      var rest := received[1..];
      assert rest[|rest| - 2] == ELEVATED_OUTPUT;
      ChildSees(action, o, credential, report);
      SameServiceName(o);
      code := Command(rest, childLogin);
    }

    /** Starts this program again with more rights and waits for it.  The argument list is that of
        `childArgs`, with the credential pair if there is one. */
    method RelaunchElevated(args: seq<string>, login: Login, ghost action: string, ghost o: Options,
                            ghost credential: Option<string>)
      returns (code: int)
      requires args == ChildArgs(action, o) + (if credential.Some? then [CREDENTIAL, credential.value] else [])
      requires credential.Some? ==> TempName(credential.value, CREDENTIAL_SUFFIX) && credential.value in files
      modifies this
      ensures launches == old(launches) + (if machine.creates(REPORT_SUFFIX) && machine.consents then 1 else 0)
      ensures launches == old(launches) ==> calls == old(calls) && code != 0
      ensures secrets == old(secrets) && handed == old(handed) && old(calls) <= calls
      ensures Transparent(action, o, credential) ==>
                forall p :: credential != Some(p) ==>
                  At(files, p) == At(old(files), p) || (p !in old(files) && MayRemain(machine, login, p))
      ensures Transparent(action, o, credential) && launches != old(launches) ==>
                && Made(machine, old(calls), calls,
                        ChildMakes(machine, childLogin, old(answers), old(files), credential, action, o))
                && Reported(machine, action, o.ServiceName(), code, old(calls), calls)
      decreases 1, 1
    {
      hide RequestOf, Transparent, Printed, Received, Fulfils, TempName, ChildArgs, Reported, Options.ServiceName;
      var report := CreateTemp("termcp-relay-elevated-", REPORT_SUFFIX);
      if report.None? {
        return 1;
      }
      ReportIsNoCredential(machine, childLogin, answers, old(files), files, credential, action, o);
      var child := args + [ELEVATED_OUTPUT, report.value];
      code := ShellExecute(child, action, o, credential, report.value);
      ghost var left := files;
      Remove(login, report.value);
      if Transparent(action, o, credential) {
        forall p | credential != Some(p)
          ensures At(files, p) == At(old(files), p) || (p !in old(files) && MayRemain(machine, login, p))
        {
          assert p != report.value ==> At(files, p) == At(left, p) == At(old(files), p);
        }
      }
    }

    /** Starts the command again with more rights where it needs them, and reports whether that
        settled it. */
    method MaybeElevate(action: string, o: Options, isElevatedChild: bool, login: Login)
      returns (code: int, done: bool)
      requires action == "install" || IsControl(action)
      modifies this
      ensures done <==> !isElevatedChild && !login.elevated && Elevates(machine, action, o.ServiceName())
      ensures !done ==> Now() == old(Now())
      ensures done ==> HandoffOutcome(machine, login, childLogin, old(Now()), Now(), code, action, o)
      ensures old(secrets) <= secrets
      ensures forall p :: p in secrets - old(secrets) && p in files ==> MayRemain(machine, login, p)
      decreases if isElevatedChild then 0 else 1, 2
    {
      hide Unmistakable, ChildArgs, RequestOf, Received, Fulfils, Reported, Options.ServiceName, ChildMakes, Kept,
           HandsOver, Transparent, Made, Elevates;
      ElevatesIs(machine, action, o.ServiceName());
      if isElevatedChild || !RequiresAdmin(action) || login.elevated {
        return 0, false;
      }
      if action != "install" {
        if machine.Absent(o.ServiceName()) {
          return 0, false;
        }
      }
      var child := BuildChildArgs(action, o);
      var credential: Option<string> := None;
      if o.needsCredential {
        credential := WriteCredentialFile(login, o.password);
        if credential.None? {
          return 1, true;
        }
        child := child + [CREDENTIAL, credential.value];
      }
      assert child == ChildArgs(action, o) + if credential.Some? then [CREDENTIAL, credential.value] else [];
      TransparentHandoff(action, o, credential);
      ghost var written := files;
      code := RelaunchElevated(child, login, action, o, credential);
      ghost var left := files;
      if credential.Some? {
        Remove(login, credential.value);
      }
      done := true;
      if HandsOver(action, o) && (o.system ==> o.userName == "") {
        ChildMakesOf(machine, childLogin, old(answers), written, credential, handed, o.password, action, o);
        HandoffKept(machine, login, old(files), written, left, files, credential);
      }
    }

    /** One action with its parsed options.  A process that is elevated, or an elevated child, touches no
        file but the credential file, and makes exactly the calls that serve its request.  A process that
        was handed nothing does, or has its child do, what the action comes to. */
    method RunAction(action: string, o: Options, credPath: string, isElevatedChild: bool, login: Login)
      returns (code: int)
      requires (action == "install" || IsControl(action)) && Unsettled(o)
      modifies this
      ensures launches <= old(launches) + 1
      ensures old(secrets) <= secrets && old(calls) <= calls
      ensures forall p :: p in secrets - old(secrets) && p in files ==> MayRemain(machine, login, p)
      ensures isElevatedChild || login.elevated ==>
                && launches == old(launches) && secrets == old(secrets) && handed == old(handed)
                && (files == old(files) || (credPath != "" && files == old(files) - {credPath}))
                && Made(machine, old(calls), calls,
                        RequestOf(machine, login, old(answers), credPath, Content(machine, old(files), credPath),
                                  action, o))
                && Reported(machine, action, o.ServiceName(), code, old(calls), calls)
      ensures !isElevatedChild && !login.elevated && launches == old(launches) ==> calls == old(calls)
      ensures credPath == "" && !isElevatedChild ==>
                ActionOutcome(machine, login, childLogin, old(Now()), Now(), code, action, o)
      decreases if isElevatedChild then 0 else 1, 3
    {
      hide Prepare, Definition, Options.ServiceName, Fulfils, PathsOf, ActionOutcome, HandoffOutcome, Unsettled;
      ghost var asked := answers;
      ContentNeeded(machine, login, o, credPath, Content(machine, files, credPath), asked);
      var p := o;
      if action == "install" {
        var r := PrepareInstall(login, o, credPath);
        if r.Err? {
          if credPath == "" {
            DirectOutcome(machine, login, childLogin, old(Now()), Now(), 1, action, o);
          }
          return 1;
        }
        p := r.value;
        PreparedKeeps(machine, login, o, credPath, Content(machine, old(files), credPath), asked);
      }
      ghost var between := Now();
      var done;
      code, done := MaybeElevate(action, p, isElevatedChild, login);
      if done {
        HandoffBounds(machine, login, childLogin, between, Now(), code, action, p);
        if credPath == "" {
          HandedOutcome(machine, login, childLogin, old(Now()), between, Now(), code, action, o, p);
        }
        return;
      }
      if action == "install" {
        code := InstallService(p);
      } else {
        code := ControlService(action, p);
      }
      if credPath == "" && !isElevatedChild {
        DirectOutcome(machine, login, childLogin, old(Now()), Now(), code, action, o);
      }
    }

    /** The `service` command.  It launches at most one elevated child, and as such a child none;
        a file a password was handed over in remains only where the system refuses to remove it,
        whatever the arguments.
        A line that asks for help or is refused changes nothing and ends with the code for that.  A process
        that does not elevate touches only the files its hidden flags name, and makes exactly the calls to
        the service manager that serve what its command line asks.  A process without the rights asks only
        through a child.  Typed in any order and form, without hidden flags, a command line comes to what
        its options say. */
    method Command(args: seq<string>, login: Login) returns (code: int)
      modifies this
      ensures launches <= old(launches) + 1
      ensures old(secrets) <= secrets && old(calls) <= calls
      ensures forall p :: p in secrets - old(secrets) && p in files ==> MayRemain(machine, login, p)
      ensures ELEVATED_OUTPUT in args || login.elevated ==>
                && launches == old(launches) && secrets == old(secrets) && handed == old(handed)
                && (forall p :: p !in Touched(args) ==> At(files, p) == At(old(files), p))
                && (View(args).credential !in View(args).reports ==>
                      Made(machine, old(calls), calls,
                           Asked(machine, login, old(answers), Content(machine, old(files), View(args).credential),
                                 args)))
                && (View(args).invocation.Run? ==>
                      Reported(machine, View(args).invocation.action, View(args).invocation.opts.ServiceName(), code,
                               old(calls), calls))
      ensures ELEVATED_OUTPUT !in args && !login.elevated && launches == old(launches) ==> calls == old(calls)
      ensures View(args).invocation.Done? ==> code == View(args).invocation.code && calls == old(calls)
      ensures Unhanded(machine, login, childLogin, old(Now()), Now(), code, args)
      ensures AsTyped(machine, login, childLogin, old(Now()), Now(), code, args)
      decreases if ELEVATED_OUTPUT in args then 0 else 1, 4
    {
      hide Prune, Carried, Interpret, RequestOf, Fulfils, ActionOutcome, AsTyped, Reported, Options.ServiceName;
      var isElevatedChild := HasFlag(args, ELEVATED_OUTPUT);
      var once := RedirectElevatedOutput(args);
      var twice, credPath := TakeCredentialArg(once);
      if !isElevatedChild {
        NothingCarried(args);
        FilesEqual(old(files), files);
      }
      match Interpret(twice) {
        case Done(c) =>
          code := c;
        case Run(action, o) =>
          Interpreted(args);
          code := RunAction(action, o, credPath, isElevatedChild, login);
      }
      CommandAsTyped(machine, login, childLogin, old(Now()), Now(), code, args);
    }
  }

  /** The handoff as the child must find it. */
  predicate Transparent(action: string, o: Options, credential: Option<string>) {
    && (action == "install" || IsControl(action))
    && (o.system ==> o.userName == "")
    && Unmistakable(ChildArgs(action, o), credential)
  }

  lemma TransparentHandoff(action: string, o: Options, credential: Option<string>)
    requires (action == "install" || IsControl(action)) && (credential.Some? <==> o.needsCredential)
    ensures HandsOver(action, o) && (o.system ==> o.userName == "") ==> Transparent(action, o, credential)
  {
    hide ChildArgs;
  }

  lemma ChildSees(action: string, o: Options, credential: Option<string>, report: string)
    requires TempName(report, REPORT_SUFFIX)
    requires credential.Some? ==> TempName(credential.value, CREDENTIAL_SUFFIX)
    ensures report != "" && credential != Some(report)
    ensures Transparent(action, o, credential) ==>
              forall p :: p in Touched(ChildCommand(action, o, credential, report)[1..]) ==>
                            p == report || credential == Some(p)
    ensures Transparent(action, o, credential) ==>
              View(ChildCommand(action, o, credential, report)[1..]) ==
              ChildView(true, [report], credential.GetOr(""), Run(action, Received(o)))
  {
    hide View, Received, Printed, Unmistakable;
    if credential.Some? {
      TempNamesDiffer(credential.value, report);
    } else {
      TempNamesDiffer("a.tmp", report);
    }
    if Transparent(action, o, credential) {
      ViewOfChild(action, o, credential, report);
    }
  }

  lemma FilesEqual(a: Files, b: Files)
    requires forall p :: At(a, p) == At(b, p)
    ensures a == b
  {
    forall p
      ensures p in a <==> p in b
      ensures p in a ==> a[p] == b[p]
    {
      assert At(a, p) == At(b, p);
    }
  }

  lemma {:induction false} NothingCarried(args: seq<string>)
    requires ELEVATED_OUTPUT !in args
    ensures Carried(args, ELEVATED_OUTPUT) == []
  {
    PruneNothing(ELEVATED_OUTPUT);
    PruneClean(args, ELEVATED_OUTPUT, []);
    assert args + [] == args;
  }
}
