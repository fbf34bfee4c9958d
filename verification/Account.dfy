/** Preparing an installation: paths are made absolute, and the service account and its password
    are settled.  Windows build. */
module Account {
  import opened Text
  import opened ServiceCli

  /** What the system answers while a command runs, whichever process asks. */
  datatype Machine = Machine(
    dir: string -> string,           // filepath.Dir
    defaultLog: string -> string,    // the log file beside a configuration
    query: string -> Option<bool>,   // whether the service is installed; None if that cannot be found out
    running: string -> bool,         // an installed service runs
    grants: string -> bool,          // a start fails for lack of a logon right, which can be granted
    creates: string -> bool,         // a temporary file with this suffix can be made
    restricts: bool,                 // access to a new file can be restricted
    writes: bool,                    // text can be written to it
    removesOpen: bool,               // a file that is still open can be removed
    opens: string -> bool,           // the file at this path can be created or truncated for a report
    canRead: string -> bool,         // the file handed over at this path can be read, if it exists
    consents: bool)                  // the elevation is confirmed
  {
    predicate Absent(name: string) { query(name) == Some(false) }
  }

  /** What depends on the process: its working directory and the account it runs under. */
  datatype Login = Login(
    abs: string -> Option<string>,    // filepath.Abs, from the working directory
    usable: string -> bool,           // the file exists, and this account can load it as a configuration
    removes: string -> bool,          // this account can remove the file at the path
    home: Option<string>,
    token: Option<string>,            // DOMAIN\user of this process
    logon: (string, string) -> bool,  // the credential check of the service manager
    elevated: bool)

  /** Answers at the password prompt, in order; None is a prompt that fails. */
  type Answers = seq<Option<string>>

  /* ---------- the account ---------- */

  predicate LocalSystem(user: string) {
    EqualFold(user, "system") || EqualFold(user, "NT AUTHORITY\\SYSTEM") || EqualFold(user, "LocalSystem")
  }

  predicate BuiltinServiceAccount(name: string) {
    ToUpper(TrimSpace(name)) in [
      "LOCALSYSTEM", "NT AUTHORITY\\SYSTEM", "SYSTEM",
      "LOCALSERVICE", "NT AUTHORITY\\LOCALSERVICE",
      "NETWORKSERVICE", "NT AUTHORITY\\NETWORKSERVICE"]
  }

  /** Asks up to `attempts` times; only a verified password is accepted.  Also what is left of
      the answers. */
  function PromptVerified(login: Login, user: string, answers: Answers, attempts: nat): (r: (Option<string>, Answers))
    ensures r.0.Some? ==> login.logon(user, r.0.value) && Some(r.0.value) in answers
  {
    if attempts == 0 then (None, answers)
    else if answers == [] then (None, [])
    else
      match answers[0]
      case None => (None, answers[1..])
      case Some(pw) =>
        if login.logon(user, pw) then (Some(pw), answers[1..])
        else PromptVerified(login, user, answers[1..], attempts - 1)
  }

  const ATTEMPTS := 3

  /** The answer at `k` is the first right one, and no prompt before it failed. */
  predicate RightAnswer(login: Login, user: string, answers: Answers, k: nat) {
    && k < |answers| && answers[k].Some? && login.logon(user, answers[k].value)
    && forall j :: 0 <= j < k ==> answers[j].Some? && !login.logon(user, answers[j].value)
  }

  lemma {:induction false} PromptFinds(login: Login, user: string, answers: Answers, attempts: nat, k: nat)
    requires k < attempts && RightAnswer(login, user, answers, k)
    ensures answers[k].Some? && PromptVerified(login, user, answers, attempts) == (answers[k], answers[k + 1..])
    decreases attempts
  {
    if k > 0 {
      PromptFinds(login, user, answers[1..], attempts - 1, k - 1);
    }
  }

  lemma {:induction false} PromptFound(login: Login, user: string, answers: Answers, attempts: nat) returns (k: nat)
    requires PromptVerified(login, user, answers, attempts).0.Some?
    ensures k < attempts && RightAnswer(login, user, answers, k)
    decreases attempts
  {
    if login.logon(user, answers[0].value) {
      k := 0;
    } else {
      var n := PromptFound(login, user, answers[1..], attempts - 1);
      k := n + 1;
    }
  }

  /** A password is accepted exactly if one of the first three answers is right, and it is the first
      that is. */
  lemma PromptExactly(login: Login, user: string, answers: Answers, pw: string)
    ensures PromptVerified(login, user, answers, ATTEMPTS).0 == Some(pw)
       <==> exists k :: 0 <= k < 3 && RightAnswer(login, user, answers, k) && answers[k] == Some(pw)
  {
    hide PromptVerified, RightAnswer;
    forall k | 0 <= k < 3 && RightAnswer(login, user, answers, k)
      ensures PromptVerified(login, user, answers, ATTEMPTS).0 == RightAt(login, user, answers, k)
    {
      PromptFinds(login, user, answers, ATTEMPTS, k);
    }
    if PromptVerified(login, user, answers, ATTEMPTS).0 == Some(pw) {
      var k := PromptFound(login, user, answers, ATTEMPTS);
      assert RightAt(login, user, answers, k) == Some(pw);
    }
  }

  function RightAt(login: Login, user: string, answers: Answers, k: nat): Option<string>
    requires RightAnswer(login, user, answers, k)
  {
    answers[k]
  }

  /** No account is needed beyond the platform's own. */
  predicate Unattended(o: Options) {
    var user := TrimSpace(o.userName);
    user == "" || o.system || BuiltinServiceAccount(user)
  }

  /** Settles account and password.  A credential path, when given, decides: `content` is what the
      file there holds. */
  function Resolve(login: Login, o: Options, credPath: string, content: Option<string>, answers: Answers)
    : Result<Options>
  {
    var user := TrimSpace(o.userName);
    if credPath != "" then
      match content
      case None => Err
      case Some(pw) => Ok(o.(password := pw, needsCredential := false))
    else if Unattended(o) then
      if BuiltinServiceAccount(user) && !LocalSystem(user) then Ok(o.(password := ""))
      else Ok(o.(userName := "", password := ""))
    else if EqualFold(user, "current") && login.token.None? then Err
    else
      var current := EqualFold(user, "current");
      var account := if current then login.token.value else user;
      match PromptVerified(login, account, answers, ATTEMPTS).0
      case None => Err
      case Some(pw) =>
        Ok(o.(userName := if current then account else o.userName, password := pw, needsCredential := true))
  }

  /* ---------- the paths ---------- */

  function PathsOf(machine: Machine, login: Login, o: Options): Result<Options> {
    var config := login.abs(if Blank(o.configPath) then DEFAULT_CONFIG else o.configPath);
    if config.None? || !login.usable(config.value) then Err
    else
      var log := if o.logFile == "" then machine.defaultLog(config.value) else o.logFile;
      var logAbs := if log == "" then Some("") else login.abs(log);
      var dir := if Blank(o.workDir) && HasHome(login) then login.home.value else o.workDir;
      var dirAbs := if Blank(dir) then Some(dir) else login.abs(dir);
      if logAbs.None? || dirAbs.None? then Err
      else Ok(o.(configPath := config.value, logFile := logAbs.value, workDir := dirAbs.value))
  }

  predicate HasHome(login: Login) {
    login.home.Some? && !Blank(login.home.value)
  }

  /** Everything `prepareInstall` settles before an elevation. */
  function Prepare(machine: Machine, login: Login, o: Options, credPath: string, content: Option<string>,
                   answers: Answers): Result<Options> {
    match PathsOf(machine, login, o)
    case Err => Err
    case Ok(p) => Resolve(login, p, credPath, content, answers)
  }

  /* ---------- a second process settles the same ---------- */

  /** What the parent makes absolute is not blank, and absolute for the child as well, wherever the
      child was started. */
  predicate StablePath(parent: Login, child: Login, p: string) {
    parent.abs(p).Some? ==> !Blank(parent.abs(p).value) && child.abs(parent.abs(p).value) == parent.abs(p)
  }

  ghost predicate PathsStable(parent: Login, child: Login) {
    forall p :: StablePath(parent, child, p)
  }

  /** The child may run under another account, but not gain a home directory the parent lacked. */
  predicate SameHome(parent: Login, child: Login) {
    HasHome(parent) || parent.home == child.home
  }

  /** Options as parsed from a command line: nothing settled yet, --system without a user. */
  predicate Unsettled(o: Options) {
    o.password == "" && !o.needsCredential && (o.system ==> o.userName == "")
  }

  /** In the child the settled paths are settled to themselves, provided it can use the configuration
      at all. */
  lemma PathsTwice(machine: Machine, parent: Login, child: Login, o: Options)
    requires PathsStable(parent, child) && SameHome(parent, child)
    ensures PathsOf(machine, parent, o).Ok? ==>
              var p := PathsOf(machine, parent, o).value;
              PathsOf(machine, child, Received(p)) == if child.usable(p.configPath) then Ok(Received(p)) else Err
  {
    hide Blank;
    BlankNothing();
    var given := if Blank(o.configPath) then DEFAULT_CONFIG else o.configPath;
    assert StablePath(parent, child, given);
    var config := parent.abs(given);
    if config.Some? {
      var log := if o.logFile == "" then machine.defaultLog(config.value) else o.logFile;
      var dir := if Blank(o.workDir) && HasHome(parent) then parent.home.value else o.workDir;
      assert StablePath(parent, child, log) && StablePath(parent, child, dir);
    }
  }

  /** The credential handed over with settled options: a path and its content, if a password was
      asked for, and no path otherwise. */
  predicate HandedWith(r: Options, credPath: string, content: Option<string>) {
    && (credPath != "" <==> r.needsCredential)
    && (r.needsCredential ==> content == Some(r.password))
  }

  /** Account and password reach the child unchanged: through the credential file when a password
      was asked for, even an empty one, and otherwise because settling a second time without one
      changes nothing, whoever runs it and whatever a prompt would answer. */
  lemma AccountSurvives(parent: Login, child: Login, o: Options, credPath: string, content: Option<string>,
                        answers: Answers, answers': Answers)
    requires Unsettled(o)
    ensures var settled := Resolve(parent, o, "", None, answers);
            settled.Ok? && HandedWith(settled.value, credPath, content) ==>
              Resolve(child, Received(settled.value), credPath, content, answers')
                == Ok(Received(settled.value).(password := settled.value.password))
  {
    hide BuiltinServiceAccount, LocalSystem, EqualFold, TrimSpace;
    assert Trimmed("");
  }

  /** A prepared installation combines --system with no user name either. */
  lemma SystemStaysAlone(machine: Machine, login: Login, o: Options, answers: Answers)
    requires Unsettled(o)
    ensures var prepared := Prepare(machine, login, o, "", None, answers);
            prepared.Ok? && prepared.value.system ==> prepared.value.userName == ""
  {
    hide PathsOf, BuiltinServiceAccount, LocalSystem, EqualFold, TrimSpace, PromptVerified;
    PathsKeep(machine, login, o);
    assert Trimmed("");
  }

  /* ---------- from the typed options to the definition ---------- */

  const SYSTEM_NAMES := ["system", "NT AUTHORITY\\SYSTEM", "LocalSystem"]

  const SERVICE_NAMES := [
    "LocalService", "NT AUTHORITY\\LocalService", "NetworkService", "NT AUTHORITY\\NetworkService"]

  /** One of the names, in any case. */
  predicate Among(user: string, names: seq<string>) {
    exists i :: 0 <= i < |names| && SameButCase(user, names[i])
  }

  /** What the typed user name comes to. */
  datatype Kind =
    | SystemAccount            // --system, no name, or a spelling of the system account
    | BuiltinAccount           // LocalService or NetworkService: no password
    | Current                  // the account of this process
    | Named(account: string)   // any other account

  function KindOf(o: Options): Kind {
    var user := TrimSpace(o.userName);
    if o.system || user == "" || Among(user, SYSTEM_NAMES) then SystemAccount
    else if Among(user, SERVICE_NAMES) then BuiltinAccount
    else if SameButCase(user, "current") then Current
    else Named(user)
  }

  /** The account a password is asked for. */
  function AskedFor(login: Login, o: Options): Option<string> {
    match KindOf(o)
    case Current => login.token
    case Named(account) => Some(account)
    case _ => None
  }

  /** The account can be settled: the process knows its own, and one of the first three answers is right. */
  ghost predicate AccountSettles(login: Login, o: Options, answers: Answers) {
    match KindOf(o)
    case SystemAccount => true
    case BuiltinAccount => true
    case _ =>
      var account := AskedFor(login, o);
      account.Some? && exists k :: 0 <= k < 3 && RightAnswer(login, account.value, answers, k)
  }

  /** The registered account is the typed one: none and no password for the system account; as typed,
      with the empty password, for another built-in one; otherwise with the first right answer. */
  ghost predicate AccountAsTyped(login: Login, o: Options, answers: Answers, userName: string,
                                 password: Option<string>) {
    match KindOf(o)
    case SystemAccount => userName == "" && password == None
    case BuiltinAccount => userName == o.userName && password == Some("")
    case _ =>
      var account := AskedFor(login, o);
      && account.Some?
      && userName == (if KindOf(o).Current? then account.value else o.userName)
      && exists k :: 0 <= k < 3 && RightAnswer(login, account.value, answers, k)
           && password == if userName == "" then None else answers[k]
  }

  /** A path as this process makes it absolute. */
  predicate Absolute(login: Login, given: string, p: string) {
    login.abs(given) == Some(p)
  }

  /** The configuration, the log file and the sessions' directory as typed, or their defaults. */
  function GivenConfig(o: Options): string {
    if AllSpace(o.configPath) then "config.toml" else o.configPath
  }

  function GivenLog(machine: Machine, o: Options, config: string): string {
    if o.logFile == "" then machine.defaultLog(config) else o.logFile
  }

  function GivenDir(login: Login, o: Options): string {
    if AllSpace(o.workDir) && login.home.Some? && !AllSpace(login.home.value) then login.home.value else o.workDir
  }

  predicate PathsAsTyped(machine: Machine, login: Login, o: Options, config: string, log: string, dir: string) {
    && Absolute(login, GivenConfig(o), config) && login.usable(config)
    && var givenLog, givenDir := GivenLog(machine, o, config), GivenDir(login, o);
       && (if givenLog == "" then log == "" else Absolute(login, givenLog, log))
       && (if AllSpace(givenDir) then dir == givenDir else Absolute(login, givenDir, dir))
  }

  lemma PathsExactly(machine: Machine, login: Login, o: Options, config: string, log: string, dir: string)
    ensures PathsOf(machine, login, o) == Ok(o.(configPath := config, logFile := log, workDir := dir))
       <==> PathsAsTyped(machine, login, o, config, log, dir)
  {
    hide Blank, AllSpace;
    BlankIs(o.configPath);
    BlankIs(o.workDir);
    if login.home.Some? {
      BlankIs(login.home.value);
    }
    BlankIs(GivenDir(login, o));
  }

  lemma NameCases(user: string)
    ensures LocalSystem(user) <==> Among(user, SYSTEM_NAMES)
    ensures Trimmed(user) ==>
              (BuiltinServiceAccount(user) <==> Among(user, SYSTEM_NAMES) || Among(user, SERVICE_NAMES))
    ensures EqualFold(user, "current") <==> SameButCase(user, "current")
  {
    hide SameButCase, ToUpper, TrimSpace;
    var a, b := SYSTEM_NAMES, SERVICE_NAMES;
    FoldingIsCase(user, a[0]);
    FoldingIsCase(user, a[1]);
    FoldingIsCase(user, a[2]);
    FoldingIsCase(user, b[0]);
    FoldingIsCase(user, b[1]);
    FoldingIsCase(user, b[2]);
    FoldingIsCase(user, b[3]);
    FoldingIsCase(user, "current");
    UpperNames();
  }

  lemma UpperNames()
    ensures ToUpper("system") == "SYSTEM" && ToUpper("NT AUTHORITY\\SYSTEM") == "NT AUTHORITY\\SYSTEM"
    ensures ToUpper("LocalSystem") == "LOCALSYSTEM" && ToUpper("LocalService") == "LOCALSERVICE"
    ensures ToUpper("NT AUTHORITY\\LocalService") == "NT AUTHORITY\\LOCALSERVICE"
    ensures ToUpper("NetworkService") == "NETWORKSERVICE"
    ensures ToUpper("NT AUTHORITY\\NetworkService") == "NT AUTHORITY\\NETWORKSERVICE"
  {
    hide ToUpper;
    UpperShort();
    UpperLong("LocalService", "LOCALSERVICE");
    UpperLong("NetworkService", "NETWORKSERVICE");
    UpperSystem();
    UpperLocal();
    UpperNetwork();
  }

  lemma UpperSystem()
    ensures ToUpper("NT AUTHORITY\\SYSTEM") == "NT AUTHORITY\\SYSTEM"
  {
  }

  lemma UpperLocal()
    ensures ToUpper("NT AUTHORITY\\LocalService") == "NT AUTHORITY\\LOCALSERVICE"
  {
  }

  lemma UpperNetwork()
    ensures ToUpper("NT AUTHORITY\\NetworkService") == "NT AUTHORITY\\NETWORKSERVICE"
  {
  }

  lemma UpperShort()
    ensures ToUpper("system") == ToUpper("SYSTEM") == "SYSTEM" && ToUpper("LocalSystem") == "LOCALSYSTEM"
  {
  }

  lemma UpperLong(name: string, upper: string)
    requires (name, upper) in [("LocalService", "LOCALSERVICE"), ("NetworkService", "NETWORKSERVICE")]
    ensures ToUpper(name) == upper
  {
  }

  lemma NothingAmong()
    ensures !Among("", SYSTEM_NAMES) && !Among("", SERVICE_NAMES)
  {
  }

  /** Settling the account follows what was typed, and fails in no other case. */
  lemma ResolveAsTyped(login: Login, o: Options, answers: Answers)
    requires Unsettled(o)
    ensures var settled := Resolve(login, o, "", None, answers);
            && (settled.Ok? <==> AccountSettles(login, o, answers))
            && (settled.Ok? ==>
                  var r := settled.value;
                  && AccountAsTyped(login, o, answers, r.userName, if r.userName == "" then None else Some(r.password))
                  && (r.needsCredential <==> AskedFor(login, o).Some?))
  {
    hide LocalSystem, EqualFold, TrimSpace, BuiltinServiceAccount, Among, SameButCase, PromptVerified;
    var user := TrimSpace(o.userName);
    NameCases(user);
    BuiltinTrims(o.userName);
    var account := AskedFor(login, o);
    assert Trimmed("");
    NothingAmong();
    if account.Some? {
      var prompted := PromptVerified(login, account.value, answers, ATTEMPTS).0;
      if prompted.Some? {
        PromptExactly(login, account.value, answers, prompted.value);
      }
      forall k | 0 <= k < 3 && RightAnswer(login, account.value, answers, k)
        ensures prompted.Some?
      {
        PromptFinds(login, account.value, answers, ATTEMPTS, k);
      }
    }
  }

  lemma BuiltinTrims(name: string)
    ensures BuiltinServiceAccount(TrimSpace(name)) <==> BuiltinServiceAccount(name)
  {
    hide ToUpper;
  }

  /** Everything the installation needs can be settled. */
  ghost predicate Preparable(machine: Machine, login: Login, o: Options, answers: Answers) {
    && AccountSettles(login, o, answers)
    && exists config, log, dir :: PathsAsTyped(machine, login, o, config, log, dir)
  }

  function PasswordOf(d: ServiceConfig): Option<string> {
    if PASSWORD_OPTION in d.options then Some(d.options[PASSWORD_OPTION]) else None
  }

  /** The definition of a service as typed: its name, its account, a command line that serves with the
      typed settings and the absolute paths, and a restart when it fails. */
  ghost predicate DefinitionAsTyped(machine: Machine, login: Login, o: Options, answers: Answers, d: ServiceConfig) {
    && d.name == (if AllSpace(o.name) then "termcp-relay" else TrimSpace(o.name))
    && d.displayName == "termcp-relay SSH daemon"
    && d.description == "Standalone SSH daemon: PTY shells, exec, SFTP and TCP port forwarding."
    && AccountAsTyped(login, o, answers, d.userName, PasswordOf(d))
    && "OnFailure" in d.options && d.options["OnFailure"] == "restart"
    && "OnFailureDelayDuration" in d.options && d.options["OnFailureDelayDuration"] == "5s"
    && exists config, log, dir ::
         && PathsAsTyped(machine, login, o, config, log, dir)
         && (config != "" ==> d.workingDirectory == machine.dir(config))
         && MainDispatch(d.arguments) ==
            Serve(Options("", if config == "" then "config.toml" else config, o.logLevel, log, dir,
                          false, "", "", false))
  }

  /** What is prepared and defined is what was typed, and the preparation fails in no other case. */
  lemma PreparedAsTyped(machine: Machine, login: Login, o: Options, answers: Answers)
    requires Unsettled(o)
    ensures var prepared := Prepare(machine, login, o, "", None, answers);
            && (prepared.Ok? <==> Preparable(machine, login, o, answers))
            && (prepared.Ok? ==>
                  && DefinitionAsTyped(machine, login, o, answers, Definition(machine.dir, prepared.value))
                  && (prepared.value.needsCredential <==> AskedFor(login, o).Some?))
  {
    hide PathsOf, Resolve, PathsAsTyped, AccountSettles, AccountAsTyped, KindOf, AskedFor, Definition, MainDispatch,
         AllSpace;
    var paths := PathsOf(machine, login, o);
    if exists config, log, dir :: PathsAsTyped(machine, login, o, config, log, dir) {
      var config, log, dir :| PathsAsTyped(machine, login, o, config, log, dir);
      PathsExactly(machine, login, o, config, log, dir);
    }
    if paths.Ok? {
      var p := paths.value;
      PathsKeep(machine, login, o);
      PathsExactly(machine, login, o, p.configPath, p.logFile, p.workDir);
      KindIgnoresPaths(o, p);
      ResolveAsTyped(login, p, answers);
      AccountIgnoresPaths(login, o, p, answers);
      ResolveKeeps(login, p, answers);
      var settled := Resolve(login, p, "", None, answers);
      if settled.Ok? {
        DefinedAsTyped(machine, login, o, p, settled.value, answers);
      }
    }
  }

  lemma KindIgnoresPaths(o: Options, p: Options)
    requires p == o.(configPath := p.configPath, logFile := p.logFile, workDir := p.workDir)
    ensures KindOf(p) == KindOf(o)
  {
    hide TrimSpace, Among, SameButCase;
  }

  lemma AccountIgnoresPaths(login: Login, o: Options, p: Options, answers: Answers)
    requires p == o.(configPath := p.configPath, logFile := p.logFile, workDir := p.workDir)
    ensures AskedFor(login, p) == AskedFor(login, o)
    ensures AccountSettles(login, p, answers) <==> AccountSettles(login, o, answers)
    ensures forall userName, password ::
              (AccountAsTyped(login, p, answers, userName, password)
               <==> AccountAsTyped(login, o, answers, userName, password))
  {
    hide KindOf;
    KindIgnoresPaths(o, p);
  }

  lemma DefinedAsTyped(machine: Machine, login: Login, o: Options, p: Options, r: Options, answers: Answers)
    requires p == o.(configPath := p.configPath, logFile := p.logFile, workDir := p.workDir)
    requires r == p.(userName := r.userName, password := r.password, needsCredential := r.needsCredential)
    requires PathsAsTyped(machine, login, o, p.configPath, p.logFile, p.workDir)
    requires AccountAsTyped(login, o, answers, r.userName, if r.userName == "" then None else Some(r.password))
    ensures DefinitionAsTyped(machine, login, o, answers, Definition(machine.dir, r))
  {
    hide PathsAsTyped, AccountAsTyped, MainDispatch, TrimSpace, AllSpace;
    ServiceStartsAsInstalled(machine.dir, r);
    BlankIs(o.name);
    DefinitionFields(machine.dir, r);
  }

  lemma DefinitionFields(dir: string -> string, o: Options)
    ensures var d := Definition(dir, o);
            && d.name == o.ServiceName() && d.userName == o.userName
            && PasswordOf(d) == (if o.userName == "" then None else Some(o.password))
            && (o.configPath != "" ==> d.workingDirectory == dir(o.configPath))
  {
    hide TrimSpace;
  }

  /** The child prepares exactly the installation its parent had prepared, provided it can use the
      configuration at all. */
  lemma ChildPreparesTheSame(machine: Machine, parent: Login, child: Login, o: Options, credPath: string,
                             content: Option<string>, answers: Answers, answers': Answers)
    requires PathsStable(parent, child) && SameHome(parent, child) && Unsettled(o)
    ensures var prepared := Prepare(machine, parent, o, "", None, answers);
            prepared.Ok? && HandedWith(prepared.value, credPath, content) ==>
              var again := Prepare(machine, child, Received(prepared.value), credPath, content, answers');
              && (again.Ok? <==> child.usable(prepared.value.configPath))
              && (again.Ok? ==> Definition(machine.dir, again.value) == Definition(machine.dir, prepared.value))
  {
    hide Resolve, PathsOf, TrimSpace;
    var prepared := Prepare(machine, parent, o, "", None, answers);
    if prepared.Ok? && HandedWith(prepared.value, credPath, content) {
      var p, r := PathsOf(machine, parent, o).value, prepared.value;
      PathsKeep(machine, parent, o);
      ResolveKeeps(parent, p, answers);
      AccountSurvives(parent, child, p, credPath, content, answers, answers');
      PathsTwice(machine, parent, child, o);
      PathsIgnore(machine, child, Received(p), Received(r));
      SameServiceName(r);
    }
  }

  lemma PathsKeep(machine: Machine, login: Login, o: Options)
    ensures PathsOf(machine, login, o).Ok? ==>
              var p := PathsOf(machine, login, o).value;
              p == o.(configPath := p.configPath, logFile := p.logFile, workDir := p.workDir)
  {
  }

  lemma ResolveKeeps(login: Login, o: Options, answers: Answers)
    ensures Resolve(login, o, "", None, answers).Ok? ==>
              var r := Resolve(login, o, "", None, answers).value;
              r == o.(userName := r.userName, password := r.password, needsCredential := r.needsCredential)
  {
    hide BuiltinServiceAccount, LocalSystem, EqualFold, TrimSpace, PromptVerified;
  }

  /** Settling the paths looks at nothing but the paths. */
  lemma PathsIgnore(machine: Machine, login: Login, p: Options, r: Options)
    requires r.configPath == p.configPath && r.logFile == p.logFile && r.workDir == p.workDir
    ensures PathsOf(machine, login, p) == Ok(p) ==> PathsOf(machine, login, r) == Ok(r)
    ensures PathsOf(machine, login, p).Err? ==> PathsOf(machine, login, r).Err?
  {
    hide Blank;
  }
}
