# termcp-relay: session environment and elevation handoff

This project models two parts of termcp-relay in Dafny and proves what they promise.

**The session environment** (Windows). A session's environment block is rebuilt from the block the
service inherited, the machine's registry values and the user's. Registry values are expanded
(`%NAME%`) through one case-insensitive table that grows as they are read, then overlaid on the
inherited block; PATH is merged rather than replaced, and `TERM` is patched into the finished block.

- `Text` has the string operations and says what folding and trimming are; `PathMerge` has `mergePath`.
- `EnvBlock` has entries, tables and `composeEnv`; `ComposeLaws` says what a composed block means;
  `Rebuild` says exactly when rebuilding it changes nothing; `BlockEdit` has `replaceEnv` and relates an
  edit to a recomposition.
- `Percent` has the table, the `%NAME%` token grammar and the scanner; `Stability` says exactly when one
  pass of it is a fixed point.
- `Layers` has `expandLayer` and `sessionEnv`; `LayerLaws` has their laws, up to the finished block;
  `LayerOrder` says exactly when the order of a registry key matters.

**The elevation and service handoff** (Windows build). `termcp-relay service ...` prints its settled
options as an argument list, adds two hidden flags, quotes everything into one command line and
starts itself again through UAC; a password travels in a one-shot file. The installed service is
started with a second argument list.

- `CommandLine` has `joinArgs` and the splitting rules of Microsoft's "Parsing C Command-Line
  Arguments"; `Flags` has Go's `flag` parsing, for flags in every order and form.
- `ServiceCli` has options, both argument lists, the two pruning loops, and what `main` and `Command`
  make of their arguments.
- `Account` settles paths, account and password, and relates the service definition to the typed options;
  `Elevation` runs the processes on a host with files, prompts, launches and calls to the service manager.

Each loop over strings, blocks, layers and arguments is a method with a loop, proved against a
specification function; the laws are lemmas about those functions. (The loop that reads a registry key
is not part of the model: its result is an input.) What the operating system answers while a command runs
is an input: registry values, inherited block, prompt answers, absolute paths, which files can be created,
written, read or removed, whether the service is installed and runs, whether UAC is confirmed. Whether a
call to the service manager succeeds is an arbitrary choice. Absolute paths, and what a file may be used
for, depend on the process: a child need not start in its parent's working directory nor run under its
account.

## Results worth knowing

- A composed block read back is the very table its values were expanded against, except for a PATH
  the user sets, if and only if every registry name is non-empty and free of '='
  (`LayerLaws.TablesAgree`); `readEnvKey` lets names with '=' through. A user PATH of the form `%PATH%;x`
  does not repeat the PATH below it (`LayerLaws.SelfReferenceCollapses`); where no PATH lies below, the
  reference stays literal.
- Rebuilding a composed environment on top of itself keeps every variable's place, spelling and value, for
  every inherited block, if and only if no readable registry name is first mentioned after an unreadable
  one, and the non-empty part before the '=' of every name is itself set by a layer, PATH by the machine
  (`Rebuild.RebuildsExactly`). The condition is one on names alone, and it is also exactly what keeps the
  lines of the block for every inherited block and all values of those names (`Rebuild.LinesExactly`); for
  single values it is sufficient, as two variables such as A=B with value x and A with value B=x may render
  to the same line. With names free of '=' it always holds.
- One pass of the scanner is a fixed point for every string if and only if every value in the table that
  a reference can reach has an even number of percent signs and expands to itself
  (`Stability.StableExactly`).
- The order in which a registry key lists its values has no effect, on any table, if and only if each
  two of its expandable values commute: the one does not refer to the other, or only in the very spelling
  in which the other comes down to a reference to itself (`LayerOrder.OrderDecides`). A reference of a value
  to its own name is harmless. (Windows keeps the names in one key distinct under folding.)
- `replaceEnv` on a composed block equals recomposing with one more user variable exactly when no
  registry name starts with the key and '=', and, for PATH, when merging the new value into the
  current one leaves the new value (`BlockEdit.EditIsRecompose`). For `TERM` only the first condition
  remains (`BlockEdit.PatchTerm`).
- The child strips exactly what its parent appended if and only if no argument of the parent's is
  itself a hidden flag; only `--elevated-credential` as the very last argument, with no credential
  appended, is harmless (`ServiceCli.StripsWhatWasAppended`).
- Over every run at most one elevated child is launched, and a file a password was handed over in remains
  only where it cannot be removed (`Elevation.Host.Command`). Without hidden flags, and whatever the order and
  form of its flags, a typed command line comes to exactly what it says (`Elevation.AsTyped`, ensured by
  `Command`): help ends with 0, an empty line, an unknown action and `--system` with a user name end with 2,
  all with nothing changed. Otherwise an elevated process makes calls exactly when something is due: a service
  to control that is not known to be absent, or an installation whose paths and account can be settled. A
  process without the rights launches a child exactly when something is due, the files for the handoff can be
  made and the elevation is confirmed, and only that child makes calls. The calls are those of the action, for
  the typed service; an installation registers the typed name, account, password, settings and absolute paths
  (`Account.DefinitionAsTyped`). The exit code is 0 exactly when the last call succeeded, or when there was
  nothing to call for because the service is absent, or only its status was asked for and found out. Every
  file is kept, but for new ones that cannot be removed again. For a launched child this takes a faithful
  handoff: no option looks like a hidden flag, the paths the parent made absolute are absolute and unchanged
  for the child, and its account brings no home directory the parent lacked; and the child makes its calls if
  it can use the configuration and read the password.

Where the source and its comments differ, the model follows the source. The comment at
internal/service/cli.go:71-75 says that the child reads and deletes the credential file before
doing anything else; the code first redirects its output, parses its flags and settles its paths, and
reads the file only for `install` (internal/service/cli.go:83-127, 148-191). The file does
not depend on that: the parent removes it as well.

## Model

| member | source | states |
|---|---|---|
| PathMerge.MergePath | internal/sshserver/env.go:19-37 | the loop computes the join of the distinct entries of all fragments |
| PathMerge.MergeMeaning | internal/sshserver/env.go:12-37 | a merged PATH read back holds, in order, the first spelling of every input entry and nothing else; no entry is empty, padded or repeated under folding |
| PathMerge.FirstByPicksFirsts | internal/sshserver/env.go:28-33 | de-duplication keeps exactly the elements at the increasing list of first-occurrence indices |
| PathMerge.MergeNested | internal/sshserver/env.go:19-37 | any run of fragments may be merged first: every bracketing gives the same PATH |
| PathMerge.MergePreJoined | internal/sshserver/env.go:22-23 | a fragment may be cut at a separator into two fragments |
| PathMerge.MergeAbsorbs | internal/sshserver/env.go:28-33 | further fragments leave a merged PATH alone if and only if they name no new entry |
| PathMerge.MergeLaws | internal/sshserver/env.go:19-37 | associativity, insensitivity to pre-joining, and absorption of a repeated front, for two and three fragments |
| PathMerge.EntriesOfMerge | internal/sshserver/env.go:23-36 | splitting and trimming undo the final join |
| PathMerge.MergeKeeps | internal/sshserver/env.go:22-34 | every part of a fragment that is not all white space is in the merged PATH, without the white space around it and up to case |
| PathMerge.MergeAddsNothing | internal/sshserver/env.go:22-36 | every part of the merged PATH is a trimmed part of some fragment, and no two differ in case only |
| Text.SplitJoin | internal/sshserver/env.go:23-36 | splitting undoes joining for separator-free parts |
| Text.SplitConcat | internal/sshserver/env.go:23 | splitting a joined pair is splitting both halves |
| Text.JoinSplit | internal/sshserver/env.go:23-36 | joining undoes splitting; with separator-free parts that fixes both |
| Text.FoldingIsCase | internal/sshserver/env.go:29 | both foldings identify exactly the strings that differ in the case of letters only |
| Text.TrimTakesSpace | internal/sshserver/env.go:24 | trimming takes off white space at both ends and nothing else |
| Text.TrimIs | internal/sshserver/env.go:24 | text without white space at its ends, put between white space, is what trimming gives back |
| EnvBlock.ComposeEnv | internal/sshserver/env.go:174-210 | the loops with order, value and spelling tables compute the layered overlay, in which no two names differ in case only |
| EnvBlock.ParseLineIs | internal/sshserver/env.go:188-192 | reading a line finds an entry if and only if the entry is readable and renders to that line |
| EnvBlock.Add | internal/sshserver/env.go:179-186 | one step keeps the three tables a description of one list of entries, with the variable set in it |
| EnvBlock.RepresentsFind | internal/sshserver/env.go:199 | the value table gives the current value of a name, empty when there is none |
| EnvBlock.ParseRender | internal/sshserver/env.go:80-84 | reading rendered lines gives the entries back, for non-empty names without '=' |
| EnvBlock.ParseReadable | internal/sshserver/env.go:188-192 | every entry taken from an inherited block has a non-empty name without '=' |
| ComposeLaws.ComposeMeaning | internal/sshserver/env.go:163-210 | names are unique under folding and ordered by first mention; spelling and value are the last write's; a PATH the user sets is one merge of the PATH below and all user values |
| ComposeLaws.LastWriteMeaning | internal/sshserver/env.go:179-186 | the last write under a name is the last entry with that name |
| ComposeLaws.FindOverlayUser | internal/sshserver/env.go:196-203 | folding the user's PATH values in one by one is one merge of all of them |
| ComposeLaws.KeysOverlay | internal/sshserver/env.go:181-183 | a layer appends exactly its new names, in order of first mention |
| ComposeLaws.ReadBack | internal/sshserver/env.go:188-209 | a composed block is read back as the entries it was rendered from if and only if no layer sets a name that is empty or holds '=' |
| ComposeLaws.SlotsAll | internal/sshserver/env.go:179-209 | what holds of all inherited names and depends on the folded name alone holds of a composed block exactly when it holds of both layers |
| ComposeLaws.UserWriteTwice | internal/sshserver/env.go:196-203 | writing machine and user layer a second time changes nothing under any name |
| Rebuild.ReadFrom | internal/sshserver/env.go:188-192 | what is read back from a rendered block is one of its readable entries, or comes from a name holding '=' and is read under the part before it |
| Rebuild.RebuildsExactly | internal/sshserver/env.go:174-210 | rebuilding on top of itself keeps names, order, spelling and values for every inherited block if and only if readable names are mentioned first and every name's head is set by a layer, PATH by the machine |
| Rebuild.LinesExactly | internal/sshserver/env.go:174-210 | the returned lines stay the same for every inherited block and all values of the layers' names if and only if the names meet that condition |
| Rebuild.HeadNeeded | internal/sshserver/env.go:188-209 | a name whose head no layer sets makes the list of lines grow |
| Rebuild.ComposeIdempotent | internal/sshserver/env.go:174-210 | under that condition the rebuilt block is the same list of lines |
| Rebuild.ReadableRebuildable | internal/sshserver/env.go:174-210 | names that are non-empty and free of '=' meet the condition |
| Rebuild.PathNeeded | internal/sshserver/env.go:196-203 | a name starting with PATH= and no machine PATH: for some inherited PATH the rebuilt lines differ |
| BlockEdit.ReplaceEnv | internal/sshserver/env.go:42-60 | the loop computes the edited block |
| BlockEdit.ReplaceMeaning | internal/sshserver/env.go:39-60 | exactly one line defines the key, where the first one stood or at the end; lines before it are untouched and all others keep their order |
| BlockEdit.LastEditWins | internal/sshserver/env.go:42-60 | of two writes to one name, in any spelling, only the later is seen |
| BlockEdit.EditsCommute | internal/sshserver/env.go:42-60 | writes to two names commute as lists if and only if one of the names is already defined |
| BlockEdit.ReplaceTable | internal/sshserver/env.go:42-60 | as a table, an edit is one map update |
| BlockEdit.EditsCommuteAsTables | internal/sshserver/env.go:42-60 | as tables, writes to two names always commute |
| BlockEdit.ParsedKey | internal/sshserver/env.go:47 | a line matches a key exactly when the entry read from it has that name under folding |
| BlockEdit.EditIsRecompose | internal/sshserver/env.go:42-60 | editing a composed block equals recomposing with one more user variable if and only if no name of a layer shadows the key and, for PATH, merging leaves the new value |
| BlockEdit.PatchTerm | internal/sshserver/session.go:105 | patching TERM on the finished block equals having composed it in if and only if no registry name starts with TERM= |
| Percent.EnvLookup.constructor | internal/sshserver/env.go:79-87 | the table of the inherited block, later lines winning |
| Percent.EnvLookup.Get | internal/sshserver/env.go:89-92 | case-insensitive lookup |
| Percent.EnvLookup.Set | internal/sshserver/env.go:94 | case-insensitive update |
| Percent.ExpandPercent | internal/sshserver/env.go:103-137 | the index-driven scan computes the meaning of the string's tokens, and terminates |
| Percent.PrintTokenize | internal/sshserver/env.go:109-135 | printing undoes tokenizing, and tokens are well formed: only the last may be unterminated |
| Percent.TokenizePrint | internal/sshserver/env.go:109-135 | tokenizing undoes printing: the grammar is unambiguous |
| Percent.ExpandDependsOnReferences | internal/sshserver/env.go:129-133 | the result depends only on the table's values of the names referred to |
| Percent.ExpandUnresolved | internal/sshserver/env.go:96-98 | with nothing to resolve, every string is left as it is |
| Percent.ExpandConcat | internal/sshserver/env.go:109-135 | after an even number of percent signs the scanner starts afresh |
| Percent.ParityDecides | internal/sshserver/env.go:109-135 | a prefix can be expanded on its own, for every continuation and table, if and only if its percent signs are even in number |
| Percent.ExpandIdempotent | internal/sshserver/env.go:96-137 | where the values brought in are free of percent signs, a second expansion changes nothing, and the tokens of the result are the given ones with the resolved references replaced: surviving percent signs pair up as before |
| Percent.ExpandIsSinglePass | internal/sshserver/env.go:100-102 | a reference that a value brings in is left as it is, and only a second expansion resolves it |
| Stability.StableExactly | internal/sshserver/env.go:100-137 | a second expansion changes no string at all if and only if each value a reference can reach holds an even number of percent signs and expands to itself |
| Stability.MeaningSettles | internal/sshserver/env.go:109-135 | over such a table whatever a token list comes to expands to itself |
| Stability.OddValueFails | internal/sshserver/env.go:109-135 | a value with an odd number of percent signs, though it expands to itself, makes a string that a second expansion changes |
| Percent.ExpandPlainExactly | internal/sshserver/env.go:109-135 | with plain values, the result is free of percent signs if and only if every percent sign belonged to a resolvable reference |
| Layers.ExpandLayer | internal/sshserver/env.go:145-161 | seeding and the single pass return the layer's entries and leave the layer's table in the caller's lookup |
| Layers.SessionEnv | internal/sshserver/env_windows.go:32-40 | one lookup is threaded through machine then user, and the block is composed from both |
| LayerLaws.SeedsAreRewritten | internal/sshserver/env.go:147-158 | the table a layer leaves is its entries applied to the table it was given: seeding leaves no other trace |
| LayerOrder.LayerInterchangeable | internal/sshserver/env.go:142-161 | when the expandable values of a layer commute, every value is expanded against the seeded table |
| LayerOrder.OrderDoesNotMatter | internal/sshserver/env.go:142-161 | rearranging such a layer gives the same entries, rearranged alike, and the same table |
| LayerOrder.OrderMatters | internal/sshserver/env.go:152-159 | for any two expandable values that do not commute there is a table over which the first comes out differently right before and right after the second |
| LayerOrder.OrderDecides | internal/sshserver/env.go:142-161 | over all tables and rearrangements the order is without effect if and only if the expandable values commute |
| LayerOrder.AnotherValue | internal/sshserver/env.go:129-133 | an expansion changes whenever a name it reads gets a value other than the one read |
| LayerLaws.LayerPlain | internal/sshserver/env.go:145-161 | over a plain table a layer leaves no percent sign if and only if each value refers only to names known by then |
| LayerLaws.FullExpansion | internal/sshserver/env_windows.go:35-37 | the same through machine and user layer, together with the tables between and after them |
| LayerLaws.TablesAgree | internal/sshserver/env_windows.go:32-40 | the block read back equals the final lookup, but for a PATH the user sets, which is the merge of the PATH below with the user's values, if and only if all registry names are non-empty and free of '=' |
| LayerLaws.SelfReferenceCollapses | internal/sshserver/env_windows.go:32-40 | with a user PATH of `%PATH%;x` the composed PATH entry, in the user's spelling, is the PATH below merged once with the expansion of x |
| LayerLaws.SelfReferenceReadBack | internal/sshserver/env_windows.go:32-40 | with readable registry names, the finished block read back has that PATH |
| LayerLaws.SelfReferenceExpands | internal/sshserver/env.go:129-133 | the reference to PATH in any spelling expands to the current PATH, the rest on its own |
| CommandLine.JoinArgs | internal/service/elevate_windows.go:133-143 | the loop writes the escaped arguments separated by blanks |
| CommandLine.ReadEscaped | internal/service/elevate_windows.go:140 | an escaped argument, wrapped or not, is read back exactly, with any backslashes and quotes |
| CommandLine.SplitUndoesJoin | internal/service/elevate_windows.go:133-143 | splitting the command line gives back every argument list |
| CommandLine.EscapePlain | internal/service/elevate_windows.go:140 | an argument without backslashes and quotes is written as it is, in quotes exactly if it is empty or holds a blank or a tab |
| CommandLine.ReadDoubledQuote | internal/service/elevate_windows.go:133-143 | of the splitting rules: inside quotes a doubled quote is a literal one |
| Flags.ParseOptional | internal/service/cli.go:96-107 | leaving a flag out and giving it its empty default are the same |
| Flags.ParseSettings | internal/service/cli.go:96-107 | flags in any order, number and form, `-name` or `--name`, with `=`, with the next argument or alone, are set one after the other |
| Flags.AssignedIsLast | internal/service/cli.go:96-107 | of several settings of one flag the last counts, and flags not set keep their defaults |
| Flags.ParseUndefined | internal/service/cli.go:105-107 | an undefined flag is an error, unless it asks for help |
| Flags.ParseMalformed | internal/service/cli.go:105-107 | so is a text flag without a value, and a boolean with any value but the twelve that are accepted |
| Flags.ParseNameless | internal/service/cli.go:105-107 | and so is a flag without a name, or with a third dash |
| ServiceCli.HasFlag | internal/service/cli.go:353-360 | membership |
| ServiceCli.BuildChildArgs | internal/service/cli.go:364-385 | the appended list is the child's printed options |
| ServiceCli.TakeCredentialArg | internal/service/cli.go:195-207 | the loop prunes every credential pair and returns the last path |
| ServiceCli.InterpretTyped | internal/service/cli.go:79-141 | for flags in any order and form: help ends with 0, --system with a user name and unknown actions with 2, and any other line runs its action with the last value of each flag or the default |
| ServiceCli.InterpretBroken | internal/service/cli.go:105-107 | flags that cannot be parsed end it with 2, or 0 if they ask for help |
| ServiceCli.InterpretPrinted | internal/service/cli.go:96-121 | parsing printed options gives the same options if and only if --system comes without a user name |
| ServiceCli.PrunedHas | internal/service/cli.go:198-205 | a stripped flag survives only as the very last argument |
| ServiceCli.StripsWhatWasAppended | internal/service/cli.go:195-207 | the two pruning loops give back the printed list and both paths if and only if no printed argument is a hidden flag |
| ServiceCli.ElevationRoundTrip | internal/service/elevate_windows.go:104-131 | printed, extended, quoted, split, dispatched, stripped and parsed, the options, the service name and both paths arrive unchanged, and the child knows it is one |
| ServiceCli.KserviceConfig | internal/service/service.go:237-278 | the definition: effective name, display name, description, arguments, working directory, account, password and restart options |
| ServiceCli.ServiceStartsAsInstalled | main.go:57-91 | an installed service's arguments are never taken for a subcommand and parse to the installed settings, the default standing in for an empty configuration path |
| ServiceCli.MainServes | main.go:74-91 | flags in any order and form, without a subcommand, serve with the last value of each or its default |
| ServiceCli.Subcommands | main.go:57-72 | the first argument selects help, version, init or service, which gets the arguments behind it |
| ServiceCli.MainBroken | main.go:80-82 | flags that cannot be parsed end the program, with 2 or, for help, 0 |
| ServiceCli.NameIs | internal/service/service.go:64-69 | the effective name is the given one without white space around it, or the default if nothing is left |
| Account.PromptVerified | internal/service/cli.go:275-293 | a returned password was given at a prompt and passed the credential check |
| Account.PromptExactly | internal/service/cli.go:275-293 | a password is accepted if and only if one of the first three answers is right, and it is the first that is |
| Account.ResolveAsTyped | internal/service/cli.go:222-269 | the account is settled exactly if the process knows its own where that is asked for and a right answer is among the first three; it is none for the system account, as typed and passwordless for another built-in one, and otherwise as typed or the process's own, with the password that passed the check |
| Account.PathsExactly | internal/service/cli.go:148-185 | configuration, log file and directory are settled to the typed paths or their defaults, made absolute, and in no other way |
| Account.PreparedAsTyped | internal/service/cli.go:148-269 | a preparation succeeds exactly if paths and account can be settled, and its service definition is the typed one: name, account, password, arguments that serve with the typed settings, working directory, restart options |
| Account.SystemStaysAlone | internal/service/cli.go:237-249 | settled options never combine --system with a user name |
| Account.AccountSurvives | internal/service/cli.go:222-269 | user name and password settled by the parent are settled again by the child: from the file, even when empty, or because settling is idempotent |
| Account.PathsTwice | internal/service/cli.go:148-185 | settled paths are settled to themselves in another process with its own account and working directory, or refused exactly where that account cannot use the configuration |
| Account.ChildPreparesTheSame | internal/service/cli.go:148-191 | the child prepares the service definition the parent prepared, or fails exactly where it cannot use the configuration |
| Elevation.ChildAsksTheSame | internal/service/cli.go:320-350 | for every action the child's request is the parent's, or none exactly where it cannot use the configuration or read the password to install |
| Elevation.Host.WriteCredentialFile | internal/service/account_windows.go:62-78 | a new file holding the password; or, exactly if it cannot be made, restricted or written, a failure that leaves every file as it was, but for a new one that cannot be removed while it is open |
| Elevation.Host.ReadCredentialFile | internal/service/account_windows.go:82-89 | the content, if it can be read; either way the file is removed, if this account can |
| Elevation.Host.RedirectElevatedOutput | internal/service/cli.go:390-404 | the loop prunes every output pair; exactly the files named that can be opened are truncated |
| Elevation.Host.PromptVerifiedPassword | internal/service/cli.go:275-293 | at most three prompts, as specified |
| Elevation.Host.ResolveAccount | internal/service/cli.go:222-269 | writes the settled account into the options, and consumes the credential file when there is one; it fails when settling does, or when that file cannot be read |
| Elevation.Host.SettlePaths | internal/service/cli.go:148-185 | the branches settle the paths as specified |
| Elevation.Host.PrepareInstall | internal/service/cli.go:148-191 | returns the prepared options; no file but the credential file is touched |
| Elevation.Host.InstallService | internal/service/cli.go:407-425 | one call, to register the definition; the exit code is 0 exactly when it succeeds |
| Elevation.Host.ControlService | internal/service/cli.go:492-554 | exactly the calls that serve the action, in the source's order; none for status and for an absent service; the exit code tells how it ended |
| Elevation.Host.ShellExecute | internal/service/elevate_windows.go:53-99 | a launch exactly if it is confirmed; a transparent child touches only its report and the credential file, and makes exactly the calls the options ask for |
| Elevation.Host.RelaunchElevated | internal/service/elevate_windows.go:104-131 | the same, with the report created before and removed after |
| Elevation.Host.MaybeElevate | internal/service/cli.go:320-350 | a child, an elevated process, status and an absent service go on without; otherwise a child is launched exactly if the handoff can be made and is confirmed, and the password file is removed if the account can |
| Elevation.Host.RunAction | internal/service/cli.go:123-137 | the calls of the action's own request are made, directly or through the child, and no others |
| Elevation.RequestAsTyped | internal/service/cli.go:108-137 | what is asked of the service manager is what was typed, exactly when something is due |
| Elevation.ServedAsTyped | internal/service/cli.go:320-350 | from the requests of parent and child to the typed options: launches, calls, files and exit code |
| Elevation.Host.Command | internal/service/cli.go:79-142 | every run launches at most one elevated child, a child none; a password file remains only where it cannot be removed; refused lines change nothing and end with their code; a typed line comes to exactly what its options say |

## Left out

- Text.ToUpper: folds ASCII letters only; Go's `ToUpper` and `ToLower` map all of Unicode.
- Text.TrimSpace: trims ASCII white space only; Go's set also has U+0085, U+00A0 and other Unicode spaces.
- EnvBlock.ComposeEnv: joins PATH with the Windows separator; `PathMerge.MergePath` takes any separator.
- Elevation.Host.RelaunchElevated: a launch is taken to yield a process handle, and the child has ended when the parent goes on; the text the child writes to its report, and its replay on the parent's terminal, are not modelled; only which files exist and what the child is started with.
- Elevation.Host.ControlService: output and hints are not modelled, and what the system answers to a query does not change while a command runs.
- Registry reading (`readEnvKey`), `os.Environ`, starting the shell, PTY, SFTP and port forwarding: library and system calls; registry values and the inherited block are inputs.
- SSH authentication and host keys, TOML configuration, status display: what they add is branch by branch or done by libraries.
- Granting the logon right: calls into LSA; whether it helps a failed start is an input.
- Linux and macOS: there `elevated` is always true and `resolveAccount` returns at once, so the handoff does not occur.
