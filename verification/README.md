# A verified model of DeceptiNet-AI

DeceptiNet-AI is a honeypot: an SSH, MySQL and POP3 server whose every answer is made up from an
in-memory state. This project models its hard parts in Dafny 4.11 and proves what they keep. The whole
project is verified with `dafny verify dfyconfig.toml`; nothing in it was executed.

**The simulated shell.** `Vfs` is the mutable node tree of `session/vfs.py`, with the same loops and early
errors. Each operation is proved equal to its definition on a flat map from component lists to entries
(`FlatFs`), and the laws are proved there: all-or-nothing `makedirs`, exact removal, undoing, reading back
what was written. Paths are strings, as in the source, and `Paths` models the parts of Python's `posixpath`
the source calls; so the corner cases of "/" and "//" are in the model, not excluded from it. `Scanner`
and `Expand` are the quote scanner, the line splitter and `_expand_env`, as loops proved against a
recursive reading. `Shell` says as functions what a command, a redirect and a line do to a session, the
exception that can take the place of a reply included; `Engine` is the code that does it, changing a
`SessionState` object in place, and is proved against `Shell`. `Arguments` says what the pieces of a command
mean. `Session` lists the commands a session really runs, what each removes and whose text it changes, and
proves what survives; `Cwd`, `Listing`, `AndLists` and `HomeDirs` prove what follows for the working directory,
for long listings, for AND lists and for new sessions. `Commands`, `LsText` and `Lines` say from the words of a
command alone what it answers and which entry it touches, with its messages written out.

**Model answers over a shared cache.** `Cache` is the bounded first-in-first-out cache, proved to be the
last writes of its history. `Serving` is the protocol that `engine/llm.py` and `engine/augment.py` share,
as a machine whose steps are what happens between two awaits, so any number of requests interleave. `Llm`
puts many shell sessions on that machine and proves that LLM mode keeps every session's state exactly as
vanilla mode does; `Answers` proves which lines ask a model and what the client is then shown. `LLMEngine`
and `LLMAugmentor` are the objects themselves, their one waiting method cut in two where it waits.

**The wire.** `Mysql` has the packet framing and the text result set, and a client written from the MySQL
client/server protocol (Protocol::Packet, Protocol::LengthEncodedInteger, Protocol::LengthEncodedString,
ProtocolText::Resultset) that reads it back. `Tsv` is the parser of model output in front of it. `Pop3` has
the command loop and dot-stuffing with a client after section 3 of RFC 1939, and `Mailbox` what that client
gets for each command.

**Telemetry.** `Ssh` and `Recorder` are the callbacks and coroutines around one connection and one
recording handle, as steps between awaits. `Classifier` is the session classifier over real numbers, and
`Findings` tells its evidence from the stamps and fingerprints of a session.

Where the code does not do what a reader may expect, the model follows the code:

- `mkdir /` and a redirect to `/` succeed and create an entry named "" in the root. "//" and "//x" are
  canonical paths to `posixpath`, but `mkdir //x` creates something no lookup finds. `Paths.SlotIsPathExactly`
  says for which paths the mutating operations act where lookups look.
- `touch //x` empties a file that "mkdir /" and a redirect to "//x" have put there (`Commands.TouchCanEmpty`); a
  path that is its own slot is safe (`Session.OnlyOddPathsAreEmptied`).
- A redirect without a command creates no file (`Lines.NothingToRun`).
- `ls -l //` can raise an exception that nothing catches, so that the line gets no reply, its remaining
  commands do not run and the session ends (`Listing.LineCanDie`; `Listing.LongListingRaises` says exactly when).
- The working directory may be gone (`Cwd.DirectoryCanBeGone`, and exactly when: `Cwd.CwdGoesWhenRemoved`), and
  `export PWD=...` can make `PWD` name another one (`Cwd.ExportCanMislead`, and exactly when:
  `Cwd.ExportDecidesPwd`, `Cwd.HandlersDecidePwd`).
- `sudo -u root ls` runs `root` (`Arguments.SudoUserIsRun`): the flags are dropped before `-u` is looked for, so
  that branch never does anything (`deceptinet/engine/vanilla.py:131-136`, `Arguments.UserOptionIsNeverSeen`).
  `Arguments.SudoRunsWhatFollows` says for which lines this makes no difference.
- A redirect target is neither unquoted nor expanded (`Arguments.RedirectTargetIsRaw`).
- A login name with an empty, "." or ".." component gives a home that is not canonical
  (`HomeDirs.HomeIsCanonical`), and one with an empty component a home that may not exist
  (`HomeDirs.HomeExistsAfterwards`).
- `ResponseCache.put` raises on a cache with no room (`Cache.PutKeepsStore` says exactly when), which ends the
  request or the shell session that had an accepted text to store.
- The first packet of a table without columns opens like an OK packet, and a client reads no table; a missing
  value is sent as an empty string rather than as NULL.
- A payload of 2^24 - 1 bytes or more never reaches a client as it was sent, because the source sends no
  continuation packets (`Mysql.FrameReachesClient`).
- `PASS` without `USER` is compared as the user `None` (`Pop3.UnsetUserIsNone`).
- `session_opening` is set and never read (`deceptinet/services/ssh/server.py:181`). A client that leaves
  while its session row is being created ends up with two rows, one of them never closed
  (`Ssh.SplitIsReachable`).
- The event count in a session row misses events begun after the close (`Recorder.NumbersAndCount`).

## Model

| member | source | states |
|---|---|---|
| Paths.CanonicalForm | deceptinet/session/vfs.py:51-59 | the paths normalisation leaves alone are exactly one or two slashes followed by clean components |
| Paths.NormalizeIsCanonical | deceptinet/session/vfs.py:51-59 | from a canonical directory every input resolves to a canonical path, and resolving again changes nothing |
| Paths.NormalizeComposes | deceptinet/session/vfs.py:51-59 | resolving `p` and then `q` is resolving their join, from any absolute directory |
| Paths.RenderReadsBack | deceptinet/session/vfs.py:51-59 | clean components written out as a path read back as the same components and slashes |
| Paths.PartsOfCanonical | deceptinet/session/vfs.py:61-66 | the walk along a canonical path takes exactly its components, except for "//" |
| Paths.SlotIsPathExactly | deceptinet/session/vfs.py:120-147 | `mkdir`, `write_file` and `remove` act on the path lookups walk if and only if it does not end in a slash and its last slash is a lone one |
| Paths.SlotOfCanonical | deceptinet/session/vfs.py:120-147 | of the canonical paths only "/", "//" and "//name" fail that test |
| Paths.OneStep | deceptinet/session/vfs.py:51-59 | from a canonical directory a proper name leads one level down, `..` one up and no further than the root, `.` nowhere; an absolute path ignores the directory |
| Paths.SlashesInFront | deceptinet/session/vfs.py:51-59 | two slashes in front are kept, any other number counts as one |
| FlatFs.OperationsKeepWellFormed | deceptinet/session/vfs.py:105-147 | every mutation keeps a root directory and every entry inside a directory, so files never have children |
| FlatFs.OperationsKeepNames | deceptinet/session/vfs.py:105-147 | every mutation keeps names without slashes |
| FlatFs.LookupStops | deceptinet/session/vfs.py:61-72 | a failed walk reports what stood at its first missing component |
| FlatFs.MkdirThenLookup | deceptinet/session/vfs.py:120-128 | a successful `mkdir` adds one empty, listed directory; lookups find it if and only if the path is its own slot |
| FlatFs.WriteThenRead | deceptinet/session/vfs.py:94-138 | a write reads back if the path is its own slot and is invisible to reads otherwise; the last write wins |
| FlatFs.RemoveIsExact | deceptinet/session/vfs.py:140-147 | removal succeeds exactly when the entry is there, and drops that entry and its subtree and nothing else |
| FlatFs.RemoveUndoesCreation | deceptinet/session/vfs.py:120-147 | removing what a successful `mkdir` or first write made restores the filesystem |
| FlatFs.MakedirsWalks | deceptinet/session/vfs.py:106-118 | creating while walking equals the all-or-nothing definition: a file in the way is met before anything was made |
| FlatFs.MakedirsIsExact | deceptinet/session/vfs.py:106-118 | failure changes nothing and happens exactly when a prefix is a file; success adds exactly the missing prefixes as the caller's directories; repeating changes nothing |
| FlatFs.MakedirsThenLookup | deceptinet/session/vfs.py:106-118 | after success the path is found if and only if it was there or has no empty component |
| FlatFs.LookupIsExact | deceptinet/session/vfs.py:61-72 | a path that is not found fails with "Not a directory" if and only if a file stands above it |
| FlatFs.ReadIsExact | deceptinet/session/vfs.py:94-98 | over every map and path: `read` fails with "Is a directory" if and only if the path is one, and gives `c` if and only if the path is there, no directory and holds `c` |
| FlatFs.Utf8LengthIs | deceptinet/session/vfs.py:100-103 | the size of a text is the sum of the UTF-8 lengths of its characters |
| FlatFs.ChildrenAreOneBelow | deceptinet/session/vfs.py:88-92 | a directory lists a name if and only if that entry is one level below it |
| FlatFs.MkdirIsExact | deceptinet/session/vfs.py:120-128 | adds one empty `rwxr-xr-x` directory of the caller if and only if the parent is a directory and the name is free; which error otherwise, and no change |
| FlatFs.WriteFileIsExact | deceptinet/session/vfs.py:130-138 | puts one `rw-r--r--` file of the caller with that text if and only if the parent is a directory and no directory bears the name; which error otherwise, and no change |
| FlatFs.RemoveErrors | deceptinet/session/vfs.py:140-147 | what `remove` reports when it removes nothing |
| Names.ListingIsUnique | deceptinet/session/vfs.py:88-92 | a directory has one listing: its names in code-point order |
| Names.BeforeIsCodePointOrder | deceptinet/session/vfs.py:88-92 | the order of listings is that of code points at the first difference, a prefix coming first |
| Vfs.GraftedIsTree | deceptinet/session/vfs.py:114-138 | linking a new node into a directory keeps the node graph a tree whose nodes bear the names of their paths |
| Vfs.PrunedIsTree | deceptinet/session/vfs.py:140-147 | so does unlinking one with all below it |
| Vfs.VirtualFS.constructor | deceptinet/session/vfs.py:46-47 | a new filesystem is a lone root directory |
| Vfs.VirtualFS.Resolve | deceptinet/session/vfs.py:61-72 | returns the node of the path, or the error the flat map prescribes |
| Vfs.VirtualFS.Exists | deceptinet/session/vfs.py:75-80 | true exactly for the paths in the map |
| Vfs.VirtualFS.IsDir | deceptinet/session/vfs.py:82-86 | true exactly for the directories in the map |
| Vfs.VirtualFS.ListDir | deceptinet/session/vfs.py:88-92 | the sorted names of the entries one level below, or the prescribed error |
| Vfs.VirtualFS.Read | deceptinet/session/vfs.py:94-98 | the content in the map, or the prescribed error |
| Vfs.VirtualFS.Stat | deceptinet/session/vfs.py:100-103 | name, kind, byte size, owner and mode of the entry in the map, or the prescribed error |
| Vfs.VirtualFS.Makedirs | deceptinet/session/vfs.py:106-118 | the tree after it and the error are those of the all-or-nothing definition |
| Vfs.VirtualFS.Mkdir | deceptinet/session/vfs.py:120-128 | the tree after it and the error are those of the map operation |
| Vfs.VirtualFS.WriteFile | deceptinet/session/vfs.py:130-138 | the tree after it and the error are those of the map operation |
| Vfs.VirtualFS.Remove | deceptinet/session/vfs.py:140-147 | the tree after it and the error are those of the map operation |
| Scanner.IterTopLevelQuotes | deceptinet/engine/vanilla.py:516-528 | yields every character with the flag a recursive reading of quotes gives it |
| Scanner.FlagsAppend | deceptinet/engine/vanilla.py:516-528 | the flags of a line are those of its first part, then those of the rest from where the quotes stand |
| Scanner.FindTopLevel | deceptinet/engine/vanilla.py:535-546 | the first place where the operator stands wholly outside quotes, or -1 if there is none |
| Scanner.Find | deceptinet/engine/vanilla.py:535-546 | the search loop finds that place |
| Scanner.SplitOnce | deceptinet/engine/vanilla.py:549-553 | both parts and the operator give the text back |
| Scanner.SplitOnceFirst | deceptinet/engine/vanilla.py:549-553 | the first part holds no further such operator |
| Scanner.SplitLine | deceptinet/engine/vanilla.py:556-583 | the index loop cuts a line as the recursive reading does |
| Scanner.SplitSequenceIsExact | deceptinet/engine/vanilla.py:556-583 | cutting and gluing are mutually inverse: a cut glues back to the line, every cut is well formed, and every well-formed cut is the cut of its own text |
| Scanner.SegmentKeepsFlags | deceptinet/engine/vanilla.py:516-583 | a segment scanned by itself gets the flags it has in the whole line |
| Scanner.OneCommandLine | deceptinet/engine/vanilla.py:556-583 | a line with neither operator anywhere is one command |
| Scanner.QuotesGroup | deceptinet/engine/vanilla.py:516-528 | text between two like quotes is quoted whatever it holds, and behind it the scan starts afresh; an open quote reaches to the end |
| Scanner.CutAtOperator | deceptinet/engine/vanilla.py:556-583 | a line without quotes is cut at a `;` or `&&` and nowhere else |
| Expand.ParseIsLossless | deceptinet/engine/vanilla.py:487-513 | a token is the text of its fragments, each a proper literal, `$name` or `${name}` |
| Expand.NoDollarNoChange | deceptinet/engine/vanilla.py:488-489 | a token without `$` expands to itself |
| Expand.OnlyNamedVariablesMatter | deceptinet/engine/vanilla.py:487-513 | expansion depends on the values of the named variables only |
| Expand.ValueIsCopied | deceptinet/engine/vanilla.py:494-502 | a value is copied whatever it contains: it is not read again and does not change how the rest is read |
| Expand.NameIsExpanded | deceptinet/engine/vanilla.py:503-510 | a bare `$name` is taken as long as it can be and replaced by its value, or by nothing; what follows is expanded by itself |
| Expand.StrayDollarIsCopied | deceptinet/engine/vanilla.py:511-512 | a `$` that opens neither form is copied |
| Expand.ExpandOne | deceptinet/engine/vanilla.py:494-512 | one round of the loop appends the value of the fragment it stands at and moves behind it |
| Expand.ExpandEnv | deceptinet/engine/vanilla.py:487-513 | the loop ends and renders the fragments |
| Arguments.PlainCommand | deceptinet/engine/vanilla.py:108-140 | a command without a pipe or redirect loses nothing but a leading `sudo`; without that and without `$` its tokens run as they are |
| Arguments.RedirectTargetIsRaw | deceptinet/engine/vanilla.py:108-121 | the redirect depends on neither the tokenizer nor the variables |
| Arguments.FirstRedirectCounts | deceptinet/engine/vanilla.py:114-128 | what stands before the first `>>` outside quotes runs, or before the first `>` if there is none, and all behind it is the target |
| Arguments.RedirectIsCut | deceptinet/engine/vanilla.py:114-128 | of `a > t` and `a >> t`, with no operator outside quotes in `a` or `t`, the words of `a` run and the stripped `t` is the target; two arrows append |
| Arguments.OnlyTheFirstStageRuns | deceptinet/engine/vanilla.py:108-112 | what stands before the first pipe outside quotes is parsed as a command of its own and is all that runs |
| Arguments.WordsAreExpanded | deceptinet/engine/vanilla.py:140 | word by word, expanded in place |
| Arguments.UserOptionIsNeverSeen | deceptinet/engine/vanilla.py:133-136 | the `-u` branch is dead: no flag is left in front of it |
| Arguments.DropSudoIsExact | deceptinet/engine/vanilla.py:131-136 | what runs is the whole command, or, if it begins with `sudo`, what follows the longest run of `sudo` and flags |
| Arguments.SudoRunsWhatFollows | deceptinet/engine/vanilla.py:130-136 | a `sudo` line runs the words after its options if and only if no `-u` names a user other than "sudo" with a word that is no flag |
| Arguments.SudoUserIsRun | deceptinet/engine/vanilla.py:130-146 | `sudo -u root ls` answers "root: command not found" |
| Arguments.LsArgumentsAre | deceptinet/engine/vanilla.py:222-236 | paths are the operands; all or long listing if and only if some argument asks for it |
| Arguments.EchoKeepsWords | deceptinet/engine/vanilla.py:169-175 | words without blanks can be read off what `echo` prints |
| Arguments.ExportAssigns | deceptinet/engine/vanilla.py:401-406 | each variable gets what the last argument for it says, the others stay |
| Engine.MkdirOne | deceptinet/engine/vanilla.py:336-344 | state, text and status for one `mkdir` operand |
| Engine.RmdirOne | deceptinet/engine/vanilla.py:350-360 | state, text and status for one `rmdir` operand |
| Engine.RmOne | deceptinet/engine/vanilla.py:376-383 | state, text and status for one `rm` operand, silent under `-f` |
| Engine.TouchOne | deceptinet/engine/vanilla.py:388-394 | state, text and status for one `touch` operand |
| Engine.CatOne | deceptinet/engine/vanilla.py:309-318 | text and status for one `cat` operand, with its final newline |
| Engine.DoEach | deceptinet/engine/vanilla.py:347-361 | the operand loop threads state, text and status through; only `touch` stops at a failure |
| Engine.CmdEcho | deceptinet/engine/vanilla.py:169-175 | prints words that can be read off the line again, and changes nothing |
| Engine.ReadLsArguments | deceptinet/engine/vanilla.py:222-236 | the operands as paths; all or long listing if and only if some argument asks for it |
| Engine.LsTarget | deceptinet/engine/vanilla.py:242-259 | one block of `ls` output and whether the path was missing, or the exception of a long listing |
| Engine.StatRows | deceptinet/engine/vanilla.py:267-276 | what a long listing looks up for each name, or the exception of the first `stat` that fails |
| Engine.CmdLs | deceptinet/engine/vanilla.py:221-260 | all blocks in order and status 2 if any path was missing, or an exception; no state change |
| Engine.CmdCd | deceptinet/engine/vanilla.py:286-300 | `cd` changes cwd, OLDPWD and PWD together, or nothing |
| Engine.CmdMkdir | deceptinet/engine/vanilla.py:321-345 | `-p` anywhere applies to all operands; without operands an error |
| Engine.CmdRm | deceptinet/engine/vanilla.py:363-384 | an `f` in any flag silences all failures |
| Engine.CmdExport | deceptinet/engine/vanilla.py:401-406 | assigns each `name=value` in order, cut at the first `=` |
| Engine.Dispatch | deceptinet/engine/vanilla.py:33-63 | the handler of each command name, over the whole session state, exceptions included |
| Engine.WithoutSudo | deceptinet/engine/vanilla.py:131-136 | a suffix of the words: all of them, or, after a leading `sudo`, what follows the longest run of `sudo` and flags |
| Engine.ExpandWords | deceptinet/engine/vanilla.py:140 | every word expanded, in order |
| Engine.ParseLine | deceptinet/engine/vanilla.py:108-140 | words, redirect and pipe flag of a command |
| Engine.ApplyRedirect | deceptinet/engine/vanilla.py:150-161 | the output goes to the file, or its error replaces it |
| Engine.RunOneSegment | deceptinet/engine/vanilla.py:101-163 | new session state, output, status and meta data of one command, or the exception and the state it leaves |
| Engine.RespondSync | deceptinet/engine/vanilla.py:73-99 | new session state and the whole reply for a line, or the exception that takes its place |
| Session.RunOneKeeps | deceptinet/engine/vanilla.py:321-395 | one operand removes exactly the entries at or below a slot that `rm` or `rmdir` removed with success, leaves every other entry wholly unchanged but a file `touch` empties, and keeps the session reachable |
| Session.RunHandlerKeeps | deceptinet/engine/vanilla.py:148 | one command removes exactly what its operands removed with success, leaves every other entry wholly unchanged but files `touch` empties, and moves to an existing directory if at all |
| Session.RespondKeeps | deceptinet/engine/vanilla.py:73-163 | one line keeps the session reachable, its commands account for every entry that disappears, and it adds one line of history |
| Session.SessionsKeep | deceptinet/engine/vanilla.py:73-163 | over any session entries disappear only through removals that ran and succeeded, and content, owner and mode change only where a redirect replaced or an odd `touch` emptied a file; the cwd stays absolute, and canonical if it was |
| Session.MadeDirectoryStaysListed | deceptinet/engine/vanilla.py:321-345 | a directory made by an operand of `mkdir` is in every later listing of its parent, in the same line or later, until a removal of it or an ancestor succeeds |
| Session.RedirectThenCat | deceptinet/engine/vanilla.py:150-161 | a silent redirect stored exactly what would have been printed, after the old text if it appends; `cat` prints it back; a failing one changes nothing |
| Session.OnlyOddPathsAreEmptied | deceptinet/engine/vanilla.py:386-395 | `touch` empties a file only if its path is not its own slot, like "//x" |
| Session.OnlyTheseTouch | deceptinet/engine/vanilla.py:33-63 | only `rm` and `rmdir` remove, only `touch` and redirects change a text, and a redirect only at the slot of its target |
| Commands.KnownCommands | deceptinet/engine/vanilla.py:33-63 | the names that have a handler |
| Commands.OpenCommands | deceptinet/engine/vanilla.py:33-63 | the handlers left open are given their name, arguments, variables and history, and change nothing |
| Commands.OperandCommands | deceptinet/engine/vanilla.py:302-395 | for all arguments: which flag each command looks for, and that it works through all operands |
| Commands.OperandsAre | deceptinet/engine/vanilla.py:302-395 | the operands are the arguments without a leading dash, in order |
| Commands.OperandsInTurn | deceptinet/engine/vanilla.py:302-395 | one list of operands after another: texts follow each other, a failure shows in the status, and only `touch` stops at it |
| Commands.CatAnswers | deceptinet/engine/vanilla.py:302-319 | `cat f`: the content ended by a newline; "Is a directory" and status 1 for a directory; why it is not found |
| Commands.MkdirAnswers | deceptinet/engine/vanilla.py:321-345 | `mkdir f`: the one new entry, or the message and no change |
| Commands.MkdirParentsAnswers | deceptinet/engine/vanilla.py:336-344 | `mkdir -p f`: exactly the missing directories on the way, or "Not a directory" and no change |
| Commands.RmdirAnswers | deceptinet/engine/vanilla.py:347-361 | `rmdir d`: takes away exactly an empty directory, or says why not |
| Commands.RmAnswers | deceptinet/engine/vanilla.py:363-384 | `rm -flag f`: takes away exactly the entry and what is below it; otherwise says why not, unless the flag holds an `f` |
| Commands.TouchAnswers | deceptinet/engine/vanilla.py:386-395 | `touch f`: no change if the path is there; otherwise exactly one empty file if and only if the write succeeds; the messages |
| Commands.TouchCanEmpty | deceptinet/engine/vanilla.py:386-395 | the session in which `touch //x` empties a file |
| Commands.RedirectAnswers | deceptinet/engine/vanilla.py:150-161 | the one file a redirect puts, with its text, or the message and status 1 |
| Commands.EchoIntoFile | deceptinet/engine/vanilla.py:101-175 | from the characters of `echo words > t` to the entry in the filesystem |
| Commands.SessionAnswers | deceptinet/engine/vanilla.py:177-181 | `pwd` and `whoami` |
| Commands.CdAnswers | deceptinet/engine/vanilla.py:286-300 | `cd d`: the new cwd, the old one in OLDPWD, the new one in PWD, every other variable kept; or the message and no change |
| Commands.CdSpecialTargets | deceptinet/engine/vanilla.py:286-293 | `cd`, `cd ~/x` and `cd -` each as the plain `cd` they stand for |
| Commands.ThereAndBack | deceptinet/engine/vanilla.py:286-300 | `cd d` and `cd -` come back to a canonical directory that is still there |
| Commands.UnknownCommand | deceptinet/engine/vanilla.py:143-146 | any other name: "command not found" under its last component, status 127, no change |
| LsText.TargetsInTurn | deceptinet/engine/vanilla.py:241-260 | the blocks of `ls` follow each other; status 2 if and only if a path is missing |
| LsText.LsAnswers | deceptinet/engine/vanilla.py:242-259 | `ls t` and `ls -a t`: the names can be read back in order; nothing for an empty directory; the path for a file; the message for a missing one |
| LsText.LsOfNothing | deceptinet/engine/vanilla.py:237-240 | without a path `ls` lists the cwd; `dir` is `ls` |
| LsText.LongListingShows | deceptinet/engine/vanilla.py:262-284 | `ls -l` and `ls -la` are given name, kind, size, owner and mode of exactly the entries of the directory, and no details of the dots |
| Lines.NothingToRun | deceptinet/engine/vanilla.py:101-128 | a blank command does nothing; a redirect without a command creates no file |
| Lines.OneMoreCommand | deceptinet/engine/vanilla.py:85-99 | a further command runs in the state that was left unless `&&` follows a failure; its output is added and its status stays |
| Lines.WhatCloses | deceptinet/engine/vanilla.py:73-83 | a line closes the session if and only if it begins with `exit`, `logout` or `quit`, and then does nothing else; a blank line does nothing |
| Lines.MetaOfSegments | deceptinet/engine/vanilla.py:85-99 | a line reports a pipe if and only if a command that ran had one, and the last command that was not found |
| Cwd.CwdGoesWhenRemoved | deceptinet/engine/vanilla.py:347-384 | an operand makes the cwd disappear if and only if its slot at or above the cwd is removed with success |
| Cwd.CwdGoesWithCommand | deceptinet/engine/vanilla.py:148 | a whole command does so if and only if a slot its operands remove is at or above the cwd |
| Cwd.RmDotLeavesNothing | deceptinet/engine/vanilla.py:363-384 | `rm .` succeeds and leaves the session without its directory, from any canonical cwd that is its own slot |
| Cwd.DirectoryCanBeGone | deceptinet/engine/vanilla.py:363-384 | a session in `/tmp` for which that happens |
| Cwd.CwdStays | deceptinet/engine/vanilla.py:73-163 | over any session the cwd exists as long as no command removed it or something above it |
| Cwd.ExportDecidesPwd | deceptinet/engine/vanilla.py:401-406 | after `export`, PWD is the cwd if and only if its last argument for PWD says so, or it has none and PWD was |
| Cwd.HandlersDecidePwd | deceptinet/engine/vanilla.py:286-300 | a `cd` that succeeds makes PWD the cwd; no command but `export` makes it differ |
| Cwd.ExportCanMislead | deceptinet/engine/vanilla.py:401-406 | `export PWD=/` elsewhere makes the two differ |
| Listing.LongListingRaises | deceptinet/engine/vanilla.py:262-276 | a block raises if and only if the directory lists a name whose lexical place is empty; from a canonical path only "//" has such names |
| Listing.LsEachRaises | deceptinet/engine/vanilla.py:241-257 | `ls` raises if and only if the block of some target does |
| Listing.LineCanDie | deceptinet/engine/vanilla.py:262-276 | after `mkdir /` and `mkdir //x`, the line `ls -l //; touch /t` gets no reply and creates nothing |
| AndLists.LoopIsLists | deceptinet/engine/vanilla.py:85-99 | the flat loop over segments equals evaluating a sequential list of AND lists |
| AndLists.LineIsListOfAndLists | deceptinet/engine/vanilla.py:85-99 | that holds for every line: state, output, status and meta data |
| HomeDirs.CdToDisplayedDirectory | deceptinet/session/state.py:36-42 | `cd` on what the prompt shows resolves to the cwd, succeeds if and only if that directory exists, and restores its spelling if and only if it is canonical |
| HomeDirs.DisplayIs | deceptinet/session/state.py:36-42 | a tilde for the home directory and in front of what is below it, the cwd itself otherwise |
| HomeDirs.HomeIsCanonical | deceptinet/session/state.py:32-34 | a home is canonical if and only if the login name is root or all its components are proper names |
| HomeDirs.EnsureHome | deceptinet/session/state.py:97-103 | the home is made if it is missing, as the all-or-nothing definition says |
| HomeDirs.HomeExistsAfterwards | deceptinet/session/state.py:97-103 | after success the home exists if and only if it did before or has no empty component |
| HomeDirs.SeedFs | deceptinet/session/state.py:49-94 | a new filesystem filled call by call, or none if a call raises |
| HomeDirs.BuildSessionState | deceptinet/session/state.py:97-118 | the new session object is the built session |
| HomeDirs.BuiltSessionIsReachable | deceptinet/session/state.py:97-118 | every built session satisfies the session invariant whatever the login name, with PWD naming its cwd |
| HomeDirs.SessionStarts | deceptinet/session/state.py:97-118 | it starts at home with HOME and PWD saying so and no history; the seeded entries are there, and directories added for the home are the user's |
| HomeDirs.SeedsInTurn | deceptinet/session/state.py:49-94 | one seed after another until a call raises |
| Cache.PutKeepsStore | deceptinet/engine/cache.py:42-51 | a put fails if and only if there is no room at all; else the order list still names each key once and other entries keep their values |
| Cache.OrderIsLastNewKeys | deceptinet/engine/cache.py:42-51 | the order list is the last `maxsize` new keys |
| Cache.ValuesAreLatest | deceptinet/engine/cache.py:42-51 | every stored value is the last one put for its key |
| Cache.CacheIsLastWrites | deceptinet/engine/cache.py:28-51 | both together with the size bound, over every history of puts |
| Cache.FreshKeyStays | deceptinet/engine/cache.py:42-51 | a new key leaves only after `maxsize` later new keys |
| Cache.KeysMatch | deceptinet/engine/cache.py:28-30 | folded keys agree if and only if persona and words do, exact keys if and only if persona and command do |
| Cache.ResponseCache.constructor | deceptinet/engine/cache.py:19-26 | starts empty |
| Cache.ResponseCache.Get | deceptinet/engine/cache.py:32-40 | the stored value and the right counter, the contents untouched |
| Cache.ResponseCache.Set | deceptinet/engine/cache.py:42-51 | the contents become those of the pure put, or it raises and changes nothing |
| Serving.TryProviders | deceptinet/engine/augment.py:86-99 | the first provider that does not raise, if any |
| Serving.StepIsSafe | deceptinet/engine/augment.py:51-84 | between two awaits every cached and served text stays a genuine, accepted one |
| Serving.RunIsSafe | deceptinet/engine/llm.py:71-121 | so does every interleaving |
| Serving.OnlyAcceptedTextIsServed | deceptinet/engine/llm.py:71-121 | every text served or cached was given by a provider for that key and passed the guard; the cache is the last writes of that history; a request crashes only on a cache without room |
| Serving.GenuineTextIsClean | deceptinet/engine/validator.py:61-73 | such a text is neither blank nor a leak, up to the shell's one newline |
| Serving.LLMAugmentor.Begin | deceptinet/engine/augment.py:51-53 | the lookup is one step of the shared machine |
| Serving.LLMAugmentor.Finish | deceptinet/engine/augment.py:63-84 | the return from a provider, a raising cache included, is one step of the shared machine, whatever others did meanwhile |
| Llm.EligibleLineChangesNothing | deceptinet/engine/llm.py:124-132 | on every eligible line vanilla ran no handler: only the history grew, and the reply is "command not found" |
| Llm.WorldStaysOk | deceptinet/engine/llm.py:60-170 | the simulation invariant over every interleaving of lines, warm-ups and completions |
| Llm.SessionsStaySeparate | deceptinet/engine/llm.py:60-121 | no session's lines or identity mix with another's |
| Llm.LlmModeKeepsVanillaState | deceptinet/engine/llm.py:3-9 | LLM mode and vanilla mode reach the same session state and end sessions at the same line unless the cache has no room at all; replies differ only on eligible lines, and then by a text given for the key of that line |
| Llm.LLMEngine.Begin | deceptinet/engine/llm.py:60-80 | is one step of the world: the session becomes what vanilla makes it, and the reply is final unless the line is eligible and not cached |
| Llm.LLMEngine.Finish | deceptinet/engine/llm.py:83-121 | is one step of the world: the vanilla reply, an accepted text with its newline, or a crash of the cache |
| Answers.AcceptedMeans | deceptinet/engine/validator.py:61-73 | a text is accepted if and only if it is, without fences, what the first provider that did not raise wrote, that provider is not "static", and it is neither blank nor a leak |
| Answers.AskServes | deceptinet/engine/augment.py:51-53 | a cached key is served at once; any other waits and nothing is served |
| Answers.ReturnServes | deceptinet/engine/augment.py:63-84 | an accepted text is served and cached, for a shell with a final newline; without one the request falls back and the cache stays; a cache without room ends it |
| Answers.OperatorsAre | deceptinet/engine/llm.py:124-132 | the operators that keep a line from the model, by their characters |
| Answers.WhenModelsAreAsked | deceptinet/engine/llm.py:124-132 | a line is eligible if and only if it has none of the operators, does not close the session, and its command after expansion and `sudo` has a name outside the table |
| Answers.LineShows | deceptinet/engine/llm.py:60-83 | a line that is not eligible shows the vanilla answer, a cached one the cached text at once, any other nothing yet |
| Answers.CompletedShows | deceptinet/engine/llm.py:85-121 | when the providers return the session is shown exactly the accepted text with a final newline and status 0, or the vanilla answer if none is accepted |
| Answers.ModelAnswerIsShown | deceptinet/engine/llm.py:60-121 | from an eligible line to that answer, whatever other sessions do in between |
| Mysql.FrameReadsBack | deceptinet/services/mysql/protocol.py:19-29 | a frame reads back if and only if its payload is shorter than 2^24 bytes |
| Mysql.FrameReachesClient | deceptinet/services/mysql/protocol.py:19-21 | a client that joins continuation packets takes a frame for what was sent if and only if its payload is shorter than 2^24 - 1 bytes |
| Mysql.IntReadsBack | deceptinet/services/mysql/protocol.py:34-41 | lengths decode to themselves; none starts like NULL or an error, and like an EOF only from 2^24 on |
| Mysql.StrReadsBack | deceptinet/services/mysql/protocol.py:44-46 | strings decode to themselves whatever follows |
| Mysql.BytesOfLengths | deceptinet/services/mysql/protocol.py:19-41 | the bytes of headers and lengths, least significant first |
| Mysql.BytesOfColumn | deceptinet/services/mysql/protocol.py:98-113 | the bytes of a column definition |
| Mysql.ColumnReadsBack | deceptinet/services/mysql/protocol.py:98-113 | a column definition decodes to its name and is no EOF or error |
| Mysql.RowReadsBack | deceptinet/services/mysql/protocol.py:121-124 | a row decodes to its values and is no EOF or error |
| Mysql.RaggedRow | deceptinet/services/mysql/protocol.py:121-124 | a row of another width does not decode |
| Mysql.BuildResultSet | deceptinet/services/mysql/protocol.py:116-125 | the packets in order: count, columns, EOF, rows, EOF |
| Mysql.WriteAnswer | deceptinet/services/mysql/server.py:83-88 | the packets of an answer framed with the numbers 1, 2, ... modulo 256 |
| Mysql.ResultSetReadsBack | deceptinet/services/mysql/protocol.py:116-125 | a client reads exactly the table that was sent, consuming nothing further, if it has a column and every row has that width, and no table otherwise |
| Mysql.NoColumnsReadAsOk | deceptinet/services/mysql/protocol.py:116-125 | what a client receives first for a table without columns is the byte that opens an OK packet, and it reads no table |
| Tsv.ParsedIsRectangular | deceptinet/engine/prompts/mysql.py:33-47 | whatever the text, parsed rows all have the width of a non-empty header |
| Tsv.ParsedCellsAreClean | deceptinet/engine/prompts/mysql.py:33-47 | no parsed cell holds a tab or a line break |
| Tsv.NoTableMeans | deceptinet/engine/prompts/mysql.py:36-41 | there is no table if and only if the text is blank or a lone "ok" in any case |
| Tsv.TableIs | deceptinet/engine/prompts/mysql.py:39-47 | the first line that is not blank names the columns, each further one is a row; missing cells are empty, surplus ones dropped |
| Tsv.LinesAre | deceptinet/engine/prompts/mysql.py:39 | lines end at each line break, CRLF being one |
| Tsv.TableReadsBack | deceptinet/engine/prompts/mysql.py:33-47 | a table of clean cells written out line by line is read back cell for cell |
| Tsv.ParsedTableReachesClient | deceptinet/services/mysql/server.py:136-140 | what was parsed from a model's text arrives at the client cell for cell |
| Pop3.MessageReadsBack | deceptinet/services/pop3/server.py:136-140 | a client recovers exactly the lines of every body and stops at the terminator and nowhere before |
| Pop3.Handle | deceptinet/services/pop3/server.py:40-115 | the loop over the client's lines equals the recursive session |
| Pop3.AnswerKeeps | deceptinet/services/pop3/server.py:64-105 | one command: what it may answer before login, what it records, what it keeps |
| Pop3.UnsetUserIsNone | deceptinet/services/pop3/server.py:67-71 | a password before any user is compared for "None" and recorded for "" |
| Pop3.SessionsKeep | deceptinet/services/pop3/server.py:52-115 | login never falls back, holds if and only if an attempt was accepted, at the latest by the configured number; recorded attempts are the PASS lines; the mailbox keeps its size |
| Pop3.RefusedUntilLogin | deceptinet/services/pop3/server.py:52-115 | over a session the responses that refuse are exactly those to commands needing a login before the first accepted PASS |
| Pop3.StatIsSumOfList | deceptinet/services/pop3/server.py:79-86 | the STAT total is the sum of the LIST sizes |
| Mailbox.BodyLinesAre | deceptinet/services/pop3/server.py:136-139 | a body falls into lines at each LF or CRLF and nowhere else |
| Mailbox.OneLineOnTheWire | deceptinet/services/pop3/server.py:136-140 | the characters of a message of one line |
| Mailbox.WordsAre | deceptinet/services/pop3/server.py:59-61 | the command ends at the first space, its argument is all the rest |
| Mailbox.RetrieveReads | deceptinet/services/pop3/server.py:117-140 | RETR n: a client reads the lines of message n; a generated text replaces that message and no other; which n are refused |
| Mailbox.LoggingIn | deceptinet/services/pop3/server.py:64-76 | when a password is accepted, and what is recorded |
| Mailbox.LookingAround | deceptinet/services/pop3/server.py:77-105 | no other command changes anything; what STAT, LIST and the rest answer; which commands are unknown |
| Ssh.StepKeepsInv | deceptinet/services/ssh/server.py:130-212 | every step between awaits keeps the connection invariant |
| Ssh.RunKeepsInv | deceptinet/services/ssh/server.py:130-316 | so does every interleaving |
| Ssh.EveryConnectionIsRecordedOnce | deceptinet/services/ssh/server.py:130-316 | the finaliser body runs at most once; at rest there is exactly one row, closed once and with every attempt in order, if and only if it did not overlap an open |
| Ssh.SplitIsReachable | deceptinet/services/ssh/server.py:181-182 | an interleaving that leaves two rows, one never closed |
| Ssh.AttemptsAreJudged | deceptinet/services/ssh/server.py:332-354 | an attempt is accepted if and only if it is listed or late enough, and none is lost |
| Ssh.AttemptsAreRecorded | deceptinet/services/ssh/server.py:332-354 | the attempts are recorded one by one with their names and passwords |
| Ssh.EverythingFinishes | deceptinet/services/ssh/server.py:130-316 | from every state both coroutines can come to rest, without another attempt or channel |
| Ssh.ConnCtx.ValidatePassword | deceptinet/services/ssh/server.py:332-354 | the context follows the attempt step and returns its verdict |
| Ssh.ConnCtx.EnterFinaliser | deceptinet/services/ssh/server.py:145-156 | the context follows the finaliser step; what is left to do is a probe row, a close or nothing |
| Ssh.ConnCtx.RowCreated | deceptinet/services/ssh/server.py:130-139 | once the row is written the context and the rows follow the step, whatever other tasks did meanwhile |
| Ssh.ConnCtx.CredentialWritten | deceptinet/services/ssh/server.py:140-143 | so they do once a credential is written; after the last one the context has its handle |
| Ssh.ConnCtx.OpenSession | deceptinet/services/ssh/server.py:130-143 | undisturbed, these steps add one row with every attempt in order, which is one run of the step system |
| Recorder.StepKeepsInv | deceptinet/telemetry/recorder.py:111-178 | every number given out is on its way or written, once; a close takes effect once |
| Recorder.RunKeeps | deceptinet/telemetry/recorder.py:111-178 | over every interleaving, with the count a close takes along |
| Recorder.AllNumbersOnce | deceptinet/telemetry/recorder.py:124-126 | distinct rows that are exactly 1 to n are n rows |
| Recorder.NumbersAndCount | deceptinet/telemetry/recorder.py:111-178 | rows are numbered 1 to N without repetition once all writes land; the stored count is the number of events begun before the close, and the row count if and only if none followed |
| Recorder.WritesLand | deceptinet/telemetry/recorder.py:111-178 | from every state all writes can land, and then the rows are those there were and those on their way |
| Recorder.SessionHandle.BeginEvent | deceptinet/telemetry/recorder.py:124-125 | hands out the next number, as the step does |
| Recorder.SessionHandle.BeginClose | deceptinet/telemetry/recorder.py:172-178 | takes the count along the first time only, as the step does |
| Classifier.Accumulate | deceptinet/telemetry/classifier.py:104-142 | the sums built up branch by branch are the capped evidence of both sides |
| Classifier.Classify | deceptinet/telemetry/classifier.py:104-188 | the branches assign the label and confidence of the evidence |
| Classifier.SortedIsOrdered | deceptinet/telemetry/classifier.py:78-81 | the times are the stamps in ascending order, each as often as it came |
| Classifier.VariationIgnoresSpeed | deceptinet/telemetry/classifier.py:82-85 | scaling all intervals does not change how the coefficient of variation compares with a limit |
| Classifier.FasterIsNotMoreHuman | deceptinet/telemetry/classifier.py:104-179 | playing a session faster never lowers automation evidence or raises human evidence; automated stays automated, and none becomes human-like |
| Classifier.StartTimeDoesNotMatter | deceptinet/telemetry/classifier.py:78-188 | shifting all stamps changes neither label nor confidence |
| Classifier.ConfidenceIsBounded | deceptinet/telemetry/classifier.py:180-188 | a label resting on evidence has a confidence between 0.2 and 0.95, before rounding |
| Findings.MeanIsSpan | deceptinet/telemetry/classifier.py:76-81 | the mean gap is the time between the first and the last stamp over the number of gaps |
| Findings.VariationIs | deceptinet/telemetry/classifier.py:66-85 | the comparison of the coefficient of variation with a limit, from sums and squares alone |
| Findings.EvidenceIs | deceptinet/telemetry/classifier.py:104-142 | which findings count for which side and how much; no pace counts for both |
| Findings.EnoughMeans | deceptinet/telemetry/classifier.py:104-179 | automation evidence is enough if and only if a library is joined by another finding or three others agree; human evidence if and only if two findings do |
| Findings.LabelMeans | deceptinet/telemetry/classifier.py:155-179 | what each label needs, both ways |
| Findings.LabelsOccur | deceptinet/telemetry/classifier.py:155-179 | a session for each label, human-like among them |
| Findings.ConfidenceIs | deceptinet/telemetry/classifier.py:180-188 | the confidence is a fifth, the margin, the data and the library added up, never cut off |

## Left out

- LsText.LongListingShows: is for canonical directories other than "//" whose names are proper ones; elsewhere a name may be looked up in another place or raise (Listing.LongListingRaises).
- Tsv.TableReadsBack: leaves out lines of nothing but tabs, which the parser drops as blank.
- Llm.LlmModeKeepsVanillaState: outputs are text, status and the close flag, without latency and meta data.
- Mysql.ResultSetReadsBack: assumes packets below 2^24 - 1 bytes, because longer payloads never reach a client as they were sent (Mysql.FrameReachesClient).
- Mysql.IntReadsBack: covers lengths below 2^64, beyond which no Python object has one.
- Ssh.EveryConnectionIsRecordedOnce: covers one channel per connection, and no failing datastore write.
- Ssh.ConnCtx.OpenSession: is the undisturbed case; the interleaved one is Ssh.ConnCtx.RowCreated, Ssh.ConnCtx.CredentialWritten and Ssh.EveryConnectionIsRecordedOnce.
- Cwd.CwdStays: goes one way, because a directory that was removed may be made again before the session ends; per operand and per command it is an equivalence (Cwd.CwdGoesWhenRemoved, Cwd.CwdGoesWithCommand).
- Llm.LLMEngine.Finish: takes the providers' results as an argument; cancellation while waiting is not modelled.
- Classifier.ConfidenceIsBounded: uses real numbers, so neither rounding to three digits nor floating point.
- Vfs.VirtualFS.Stat: counts the bytes of texts without lone surrogates.
- `shlex.split`, `str.isalpha` and `str.isalnum`: arbitrary functions of a `Host`, so every theorem holds for all of them.
- The canned commands (`ps`, `free`, `df`, `uname`, `which`, `env` and the like): one arbitrary function of arguments, variables and history, because they change nothing. The display order of variables is not modelled.
- The format of `ls -l`: an arbitrary function of what `stat` finds.
- The contents of the seeded files, the personas, the login banner and the prompt text: constants; a new filesystem is filled by an arbitrary list of calls.
- Sockets, asyncssh, SQLAlchemy, logging and configuration loading: plumbing; the datastore is rows that are appended and patched.
- LLM providers and prompts: a provider may raise or return any text. The patterns of the output guard and its fence stripping are arbitrary functions.
- The number `prewarm` returns: its lookups and puts are steps of the shared machine.
- The MySQL handshake, other commands and canned query answers: constants.
- UTF-8 on the wire: MySQL and POP3 texts are bytes or characters; encoding with replacement is left open.
- POP3 reply texts other than RETR: structured responses. DELE, RSET and TOP's line count do nothing in the source, and sizes there are not octets.
- HTTP service, attack mapping, indicator extraction, metrics, statistics, runner and kill switch: thin or without a useful invariant.
- The classifier's fingerprint and bot-script patterns: findings of a session given as booleans.
- Truncation of recorded responses and the fields of an event row besides its number: they do not take part in any property here.
