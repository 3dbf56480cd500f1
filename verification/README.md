# Verified model of the AL toolchain's stateful and structural core

The repository is a toolchain for the AL language of Business Central (BC). Most of it moves
bytes between processes. This project models the parts whose correctness takes an argument, in
the shape the source gives them, and proves what they are for:

* **The native debug session** (`SessionModel`, `SessionBreakpoints`, `SessionHits`,
  `SessionNames`, `SessionNaming`, `SessionLatch`, `NativeDebugging`). The session and what is known only to the BC
  server (live ids, where each was placed, the messages on the connection, the log of recorded
  Breaks) are one state machine; commands carry the server's replies, pushed events and the clock as inputs. The
  class `NativeDebugSession` performs the source's loops on its fields and is proved to take
  exactly the model's steps; invariants are proved over every run. The one assumption is that
  the server never hands out a breakpoint id twice and never hands out 0 for a breakpoint it
  placed. A failed removal may or may not have taken place, and a failed addition may leave a
  breakpoint behind (an orphan).
* **Calendar and timestamps** (`Calendar`, `Decimal`, `Timestamp`). Nested divisions of a day
  number against the reference calendar, which is nothing but month lengths and the leap rule.
* **Error-body redaction** (`Redaction`, `RedactionCoverage`, `RedactionNesting`). Truncation and one in-place pass per
  needle, and what they do to the value behind each needle of the original text.
* **Canonical navigation XML** (`Navigation`, `Sorting`). Equal canonical forms decide exactly
  the intended equivalence.
* **Workspace snapshots** (`Snapshot`, `SnapshotBatches`, `SnapshotWriters`, `WorkspaceSources`).
  The optimistic reader interleaved with atomic steps of one or several writers. The writers are
  modelled as the workspace crate has them: a change reaches `file_trees` and `files` in separate
  steps, and the revision is bumped only afterwards.
* **The native binder** (`Binding`), **compiler diagnostics** (`Diagnostics`), **message framing**
  (`Framing`), **CDATA sections** (`Cdata`), **test-stub names** (`TestStubs`), **generated ids**
  (`MethodId`) and **nested settings** (`Settings`).

Many results go through small definitions that code and statement share: what a terminator is, which
attribute marks an action, how a line is counted. A second group of modules states the same
behaviour with words, characters and numbers written out, so that these definitions are pinned as
well: `RedactionWords`, `RedactionBytes`, `NavigationNames`, `SessionLines`, `SessionWire`,
`SnapshotFiles`, `BindingNames`, `DiagnosticsCases`, `FramingHeaders`, `MethodIdCases`,
`TimestampCases`, `CdataCases`, `TestStubNames` and `SettingsCases`, with white space and letter
case in `Spelling`.

`Options` and `Strings` hold what several of them share. Where the source loops over mutable
state, the model is a method with that loop, proved equal to a function of its inputs or of the
old state; the lemmas are about that function.

Where code and documentation disagree, the model follows the code:

* `drain_events` is documented to fail after a number of rejected configuration attempts; the
  code tries once, and the first rejection is final (native_debug.rs:186-189 and 253-267).
* The `armed` index is there "so a Break event can name the breakpoint it came from"
  (native_debug.rs:31-33). That fails when two lines of one call are one line for the server,
  which a line shift can do: both breakpoints are placed, but no Break ever names the first
  (`SessionNaming.TwoLinesOneName`). `SessionNaming.CallAlwaysNames` says exactly which calls are
  sure to keep it true, and `SessionNaming.CallsDecide` which use of the session does. With two
  file names for one object a breakpoint can even lose its entry, so that a Break there names
  none (`SessionNames.TwoNamesLoseABreakpoint`).
* `normalize_navigation` calls all element text significant; text behind an element's end
  (`tail`) is dropped anywhere in the document: `Navigation.TailsAreDropped`.
* The snapshot is documented to fail when the workspace changes during collection
  (workspace_sources.rs:1-8, 179-183). A writer bumps the revision behind its changes, so a
  reader without the lock that diagnostics.rs:479-484 describes can succeed in between. Two
  things decide whether that does harm:
  * what one writer puts in front of one mark. `SnapshotBatches.BatchSafety` is the exact
    condition for a batch. `apply_disk_changes` with two updated files can be read torn, and so
    can the daemon's rename (file_refresh.rs:273-278) unless the new name sorts before the old
    one (`SnapshotBatches.RenameSafety`).
  * which writers are at work at the same time. `on_document_change` marks each file; alone, or
    taking turns with others that do the same, it is never read torn
    (`SnapshotWriters.TurnsAreAtomic`). Nothing in it, nor in the daemon's
    `write_al_file_and_refresh`, makes writers take turns, and two of them at different files
    can be read torn (`SnapshotWriters.TogetherSafety`).
* A settings comment promises that the deeper key always wins (settings.rs:82-88). It does only
  if it is set last: `Settings.UpperAndDeeper`.
* The diagnostic parser is documented to look for two numbers in parentheses; three also count
  (`Diagnostics.ThreeNumbersCount`), and so does one, which makes the whole line unreadable
  (`Diagnostics.ReadExactly`, `Diagnostics.MisleadingMessage`).
* `sanitize_error_body` is there so that no echoed credential is shown. It misses one when a
  header begins in the value of a header that is listed no later, and goes on behind it:
  `RedactionNesting.ValuesCutExactly` shows that these are exactly the bodies that keep a value.
* `method_id.rs` calls its hash FNV-1; it combines before it multiplies, which is FNV-1a.
  `combine` can lose its first argument: `MethodId.MixLoses` says exactly when.
* The benchmark client keeps its reader alive across bodies that are not JSON; a body that is a
  JSON number still ends the thread (lsp_bench.py:384-386), with the client marked alive.

## Model

| member | source | states |
|---|---|---|
| SessionBreakpoints.RunConserves | crates/al-dap/src/native_debug.rs:92-178 | after every run of commands, whatever the server replied: tracked ids are live and placed where the client asked, a live id that is not tracked is one whose removal failed or an orphan of a failed addition, no id is tracked for two files, and every armed position leads to a tracked id placed at exactly that position |
| SessionBreakpoints.ForgetConserves | crates/al-dap/src/native_debug.rs:100-107 | removing a file's breakpoints keeps the invariant even when any of the removals fails |
| SessionBreakpoints.PlaceConserves | crates/al-dap/src/native_debug.rs:109-178 | placing lines keeps it, including mis-targeted breakpoints, failed undo requests and failed additions |
| SessionHits.SetBreakpointsReports | crates/al-dap/src/native_debug.rs:92-178 | one report per line in order, verified exactly when the server placed that line as asked; the file's tracked ids are exactly the verified ones in order; other files keep theirs |
| SessionHits.BreakNamesTracked | crates/al-dap/src/native_debug.rs:196-250 | a Break is recorded with the id armed at the reported object and line, tracked at that moment, and with 0 exactly when no position was reported or none is armed there |
| SessionHits.RunNames | crates/al-dap/src/native_debug.rs:190-251 | in every run, each recorded hit with a non-zero id names a breakpoint placed at exactly the object and line of that Break |
| SessionLines.RunTellsLines | crates/al-dap/src/native_debug.rs:212-240 | in every run a hit of the breakpoint that a call placed for line `L` tells `L` (1 for 0) moved by the call's shift, modulo 2^32, and 0 for all that is not below the object's first line |
| SessionLines.SameLineTold | crates/al-dap/src/dap/bc_debug/position.rs:53-79 | so without a shift a hit tells the very line that was asked for if and only if that is not line 1 |
| SessionLines.MovedLineTold | crates/al-dap/src/dap/bc_debug/position.rs:53-79 | and with one the line moved by it, if and only if that is 0 or at least 2 |
| SessionLines.BreakTells | crates/al-dap/src/native_debug.rs:196-250 | what a recorded Break says of line, column, procedure and object, in numbers |
| SessionHits.SetBreakpointsComplete | crates/al-dap/src/native_debug.rs:92-178 | given the replies, a call keeps the position of every tracked breakpoint armed, for it or another one, if and only if no other file's breakpoint shares an armed entry that the call takes away for good |
| SessionHits.RunComplete | crates/al-dap/src/native_debug.rs:92-178 | if every object has its breakpoints set under one file name only, then after every run each tracked breakpoint's position is armed |
| SessionNaming.CallNames | crates/al-dap/src/native_debug.rs:31-33 | given the replies, after a call every tracked breakpoint is armed under its own id if and only if the lines placed as asked are at different positions, none of which another file's breakpoint has |
| SessionNaming.CallAlwaysNames | crates/al-dap/src/native_debug.rs:92-178 | before the call: so it is whatever the server answers if and only if the lines of the call are different lines for the server and no other file has a breakpoint at any of them |
| SessionNaming.CallsDecide | crates/al-dap/src/native_debug.rs:92-178 | every tracked breakpoint is armed under its own id after every run of allowed calls if and only if no allowed call wants two breakpoints at one position and no two under different file names share one |
| SessionNaming.NamesDecideNaming | crates/al-dap/src/native_debug.rs:92-178 | for calls with different server lines: if and only if the breakpoints of each object are set under one file name only |
| SessionNaming.NamedByABreak | crates/al-dap/src/native_debug.rs:196-250 | a tracked breakpoint is armed under its own id if and only if some Break would be recorded with that id |
| SessionNaming.TwoLinesOneName | crates/al-dap/src/native_debug.rs:109-178 | for any call with two lines that are one line for the server: both are placed and tracked and every position is armed, but no Break is recorded with the first one's id |
| SessionNames.CallIsSafe | crates/al-dap/src/native_debug.rs:92-178 | before the call: every fitting reply leaves the position of every tracked breakpoint armed, for it or another one, if and only if no other file's breakpoint shares an armed entry with the file that is set |
| SessionNames.NamesDecide | crates/al-dap/src/native_debug.rs:92-178 | the position of every tracked breakpoint is armed after every run if and only if the breakpoints of each object are set under one file name only |
| SessionNames.TwoNamesLoseABreakpoint | crates/al-dap/src/native_debug.rs:100-107 | for any two file names, object and line: three calls after which a live, tracked breakpoint is reported as 0 when it is hit |
| SessionLatch.RunHistory | crates/al-dap/src/native_debug.rs:190-251 | in every run the history is exactly the last min(n, 10000) of the n recorded Breaks, up to the variables filled in later, and the k-th Break carries the number k counted in 32 bits |
| SessionLatch.NumbersAreConsecutive | crates/al-dap/src/native_debug.rs:196-250 | the numbers in the history are consecutive and end at n if and only if n is below 2^32 |
| SessionLatch.NextSeqContinues | crates/al-dap/src/native_debug.rs:196 | the number derived from the back of the capped history alone continues the count of all Breaks |
| SessionLatch.RunLatches | crates/al-dap/src/native_debug.rs:253-274 | in every run configurationDone is sent at most once and only while attached, the two flags never hold together and each says what was answered, and no resume or step follows a rejection |
| SessionLatch.RejectionIsFinal | crates/al-dap/src/native_debug.rs:269-274 | after a rejection every draining command reports that same error, keeps it, and does nothing but drain |
| SessionWire.SetBreakpointsSends | crates/al-dap/src/native_debug.rs:100-172 | setting breakpoints sends one removal per old id in order, then one addition per line in order, each with the line as BC counts it and the condition, and a removal behind each breakpoint that was placed elsewhere |
| SessionWire.StepSends | crates/al-dap/src/native_debug.rs:407-422 | "in" sends 2, "out" sends 3 and any other step 1, and nothing after a failed drain; execution goes on if the server accepts |
| SessionWire.DrainSends | crates/al-dap/src/native_debug.rs:190-275 | events are taken in in order, and configurationDone is sent if and only if that was never answered before and the last of them about attaching leaves a client attached |
| SessionWire.StateSends | crates/al-dap/src/native_debug.rs:277-308 | variables are asked for only while stopped, and go into the last hit only |
| SessionWire.HistoryLimits | crates/al-dap/src/native_debug.rs:49-54 | the history of a run holds its last 10000 Breaks, numbered from 1 modulo 2^32 |
| NativeDebugging.NativeDebugSession.SetBreakpoints | crates/al-dap/src/native_debug.rs:92-178 | the loops over old ids and lines, with their in-place updates of the table and the index, are one SetBreakpoints step of the model |
| NativeDebugging.NativeDebugSession.DrainEvents | crates/al-dap/src/native_debug.rs:190-275 | the event loop and the configuration attempt are one Drain step, with the same error |
| NativeDebugging.NativeDebugSession.PushWithCap | crates/al-dap/src/native_debug.rs:49-54 | pushing and evicting leaves the last `cap` entries |
| NativeDebugging.NativeDebugSession.GetState | crates/al-dap/src/native_debug.rs:277-308 | drains, and fills the variables into the back of the history only when stopped |
| NativeDebugging.NativeDebugSession.ContinueExec | crates/al-dap/src/native_debug.rs:386-403 | drains first and resumes only if that succeeded |
| NativeDebugging.NativeDebugSession.Step | crates/al-dap/src/native_debug.rs:407-422 | likewise, with the exit reason of the step type |
| Calendar.CivilIsGregorian | crates/al-dap/src/native_debug.rs:600-611 | for every day number, negative ones included, the date is valid and the next day number has the next day's date under the 4/100/400 rule |
| Calendar.NoUnderflow | crates/al-dap/src/native_debug.rs:600-611 | no unsigned subtraction of the fast form underflows, for any day number |
| Calendar.CivilInvertsCounting | crates/al-dap/src/native_debug.rs:600-611 | from 1970 on the date is the one that many days after 1970-01-01, counted year by year and month by month |
| Calendar.CivilKeepsOrder | crates/al-dap/src/native_debug.rs:600-611 | later day numbers have later dates |
| Calendar.EpochDate | crates/al-dap/src/native_debug.rs:593-600 | day number 719468 is 1970-01-01 |
| Calendar.ExactDays | crates/al-dap/src/native_debug.rs:610 | the cast of the year to 32 bits changes nothing if and only if the day lies in the years -2^31 to 2^31 - 1 |
| Timestamp.RoundTrip | crates/al-dap/src/native_debug.rs:583-595 | reading the fields of a formatted instant back gives the same second count if and only if its year fits the 32 bits it is cast to, so for all of 1970 to 9999 and far beyond |
| Timestamp.SortsByTime | crates/al-dap/src/native_debug.rs:583-595 | for instants before year 10000 the order of the strings is the order of time |
| Timestamp.Year10000SortsFirst | crates/al-dap/src/native_debug.rs:594 | that bound is sharp: the first instant of year 10000 sorts before the second it follows |
| TimestampCases.Shown | crates/al-dap/src/native_debug.rs:583-595 | from the year 1000 to 9999 a timestamp is these twenty characters: the digits of year, month, day, hour, minute and second with `-`, `T`, `:` and `Z` between |
| Redaction.SanitizeErrorBody | crates/al-bc/src/bc_client.rs:46-104 | in the result every occurrence of every needle, in any letter case, is followed by the replacement, and the result is the truncated body with nothing but values cut out |
| RedactionWords.CredentialIsHidden | crates/al-bc/src/bc_client.rs:60-104 | with the eleven words, white space, quotation mark and ampersand written out: a credential behind a word in any letter case is replaced up to the first of those characters and all other text is kept, if no word begins in front of it or reaches behind it |
| RedactionWords.WordAndValue | crates/al-bc/src/bc_client.rs:60-104 | so a body of at most 512 bytes that is a word and a credential comes back as the word and `[REDACTED]` |
| RedactionWords.WordValueRest | crates/al-bc/src/bc_client.rs:60-104 | and with more text behind it that holds no word, the text is kept, for credentials without a colon |
| RedactionWords.NothingToHide | crates/al-bc/src/bc_client.rs:60-104 | a body without any word comes back as it is, or truncated |
| RedactionNesting.ValuesCutExactly | crates/al-bc/src/bc_client.rs:60-102 | behind every needle of the text the whole value is cut out, unless it is empty or reads like the replacement: if and only if no header with such a value begins in the value of a header listed no later and reaches over its end |
| RedactionNesting.NestedStays | crates/al-bc/src/bc_client.rs:89-101 | the value of such a header is in no cut from its first character on, provided that the outer header's value was cut out in its own pass, as the leftmost one's is |
| RedactionNesting.ValueCutUnlessNested | crates/al-bc/src/bc_client.rs:89-101 | needle by needle: its value is cut out unless it is such a header itself |
| RedactionNesting.FieldsAreCut | crates/al-bc/src/bc_client.rs:69-102 | behind the needles that end with an equals sign the value is always cut out |
| RedactionCoverage.ValuesAreGone | crates/al-bc/src/bc_client.rs:60-102 | for any needles whose blanks follow a colon or stand at the end, and any blanked text with values cut out: the value behind each needle is cut out or reads like the replacement, unless the needle begins in the value of another and reaches over its end |
| RedactionCoverage.HeaderInHeader | crates/al-bc/src/bc_client.rs:60-102 | a family of inputs whose value is kept: a header name in the value of another header is cut out without what follows it |
| Redaction.RedactNeedle | crates/al-bc/src/bc_client.rs:89-101 | the loop that rewrites the string in place from a moving start terminates and computes one pass |
| Redaction.TruncateBody | crates/al-bc/src/bc_client.rs:47-59 | more than 512 bytes are cut at the last character boundary, and the suffix counts the bytes cut |
| RedactionBytes.TruncatedIs | crates/al-bc/src/bc_client.rs:47-59 | in terms of the UTF-8 bytes: a body of up to 512 is kept; of a longer one as many whole characters as fit, followed by the number of bytes left out |
| RedactionBytes.BoundaryIs | crates/al-bc/src/bc_client.rs:48-51 | a boundary is the end of the text or a byte that begins a character |
| Redaction.PassBlanks | crates/al-bc/src/bc_client.rs:89-101 | after a pass every occurrence of its needle is followed by the replacement and then by a terminator or the end |
| Redaction.PassKeepsBlanked | crates/al-bc/src/bc_client.rs:60-102 | a later pass never undoes an earlier one and creates no new occurrence of an earlier needle |
| Redaction.PassesBlankAll | crates/al-bc/src/bc_client.rs:60-102 | after all passes all needles are blanked, for every list of needles that hold no bracket and end with a character that is not in the replacement |
| Redaction.PassesFixpoint | crates/al-bc/src/bc_client.rs:60-102 | the passes change nothing if and only if everything is blanked already; doing them twice is doing them once |
| Redaction.PassesCutValues | crates/al-bc/src/bc_client.rs:46-104 | the output is the input with disjoint intervals replaced, each starting right behind a needle of the input and ending at the next terminator or the end; all other text is kept |
| Redaction.FittingIsLongest | crates/al-bc/src/bc_client.rs:47-51 | the kept prefix is the longest one of whole characters that fits |
| Navigation.CanonicalDecides | benchmarks/scripts/emit_bench.py:117-160 | two elements have equal canonical forms if and only if they agree in tag, trimmed text and attributes up to order and control ids, have actions in the same places, and their children are equivalent one by one after the actions have been moved among those places |
| NavigationNames.FormsMeanTheSame | benchmarks/scripts/emit_bench.py:117-160 | with the attributes `type` and `ControlGUID` in any namespace and white space written out: forms are equal if and only if the elements differ at most in control ids, the order of attributes, white space around text, text behind elements, and the order of actions among the places of actions, at any depth |
| NavigationNames.ActionsSwap | benchmarks/scripts/emit_bench.py:132-137 | two actions may trade places, whatever namespace their `type` is in |
| NavigationNames.OthersDoNotSwap | benchmarks/scripts/emit_bench.py:141-158 | other children may not, unless they mean the same |
| NavigationNames.ControlIdIsFree | benchmarks/scripts/emit_bench.py:143-147 | another control id changes nothing |
| NavigationNames.OtherAttributesCount | benchmarks/scripts/emit_bench.py:143-147 | another value of any other attribute changes the form |
| Navigation.CanonicalForm | benchmarks/scripts/emit_bench.py:141-158 | writing the sorted actions back into the list of children one by one gives that canonical form |
| Navigation.CanonicalShowsAction | benchmarks/scripts/emit_bench.py:135-139 | whether an element is an action can be read off its canonical form |
| Navigation.CanonOrder | benchmarks/scripts/emit_bench.py:151-154 | nested tuples are totally ordered, so sorting them has one result |
| Navigation.TailsAreDropped | benchmarks/scripts/emit_bench.py:128-160 | documents that differ only in text behind the ends of elements, at any depth, have one canonical form |
| Navigation.EquivalenceLaws | benchmarks/scripts/emit_bench.py:117-126 | the intended relation is reflexive, symmetric and transitive |
| Navigation.FindMove | benchmarks/scripts/emit_bench.py:151-154 | lists that agree outside the action places and hold the same actions in them can be moved onto each other within those places |
| WorkspaceSources.Workspace.CoherentSnapshot | crates/al-analysis/src/workspace_sources.rs:184-210 | against any interference: lists every shard, sorts and deduplicates, looks each file up, and answers exactly as the states seen at these accesses prescribe, in the error cases too |
| WorkspaceSources.Workspace.SnapshotWithSkipped | crates/al-analysis/src/workspace_sources.rs:150-176 | a successful snapshot is split into used and skipped files; a failed one returns neither |
| WorkspaceSources.Split | crates/al-analysis/src/workspace_sources.rs:154-175 | the loop puts each file into the part its validation says |
| Snapshot.OneFileIsAtomic | crates/al-analysis/src/workspace_sources.rs:184-210 | while only one file changes and nothing dropped is put back, a successful list is the complete, sorted, duplicate-free contents of one state, although files and parses change in separate steps |
| Snapshot.PublishedIsAtomic | crates/al-analysis/src/workspace_sources.rs:187-209 | if every change in the window is marked before the window ends, a successful list is the contents of every state in the window |
| SnapshotWriters.MarkEachIsAtomic | crates/al-workspace/src/lib.rs:1610-1664 | any number of interleaved writers that mark every single change: a successful list is the contents of one state if no two of them are in the middle of changes to different files, or of an update and a removal of one, while it is taken |
| SnapshotWriters.TurnsAreAtomic | crates/al-workspace/src/lib.rs:1610-1664 | so it is whenever they take turns, each beginning a change behind the mark of the one before, wherever the reader starts and stops |
| SnapshotWriters.OneWriterIsAtomic | crates/al-workspace/src/lib.rs:1610-1664 | and for a single writer at work |
| SnapshotWriters.TogetherSafety | crates/al-lsp/src/server/daemon/build_dispatch/build/file_refresh.rs:133-175 | writers that make and mark one change each, interleaved in any way, are safe to read without a lock if and only if they all update, or all remove, the same file |
| SnapshotBatches.BatchSafety | crates/al-workspace/src/lib.rs:1858-1875 | a batch of changes to different files, or of updates, with one mark behind it is safe to read without a lock if and only if it updates a single file, or removes files and behind them updates at most one, which sorts before all of them |
| SnapshotBatches.RenameSafety | crates/al-lsp/src/server/daemon/build_dispatch/build/file_refresh.rs:273-278 | removing the old file and adding the new one with one mark is safe if and only if the new path sorts before the old one; adding first never is |
| Snapshot.QuietSucceeds | crates/al-analysis/src/workspace_sources.rs:184-210 | while nothing changes, the snapshot of a settled workspace succeeds with its contents |
| Snapshot.SuccessSeesNoMark | crates/al-analysis/src/workspace_sources.rs:206-208 | success means that nothing was marked meanwhile, unless 2^64 marks came round |
| Snapshot.AnswersOnce | crates/al-analysis/src/workspace_sources.rs:184-210 | the states seen decide the listing and the answer |
| Snapshot.SplitConserves | crates/al-analysis/src/workspace_sources.rs:150-176 | the listed paths are those of the used and of the skipped files together: none lost, none repeated |
| Snapshot.UsedIsExact | crates/al-analysis/src/workspace_sources.rs:212-270 | a file is used if and only if it is listed and validates |
| Snapshot.SkippedIsExact | crates/al-analysis/src/workspace_sources.rs:212-292 | a file is skipped with a reason if and only if it is listed and that is the first check it fails |
| SnapshotFiles.UsedFiles | crates/al-analysis/src/workspace_sources.rs:212-270 | from the files alone: a file is used if and only if it is listed, has no error node and its first declaration has a known kind and id, and it brings exactly its usable declarations in order |
| SnapshotFiles.SkippedFiles | crates/al-analysis/src/workspace_sources.rs:212-292 | a file is skipped for the first of these that holds: an error node, no declaration, an unknown kind, an unknown id |
| SnapshotFiles.FirstDecides | crates/al-analysis/src/workspace_sources.rs:238-252 | a further declaration never changes whether a file is used |
| Snapshot.UsedKeepsOrder | crates/al-analysis/src/workspace_sources.rs:150-176 | the used files stay sorted by path |
| Snapshot.DedupLists | crates/al-analysis/src/workspace_sources.rs:194-195 | removing neighbours from a sorted listing leaves every path once |
| Binding.ExtensionNeverAdds | crates/al-emit/src/binding.rs:275-299 | adding a table extension, or anything but a table, never adds a diagnostic to any object: what is still reported was reported before, word for word |
| Binding.WhenEntriesAdd | crates/al-emit/src/binding.rs:275-323 | adding an entry can report something at a new place, or with a new code, in some object if and only if the entry declares a table not known before; the wording of a report can also change when a known table is declared again with another spelling |
| Binding.OrderIrrelevant | crates/al-emit/src/binding.rs:275-299 | entries in another order declare the same tables with the same fields and members; only the displayed spelling can differ |
| Binding.EntriesSay | crates/al-emit/src/binding.rs:275-299 | a table is declared, has a field or a member, exactly if some entry for it says so |
| Binding.ScopeHasDeclared | crates/al-emit/src/binding.rs:580-598 | the scope of a procedure has exactly the names its sections, parameters and return value declare |
| Binding.NameReported | crates/al-emit/src/binding.rs:660-806 | corollary: a name is reported as unknown if and only if nothing in reach declares it, at a place where names of its kind are checked |
| BindingNames.MemberReported | crates/al-emit/src/binding.rs:660-755 | in terms of the entries: a member accessed on a Record variable is reported as AL0132 if and only if some entry declares the table, none for that table has a field or procedure of the name in any letter case, and it is no Record method and none of the six system fields |
| BindingNames.RecIs | crates/al-emit/src/binding.rs:690-712 | the same for `Rec` and `xRec` and the table the object is about |
| BindingNames.NameUnknown | crates/al-emit/src/binding.rs:660-806 | a bare name is reported as AL0118 if and only if it stands where names are looked up and no declaration, entry or word of the language accounts for it |
| BindingNames.ContextIs | crates/al-emit/src/binding.rs:449-525 | in which objects names and calls are looked up, and which table such an object is about |
| BindingNames.ScopeGives | crates/al-emit/src/binding.rs:808-834 | the type of a local name is that of the return value, or else of its last declaration |
| BindingNames.MemberMessage | crates/al-emit/src/binding.rs:742-751 | the message names the table as its last entry spells it, quoted if needed, and the member as written |
| BindingNames.ExternalSays | crates/al-emit/src/binding.rs:301-317 | what is known of a table that packages declare |
| BindingNames.UnquotedQuoted | crates/al-emit/src/binding.rs:924-935 | a name that was quoted with its own marks doubled is read back |
| BindingNames.ReportedSomewhere | crates/al-emit/src/binding.rs:649-658 | a diagnostic is reported if and only if some expression, however deep in the tree, gives it |
| Binding.BindingSymbols.AddEntry | crates/al-emit/src/binding.rs:275-299 | the in-place update adds exactly the entry's facts to its table and changes no other |
| Binding.BindingSymbols.AddExternal | crates/al-emit/src/binding.rs:301-317 | the three loops add exactly the packages' facts, in whatever order they iterate; fields and procedures of unknown tables are dropped |
| Binding.Checker.Run | crates/al-emit/src/binding.rs:649-658 | the walk with an explicit stack terminates and checks every postfix expression of the object exactly once |
| Binding.Checker.CheckExpression | crates/al-emit/src/binding.rs:660-701 | one expression yields at most one diagnostic, the one the resolution order prescribes |
| Binding.Checker.ScopeOf | crates/al-emit/src/binding.rs:808-834 | the memoised scope of a procedure is always the one computed directly |
| Diagnostics.RoundTrip | crates/al-compile/src/lib.rs:520-560 | a printed diagnostic parses back to itself, whatever its file name holds, if and only if code and message are trimmed, the code has no colon, and the text behind the severity holds no coordinates followed by a severity of its own |
| Diagnostics.OutputRoundTrip | crates/al-compile/src/lib.rs:501-511 | a whole output of such diagnostics, one per line, parses back in order |
| Diagnostics.FindDiagnosticCoordSpan | crates/al-compile/src/lib.rs:467-499 | the backward search terminates with the rightmost span in parentheses that holds numbers and is followed by a severity, and with none if and only if there is none |
| Diagnostics.FieldsRoundTrip | crates/al-compile/src/lib.rs:528-547 | severity, code and message come back exactly if code and message are trimmed and the code has no colon |
| Diagnostics.SpanOfPrinted | crates/al-compile/src/lib.rs:467-499 | parentheses and coordinates in the file name never mislead the search; coordinates in the text always do |
| Diagnostics.ReadExactly | crates/al-compile/src/lib.rs:520-560 | a line is read if and only if it has coordinates and these hold a comma; the first two numbers are the line and the column, others are dropped, and what stands in front is the file |
| Diagnostics.LoneNumberUnread | crates/al-compile/src/lib.rs:520-527 | in particular a single number makes the line unreadable |
| Diagnostics.MisleadingMessage | crates/al-compile/src/lib.rs:467-499 | so a diagnostic whose message is a number in parentheses and a severity is lost, whatever its own coordinates |
| Diagnostics.ThreeNumbersCount | crates/al-compile/src/lib.rs:520-560 | a line with any file name and three numbers is read with the first two |
| DiagnosticsCases.NumberIs | crates/al-compile/src/lib.rs:520-527 | a number is decimal digits with or without a plus sign, below 2^32 |
| DiagnosticsCases.PayloadIs | crates/al-compile/src/lib.rs:467-499 | coordinates are such numbers, one or more, with commas between and white space around them |
| DiagnosticsCases.SeverityIs | crates/al-compile/src/lib.rs:467-499 | they count if a colon and one of three words follow, with white space in front of either |
| DiagnosticsCases.LinesAre | crates/al-compile/src/lib.rs:501-511 | lines end at a line feed, with or without a carriage return |
| Diagnostics.ParseAlcOutput | crates/al-compile/src/lib.rs:501-511 | the loop returns the diagnostics of the readable lines in order |
| Framing.LspClient.ReadLoop | benchmarks/scripts/lsp_bench.py:353-394 | what is delivered, how the loop ends and what is left of the stream do not depend on how the pipe splits its bytes; the client stays alive exactly if the loop ended by an exception, at a bad length or a body that raises |
| Framing.LspClient.ReadBody | benchmarks/scripts/lsp_bench.py:373-379 | reads exactly the bytes of the body and none behind it |
| Framing.RoundTrip | benchmarks/scripts/lsp_bench.py:353-418 | reading the frames of any bodies delivers them in order, without the empty ones, up to and including the first whose handling raises: all of them if and only if none but the last raises, and the stream is consumed if and only if none does |
| Framing.FramesAreRead | benchmarks/scripts/lsp_bench.py:353-418 | with anything behind the frames, reading continues exactly at its first byte, or stops exactly behind the first frame whose body raises |
| Framing.CutStream | benchmarks/scripts/lsp_bench.py:353-394 | wherever the stream breaks off, inside a header, a line end or a body, exactly the bodies of the complete frames have been delivered, up to and including the first that raises |
| FramingHeaders.OtherHeadersDoNotMatter | benchmarks/scripts/lsp_bench.py:357-379 | whatever other headers stand before and behind the length, and in whatever letter case its name is written, the body is delivered and nothing behind it is touched |
| FramingHeaders.NoLengthNoBody | benchmarks/scripts/lsp_bench.py:371-373 | without a length, reading goes on behind the headers |
| Cdata.RoundTrip | crates/al-emit/src/assemble.rs:697-702 | scanning the emitted element gives back exactly the script, for every script, and stops at the end tag |
| Cdata.PlainSection | crates/al-emit/src/assemble.rs:696-702 | without the replacement a script would come back if and only if it holds no `]]>` |
| CdataCases.OneSectionIs | crates/al-emit/src/assemble.rs:696-702 | the element of a script without `]]>`, character by character |
| CdataCases.MarkIsCut | crates/al-emit/src/assemble.rs:697-702 | each `]]>`, from the left, becomes `]]]]><![CDATA[>` |
| TestStubs.GenerateTestStubs | crates/al-analysis/src/generators.rs:278-307 | every public method gets the first free of its candidate names, with a suffix no larger than its place in the list |
| TestStubs.FreshName | crates/al-analysis/src/generators.rs:296-301 | the suffix loop terminates with the least free suffix, at most one more than the names taken |
| TestStubs.NamesAreDistinct | crates/al-analysis/src/generators.rs:285-302 | the names are pairwise distinct even ignoring the case of ASCII letters |
| TestStubs.UnusedNameIsKept | crates/al-analysis/src/generators.rs:293-302 | a method keeps its bare name if and only if no earlier stub has it |
| TestStubNames.RepeatsAreNumbered | crates/al-analysis/src/generators.rs:293-302 | methods whose names differ in case only are numbered: the first keeps its name, the second gets a 2, and so on |
| TestStubNames.PublicMethodsOnly | crates/al-analysis/src/generators.rs:278-290 | every public method has a stub, in order, and no local one |
| TestStubNames.OthersAreDropped | crates/al-analysis/src/generators.rs:348-352 | exactly the characters that are neither alphanumeric nor an underscore are dropped |
| TestStubs.FewTaken | crates/al-analysis/src/generators.rs:296-301 | that many candidates can only be taken by that many different names |
| MethodId.OneUnitApart | crates/al-emit/src/method_id.rs:33-41 | texts that differ in exactly one UTF-16 code unit never share a hash |
| MethodId.OneCharacterApart | crates/al-emit/src/method_id.rs:138-145 | so names that differ in exactly one character of the basic plane never share the hash behind their member ids |
| MethodId.OneByteApart | crates/al-emit/src/method_id.rs:149-155 | data that differ in exactly one byte never share a hash |
| MethodId.StepInjective | crates/al-emit/src/method_id.rs:37 | one step of the hash is a bijection of the 32-bit states and tells any two bytes apart |
| MethodId.FnvUtf16 | crates/al-emit/src/method_id.rs:33-41 | the loop over code units and their bytes is the hash of the UTF-16LE bytes |
| MethodId.FnvHashBytes | crates/al-emit/src/method_id.rs:149-155 | the loop over bytes is that same hash |
| MethodId.CalculateMethodId | crates/al-emit/src/method_id.rs:87-109 | the loop over the parameters computes the id the lemmas are about |
| MethodId.LastParamShows | crates/al-emit/src/method_id.rs:87-109 | methods of a user object that differ in one value of the last parameter (kind, var, or subtype when it counts) have different ids; only if an equal subtype is combined behind the value must the kinds be below 2^27 |
| MethodId.SubtypeHides | crates/al-emit/src/method_id.rs:87-109 | for any kinds, ids with an equal subtype combined last coincide if and only if the words up to the kind collide |
| MethodId.ParamsCoincide | crates/al-emit/src/method_id.rs:94-99 | two last parameters give the same hash exactly if the words up to the kind are equal (no subtype), collide (equal subtypes), or, these being equal, the subtypes are |
| MethodId.ReturnKindShows | crates/al-emit/src/method_id.rs:100-108 | without parameters the ids of user methods differ exactly if the return kinds do |
| MethodId.CombineInjective | crates/al-emit/src/method_id.rs:45-47 | combining never loses its second argument |
| MethodId.MixLoses | crates/al-emit/src/method_id.rs:45-47 | it loses the difference between two first arguments if and only if they differ by the difference of their signed top 5 bits times the inverse of 33, going round |
| MethodId.SameTopKept | crates/al-emit/src/method_id.rs:45-47 | so never between words with the same top 5 bits |
| MethodId.MixInjective | crates/al-emit/src/method_id.rs:45-47 | nor between words less than 2^28 apart, going round |
| MethodId.MixCollides | crates/al-emit/src/method_id.rs:45-47 | it does lose others: two first arguments that no second argument tells apart |
| MethodId.Adjusted | crates/al-emit/src/method_id.rs:56-64 | ids of system codeunits lie in 0 to 1249999999, i32::MIN included; user ids are the hash itself |
| MethodId.MemberIdIsAbsolute | crates/al-emit/src/method_id.rs:138-145 | a member id is the absolute value of the text's hash, and the largest number for i32::MIN |
| MethodId.MemberIdsCoincide | crates/al-emit/src/method_id.rs:138-145 | two texts share a member id if and only if their hashes are equal or opposite, or both among i32::MIN and plus or minus i32::MAX |
| MethodIdCases.CaseDoesNotCount | crates/al-emit/src/method_id.rs:104 | names with the same upper case, character by character, share their ids |
| MethodIdCases.UnitsDecode | crates/al-emit/src/method_id.rs:35 | the UTF-16 code units of a character decode to it |
| MethodIdCases.XorBits | crates/al-emit/src/method_id.rs:37 | bit by bit, exclusive or is what it should be |
| MethodIdCases.IdOfM0 | crates/al-emit/src/method_id.rs:194 | the id the compiler generates for `M0`, and what becomes of it from object 2000000000 on |
| MethodIdCases.IdOfM5 | crates/al-emit/src/method_id.rs:205 | the id the compiler generates for a method with one `var` parameter |
| Settings.SetKeyReadsBack | src/settings.rs:62-105 | the value just set is read back at its place whatever was there before, and setting again replaces it |
| Settings.SetKeyKeeps | src/settings.rs:62-105 | every path that neither leads to that place nor passes through it reads as before |
| Settings.SetIsPut | src/settings.rs:72-105 | the recursion with its depth limit stores exactly under at most 64 nested keys and one joined key |
| Settings.PlacesDiffer | src/settings.rs:72-105 | joining the keys of a place gives the dotted key back, so different keys have different places of at most 65 keys |
| Settings.StoredDepth | src/settings.rs:98-101 | the recursion is never deeper than 64, and shorter paths are stored unchanged |
| SettingsCases.PlaceIs | src/settings.rs:72-105 | a key of up to 65 parts is stored under its parts, a longer one under its first 64 and all others joined by dots |
| Settings.PutCommutes | src/settings.rs:72-105 | settings at unrelated places do not depend on their order |
| Settings.SetAllReadsBack | src/settings.rs:62-105 | after any list of settings at unrelated places all of them are read back and everything unrelated is as before |
| Settings.UpperAndDeeper | src/settings.rs:82-89 | of two settings one above the other, the deeper one survives exactly if it is set last or the upper value holds it |

## Left out

- HTTP, SignalR, process spawning, timeouts, the file system and JSON or XML libraries: only their outcomes appear, as inputs.
- `parse_bc_*`, the history filter, evaluation results, the other inspection commands' results and file names in locations: long field-by-field conversions.
- Panics of debug builds on 32-bit overflow of the sequence number: it wraps, as in release builds.
- 64-bit overflow of `line_shift` sums and of day numbers within 146096 of the 64-bit minimum.
- The system clock: the seconds since 1970 are an input, 0 before.
- The server's reply to `AddBreakpoint` without an `ObjectId` counts as placed where the client asked, which is what the source assumes.
- `to_ascii_lowercase` and Python's `lower` change ASCII letters only; no non-ASCII letter is lowered to a letter of `content-length`.
- Python's `sorted` is represented by the one sorted arrangement of a totally ordered list.
- `normalize_navigation` on malformed XML, which raises an error before the part modelled.
- SnapshotBatches.BatchSafety: a batch that changes one file twice and also removes one is not covered, because there it depends on the texts: putting back the text that was there is harmless.
- SnapshotWriters.MarkEachIsAtomic: sufficient for writers with several changes each, for the same reason; exact for one change each (`SnapshotWriters.TogetherSafety`).
- Snapshot.OneFileIsAtomic: a condition on the window that suffices, not an exact one; the exact ones are those for batches and for writers at the same time.
- Reads of one shard of `files` and of one entry of `file_trees` are atomic, which is what their entry locks give; memory ordering is not modelled.
- Error texts of skipped files and the wording of snapshot errors.
- Binding: the syntax tree is given by its postfix expressions and what queries about their surroundings answer; finding the enclosing body, the property readers, several objects in one file, skipping files with errors or directives, and the final sort are not modelled.
- Binding.OrderIrrelevant: does not order `add_external` against `add_entry`, because fields and procedures from packages are added only to tables known by then; the build adds packages first.
- Framing: non-ASCII header bytes are decoded by an unspecified decoder, digits other than ASCII in a length do not count as digits, and of what is done with a body only whether it raises is modelled, as a function of that body (a reply to a server request that cannot be sent is not).
- Cdata.RoundTrip: is about scanning sections; the line-end normalisation that section 2.11 of XML 1.0 prescribes beforehand is not modelled.
- TestStubs: which non-ASCII characters are alphanumeric is a parameter, the 32-bit suffix is unbounded (it never exceeds the number of methods), and the text of a stub is left out.
- RedactionWords.WordValueRest: a credential with a colon can hold the beginning of a header that ends behind it; `RedactionWords.CredentialIsHidden` asks that none does.
- TestStubs.NamesAreDistinct: ignores the case of ASCII letters only, as the source does.
- MethodId.LastParamShows: says nothing about earlier parameters, whose differences `combine` may lose (`MethodId.MixLoses`).
- Settings: objects are values, updated by rebuilding them; the source updates them in place behind one exclusive reference. Numbers are reals, and `apply_al_settings_to_config`, which depends on the iteration order of its map, is left out.
- `control_addin_bundle`, path encoding, manifests, generated pages and reports, entitlements, LSP type conversions, launch configuration and benchmark statistics: long output or single branches.
