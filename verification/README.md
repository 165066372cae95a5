# The lexical path-rewrite engine of ld_preload

`rtld_linux.c` interposes libc's path calls and maps one path prefix, FROM, onto another, TO, by
text alone.  This project models that engine and the process-wide state it drives, and proves what
the "file-tree illusion core" of the repository's `README.md` is for.

| file | what it holds |
|---|---|
| `CStrings.dfy` | NUL-terminated buffers, `memcpy`, `strlen`, `strncmp` |
| `Components.dfy` | component lists: parsing, the stack machine of `.` and `..`, rendering, the cleaned form |
| `Cleaner.dfy` | `clean_path_into` on arrays, with its segment table and roll-backs |
| `CleanerLaws.dfy` | lengths, second cleanings, two-stage resolution, the shape of cleaned paths |
| `Mapping.dfy` | the prefix test and substitution on bytes, the mapping on components, and their agreement |
| `Policies.dfy` | the policy record, its initialisation, `substitute_prefix` and its reverse |
| `Rewriter.dfy` | from a call's argument to the argument handed to libc |
| `Locations.dfy` | what the handed-on descriptor and path name |
| `Walks.dfy` | one relative argument walked from two directories: when both walks end in one place |
| `WorkingDirectory.dfy` | runs of `chdir` and `getcwd`: real against virtual directory |
| `Processes.dfy` | `chdir` and `getcwd` as methods of a process |
| `FileStore.dfy` | the kernel's file tree, what an operation changes, and when it leaves a root alone |
| `Views.dfy` | the tree the program sees, and when an operation looks there like the plain operation |
| `FileCalls.dfy` | runs of the at-calls `openat`, `mkdirat`, `unlinkat`, `linkat`, `renameat` and of the absolute-only `open`, `mkdir`, `unlink`, `rmdir`: isolation, illusion, read-back |
| `HeldDirectories.dfy` | the directories a process holds while renames move them |
| `Machines.dfy` | whole processes: working directory, descriptors and tree together |
| `Symlinks.dfy` | where link payloads point |
| `Limits.dfy` | environments and calls at which a promise ends, traced to the place they reach |
| `Snapshot.dfy` | the one-time initialisation over all thread interleavings |

Methods over arrays and class fields are proved against specification functions on values
(`Clean`, `PolicyFrom`, `Swap`, `AtArgument`, `RealNext`, `Getcwd`); the laws are lemmas about those functions.

Terms: a *location* is a list of names; `Redirect(f, t, p)` replaces the root `f` of `p` by `t`;
two roots are *separate* when neither lies inside the other and *siblings* when they are distinct
entries of one directory; an argument is *followed* when it leads the kernel, from its own
directory, to the image of where it leads the program, and *fits* when the call that gets it acts at
the mapped location of what it names; a cleaned path is *canonical* when it is neither the root nor ends in a separator.

## What came out

- `clean_path_into` leaves a separator behind when its last effective component is a popping `..`
  (`/a/b/..` gives `/a/`).  A FROM stored that way, or stored as `/`, matches only itself, so the
  documented rule "`/a/b` matches `/a/b/x`" (`README.md:84`) holds exactly for a canonical FROM
  (`Mapping.PrefixTestExact`, an input in `Limits.SourceWithTrailingSeparator`);
  `Policies.UsablePolicies` says which environment values give one.
- A TO stored with a trailing separator is never recognised by `getcwd`, which then shows the real
  directory (`WorkingDirectory.GetcwdExactly`, `Limits.DestinationWithTrailingSeparator`).
- `chdir(getcwd())` never moves the kernel exactly when FROM is stored canonically or TO is not
  (`WorkingDirectory.ChdirGetcwdExactly`, `Limits.ReturningToCwdMoves`).
- A relative argument is reduced to a climb of `up` levels and a descent along `down`
  (`Walks.WalkRuns`).  From at or below FROM it is followed exactly when, with k the levels it climbs
  above FROM, cutting k levels off FROM and off TO gives one directory, or the k names cut are the same and
  `down` starts with them (`Walks.FollowsExactly`).  All arguments are followed exactly when FROM and TO are siblings
  (`Walks.FollowsEverything`); for the example of `README.md:66-67`, whose roots are not, `..` is not
  and `../prefix` is (`Limits.LeavingAndReturning`).
- A `chdir` keeps the kernel in the image of the program's directory, whatever directories exist, exactly
  when its argument fits and is followed (`WorkingDirectory.ChdirStepExactly`).
- `README.md:90` says relative paths with `AT_FDCWD` resolve against `getcwd()`.  `open`, `creat`,
  `stat`, `lstat`, `mkdir`, `rmdir`, `unlink`, `truncate` and `readlink` do not: they pass a relative
  path on unchanged.  That is harmless exactly when the path is followed and does not lead into the
  real FROM tree (`WorkingDirectory.AbsoluteOnlyExactly`; `Limits.ClimbingOut` and
  `Limits.ReenteringSource` miss one condition each).
- A call reaches the real FROM tree through exactly the arguments that do not fit: a substitution that would
  overflow a buffer, or a relative path of an absolute-only call that leads there
  (`FileCalls.ReachesSourceExactly`; `rmdir` in `Limits.ReenteringSource`).
- Over any run of file calls, fitting or not, the real FROM tree stays as it was exactly while each step spares it
  in the store it meets (`FileCalls.Isolation`, whole processes in `Machines.RunsAreIsolated`).  A step with
  fitting arguments spares it unless it is a rename, carried out, that takes a non-empty tree away with
  an ancestor of FROM, or brings one to FROM along with such an ancestor
  (`FileCalls.FittingSpares`, `Limits.RenamingAboveSource`).
- Over a run of file calls with fitting arguments, the tree the program sees behaves like an ordinary one exactly
  while every step is faithful in the tree it meets: a removed directory is empty to both kernels or to
  neither; a rename is carried out by both or neither, leaves nothing behind below a root and brings
  nothing to one (`FileCalls.Illusion`, `Limits.RemovingAboveSource`).  `Views.FaithfulByHost` says so
  in terms of the kernel's tree alone; away from the ancestors of the roots every operation is
  faithful (`Views.ClearIsFaithful`).
- While a thread is past `get_rewrite_policy`, the record it reads is the policy of values the two variables had
  after the first call, FROM no later than TO (`Snapshot.SnapshotIsCurrent`); if the environment changes between
  the two lookups they may come from different environments.
- A faithful rename moves every directory a process holds alike on both sides, as long as those directories
  exist (`Machines.FaithfulMirrorsExactly`); for removed ones the names decide
  (`Machines.ChangeMirrorsExactly`, `Limits.LosingHeldDirectory`).

## Model

| member | source | states |
|---|---|---|
| Cleaner.CleanPathInto | rtld_linux.c:162-244 | for every source (absolute or relative, NULL included) and buffer length: succeeds exactly when the stack after every component prefix renders shorter than the buffer, and then the buffer is the rendered component fold plus the separator a last popping `..` leaves |
| Cleaner.TakeSegment | rtld_linux.c:197-228 | one component moves buffer, segment table and stack together, or fails exactly when the pushed stack does not fit |
| Cleaner.PushSegment | rtld_linux.c:214-228 | the push keeps the table of segment starts and the buffer in step with the stack |
| Cleaner.PopSegment | rtld_linux.c:201-208 | rolling `out` back to the last remembered start leaves the rendering of the popped stack and its separator; the `out == 0` repair is dead code for absolute paths |
| Cleaner.StartsAreSegmentStarts | rtld_linux.c:223 | every entry of the segment table is where that segment's bytes stand, right behind its separator |
| Cleaner.StartsIncrease | rtld_linux.c:223 | the table is strictly increasing |
| Components.RunAppend | rtld_linux.c:180-229 | cleaning a concatenation is cleaning the second part from the first part's stack |
| Components.RunFixed | rtld_linux.c:197-212 | a stack the cleaner produces has nothing left to resolve |
| Components.ParseRender | rtld_linux.c:184-195 | parsing undoes rendering, so component lists have one spelling |
| CleanerLaws.CleanKeepsComponents | rtld_linux.c:162-244 | component-idempotence, output absolute exactly when input is, no `.` or `..` left in an absolute result |
| CleanerLaws.FixedAfterTwo | rtld_linux.c:162-244 | a second cleaning drops the trailing separator, a third changes nothing; one pass is a byte fixed point exactly when the path does not end in a pop |
| CleanerLaws.CleanNeverLonger | rtld_linux.c:162-244 | output never exceeds the source length |
| CleanerLaws.ShortSourceFits | rtld_linux.c:172-178 | a source shorter than the buffer always cleans |
| CleanerLaws.OnlyLengthsDecide | rtld_linux.c:214-216 | for buffers up to PATH_MAX success depends on rendered lengths alone: the segment-count exit is unreachable |
| CleanerLaws.TwoStages | rtld_linux.c:396-404 | cleaning the base, joining and cleaning again agrees with cleaning once: always on components, byte for byte exactly when the path has an effective component or the base does not end in a pop |
| CleanerLaws.StoredCanonically | rtld_linux.c:319-322 | a value is stored canonically exactly when it neither comes to the root nor ends in a pop |
| Mapping.SwapInverse | rtld_linux.c:265-297 | forward and reverse substitution undo each other byte for byte, for any two prefixes |
| Mapping.MatchIsComponentPrefix | rtld_linux.c:258-263 | on cleaned paths and a canonical prefix the byte test is the component prefix relation |
| Mapping.NonCanonicalMatchesItself | rtld_linux.c:258-263 | a prefix with a trailing separator, or the root, matches itself only |
| Mapping.PrefixTestExact | rtld_linux.c:258-263 | the byte test is component prefix on all cleaned paths exactly when the prefix is canonical |
| Mapping.SwapMapsComponents | rtld_linux.c:265-280 | a substitution happens exactly when the root is a component prefix and the result fits, and then maps the components |
| Mapping.NoDoubleMapping | rtld_linux.c:265-280 | mapping twice is mapping once exactly when the roots are equal or separate |
| Mapping.Aliases | rtld_linux.c:265-297 | composing the two directions: every name has one alias outside TO and one image outside FROM |
| Policies.PathMatchesPrefix | rtld_linux.c:258-263 | the `strncmp` and boundary-byte test is the prefix relation on strings |
| Policies.RewritePolicy.InitRewritePolicy | rtld_linux.c:299-332 | over the bytes of the two values: the record is enabled exactly when both are set, start with a separator and no component prefix of either renders into a full buffer, and then holds their cleaned forms; the check at line 323 never fires |
| Policies.EnabledExactly | rtld_linux.c:299-332 | the policy of any two values, unset, empty, relative or too long ones included |
| Policies.RewritePolicy.GetRewritePolicy | rtld_linux.c:334-337 | the first call decides, later calls ignore the environment |
| Policies.RewritePolicy.SubstitutePrefix | rtld_linux.c:265-280 | writes FROM's replacement by TO, or reports that it does not apply or fit |
| Policies.RewritePolicy.SubstitutePrefixReverse | rtld_linux.c:282-297 | the same with the prefixes exchanged |
| Policies.SubstitutesExactly | rtld_linux.c:265-297 | both substitutions on every cleaned path and for any stored prefixes, overlapping ones and the root included: what each applies to, when the result fits, and what it is |
| Policies.UsablePolicies | rtld_linux.c:299-332 | exactly which environment values give a policy that maps a whole tree, and what roots it has |
| Policies.PolicyFromIsStored | rtld_linux.c:319-328 | whatever the environment holds, both stored prefixes are cleaned paths |
| Rewriter.JoinAndCleanPath | rtld_linux.c:246-256 | cleans base/path, failing exactly when the join or a component prefix does not fit |
| Rewriter.RewriteAbsolutePath | rtld_linux.c:339-355 | refines the specified rewrite of absolute arguments, every fall-through included |
| Rewriter.ReadBase | rtld_linux.c:371-402 | the base is the working directory or the cleaned descriptor link, unless unavailable, too long or not absolute |
| Rewriter.RewriteRelativePathFromDirfd | rtld_linux.c:357-409 | refines the specified rewrite of relative arguments, every fall-through included |
| Rewriter.RewritePathArgument | rtld_linux.c:411-419 | returns the buffer when an absolute argument is rewritten, else the original pointer |
| Rewriter.RewriteCwdRelativeArgument | rtld_linux.c:421-432 | the same, relative arguments included |
| Rewriter.RewriteAtArgument | rtld_linux.c:434-447 | the pair handed on: a rewritten relative path drops its descriptor for AT_FDCWD, anything else keeps it |
| Rewriter.RewriteTwoAtArguments | rtld_linux.c:794-803 | both paths of a two-path call are resolved, each with its own descriptor |
| Locations.ReplacedExactly | rtld_linux.c:339-409 | the fail-open boundary: an argument is replaced exactly when enabled, cleanable, under FROM and fitting, and the replacement names the mapped location |
| Locations.NeverFallsThrough | rtld_linux.c:265-280 | if TO is no longer than FROM, no short path under FROM falls through |
| Locations.Contained | rtld_linux.c:339-409 | every replacement is absolute, has TO's components as a prefix, holds no `.` or `..`, and resolves to itself from anywhere |
| Locations.ReplacedOnce | rtld_linux.c:339-355 | with separate roots a replacement is not replaced again |
| Locations.StayingUnderDestination | rtld_linux.c:402-408 | a relative path resolving to somewhere under TO is handed on untouched |
| Locations.UnreachableCwd | rtld_linux.c:371-377 | a working directory libc cannot spell from the root leaves relative arguments alone |
| Locations.UnreadableBase | rtld_linux.c:371-397 | a relative argument whose descriptor has no link, or one that is not absolute, or whose working directory is unknown, is handed on with its own descriptor |
| Locations.RelativeIsAbsolute | rtld_linux.c:357-409 | whatever libc answers, a relative argument is replaced as the absolute one spelled behind its directory's text would be, and otherwise handed on with its own descriptor |
| Locations.AbsoluteKeepsDescriptor | rtld_linux.c:434-447 | an absolute argument keeps its descriptor, replaced or not |
| Locations.AtCallMeaning | rtld_linux.c:434-447 | descriptor and path handed to libc name the mapped location of what the caller named, exactly when resolution fits |
| Walks.WalkRuns | rtld_linux.c:197-228 | from every directory a component list comes to climbing some levels and descending along its unmatched names |
| Walks.FollowsExactly | rtld_linux.c:357-409 | kernel and program come to one place exactly when the climb above FROM and TO meets in one directory, or the descent takes again the names climbed, alike in both |
| Walks.FollowsEverything | rtld_linux.c:357-409 | every argument from every directory is followed exactly when the roots are siblings |
| Walks.UntouchedExactly | rtld_linux.c:411-419 | a relative path handed on unchanged leads to the right place exactly when it is followed and does not lead into the real FROM tree |
| Walks.FrameLaw | rtld_linux.c:201-228 | a walk that stays under one non-root directory leaves the same remainder when started at the same place under another |
| WorkingDirectory.ChdirStepExactly | rtld_linux.c:731-734 | a `chdir` keeps the kernel in the image of the program's directory in every tree exactly when its argument fits and is followed |
| WorkingDirectory.AbsoluteOnlyExactly | rtld_linux.c:411-419 | for every argument of the absolute-only wrappers: what is handed on leads where it should exactly when an absolute one fits, or a relative one is followed and stays out of the real FROM tree |
| WorkingDirectory.CwdSimulation | rtld_linux.c:731-734 | over every run of `chdir` whose arguments fit and are followed, the kernel's directory is the image of the program's |
| WorkingDirectory.GetcwdAnswers | rtld_linux.c:886-905 | `getcwd` names the program's directory, or its alias when it lies under TO, exactly when TO is stored canonically or the kernel is not below it |
| WorkingDirectory.GetcwdWhenOff | rtld_linux.c:886-896 | a process that rewrites nothing is told its own directory exactly when name and NUL fit |
| WorkingDirectory.GetcwdExactly | rtld_linux.c:886-905 | the whole answer for every stored policy, disabled and overlapping ones included, and every buffer size: a failure, FROM with what lies behind TO when that fits, or the real directory |
| WorkingDirectory.GetcwdAfterRun | rtld_linux.c:886-905 | after any such run `getcwd` names the virtual directory, or its alias when it lies under TO, given a canonical TO and room for both names |
| WorkingDirectory.ChdirGetcwdIsNoOp | rtld_linux.c:886-905 | with a canonical FROM, `chdir(getcwd())` never moves the kernel in a state reached from outside FROM, for every buffer size |
| WorkingDirectory.ChdirGetcwdExactly | rtld_linux.c:886-905 | over all states outside FROM it never moves the kernel exactly when FROM is stored canonically or TO is not |
| Processes.Process.Chdir | rtld_linux.c:731-734 | the method moves the process exactly as the run-level step says, and reports success exactly when the handed-on path resolves to a directory |
| Processes.Process.Getcwd | rtld_linux.c:886-905 | the caller's buffer ends up holding exactly the specified answer; with rewriting disabled, the directory's own name |
| FileStore.ChangesExactly | rtld_linux.c:946-955 | the reference kernel the calls reach: a place notices an operation, renames included, exactly where stated, and then holds what is stated |
| FileStore.RenameHappensExactly | rtld_linux.c:946-955 | the reference kernel's rename, case by case: which nodes may replace which, and that nothing moves into itself or onto a non-empty directory |
| FileStore.StepIsolatedExactly | rtld_linux.c:946-955 | any operation leaves the subtree at a root as it was exactly when it has no effect there, and a carried-out rename takes nothing from it, replaces in it at most an empty directory by an empty one, and neither takes content away with an ancestor of the root nor brings content along with one |
| Views.StepCommutesExactly | rtld_linux.c:434-447 | through the mapping an issued operation is the plain operation on the tree the program sees exactly when it is faithful in the store it meets; removals and renames above the roots included |
| Views.FaithfulByHost | rtld_linux.c:434-447 | faithfulness in terms of names and the kernel's own tree: what lies outside the roots, and which of the roots hold anything |
| Views.ClearIsFaithful | rtld_linux.c:434-447 | away from the ancestors of the roots every operation is faithful in every store |
| FileCalls.IssuedIsRedirected | rtld_linux.c:946-955 | a fitting call acts on the mapped locations of all its paths |
| FileCalls.ReachesSourceExactly | rtld_linux.c:411-447 | a call leads into the real FROM tree exactly when its argument does not fit, absolute-only calls included |
| FileCalls.Isolation | rtld_linux.c:794-869 | any run of at-calls and absolute-only calls, fitting or not, keeps the real subtree at FROM unchanged throughout exactly when every step spares it in the store it meets |
| FileCalls.FittingSpares | rtld_linux.c:794-869 | a step with fitting arguments spares it exactly when no rename carried out takes content away with an ancestor of FROM or brings content to FROM along with one |
| FileCalls.Illusion | rtld_linux.c:794-869 | seen through the mapping, a run of fitting at-calls and absolute-only calls is at every moment the run on an ordinary kernel whose tree has TO's content at FROM exactly when every step is faithful; refusals are shared |
| FileCalls.LookupAfterRun | rtld_linux.c:434-447 | after a faithful run any name finds what the ordinary kernel has under the name's alias |
| FileCalls.SameAliasFromEitherBase | rtld_linux.c:402-408 | a relative path acts on one alias, whether it starts from the kernel's directory or the program's, exactly when it is followed |
| FileCalls.SeenExactly | rtld_linux.c:434-447 | any call, `renameat` included, is noticed through q exactly where the mapped operation changes q's place, and q then finds what it left |
| FileCalls.SeenThroughAliases | rtld_linux.c:434-447 | an effective call other than a rename is noticed through q exactly when q and its target map to one place |
| FileCalls.OpenNoticed | rtld_linux.c:827-869 | `openat`, and `open`, create a file exactly at the mapped location of the path named, if nothing is there |
| FileCalls.MkdirNoticed | rtld_linux.c:807-825 | `mkdirat`, and `mkdir`, the same with a directory |
| FileCalls.UnlinkNoticed | rtld_linux.c:1037-1055 | `unlinkat`, `unlink` and `rmdir` take away exactly what is at the mapped location, a file or an empty directory as asked for |
| FileCalls.LinkNoticed | rtld_linux.c:794-803 | `linkat` is noticed through q exactly when q's place is the mapped new place, nothing is there and the mapped old place holds a file, which q then finds |
| FileCalls.RenameNoticed | rtld_linux.c:946-955 | a `renameat` is noticed through q exactly when carried out and q's place lies at or below either mapped place with different content; and what q finds |
| FileCalls.FoundAtEnd | rtld_linux.c:434-447 | over any run a lookup of q finds at the end what the last step that changed q's place left there, and what was there at the start if none did |
| FileCalls.LastChangeSeen | rtld_linux.c:434-447 | over a run whose later calls, whatever they name, change nothing at q's place, what a call (`renameat` included) changed there is found through q at the end |
| Machines.RunsMirror | rtld_linux.c:411-447 | whole processes: any mix of `chdir`, directory opens and file calls with fitting, followed arguments and faithful operations keeps working directory, descriptors and tree the mirror of the same process on the ordinary kernel; about held directories it asks something, of their names, only where some no longer exist; refusals are shared |
| Machines.TidyRunsMirror | rtld_linux.c:411-447 | a process whose directories exist and that removes none it holds mirrors the plain one under faithful operations alone, and its directories still exist |
| Machines.FaithfulMirrorsExactly | rtld_linux.c:434-447 | while every held directory exists, one file operation keeps the mirror exactly when it is faithful |
| Machines.HoldingKept | rtld_linux.c:434-447 | held directories that exist all do after an operation exactly when it removes none of them |
| Machines.ChangeMirrorsExactly | rtld_linux.c:434-447 | for any held directories, one file operation keeps the mirror exactly when it is faithful and a carried-out rename is, by names, not above a root the directory lies under and takes no held directory onto a root |
| Machines.ClearIsGood | rtld_linux.c:434-447 | away from the ancestors of the roots every operation does so |
| Machines.SameAnswers | rtld_linux.c:434-447 | at any such moment every lookup finds on the host what it finds on the ordinary kernel |
| Machines.SameGetcwd | rtld_linux.c:886-905 | and `getcwd` answers the ordinary kernel's working directory |
| Machines.StartingMirror | rtld_linux.c:731-734 | every process whose directories lie outside FROM has such a mirror |
| Machines.ChangeDirIsRealNext | rtld_linux.c:731-734 | a `chdir` step of the whole process is the step of the working-directory runs and changes nothing else |
| Machines.OpenDirHolds | rtld_linux.c:827-869 | a directory opened through a fitting argument is held at the mapped location |
| Machines.OnFilesIsHostRun | rtld_linux.c:794-869 | a file call changes the tree as the runs of file calls say, and a refused one nothing |
| Machines.RunsAreIsolated | rtld_linux.c:794-869 | any whole-process run, whatever its arguments, leaves the real subtree at FROM unchanged throughout exactly when every file call spares it |
| Machines.GoodRunsAreIsolated | rtld_linux.c:794-869 | the runs that keep the mirror leave it unchanged |
| Symlinks.SymlinkAt | rtld_linux.c:1017-1030 | the link path is rewritten like any at-argument, the payload only when absolute |
| Symlinks.AbsolutePayload | rtld_linux.c:1004-1030 | an absolute payload points to the image of what it names exactly when it fits or both roots are one |
| Symlinks.RelativePayload | rtld_linux.c:1004-1030 | a relative payload that stays under FROM points, untouched, to the image of what it names |
| Symlinks.RelativePayloadExactly | rtld_linux.c:1004-1030 | for all separate roots an untouched relative payload is right exactly when its walk from the link is followed and does not lead into the real FROM tree |
| Limits.RenamingAboveSource | rtld_linux.c:946-955 | FROM `/x/y`, TO `/z`: `renameat` of `/x`, handed on as it is, takes the real subtree at FROM away |
| Limits.RemovingAboveSource | rtld_linux.c:1042-1055 | FROM `/x/y`, TO `/z`: `unlinkat` of the directory `/x` succeeds although the program sees `/x/y` in it |
| Limits.SourceWithTrailingSeparator | rtld_linux.c:319-328 | FROM `/a/b/..` is stored as `/a/` and leaves `/a/c` unmapped |
| Limits.DestinationWithTrailingSeparator | rtld_linux.c:886-905 | TO `/t/u/..` is stored as `/t/` and `getcwd` shows `/t/c`, not `/a/c` |
| Limits.ReturningToCwdMoves | rtld_linux.c:886-905 | FROM `/a/b/..`: `chdir` of what `getcwd` answers leaves for the real `/a` |
| Limits.ClimbingOut | rtld_linux.c:411-419 | FROM `/x/f`, TO `/y/t`: `..`, handed on as it is, leads outside FROM and still to the wrong place |
| Limits.LosingHeldDirectory | rtld_linux.c:946-955 | FROM `/x/y`, TO `/z` and a working directory removed while held: renaming `/x` is faithful and moves the program's directory, not the kernel's |
| Limits.ReenteringSource | rtld_linux.c:411-419 | FROM `/a`, TO `/t`: a followed `../a`, handed on as it is by the absolute-only calls, leads into the real FROM, and `rmdir` of it removes that |
| Limits.LeavingAndReturning | rtld_linux.c:357-409 | FROM `/original/prefix`, TO `/replacement/prefix`: `..` is not followed, `../prefix` is |
| Snapshot.StepKeeps | rtld_linux.c:299-332 | every write of the initialiser, torn copies included, keeps the protocol invariant, and a finished record is never written again |
| Snapshot.OneSnapshot | rtld_linux.c:334-337 | over all interleavings and environment changes every read sees one and the same finished record, which holds a policy of values the variables had |
| Snapshot.SnapshotIsCurrent | rtld_linux.c:299-337 | while any thread is inside, the record read through its flag and lengths is the policy of a value FROM had, and then TO, after the first thread entered |
| Snapshot.AloneInitialises | rtld_linux.c:299-332 | a thread that enters first and is not interrupted returns with the policy of the current environment |
| Snapshot.RecordsRead | rtld_linux.c:327-331 | read as callers read it, a finished record is the policy it was made from, enabled exactly when that is |
| Snapshot.NoPartialRecord | rtld_linux.c:334-337 | no thread the call has returned to finds a partly written record: lengths and prefixes agree and read as one policy |

## Left out

- Symbol lookup, the `orig_` forwarders and missing symbols: libc's `getcwd` and `readlink` answers are inputs that may fail, the rest of libc is the abstract kernel.
- Calls on descriptors alone (`read`, `write`, `lseek`, `close`, `fstat`) and file contents: they pass through.
- Flags, modes, `errno` values and structure contents; the variadic handling of `open` and `openat`.
- Symbolic links met during resolution, permissions, mounts and existence of intermediate directories: the engine is lexical and the modelled tree is symlink-free; a call of `FileCalls` may be refused for such reasons at any step, refusals being part of the run.
- Refusals are shared: a call refused to the host is refused to the ordinary kernel too, so a reason that differs between TO's surroundings and FROM's (a missing or read-only parent, say) is not told apart in FileCalls.Illusion and Machines.RunsMirror.
- The changed `/proc/self/fd` text of a directory removed while held: it keeps its name here.
- `AT_EMPTY_PATH`: a fitting argument of a file call is non-empty; `chdir("")` is modelled.
- `getcwd` with a NULL buffer or a size above PATH_MAX: Processes.Process.Getcwd requires a buffer and a size of at most PATH_MAX.
- `execve` as a hand-over to a new process: its path argument is one more argument of the `chdir` kind.
- The wrappers that repeat the steps of `rewrite_at_argument` in line (`faccessat`, `fchmodat`, `readlinkat`, `utimensat`, `statx`): Rewriter.RewriteAtArgument stands for them.
- Rewriter.RewriteAtArgument: the descriptor the source updates through a pointer is an out-parameter here.
- Policies.RewritePolicy.InitRewritePolicy: assumes the environment strings do not change while it reads them; Snapshot lets the environment change between its two lookups.
- Bytes are Dafny characters; the engine only compares them with NUL, the separator and the dot, and with each other.
- The Go launcher, terminal handling, build files and smoke tests.
