# One-way folder synchronisation: the reconciliation pass

This project models the core of `veeam_sync_task_python/sync.py`: the pass that
walks a source directory tree and a replica directory tree and changes the
replica in place until it matches the source. The pass is `sync_dirs`, which runs
`filecmp.dircmp` on the two roots and hands the result to `check_difs`. At each
level `check_difs` does four things in order:

1. `delete_leftover` removes the replica-only names.
2. `copy_new` copies the source-only names.
3. The differing files are overwritten.
4. `check_difs` recurses into every common subdirectory.

Every action is written as one debug record to the log.

The project has five modules:

- `FsTree` (`fs_tree.dfy`): the filesystem as a value. A `Node` is a file with
  its bytes or a directory mapping names to nodes. A `Path` is a sequence of
  names. `Get` and `Put` read and replace the node at a path.
- `DirCmp` (`dircmp.dfy`): `Compare`, the one-level comparison that
  `filecmp.dircmp` performs. It splits the names into `leftOnly`, `rightOnly`,
  `sameFiles`, `diffFiles`, `subdirs` and `commonFunny`. File equality is a
  parameter `same`.
- `SyncSpec` (`sync_spec.dfy`): what a pass means, as functions of the two
  listings at a level:
  - `Reconcile` is the replica listing the pass leaves.
  - `Actions` is the set of records it logs.
  - `InOrder` and `DepthFirst` are the orders those records may come in.

  This module also holds the lemmas on convergence, idempotence, no type repair
  and one record per action.
- `SyncSteps` (`sync_steps.dfy`): lemmas that connect one loop step, or one
  phase, of the methods to those functions.
- `Sync` (`sync.dfy`): the imperative model. The class `FileSystem` holds the
  `source` tree, the `replica` tree and the `log`. Its methods are the Python
  functions and their loops. The operating-system calls are methods that change
  one replica entry each: `os.remove`, `shutil.rmtree(ignore_errors=True)`,
  `shutil.copy2` and `shutil.copytree`. Their preconditions are the situations
  in which the real call does not raise.

Each method is proved against the specification functions. `CheckDifs` ends with
the replica equal to `Put(old(replica), p, Dir(Reconcile(...)))`. Its log is the
old log plus records that are exactly `Actions(...)` as a multiset, in an order
that `InOrder` and `DepthFirst` allow:

- At one directory, deletions come before creations, and creations before
  updates.
- Nothing is done in a directory after something was done below it.
- The walk is depth-first (`DepthFirst`): the records about any directory and
  everything below it form one unbroken stretch of the log, because each
  recursive call at line 86 runs to completion before the next one starts.

`SyncDirs` adds the following guarantees:

- The source is unchanged.
- A name that is a file on one side and a directory on the other keeps its
  replica entry.
- If the comparator is reflexive and no common name changes kind, the replica
  mirrors the source.
- If the comparator is reflexive, a second pass over an unchanged source logs
  nothing and changes nothing.

Three behaviours of the code are worth stating outright:

- **No type repair.** A name that is a file on one side and a directory on the
  other falls into dircmp's `common_funny`. The pass never reads that class, so
  the replica entry stays as it is (`KindMismatchKept`).
- **No error handling around the file operations.** No call in lines 17-92 is
  inside a `try`, and neither is the scheduling loop at lines 141-144. The
  first call that raises therefore ends the whole program, and no later pass
  runs. The one exception is `shutil.rmtree(..., ignore_errors=True)` at line 28,
  which swallows its own failures. The model states, as preconditions, the
  conditions under which each call does not raise.
- **A file copy onto a directory raises.** `copy_new` and the update loop call
  `shutil.copy2` directly, at lines 48 and 80. `copy2` raises when the target
  name is a directory, so `Copy2` requires that it is not one.

## Model

| member | source | states |
|---|---|---|
| DirCmp.Compare | veeam_sync_task_python/sync.py:90 | The dircmp classes split the names of both listings with no overlap. `leftOnly` holds exactly the source-only names and `rightOnly` exactly the replica-only names. `diffFiles` and `sameFiles` are the common plain files that the comparator calls unequal or equal. `subdirs` are the common directories. `commonFunny` is exactly the names whose kind differs. |
| Sync.FileSystem.constructor | veeam_sync_task_python/sync.py:128 | A synchroniser starts on the given source and replica trees with an empty log, as the log file is opened for writing and so truncated. |
| Sync.FileSystem.Remove | veeam_sync_task_python/sync.py:30 | `os.remove` needs a plain file and removes exactly that entry from its directory. The source and the log are unchanged. |
| Sync.FileSystem.RmTree | veeam_sync_task_python/sync.py:28 | `rmtree` with `ignore_errors` removes a directory entry with its subtree. On a file or a missing name it changes nothing. |
| Sync.FileSystem.Copy2 | veeam_sync_task_python/sync.py:48 | `copy2` of a source file into the replica directory sets that one entry to the source file, creating or overwriting it. It requires that the target is not a directory. |
| Sync.FileSystem.CopyTree | veeam_sync_task_python/sync.py:59 | `copytree` installs the whole source subtree under a replica name that must not exist yet. |
| Sync.FileSystem.DeleteEntry | veeam_sync_task_python/sync.py:23-33 | One name of `delete_leftover` is gone from the replica listing whether it was a file or a directory. Exactly one `Deleted` record is appended to the log. |
| Sync.FileSystem.DeleteLeftover | veeam_sync_task_python/sync.py:17-33 | Afterwards the replica listing is the old one minus `right_only`. Every other entry and the source are unchanged. The new log records are one deletion per `right_only` name and nothing else. |
| Sync.FileSystem.CopyEntry | veeam_sync_task_python/sync.py:42-61 | A source name is installed in the replica and one record is logged: a file copy or a directory copy, by the source entry's kind. This includes the removal of an existing file at 54-55. A name missing from the source changes nothing and logs nothing. |
| Sync.FileSystem.CopyNew | veeam_sync_task_python/sync.py:35-61 | Every `left_only` name of the source is installed with its source file or subtree. Other entries are unchanged. The new records are one creation per such name, of the right kind. |
| Sync.FileSystem.SyncFile | veeam_sync_task_python/sync.py:76-82 | One differing file is overwritten by its source file, and one update record is appended. |
| Sync.FileSystem.SyncDiffering | veeam_sync_task_python/sync.py:74-82 | Every `diff_files` name is overwritten by its source file and every other entry is unchanged. The new records are one update per name. |
| Sync.FileSystem.CheckSubdirs | veeam_sync_task_python/sync.py:84-86 | Every common subdirectory is replaced by its reconciled copy. The new records are exactly those of the subdirectory passes. They are in order, and depth-first: each subdirectory's records form one unbroken stretch. |
| Sync.FileSystem.CheckDifs | veeam_sync_task_python/sync.py:63-86 | The replica subtree at `p` becomes `Reconcile` of the two listings, and nothing outside `p` changes. The source is unchanged. The log gains exactly the pass's records. Deletions, creations and updates are in phase order, each parent level comes before its children, and each subtree's records form one unbroken stretch (depth-first). |
| Sync.FileSystem.SyncDirs | veeam_sync_task_python/sync.py:88-92 | Results of one pass from the roots: the replica is the reconciliation and the source is unchanged. The log gains exactly the pass's records, in phase order and depth-first. Kind mismatches keep their replica entries. With a reflexive comparator and no kind change the replica mirrors the source. With a reflexive comparator a repeat pass is quiet and a fixpoint. |
| FsTree.IsDirAt | veeam_sync_task_python/sync.py:52 | `os.path.isdir`: the path exists and is a directory. Every directory other than the root sits in a parent that exists, is a directory and holds its name. |
| FsTree.IsFileAt | veeam_sync_task_python/sync.py:27 | `os.path.isfile` on the path joined from a directory and a name. It holds exactly when that joined path exists and is a plain file. |
| FsTree.GetChild | veeam_sync_task_python/sync.py:24 | Joining a name to a directory path reaches that entry exactly when the directory exists and holds the name; otherwise the joined path does not exist. |
| FsTree.PutElsewhere | veeam_sync_task_python/sync.py:63-86 | Replacing the subtree at the directory being reconciled leaves every path apart from it unchanged (the frame of a pass). |
| SyncSpec.Reconcile | veeam_sync_task_python/sync.py:63-86 | After a pass, a level of the replica has exactly the source's names. |
| SyncSpec.ReconcileEntry | veeam_sync_task_python/sync.py:63-86 | Source-only and differing names end as the source entry. Common subdirectories end reconciled. Equal files and kind mismatches keep the replica entry. |
| SyncSpec.ActionsBelow | veeam_sync_task_python/sync.py:70-86 | Every record of a pass at `p` is either a record of the level `p` itself or about a directory inside one of its common subdirectories. |
| SyncSpec.SubdirActionsInside | veeam_sync_task_python/sync.py:84-86 | The records of the recursive calls are about directories inside the subdirectories recursed into. |
| SyncSpec.ActionsSplit | veeam_sync_task_python/sync.py:70-86 | A pass's records are its deletions, creations, updates and subdirectory records, with no record shared between two of them. |
| SyncSpec.SubdirActionsAdd | veeam_sync_task_python/sync.py:85-86 | Recursing into one more subdirectory adds exactly that pass's records, which no earlier sibling's pass shares. |
| SyncSpec.LevelRecords | veeam_sync_task_python/sync.py:17-82 | One record per action at a level. A name has a deletion record iff it is replica-only. It has a file-copy or directory-copy record iff it is source-only with that kind in the source. It has an update record iff it is a differing file. |
| SyncSpec.LevelQuiet | veeam_sync_task_python/sync.py:63-82 | A level logs nothing iff there is nothing to delete, copy or overwrite. |
| SyncSpec.TreeQuiet | veeam_sync_task_python/sync.py:63-86 | A pass logs nothing iff its level logs nothing and no common subdirectory's pass logs anything. |
| SyncSpec.QuietPassKeepsReplica | veeam_sync_task_python/sync.py:63-86 | A pass that logs nothing leaves the replica as it was, because every change is logged. |
| SyncSpec.QuietFacts | veeam_sync_task_python/sync.py:63-86 | A quiet level has the same names on both sides, only equal files, kind mismatches and common directories, and quiet subdirectories. |
| SyncSpec.CopyIsQuiet | veeam_sync_task_python/sync.py:88-92 | With a reflexive comparator, a pass over a replica that is an exact copy logs nothing. |
| SyncSpec.SecondPassQuiet | veeam_sync_task_python/sync.py:88-92 | With a reflexive comparator, a second pass over an unchanged source logs nothing. |
| SyncSpec.Idempotent | veeam_sync_task_python/sync.py:88-92 | With a reflexive comparator, reconciling twice gives the same replica as reconciling once. |
| SyncSpec.Converges | veeam_sync_task_python/sync.py:63-92 | With a reflexive comparator and no common name changing kind, one pass leaves a replica that mirrors the source. It has the same names at every level, and every file is equal to its source file under the comparator. |
| SyncSpec.ConvergesExactly | veeam_sync_task_python/sync.py:63-92 | With a comparator that is exact equality on file contents and no kind change, one pass makes the replica identical to the source. |
| SyncSpec.KindMismatchKept | veeam_sync_task_python/sync.py:63-86 | No type repair: a name that is a file on one side and a directory on the other keeps its replica entry, so the replica does not mirror the source. |
| SyncSpec.MirrorsSelf | veeam_sync_task_python/sync.py:88-92 | With a reflexive comparator, every tree mirrors itself. Copied subtrees therefore count as mirrored. |
| SyncSteps.LevelFacts | veeam_sync_task_python/sync.py:65-82 | Each loop finds its names as dircmp classified them. `left_only` names are in the source and absent from the replica after the deletions. `diff_files` are files on both sides after the creations. `subdirs` are still the original directories after the updates. |
| SyncSteps.LevelEndsEarly | veeam_sync_task_python/sync.py:73-74 | When a level has no differing file and no subdirectory, skipping the rest of `check_difs` still leaves the reconciled listing. The records so far are then all of the pass's, in order and depth-first. |
| SyncSteps.DescendStep | veeam_sync_task_python/sync.py:85-86 | Recursing into one more subdirectory replaces just that entry, which until then is still the original one, by its reconciled copy. |
| SyncSteps.ChildLevelStep | veeam_sync_task_python/sync.py:85-86 | A recursive pass on `p + [n]`, seen from `p`, replaces only the entry `n` of `p`. |
| SyncSteps.SubdirActionsAgree | veeam_sync_task_python/sync.py:84-86 | The subdirectory passes run on the listing left by the deletions, creations and updates. They log the same records as passes run on the original listing, since those phases never touch a common subdirectory. |
| SyncSteps.SubdirLogStep | veeam_sync_task_python/sync.py:85-86 | Appending one more recursive pass's records keeps the log equal to the subdirectory records done so far, in order and depth-first. |
| SyncSteps.PassLog | veeam_sync_task_python/sync.py:70-86 | Deletions, then creations, then updates, then the subdirectory records are exactly the pass's records, in order and depth-first. |
| SyncSteps.PassOrder | veeam_sync_task_python/sync.py:70-86 | A log in the order delete, copy, update, recurse satisfies the phase order and the parent-before-child order. |
| SyncSpec.DepthFirstLevel | veeam_sync_task_python/sync.py:70-82 | The records a level writes about its own directory are depth-first. |
| SyncSpec.DepthFirstConcat | veeam_sync_task_python/sync.py:84-86 | A depth-first log about a directory and some of its subdirectories, followed by a depth-first log inside other subdirectories, is depth-first. |
| SyncSteps.SubdirDepthStep | veeam_sync_task_python/sync.py:85-86 | Appending one more recursive pass's records keeps the subdirectory log depth-first. |
| SyncSteps.PassDepth | veeam_sync_task_python/sync.py:70-86 | A level's own records followed by depth-first subdirectory records form a depth-first log. |
| SyncSteps.FullPassLog | veeam_sync_task_python/sync.py:70-86 | Like PassLog, for the subdirectory records produced on the listing after the updates. |

## Left out

- The interactive set-up at lines 94-139 is not modelled. It reads the source, replica and log paths and the interval, creates the logger and truncates the log file. `SyncDirs` instead requires that both roots are directories, which the input loops check at 96 and 106.
- The scheduling loop at lines 141-144 is not modelled. It repeats `sync_dirs` with a sleep until the first exception, which ends the program: nothing catches it. Exceptions can come from a failing file operation, from dircmp's listing of a directory (line 65, reached from line 92 and from each recursive call at line 86; the `dircmp` built at line 90 lists nothing until then), or from `time.sleep` at line 144 with a negative interval, which line 133 accepts. Its effect on an unchanged source is stated by `SecondPassQuiet` and `Idempotent`. The interval is read in minutes (line 133) and multiplied by 60 before the sleep (line 143).
- The `print` calls are not modelled; they repeat each log message on standard output. A log record keeps the directory and the name an action touched, not the formatted message text or its severity, which is always DEBUG.
- Paths are joined with `"\\"`, so the code assumes Windows path syntax. The model uses sequences of names and does not model the string join, or what happens on a system where `"\\"` is not a separator.
- dircmp's default ignore and hide lists are not modelled (`RCS`, `CVS`, `.git`, `__pycache__` and others, plus `.` and `..`). Neither are case folding of names, names whose `os.stat` fails, or files it cannot compare (`funny_files`). The shallow `filecmp.cmp` test is the comparator parameter `same`, with no metadata in a node. A name on the ignore list is therefore, at any compared level, never deleted from the replica and never copied into it, so there the real replica need not mirror the source whatever `Converges` and `ConvergesExactly` say of the model; inside a subtree copied whole, `copytree` copies such names anyway.
- Symbolic links, permissions, timestamps and the metadata that `copy2` and `copytree` preserve are not modelled.
- Operating-system failures are not modelled; each primitive's preconditions exclude them. A failing `os.remove`, `copy2` or `copytree` raises, which ends the pass and the program.
- Sync.FileSystem.RmTree: assumes `rmtree` succeeds. With `ignore_errors=True` at line 28 a failure is silent. The directory can then survive, whole or in part, and `Deleted` is still logged at line 33. The model always removes the whole subtree.
- Concurrent changes to either tree during a pass are not modelled.
- The log file is modelled as `log`, apart from both trees. The program accepts any existing folder for it (lines 115-116) and opens `folder_sync.log` there (lines 122-128). If that folder is inside the source, every pass writes to a source file, so the next pass finds it new or differing and is never quiet. If it is inside the replica, what happens depends on where:
  - If the log folder is the replica root or a common subdirectory, the open log file is itself a replica-only name. `delete_leftover` then calls `os.remove` on it (line 30). On Windows that raises and ends the program; elsewhere the file is unlinked and later records are lost.
  - If the log folder is a directory that the source lacks, such as a `logs` folder in the replica, the replica-only name is that folder. `isfile` is false for it, so line 28 calls `rmtree` with `ignore_errors=True`. On Windows, deleting the open file fails silently: the folder and the log survive, and `Deleted` is logged for the folder on every pass. Elsewhere `rmtree` unlinks the open file together with its folder, and later records are lost.
  - With the log folder inside the source, or a replica-only log folder on Windows, no pass is ever quiet, so `SecondPassQuiet` and `Idempotent` do not describe the program. In the cases where the file is unlinked, the replica matches the model, but the records after the first pass are lost.
- The two roots are modelled as separate trees, so the replica never lies inside the source or the source inside the replica. The program checks only that each is a directory (lines 96 and 106). If the replica is inside the source, `copy_new` can copy the replica into itself (line 59), and the pass changes the tree it is reading. Then `source == old(source)`, `SecondPassQuiet` and `Idempotent` need not hold.
- Sync.FileSystem.CheckDifs: the log order within one phase of one directory is not stated. The Python lists from dircmp are sorted, so the real order there is by name; the model iterates over sets in any order. The same holds for DeleteLeftover, CopyNew, SyncDiffering, CheckSubdirs and SyncDirs.
- The `os.path.exists` test on the replica path at line 54 and the removal at line 55 are modelled in `CopyEntry`. The `exists` test at line 52 is on the source path and is implied by `isdir`. Under dircmp a `left_only` name never exists in the replica, so neither has an effect there. Removing a directory at that point would raise, which `CopyEntry` excludes in its precondition.
