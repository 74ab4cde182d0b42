# Sync-conflict scanner, modelled in Dafny

`manage_conflict_files` in `scan_sync_conflicts.py` walks a directory tree
looking for duplicates that file-synchronisation tools leave behind:
`report-1.txt` or `report-1-2.txt` next to `report.txt`. Each file name in a
directory is resolved to its *base*. The resolver repeatedly splits off the
extension, cuts the stem at its last `-` and moves to the shorter parent
name, but only while that parent is listed in the same directory. Names with
the same base form a group. Every group with more than one member is
reported: the base is the original, and the other members, in sorted order,
are the conflicts. In delete mode each conflict is handed to `os.remove`,
and a failing removal does not stop the others.

The model follows the program's own shape:

- `path_text.dfy` (module `PathText`): Python's `str.rfind`, POSIX
  `os.path.splitext` (the last dot after the last `/`, unless only dots
  precede it in the final component) and `str.rsplit(sep, 1)`, as functions.
- `string_order.dfy` (module `StringOrder`): Python's ordering of `str`
  (code point by code point, a proper prefix first) and `sorted` as an
  insertion sort, with the proofs that it sorts, permutes and is the only
  sorted arrangement.
- `resolution.dfy` (module `Resolution`): the one-step parent `ParentName`,
  the specification function `ResolveBase`, and the `while True` loop of
  lines 32-46 as the method `ResolveBaseFile`, proved to terminate and to
  compute `ResolveBase`.
- `grouping.dfy` (module `Grouping`): the `groups` dictionary of lines
  25-50. The dictionary's keys in insertion order are `BaseOrder` and each
  group is `GroupOf`. The loop is the method `BuildGroups`, which updates a
  key sequence and a map in place.
- `conflict_scan.dfy` (module `ConflictScan`): conflict selection (lines
  59-67), the removal loop (lines 72-77), the per-group loop (lines 52-77),
  one directory (lines 22-77) and the walk (lines 17-77). Each is a method
  proved against a specification function (`ConflictNames`, `ReportsOver`,
  `DirReports`, `DeletionPlan`, `WalkReports`).
- `scan_properties.dfy` (module `ScanProperties`): what the reports and
  removals promise, stated over those specification functions.
- `sequences.dfy` (module `Sequences`): three facts about sequence prefixes
  used by the loops.

The file system enters only as data. The walk is a sequence of
`Directory(path, filenames)` values, and a path is the pair
`Path(dir, name)`. `os.remove` is a parameter `failing`: the set of paths
whose removal raises `OSError`. The result of a run is the list of
reports, the list of removal outcomes (`Deleted` or `Failed`) and the
`found_any_duplicates` flag.

## Model

| member | source | states |
|---|---|---|
| PathText.RFind | scan_sync_conflicts.py:33-34 | The result is -1 or an index holding the character, and no later index holds it: the last occurrence, as `str.rfind` returns. |
| PathText.SplitExt | scan_sync_conflicts.py:33 | The stem and the extension put back together give the name again. |
| PathText.SplitExtShape | scan_sync_conflicts.py:33 | The extension is empty, or it is one dot followed by no further dot and no separator. |
| PathText.SplitExtOfFileName | scan_sync_conflicts.py:33 | For a name without `/`, the extension is non-empty exactly when some dot follows a non-dot character, so `.bashrc` has no extension. |
| PathText.SplitExtOfName | scan_sync_conflicts.py:33 | A separator-free stem that does not start with a dot, followed by `.ext` with no further dot, splits back into exactly that stem and that extension. |
| PathText.RSplitOnce | scan_sync_conflicts.py:34 | One part exactly when the separator is absent, and then it is the whole string. Otherwise two parts that rejoin around the separator, with no separator in the second. |
| Resolution.ParentName | scan_sync_conflicts.py:33-40 | A parent is at least two characters shorter than the name. This is the measure that makes resolution terminate. |
| Resolution.ParentNameShape | scan_sync_conflicts.py:33-40 | The parent is the stem up to its last `-`, plus the same extension. There is no parent exactly when the stem has no `-` or ends in one. |
| Resolution.ParentNameDrop | scan_sync_conflicts.py:33-40 | A name whose stem ends in `-suffix` (a non-empty suffix without dashes) has the stem before that dash, with the same extension, as its parent. |
| Resolution.ParentNameNoDash | scan_sync_conflicts.py:36-37 | A name whose stem has no `-` has no parent. |
| Resolution.ResolveBase | scan_sync_conflicts.py:29-46 | The base is no longer than the name, and it is either the name itself or a member of the directory's names. |
| Resolution.ResolveBaseIsBase | scan_sync_conflicts.py:36-46 | Resolution stops only at a base: a name with no parent, or whose parent is not listed. |
| Resolution.ResolveBaseFile | scan_sync_conflicts.py:29-46 | The `while True` loop terminates: the lookup name gets strictly shorter each round. It returns `ResolveBase` of the file name, which is a listed name when the file name is. |
| Resolution.SelfBaseIff | scan_sync_conflicts.py:36-46 | A name is its own base exactly when it has no parent or its parent is not listed. |
| Resolution.NoDashSuffixIsBase | scan_sync_conflicts.py:33-37 | A name whose stem has no `-`, or ends in `-`, is its own base whatever else is listed. |
| Resolution.ResolveBaseIdempotent | scan_sync_conflicts.py:32-46 | Resolving a base again gives the same base. |
| Resolution.CopyOfCopyParent | scan_sync_conflicts.py:33-40 | The parent of `stem-m-n.ext` is `stem-m.ext`. |
| Resolution.FirstCopyParent | scan_sync_conflicts.py:33-40 | The parent of `stem-m.ext` is `stem.ext`. |
| Resolution.OriginalHasNoParent | scan_sync_conflicts.py:36-37 | A dash-free `stem.ext` has no parent. |
| Resolution.ResolveStep | scan_sync_conflicts.py:42-44 | A name whose parent is listed resolves as its parent does. |
| Resolution.ResolveChain | scan_sync_conflicts.py:29-46 | With `stem.ext`, `stem-m.ext` and `stem-m-n.ext` all listed, the copy of a copy resolves to the original. |
| Resolution.ResolveBrokenChain | scan_sync_conflicts.py:42-46 | With `stem-m.ext` missing, `stem-m-n.ext` is its own base even though `stem.ext` is listed. |
| StringOrder.LexLeTotal | scan_sync_conflicts.py:63 | Any two strings are comparable under Python's string order. |
| StringOrder.LexLeTrans | scan_sync_conflicts.py:63 | The string order is transitive. |
| StringOrder.LexLeAntisym | scan_sync_conflicts.py:63 | Two strings that each precede the other are equal. |
| StringOrder.Insert | scan_sync_conflicts.py:63 | Insertion adds exactly one copy of the element to the multiset. |
| StringOrder.InsertSorted | scan_sync_conflicts.py:63 | Inserting into a sorted sequence keeps it sorted. |
| StringOrder.Sort | scan_sync_conflicts.py:63 | `sorted` returns a permutation of its input. |
| StringOrder.SortSorted | scan_sync_conflicts.py:63 | `sorted` returns an ascending sequence. |
| StringOrder.SortedUnique | scan_sync_conflicts.py:63 | Two sorted sequences with the same elements are equal, so `Sort` is the one result `sorted` can give. |
| StringOrder.WithoutMultiset | scan_sync_conflicts.py:63-64 | The `f != base_file` filter keeps every other name as often as it occurs and drops every copy of the base. |
| StringOrder.WithoutSorted | scan_sync_conflicts.py:63-64 | Filtering a sorted sequence keeps it sorted. |
| Grouping.Elems | scan_sync_conflicts.py:25 | `set(filenames)` holds exactly the listed names. |
| Grouping.BaseOrder | scan_sync_conflicts.py:48-49 | The dictionary's keys, in insertion order, are never repeated. |
| Grouping.BaseOrderMembers | scan_sync_conflicts.py:28-49 | A value is a key exactly when it is the key of some listed name. |
| Grouping.GroupOfMembers | scan_sync_conflicts.py:48-50 | The group of `b` holds exactly the listed names whose key is `b`. |
| Grouping.NewKeyEmptyGroup | scan_sync_conflicts.py:48-49 | A value not yet a key has no members yet, so starting its list empty is right. |
| Grouping.AddToGroups | scan_sync_conflicts.py:48-50 | One round of the loop: after the key of `x` gets an entry (a new empty one if absent), appending `x` gives the dictionary of the names up to `x`. |
| Grouping.BuildGroups | scan_sync_conflicts.py:25-50 | The loop yields the keys in first-seen order, one entry per key and no other, each holding that base's names in listing order. |
| Grouping.BaseOfClosed | scan_sync_conflicts.py:29-46 | A listed name resolves to a listed name that is its own base. |
| Grouping.GroupsPartition | scan_sync_conflicts.py:28-50 | Each name lies in the group of its own base and in no other, and every key belongs to its own group. |
| Grouping.GroupOfDistinct | scan_sync_conflicts.py:28-50 | In a directory without repeated names, no group holds a name twice. |
| ConflictScan.JoinDirMembers | scan_sync_conflicts.py:65 | A joined path is in the list exactly when its directory is `dirpath` and its name is in the name list. |
| ConflictScan.ConflictNamesSpec | scan_sync_conflicts.py:63-66 | The conflicts are ascending and exclude the original. They are the other members with their multiplicities, and there is one fewer than the members when names are distinct. |
| ConflictScan.ConflictNamesUnique | scan_sync_conflicts.py:63-66 | Any ascending arrangement of the other members is the conflict list. |
| ConflictScan.SelectConflicts | scan_sync_conflicts.py:59-67 | The loop over `sorted(file_list)` builds the joined paths of the conflict names. Every path is in `dirpath`, is a member of the group and is not the original. |
| ConflictScan.RemoveEach | scan_sync_conflicts.py:72-77 | Every path is attempted, once and in order. An attempt fails exactly on a failing path, and a failure does not stop the later attempts. |
| ConflictScan.GroupsOf | scan_sync_conflicts.py:26-50 | Every key has an entry in the dictionary. |
| ConflictScan.DeletionPlanAppend | scan_sync_conflicts.py:70-77 | The paths to remove for a concatenation of reports are those of the first part followed by those of the second. |
| ConflictScan.SingleReportPlan | scan_sync_conflicts.py:70-72 | One report's paths to remove are its conflicts in delete mode when there are any, and none otherwise. |
| ConflictScan.OutcomesAppend | scan_sync_conflicts.py:72-77 | Outcomes that follow their plans still follow them once both are concatenated. |
| ConflictScan.KeyStep | scan_sync_conflicts.py:52-77 | One round of the group loop extends the reports by that group's report (none for a single member) and the outcomes by that report's removals. |
| ConflictScan.ReportGroups | scan_sync_conflicts.py:52-77 | The loop reports exactly the groups with more than one member, in key order, and sets the flag exactly when it reports. It attempts exactly the planned removals, in order, and removes nothing in a dry run. |
| ConflictScan.ScanDirectory | scan_sync_conflicts.py:25-77 | One directory's reports are `DirReports` of its listing, with the same flag and removal guarantees. |
| ConflictScan.EmptyDirReports | scan_sync_conflicts.py:22-23 | A directory without files yields no report, so skipping it changes nothing. |
| ConflictScan.WalkStep | scan_sync_conflicts.py:21-77 | One round of the walk extends the reports and outcomes by those of the next directory. |
| ConflictScan.ManageConflictFiles | scan_sync_conflicts.py:17-77 | The run's reports are every directory's reports in walk order, and `found_any_duplicates` is set exactly when there is one. Every planned path is attempted once, in order. An attempt fails exactly on a failing path, and nothing is attempted in a dry run. |
| ScanProperties.ReportMember | scan_sync_conflicts.py:52-53 | A report is produced exactly for each key whose group has more than one member, and it is that group's report. |
| ScanProperties.DirReportsIff | scan_sync_conflicts.py:52-54 | A directory yields a report exactly when one of its groups has more than one member. |
| ScanProperties.WalkReportsIff | scan_sync_conflicts.py:17-54 | The walk yields a report, and so sets `found_any_duplicates`, exactly when some directory has a group of more than one member. |
| ScanProperties.ReportContents | scan_sync_conflicts.py:52-67 | A report's original is a listed name that is its own base. Its group has more than one member. Its conflicts are the other members of that group, in `dirpath`, ascending, one fewer than the members, each resolving to the original. |
| ScanProperties.PlanMember | scan_sync_conflicts.py:69-77 | A path is handed to `os.remove` exactly when delete mode is on and it is a conflict of some report. |
| ScanProperties.DryRunRemovesNothing | scan_sync_conflicts.py:70 | Without `perform_delete` no path is handed to `os.remove`. |
| ScanProperties.OriginalsSurvive | scan_sync_conflicts.py:58-74 | Every path the scan tries to remove is a listed name that is not its own base. The original of its group is never among the removals. |

## Left out

- `os.walk` (line 21): the walk is given as a sequence of directories. The traversal order, `topdown` and symbolic links are not modelled. Removing a file does not change the listing already taken, so the model treats each listing as fixed.
- `print` output and `os.path.abspath` (lines 11-15, 55-85): console output only. The reports and outcomes carry what is printed, except the `OSError` message text.
- `os.path.join` (lines 58, 65): a path is the pair of directory and name, without separator rules.
- `os.remove` (lines 72-77): what the file system does is the parameter `failing`, the paths whose removal raises `OSError`. Other exceptions are not modelled.
- The `__main__` block with `argparse` (lines 87-102): command-line wiring only.
- Strings are sequences of code points. Python's `str` comparison is modelled exactly, and no Unicode normalisation takes place, as in Python. Windows path rules (`ntpath.splitext`) are not modelled.
- ScanProperties.ReportContents: assumes a directory lists no name twice, as a directory listing guarantees. The count of conflicts relies on this.
- ScanProperties.OriginalsSurvive: assumes a directory lists no name twice, as a directory listing guarantees.
- Resolution.ResolveChain: stated for names of the shape `stem.ext`, `stem-m.ext`, `stem-m-n.ext` with a dash-free stem not starting with a dot. The general chain is covered by ResolveBase and its lemmas.
