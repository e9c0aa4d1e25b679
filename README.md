# PhotoOrganizer, modelled in Dafny

PhotoOrganizer copies every photo found under an input folder into an
output tree `outDir\<year>\<MM_Mon>\<base name>`, where the year and the
month come from the file's timestamp. Several files with the same base name
in the same month bucket are treated as copies of one photo. Only the first
of them is copied, and the others are counted as duplicates. Before
anything is copied, every such group is checked byte for byte, and the run
halts on the first group whose members differ. With `-d`, the first path of
a duplicated group is also copied into `outDir\duplicates` once per path
of the group, as `stem(0)ext`, `stem(1)ext`, and so on.
At the end the script reports how many files were copied, how many were
duplicates and how many already existed; the total is the number of files
read.

The model covers the catalog (a year → month → base-name table of
`FileReferences` records) and its two lookup helpers, the `FileReferences`
class, and the three loops of `main`: insertion, validation, and
copy-and-count. Those loops are methods over the same data the script
uses. The class is a Dafny `class` whose methods update its fields in
place. Python dictionaries are ordered `Dict` values (a key sequence in
insertion order plus a map), so every loop visits keys in the order the
script does. The disk is a value `Disk` (a map from paths to bytes plus a
set of folders). File timestamps come from a function parameter `stampOf`.

Modules, in dependency order:

- `Dates`: timestamps, the `%Y` and `%m_%b` keys, and the comparison `min` uses.
- `Paths`: Windows `basename`, `splitext` and `join`, and the dump names.
- `FileSystem`: the disk, `isfile`, `exists`, `makedirs`, `copy2` and `filecmp.cmp`.
- `Dicts`: ordered dictionaries.
- `References`: the `FileReferences` class.
- `Catalog`: `GetYearDict`, `GetMonthDict`, and the catalog invariant `Catalogs(t, files, stampOf)`.
  - It says that table `t` is what inserting `files` in order produces.
  - Every key some file maps to has a slot, and no other key does.
  - The slot holds that key's paths in discovery order.
  - Its date is the one given by the collision rule.
- `Insertion`: the first loop of `main`.
- `Enumeration`: the order in which the nested loops visit the slots.
- `Validation`: the second loop of `main`.
- `Execution`: the copy loop.
  - `ExecRecord` and its folds `ExecNames`/`ExecMonths`/`ExecYears` specify it.
  - The methods `CopyRecord`, `CopyMonth`, `CopyYear` and `Execute` are proved equal to those folds.
- `Layout`: what the copy pass leaves on disk over the whole table: which files it creates, and which organized copies hold which bytes.
- `Organizer`: `Run`, `main` from the discovered file list to the final report.

## Model

| member | source | states |
|---|---|---|
| Dates.Min | PhotoOrganizer/PhotoOrganizer.py:167 | the earlier of two datetimes: one of the two, and neither is before it |
| Dates.BeforeIsStrictTotalOrder | PhotoOrganizer/PhotoOrganizer.py:167 | datetime comparison is irreflexive, transitive and total, so `min` is well defined |
| Dates.DateBeforeIsStrictTotalOrder | PhotoOrganizer/PhotoOrganizer.py:152 | the comparison of calendar dates is a strict total order |
| Dates.MinOfDifferentDays | PhotoOrganizer/PhotoOrganizer.py:152-167 | for stamps on different days, the smaller stamp is the one on the earlier day |
| Dates.YearKey | PhotoOrganizer/PhotoOrganizer.py:14 | `%Y` gives four decimal digits |
| Dates.MonthKey | PhotoOrganizer/PhotoOrganizer.py:29 | `%m_%b` gives two digits, an underscore and the English month abbreviation |
| Dates.YearKeyRoundTrip | PhotoOrganizer/PhotoOrganizer.py:14 | the year can be read back from its key |
| Dates.MonthKeyRoundTrip | PhotoOrganizer/PhotoOrganizer.py:29 | the month can be read back from its key |
| Dates.YearKeyInjective | PhotoOrganizer/PhotoOrganizer.py:14-17 | two stamps get the same year key if and only if they have the same year |
| Dates.MonthKeyInjective | PhotoOrganizer/PhotoOrganizer.py:149-154 | two stamps share a month bucket key if and only if they have the same month, so the month-mismatch branch cannot be taken |
| Dates.KeysOfMarch2021 | PhotoOrganizer/PhotoOrganizer.py:29 | a stamp of 15 March 2021 is filed under "2021" and "03_Mar" |
| Paths.BaseName | PhotoOrganizer/PhotoOrganizer.py:144 | the base name contains no separator and is no longer than the path |
| Paths.BaseNameIsLastComponent | PhotoOrganizer/PhotoOrganizer.py:144 | the base name is the suffix of the path after its last separator |
| Paths.SplitExt | PhotoOrganizer/PhotoOrganizer.py:70-72 | stem plus extension gives back the name; the extension is empty or a dot followed by no other dot; it is empty exactly when the name has no dot, or only leading dots |
| Paths.SplitExtOfImg | PhotoOrganizer/PhotoOrganizer.py:70 | "img.jpg" splits into "img" and ".jpg" |
| Paths.JoinAfterPrefix | PhotoOrganizer/PhotoOrganizer.py:205 | joining is a fixed prefix followed by the joined name |
| Paths.JoinInjective | PhotoOrganizer/PhotoOrganizer.py:205 | different names joined to the same folder give different paths |
| Paths.JoinTwice | PhotoOrganizer/PhotoOrganizer.py:191-197 | a folder two levels down is the outer prefix, the first name, exactly one `\` and the second name |
| Paths.JoinTwiceInjective | PhotoOrganizer/PhotoOrganizer.py:191-205 | two levels below one folder, first names of equal length and second names are both recovered from the joined path |
| Paths.JoinIsUnderDir | PhotoOrganizer/PhotoOrganizer.py:223 | a name joined to the duplicates folder lies inside that folder |
| Paths.NatToString | PhotoOrganizer/PhotoOrganizer.py:223 | `str(i)` is a non-empty string of decimal digits, and it starts with `0` only for zero |
| Paths.ParseNatToString | PhotoOrganizer/PhotoOrganizer.py:223 | `str(i)` can be read back as `i` |
| Paths.NatToStringInjective | PhotoOrganizer/PhotoOrganizer.py:223 | different counters print differently |
| Paths.DumpNameInjective | PhotoOrganizer/PhotoOrganizer.py:223 | `stem(i)ext` names of one record differ for different `i` |
| Paths.DumpNamesOfImg | PhotoOrganizer/PhotoOrganizer.py:223 | the first three dump names of "img.jpg" are "img(0).jpg", "img(1).jpg" and "img(2).jpg" |
| FileSystem.MakeDirs | PhotoOrganizer/PhotoOrganizer.py:194 | creating a folder changes no file and adds the folder |
| FileSystem.EnsureDir | PhotoOrganizer/PhotoOrganizer.py:220-221 | after the exists-or-create step the folder exists, the folder set gains that folder only when it was missing and nothing else, and no file changed |
| FileSystem.Copy2 | PhotoOrganizer/PhotoOrganizer.py:212 | the destination gets the source's bytes, it is the only new file, and no other file changes |
| Dicts.EmptyDict | PhotoOrganizer/PhotoOrganizer.py:108 | `{}` is a well-formed dictionary with no keys |
| Dicts.Put | PhotoOrganizer/PhotoOrganizer.py:174 | assignment keeps the dictionary well formed, maps the key to the new value, and appends the key to the iteration order only if it was not yet there |
| Dicts.PutPut | PhotoOrganizer/PhotoOrganizer.py:174 | a second assignment to a key overrides the first and keeps its place |
| Dicts.PutSame | PhotoOrganizer/PhotoOrganizer.py:172 | writing back the value a key already holds leaves the dictionary as it was |
| References.PureMeansPairwiseIdentical | PhotoOrganizer/PhotoOrganizer.py:83-92 | comparing the first path with each other one is the same as all paths of the record having identical bytes |
| References.FileReferences.constructor | PhotoOrganizer/PhotoOrganizer.py:65-72 | a new record holds just its path, the path's base name, the given date, and the split of the base name into stem and extension |
| References.FileReferences.AddFileReference | PhotoOrganizer/PhotoOrganizer.py:77-78 | the path is appended, and every other field is unchanged |
| References.FileReferences.AreDuplicates | PhotoOrganizer/PhotoOrganizer.py:80-81 | a record is a duplicate group when it holds more than one path; it is a plain predicate, used by validation and the copy loop |
| References.FileReferences.EnsureIsPureDuplicate | PhotoOrganizer/PhotoOrganizer.py:83-92 | returns true exactly when every path has the same bytes as the first one; a record with one path is always pure |
| Catalog.GetOrCreate | PhotoOrganizer/PhotoOrganizer.py:14-17 | get-or-create on a dictionary of dictionaries: the returned inner dictionary is the stored one, an existing key leaves the outer dictionary unchanged, and a missing key is appended with `{}` |
| Catalog.GetYearDict | PhotoOrganizer/PhotoOrganizer.py:14-17 | returns the table with the stamp's year key present and that key's dictionary; existing years are unchanged, and a new year is appended holding `{}` |
| Catalog.GetMonthDict | PhotoOrganizer/PhotoOrganizer.py:29-32 | returns the year dictionary with the stamp's month key present and that key's dictionary; existing months are unchanged, and a new month is appended holding `{}` |
| Catalog.GetOrCreateThenPut | PhotoOrganizer/PhotoOrganizer.py:146-174 | looking up year and month and then storing a record under the base name is the same as storing it into that slot of the table |
| Catalog.PutRecordSlots | PhotoOrganizer/PhotoOrganizer.py:174 | storing a record into a slot keeps the table well formed, adds exactly that slot, and leaves every other slot's record alone |
| Catalog.PathsAt | PhotoOrganizer/PhotoOrganizer.py:142-174 | the paths of a slot are among the listed paths, and they are exactly the ones that map to the slot's key |
| Catalog.PathsAtComplete | PhotoOrganizer/PhotoOrganizer.py:142-174 | every listed path is among the paths of its own key |
| Catalog.Collide | PhotoOrganizer/PhotoOrganizer.py:152-167 | a colliding stamp on the same day leaves the record date alone; one on another day makes the date the earlier of the two |
| Catalog.Resolved | PhotoOrganizer/PhotoOrganizer.py:151-174 | the date a record ends with after its stamps arrived in order: the first stamp, then each later one applied by the collision rule; `ResolvedIsFirstOnEarliestDay` gives its independent characterisation |
| Catalog.ResolvedSnoc | PhotoOrganizer/PhotoOrganizer.py:151-172 | one more colliding path updates the record date by the collision rule |
| Catalog.ResolvedIsFirstOnEarliestDay | PhotoOrganizer/PhotoOrganizer.py:152-167 | after all collisions, a record's date is the stamp of the first of its paths that falls on the earliest day |
| Catalog.ResolvedStaysInBucket | PhotoOrganizer/PhotoOrganizer.py:149-154 | the resolved date stays in the bucket's year and month |
| Catalog.EmptyCatalogs | PhotoOrganizer/PhotoOrganizer.py:108 | the empty table is the catalog of no paths |
| Catalog.SlotsHoldDistinctRecords | PhotoOrganizer/PhotoOrganizer.py:174 | different slots hold different record objects, so mutating one never changes another |
| Catalog.CatalogsAfterPut | PhotoOrganizer/PhotoOrganizer.py:142-174 | storing the updated record of the new path's slot turns the catalog of `files` into the catalog of `files + [p]` |
| Insertion.FileNameCollision | PhotoOrganizer/PhotoOrganizer.py:151-172 | on a name collision, the record gains the path at the end and its date follows the collision rule; its base name, stem and extension stay as they were; the prompt and the name sanity exit are unreachable |
| Insertion.InsertPath | PhotoOrganizer/PhotoOrganizer.py:142-174 | one insertion step: the table gains the path's slot, and that slot holds its earlier paths plus this one, dated by the collision rule |
| Insertion.Insert | PhotoOrganizer/PhotoOrganizer.py:142-174 | filing a path into the catalog of `files` yields the catalog of `files + [p]` |
| Insertion.BuildCatalog | PhotoOrganizer/PhotoOrganizer.py:142-174 | the insertion loop over the file list yields the catalog of the whole list |
| Enumeration.NameSlots | PhotoOrganizer/PhotoOrganizer.py:203 | the names of a month dictionary, visited in order, are the slots of that month |
| Enumeration.SlotsEnumerate | PhotoOrganizer/PhotoOrganizer.py:178-180 | the nested year/month/name loops visit every slot of the table exactly once |
| Enumeration.CatalogHoldsEveryPath | PhotoOrganizer/PhotoOrganizer.py:142-174 | the records of the catalog together hold as many paths as were listed |
| Enumeration.EveryPathInOneRecord | PhotoOrganizer/PhotoOrganizer.py:142-174 | every listed path is in the record of its own key and in no other record |
| Validation.ValidateMonth | PhotoOrganizer/PhotoOrganizer.py:180-187 | true exactly when every record of the month is a pure duplicate group |
| Validation.ValidateYear | PhotoOrganizer/PhotoOrganizer.py:179-187 | true exactly when every record of the year is a pure duplicate group |
| Validation.ValidateCatalog | PhotoOrganizer/PhotoOrganizer.py:176-187 | the validation loop passes exactly when every record of the table is a pure duplicate group |
| Execution.DumpPathsDistinct | PhotoOrganizer/PhotoOrganizer.py:222-224 | a record's dump destinations are pairwise distinct, so within one record no dump copy overwrites another (records of other months may share them, see "## Left out") |
| Execution.DumpPaths | PhotoOrganizer/PhotoOrganizer.py:222-223 | the `i`-th dump destination, for `i` below the path count, and all of them lie in the duplicates folder |
| Execution.KeepsTransitive | PhotoOrganizer/PhotoOrganizer.py:189-225 | "no file lost and no file outside the duplicates folder overwritten" composes over successive steps |
| Execution.CopyAll | PhotoOrganizer/PhotoOrganizer.py:222-224 | repeated copying from one source adds no folder, loses no file and leaves the source intact |
| Execution.CopyAllSnoc | PhotoOrganizer/PhotoOrganizer.py:222-224 | copying to one more destination is one more `copy2` after the earlier ones |
| Execution.CopyAllHolds | PhotoOrganizer/PhotoOrganizer.py:222-224 | every dump destination ends up holding the source's bytes |
| Execution.CopyAllKeeps | PhotoOrganizer/PhotoOrganizer.py:222-224 | a file that is not a dump destination keeps its bytes |
| Execution.CopyAllFiles | PhotoOrganizer/PhotoOrganizer.py:222-224 | the files after the dump loop are exactly the files before plus the dump destinations |
| Execution.ExecRecord | PhotoOrganizer/PhotoOrganizer.py:203-225 | the copy loop body on one record: copy the first path unless the destination is a file, count the extra paths as duplicates, and with `-d` dump the first path once per path; it never removes a file, and `ExecRecordCounts`, `ExecRecordCopies` and `ExecRecordDumps` state its effects |
| Execution.ExecRecordCounts | PhotoOrganizer/PhotoOrganizer.py:209-216 | per record, copied grows by one when the destination is not a file yet and already-existed grows by one when it is, the other staying put; duplicates grow by the extra paths; the total grows by the record's path count |
| Execution.ExecRecordCopies | PhotoOrganizer/PhotoOrganizer.py:204-213 | the destination is a file afterwards, and it holds the first path's bytes when it was newly copied; files outside the duplicates folder are never overwritten |
| Execution.ExecRecordDumps | PhotoOrganizer/PhotoOrganizer.py:219-225 | with `-d`, a duplicated record leaves the duplicates folder existing, with one `stem(i)ext` copy per path, each holding the first path's bytes |
| Execution.ExecNames | PhotoOrganizer/PhotoOrganizer.py:203-225 | the records of a month's names in dictionary order, each applied with `ExecRecord`; it never removes a file |
| Execution.ExecMonths | PhotoOrganizer/PhotoOrganizer.py:196-225 | the months of a year in dictionary order, each creating its folder when missing and then applying `ExecNames`; it never removes a file |
| Execution.ExecYears | PhotoOrganizer/PhotoOrganizer.py:190-225 | the years of the table in dictionary order, each creating its folder when missing and then applying `ExecMonths`; it never removes a file |
| Execution.ExecNamesCounts | PhotoOrganizer/PhotoOrganizer.py:203-216 | over a month's names, copied plus already-existed grows by the slot count, and the total by the paths those slots hold |
| Execution.ExecMonthsCounts | PhotoOrganizer/PhotoOrganizer.py:196-216 | the same counting law over the months of a year |
| Execution.ExecYearsCounts | PhotoOrganizer/PhotoOrganizer.py:190-216 | the same counting law over the years of the table |
| Execution.ExecNamesPlaces | PhotoOrganizer/PhotoOrganizer.py:203-213 | after a month's names, each of their records has its destination file, and no earlier file was lost or overwritten outside the duplicates folder |
| Execution.ExecMonthsPlaces | PhotoOrganizer/PhotoOrganizer.py:196-213 | the same over the months of a year, with month folders joined under the year folder |
| Execution.ExecYearsPlaces | PhotoOrganizer/PhotoOrganizer.py:190-213 | the same over the years, with `outDir\year\month\baseName` as destinations |
| Execution.SlotDumpNames | PhotoOrganizer/PhotoOrganizer.py:223 | the record of a catalog slot carries the slot's base name, and its dump names are `stem(i)ext` with stem and extension from `splitext` of that base name |
| Execution.CopyPassReport | PhotoOrganizer/PhotoOrganizer.py:189-231 | over a catalog: copied plus already-existed is the number of slots, duplicates is the number of paths minus slots, and the reported total is the number of paths read; every slot's organized path exists afterwards; no file is lost or overwritten outside the duplicates folder |
| Execution.DumpCopies | PhotoOrganizer/PhotoOrganizer.py:222-225 | the dump loop copies the first path to each of the record's dump destinations in turn |
| Execution.CopyRecord | PhotoOrganizer/PhotoOrganizer.py:203-225 | the body of the innermost copy loop does what `ExecRecord` specifies for the record's current fields |
| Execution.CopyMonth | PhotoOrganizer/PhotoOrganizer.py:196-225 | the month folder step plus the loop over its names equals the specified fold over the month |
| Execution.CopyYear | PhotoOrganizer/PhotoOrganizer.py:190-225 | the year folder step plus the loop over its months equals the specified fold over the year |
| Execution.Execute | PhotoOrganizer/PhotoOrganizer.py:189-225 | the copy pass over the whole table, starting from zero counters, equals the specified fold over all years |
| Layout.KeysShaped | PhotoOrganizer/PhotoOrganizer.py:14-29 | every bucket key is a four-digit year and a six-character month name, neither ending in a separator |
| Layout.OrganizedForm | PhotoOrganizer/PhotoOrganizer.py:191-205 | an organized path is `outDir\year\month\baseName` with exactly one separator between the parts |
| Layout.OrganizedInjective | PhotoOrganizer/PhotoOrganizer.py:191-205 | different slots have different organized paths, so no record's copy lands on another's |
| Layout.OrganizedOutsideDumps | PhotoOrganizer/PhotoOrganizer.py:136-205 | no organized path lies in the duplicates folder, since a year starts with a digit and not with `d` |
| Layout.CatalogApart | PhotoOrganizer/PhotoOrganizer.py:142-205 | in a catalog every record carries its slot's base name, every key is well shaped, and organized paths lie outside the duplicates folder |
| Layout.MadeForDump | PhotoOrganizer/PhotoOrganizer.py:203-225 | a file made for a record other than its organized path is one of its `stem(i)ext` dump names, made only with `-d` when the record holds several paths |
| Layout.MadeForOnlyOwn | PhotoOrganizer/PhotoOrganizer.py:203-225 | only the record of a slot makes that slot's organized path |
| Layout.DeliveredKept | PhotoOrganizer/PhotoOrganizer.py:189-225 | a delivered organized copy survives every later step of the copy pass |
| Layout.DeliveredFrom | PhotoOrganizer/PhotoOrganizer.py:189-225 | a delivery by a later step counts from an earlier disk when nothing in between made the organized path |
| Layout.ExecRecordMakes | PhotoOrganizer/PhotoOrganizer.py:203-225 | the body of the copy loop creates only the record's destination and, with `-d` for several paths, its dump names |
| Layout.ExecNamesMakes | PhotoOrganizer/PhotoOrganizer.py:203-225 | over a month's names, every new file is made for one of those names' records |
| Layout.ExecMonthsMakes | PhotoOrganizer/PhotoOrganizer.py:196-225 | over a year's months, every new file is made for a record of one of those months |
| Layout.ExecYearsMakes | PhotoOrganizer/PhotoOrganizer.py:190-225 | over the years, every new file is made for a record of one of those years |
| Layout.ExecNamesDelivers | PhotoOrganizer/PhotoOrganizer.py:203-213 | over a month's names, each record whose organized path was free gets it, holding the first path's bytes |
| Layout.ExecMonthsDelivers | PhotoOrganizer/PhotoOrganizer.py:196-213 | the same over the months of a year |
| Layout.ExecYearsDelivers | PhotoOrganizer/PhotoOrganizer.py:190-213 | the same over the years of the table |
| Layout.CopyPassLayout | PhotoOrganizer/PhotoOrganizer.py:189-225 | for a catalog: every slot whose organized path was free ends with the first path's bytes there, unless that first path lies in the duplicates folder with `-d`; every new file is a slot's organized path or one of its dump names |
| Layout.ExecNamesCopiesNothing | PhotoOrganizer/PhotoOrganizer.py:208-213 | when every destination of a month already exists, its names copy nothing |
| Layout.ExecMonthsCopiesNothing | PhotoOrganizer/PhotoOrganizer.py:196-213 | the same over the months of a year |
| Layout.ExecYearsCopiesNothing | PhotoOrganizer/PhotoOrganizer.py:190-213 | the same over the years |
| Layout.CopyPassIdempotent | PhotoOrganizer/PhotoOrganizer.py:189-231 | a second run over the disk the first left copies nothing, and counts every slot as already existing |
| Organizer.DuplicateDir | PhotoOrganizer/PhotoOrganizer.py:136 | the duplicates folder is the output folder followed by exactly `\duplicates` |
| Organizer.PurityOfCatalog | PhotoOrganizer/PhotoOrganizer.py:176-187 | the records of a catalog are all pure duplicate groups exactly when any two listed paths with the same year, month and base name have identical bytes |
| Organizer.SlotIffKey | PhotoOrganizer/PhotoOrganizer.py:142-174 | a catalog has a slot for a key exactly when some listed path maps to that key |
| Organizer.SlotsAreKeys | PhotoOrganizer/PhotoOrganizer.py:142-174 | the catalog has one slot per distinct key of the listed paths |
| Organizer.RunDelivers | PhotoOrganizer/PhotoOrganizer.py:142-225 | when same-key paths have the same bytes, each listed path whose organized location was free ends with its own bytes there, unless with `-d` some listed path lies in the duplicates folder |
| Organizer.RunCreates | PhotoOrganizer/PhotoOrganizer.py:142-225 | every file the run creates is the organized location of a listed path or, with `-d`, a `stem(i)ext` name of a listed path that has same-key companions, with `i` below their number |
| Organizer.DeliveredIsOwnBytes | PhotoOrganizer/PhotoOrganizer.py:203-213 | a delivered slot gives each of its paths' organized location that path's own bytes, once same-key paths agree |
| Organizer.MadeIsCreated | PhotoOrganizer/PhotoOrganizer.py:203-225 | a file made for a slot is one `CreatedFor` allows, in terms of the listed paths |
| Organizer.Run | PhotoOrganizer/PhotoOrganizer.py:136-231 | see the details after this table |

`Organizer.Run` models `main` after the arguments are parsed and the input
folder is walked. It halts, copying nothing, exactly when two listed paths
with the same year, month and base name have different bytes. Otherwise:

- copied plus already-existed is the number of distinct keys;
- duplicates is the number of paths minus that number;
- the printed total is the number of files read;
- every path's `outDir\year\month\baseName` exists;
- where that location was free before the run, it holds the path's own bytes, provided that with `-d` no listed path lies in the duplicates folder;
- every new file is such a location or, with `-d`, a `stem(i)ext` name of a listed path that shares its key with others, for `i` below the size of that group;
- no file is lost, and no file outside the duplicates folder is overwritten.

## Left out

- Command-line parsing (`getopt`, lines 118-134) and the usage exits are not modelled. `Run` takes the output folder and the `-d` flag as parameters.
- The input folder walk `AddAllSubfileStringsToList` (lines 34-51) is not modelled, and neither is the file-type count it keeps.
  - `Run` takes the discovered list `fileList` as a parameter, in the walk's order.
  - Every listed path is assumed to be a file on the disk.
- `GetFileModificationDatetime` (lines 53-62) reads the clock and the file system. It is replaced by the parameter `stampOf`, which gives each path a timestamp.
  - The resolution is whole seconds.
  - The earlier of creation and modification time is the oracle's business.
- Strftime uses English month abbreviations, whatever the locale.
- Paths follow Windows conventions: `\` and `/` are separators, and `join` inserts `\`. Drive letters and the other `ntpath.join` special cases are not modelled.
- `makedirs` records only the folder it is given, not its parents.
- The disk compares paths as exact strings, and it does not keep files and folders apart. So the model does not capture these Windows behaviours:
  - `isfile` ignores case and treats `/` and `\` alike. Two base names that differ only in case, such as `IMG_1.JPG` and `img_1.jpg` in one month, are two slots. The source counts the second one as already existing. The model copies it and counts it as copied.
  - When the destination is an existing folder, `copy2` copies into that folder. The model puts a file at the folder's own path.
  - `makedirs` over an existing file raises. In the model it succeeds.
- `copy2` cannot fail in the model: no permissions, no full disk, no metadata.
- The log file is output only and is left out. Every run opens `PhotoOrganizerLog.txt` for appending (line 177); `-l` only decides whether each record's `logString` (lines 95-100) is written to it (lines 181-182). Every `print` is left out too.
- `FileReferences.AlreadyHasPath` is never called by `main`. It is a plain predicate with no contract.
- The "Time Mismatch" message box (lines 153-165) is proved unreachable instead of modelled. A colliding stamp always has the bucket's month, because same month key means same month.
- The filename sanity exit (lines 169-171) is also proved unreachable.
- References.FileReferences.EnsureIsPureDuplicate: on a false duplicate the source evaluates the undefined name `possibleDupe` (line 89) and raises. The model returns false instead. Either way the run stops before the copy loop.
- References.FileReferences.EnsureIsPureDuplicate requires that every path of the record be a file on the disk. The source's `filecmp.cmp` would raise otherwise.
- Execution.CopyRecord requires that the record's first path be a file on the disk. The source's `copy2` would raise otherwise.
- Execution.CopyMonth, Execution.CopyYear and Execution.Execute are specified against a snapshot of the records' fields, taken as they were after validation.
  - The copy loop never writes a record, so the snapshot is what each record holds when the loop reads it.
  - That the records are left unchanged is stated on the loops as a frame.
- The year and month folder creations (lines 193-194, 198-199) are modelled on the folder set. No property is stated about them beyond that.
- The dump loop copies the first path (`inFilePath`) to every `stem(i)ext` name, not path `i`, exactly as written. Validation has already made all paths byte-identical, so the dumped bytes are the same either way.
- Python `dict` aliasing is modelled by writing values back.
  - `GetYearDict` and `GetMonthDict` return the inner dictionary that `main` then mutates.
  - In the model, the updated inner dictionaries are stored back into the table.
  - The records themselves are shared objects, as in the source.
- Two records with the same base name in different months both dump to `duplicates\stem(i)ext` with `-d`. The later record's copies overwrite the earlier ones, as the source does. `Execution.DumpPathsDistinct` therefore speaks of one record only.
- Organizer.Run: the bytes at a new organized location are promised only when, with `-d`, no listed path lies in the duplicates folder. Otherwise a dump can overwrite a source file before that source is copied.
