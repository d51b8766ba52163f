# Timetable generator and college-data import, modelled in Dafny

This project models the two logic components of a college timetable web app.

**The timetable allocator** (`src/utils/timetableGenerator.ts`) works in two phases.

1. It builds a pool of sessions from the teacher roster:
   - three single theory sessions for each of the first five theory teachers;
   - two double lab sessions, carrying the batches D1 to D4, for each of the first five lab teachers;
   - two library sessions and two project sessions.

   Rooms are assigned round-robin by the teacher's position among the selected teachers.
2. It shuffles the pool and fills every day greedily with the shuffled sessions:
   - the grid has one cell per time slot of type `class`;
   - a double session needs two adjacent cells, and the second cell's course is marked " (Cont.)";
   - a double session that reaches the last cell is used up without being placed.

There are also three small display helpers: the time range of a cell, and two colour-class lookups.

**The import service** (`src/utils/dataImportService.ts`):
- dispatches on the file extension;
- parses CSV text naively: the text is split on newlines and commas, every cell is trimmed and loses every double quote, and each later non-blank line becomes a row keyed by the header line;
- classifies the rows into one of four categories (faculty, subjects, rooms, students) by keywords in their keys;
- stores them. Each import overwrites one category; the getters default to the empty list.

Files:
- `Wrappers.dfy`: `Option`.
- `JsString.dfy`: the JavaScript string built-ins the code relies on, written out over `seq<char>`. These are `split` on one character with its inverse `join`, `trim`, `toLowerCase`, `includes`, `replace(/"/g, '')`, and the decimal rendering used inside template literals.
- `TimetableGenerator.dfy`: the allocator. There are spec functions for the pool (`Pool`) and for a day's cells (`DayCells`, built from `Offset`, `Owner` and `Layout`). The imperative methods `BuildPool`, `PlaceDay` and `GenerateTimetable` follow the source's loops and are proved equal to those functions. Lemmas give the pool's shape and the placement rules. The display helpers `getSlotColor` and `getTypeColor` are in a module of their own, `TimetableColors`, in the same file.
- `DataImportService.dfy`: the import service. `ParseCsv` (the loop over lines) is proved equal to the spec function `CsvRows`, and `BuildRow` (the loop over headers) is proved equal to `RowOf`. `DataStore` is a class holding the category map; its methods `StoreData`, `ClearData` and `ImportFile` update it in place.

Inputs that the source takes from a data module or from the browser are parameters here:
- the roster, the time-slot catalogue, the day list and the room lists;
- the shuffle order;
- the file's text, `None` when the read fails;
- the import timestamp.

Three behaviours of the code worth knowing:
- **Quotes.** Every `"` is deleted from every cell, not just one surrounding pair (dataImportService.ts:60, 65).
- **Header line.** The headers are taken from the first line of the text even when that line is blank (dataImportService.ts:60).
- **Pool reuse each day.** The session index restarts at 0 for each day (timetableGenerator.ts:80), so every day is filled from the start of the same shuffled pool. Days therefore differ only in their cell identifiers (`DaysDifferOnlyInCellIds`). The pool is not consumed across the week.

## Model

| member | source | states |
|---|---|---|
| TimetableGenerator.OfKind | src/utils/timetableGenerator.ts:9-10 | the filtered roster holds exactly the entries of the given kind, and only those; order and multiplicity are stated by `OfKindAppend` and `OfKindOne` |
| TimetableGenerator.OfKindAppend | src/utils/timetableGenerator.ts:9-10 | filtering a concatenation of rosters is filtering each part, in order, so roster order and repetitions are kept |
| TimetableGenerator.OfKindOne | src/utils/timetableGenerator.ts:9-10 | one entry is kept exactly when its type is the kind |
| TimetableGenerator.SelectedTheory | src/utils/timetableGenerator.ts:22 | definition: the first five theory teachers in roster order (`slice(0, 5)`), or all of them when there are fewer |
| TimetableGenerator.SelectedLab | src/utils/timetableGenerator.ts:35 | definition: the first five lab teachers in roster order, or all of them when there are fewer |
| TimetableGenerator.ClassSlots | src/utils/timetableGenerator.ts:5 | the day's cells are exactly the catalogue entries of type `class`; order and count are stated by `ClassSlotsAppend` and `ClassSlotsOne` |
| TimetableGenerator.ClassSlotsAppend | src/utils/timetableGenerator.ts:5 | filtering a concatenation of catalogues is filtering each part, in order, so the i-th class slot and the number of cells follow catalogue order |
| TimetableGenerator.ClassSlotsOne | src/utils/timetableGenerator.ts:5 | one catalogue entry is a cell exactly when its type is `class` |
| TimetableGenerator.Pool | src/utils/timetableGenerator.ts:19-68 | the pool has 3·min(#TH,5) + 2·min(#LAB,5) + 4 sessions |
| TimetableGenerator.TheorySession | src/utils/timetableGenerator.ts:24-30 | definition of a pushed theory session: `theory-${index}-${i}`, the teacher's short form and course, kind TH, the round-robin theory room, no batches, single |
| TimetableGenerator.LabSession | src/utils/timetableGenerator.ts:37-45 | definition of a pushed lab session: `lab-${index}-${i}`, kind LAB, the round-robin lab room, batches D1 to D4, double |
| TimetableGenerator.LibrarySession | src/utils/timetableGenerator.ts:51-57 | definition of a library session: `library-${i}` with the fixed LIB/LIBRARY/Library fields |
| TimetableGenerator.ProjectSession | src/utils/timetableGenerator.ts:61-67 | definition of a project session: `project-${i}` with the fixed PROJ/PROJECT/Project Room fields |
| TimetableGenerator.RoomsCover | src/utils/timetableGenerator.ts:22-47 | definition: a room list is non-empty whenever some teacher of its kind is selected, so `index % length` is defined |
| TimetableGenerator.TheoryAt | src/utils/timetableGenerator.ts:22-31 | definition: theory-block position j is session j % 3 of selected theory teacher j / 3 |
| TimetableGenerator.LabAt | src/utils/timetableGenerator.ts:35-46 | definition: lab-block position j is session j % 2 of selected lab teacher j / 2 |
| TimetableGenerator.TheoryBlock | src/utils/timetableGenerator.ts:22-32 | definition: the first n theory sessions, teacher by teacher |
| TimetableGenerator.LabBlock | src/utils/timetableGenerator.ts:35-47 | definition: the first n lab sessions, teacher by teacher |
| TimetableGenerator.LibraryBlock | src/utils/timetableGenerator.ts:50-58 | definition: library sessions 0 to n - 1 |
| TimetableGenerator.ProjectBlock | src/utils/timetableGenerator.ts:60-68 | definition: project sessions 0 to n - 1 |
| TimetableGenerator.PoolSize | src/utils/timetableGenerator.ts:15-68 | definition: 3 sessions per selected theory teacher, 2 per selected lab teacher, plus 2 library and 2 project sessions |
| TimetableGenerator.PoolAtTheory | src/utils/timetableGenerator.ts:22-32 | a pool position inside the theory region is the theory session of that block position |
| TimetableGenerator.PoolAtLab | src/utils/timetableGenerator.ts:35-47 | a pool position inside the lab region is the lab session of its offset into that region |
| TimetableGenerator.PoolAtFixed | src/utils/timetableGenerator.ts:50-68 | the last four pool positions are library sessions 0 and 1, then project sessions 0 and 1 |
| TimetableGenerator.PoolAt | src/utils/timetableGenerator.ts:19-68 | pool position j is the theory, lab, library or project session that its region dictates, in push order |
| TimetableGenerator.PoolShape | src/utils/timetableGenerator.ts:22-68 | the pool's regions and every field of their sessions, as listed below this table |
| TimetableGenerator.OnlyLabsAreDouble | src/utils/timetableGenerator.ts:36-45 | a pool session is double exactly when it is a lab session |
| TimetableGenerator.TheoryBlockStep | src/utils/timetableGenerator.ts:22-32 | one more theory push extends the theory block by exactly the session for (teacher index, i) |
| TimetableGenerator.LabBlockStep | src/utils/timetableGenerator.ts:35-47 | one more lab push extends the lab block by exactly the session for (teacher index, i) |
| TimetableGenerator.PushTheorySessions | src/utils/timetableGenerator.ts:21-32 | the nested loops append exactly the theory block of 3 sessions per teacher |
| TimetableGenerator.PushLabSessions | src/utils/timetableGenerator.ts:34-47 | the nested loops append exactly the lab block of 2 sessions per teacher |
| TimetableGenerator.BuildPool | src/utils/timetableGenerator.ts:19-68 | the pushed pool equals `Pool`, under the precondition that the room lists are non-empty when a teacher of that kind is selected |
| TimetableGenerator.Permute | src/utils/timetableGenerator.ts:71 | the shuffled pool is as long as the pool |
| TimetableGenerator.PermuteIsPermutation | src/utils/timetableGenerator.ts:71 | the shuffled pool holds the same sessions, with the same multiplicities, as the pool |
| TimetableGenerator.PermutationOnto | src/utils/timetableGenerator.ts:71 | a shuffle order reaches every pool position |
| TimetableGenerator.Below | src/utils/timetableGenerator.ts:71 | the set of positions below n has exactly n members |
| TimetableGenerator.ImageSize | src/utils/timetableGenerator.ts:71 | m distinct order entries name m distinct positions |
| TimetableGenerator.Width | src/utils/timetableGenerator.ts:86-108 | definition: the number of cells a session advances `slotIndex` by, 2 for a double session and 1 otherwise |
| TimetableGenerator.Offset | src/utils/timetableGenerator.ts:80-112 | definition: the `slotIndex` at which the k-th session is reached, the sum of the widths before it; its properties are `OffsetStep` and `OffsetMonotone` |
| TimetableGenerator.Owner | src/utils/timetableGenerator.ts:83-112 | the owning session of a cell is a valid session index |
| TimetableGenerator.OffsetStep | src/utils/timetableGenerator.ts:98-108 | each session advances the cell index by its width: 2 for a double, 1 otherwise |
| TimetableGenerator.OffsetMonotone | src/utils/timetableGenerator.ts:83-112 | later sessions start no earlier than the end of earlier ones |
| TimetableGenerator.OwnerIff | src/utils/timetableGenerator.ts:83-112 | session k owns cell i exactly when i lies in k's cell range |
| TimetableGenerator.OwnerNone | src/utils/timetableGenerator.ts:83 | a cell has no owner exactly when the sessions ran out before it |
| TimetableGenerator.Continued | src/utils/timetableGenerator.ts:93-97 | definition: the second cell's copy of a double session, its course followed by " (Cont.)" |
| TimetableGenerator.Layout | src/utils/timetableGenerator.ts:83-112 | definition: a cell's content before stamping, namely its owning session, that session's continuation, or nothing; its properties are `PlacementAt`, `EmptyCell` and `CellOrigin` |
| TimetableGenerator.CellId | src/utils/timetableGenerator.ts:89-107 | definition: `${day.toLowerCase()}-${index}`; distinctness is `CellIdInjective` |
| TimetableGenerator.Stamp | src/utils/timetableGenerator.ts:89-107 | definition: a placed cell is the session copied with the cell's identifier as `slotId` |
| TimetableGenerator.DayCells | src/utils/timetableGenerator.ts:75-78 | a day has exactly one cell per class slot |
| TimetableGenerator.PlacementAt | src/utils/timetableGenerator.ts:86-109 | the three placement rules, as listed below this table |
| TimetableGenerator.NoCellClaimedTwice | src/utils/timetableGenerator.ts:86-111 | the cell ranges of distinct sessions are disjoint, so no cell is written twice |
| TimetableGenerator.EmptyCell | src/utils/timetableGenerator.ts:77-112 | a cell stays null exactly when the sessions ran out before it, or it is the last cell and a double session reached it |
| TimetableGenerator.CellOrigin | src/utils/timetableGenerator.ts:89-107 | an occupied cell holds some session where that session starts, or its continuation in the cell after |
| TimetableGenerator.CellIdInjective | src/utils/timetableGenerator.ts:91-106 | the cell identifiers of one day are distinct |
| TimetableGenerator.DaysDifferOnlyInCellIds | src/utils/timetableGenerator.ts:80-107 | two days' cells agree on occupancy and on every field except `slotId`, which is the day's own `day-lowercased + "-" + index` |
| TimetableGenerator.PlaceSingle | src/utils/timetableGenerator.ts:102-107 | placing a single session writes exactly the day's next cell and moves one cell on |
| TimetableGenerator.PlaceDouble | src/utils/timetableGenerator.ts:86-98 | placing a double session that fits writes exactly the day's next two cells, the second one continued, and moves two cells on |
| TimetableGenerator.PlaceSkipped | src/utils/timetableGenerator.ts:99-101 | a double session at the last cell writes nothing, leaves that cell empty, and ends the day |
| TimetableGenerator.PlaceDay | src/utils/timetableGenerator.ts:75-112 | the in-place loop over a null-filled array of class-slot length produces exactly `DayCells` for that day |
| TimetableGenerator.GenerateTimetable | src/utils/timetableGenerator.ts:3-118 | one schedule per day, in day order; each is the layout of the same permuted pool with the day's identifiers and one cell per class slot |
| TimetableGenerator.PlacedSessionsComeFromPool | src/utils/timetableGenerator.ts:71-107 | every occupied generated cell is a pool session, or its continuation, re-stamped with that cell's identifier |
| TimetableGenerator.FormatTimeSlot | src/utils/timetableGenerator.ts:120-127 | `start + " - " + end` of the i-th class slot when i is in range, `""` otherwise |
| TimetableColors.GetSlotColor | src/utils/timetableGenerator.ts:129-137 | the grey default exactly when the kind is none of TH, LAB, LIBRARY, PROJECT |
| TimetableColors.GetTypeColor | src/utils/timetableGenerator.ts:139-147 | the grey default exactly when the kind is none of TH, LAB, LIBRARY, PROJECT |
| TimetableColors.SlotColorValues | src/utils/timetableGenerator.ts:131-134 | the cell class string of each of TH, LAB, LIBRARY and PROJECT |
| TimetableColors.LibraryProjectSlotColorsDiffer | src/utils/timetableGenerator.ts:133-134 | the LIBRARY and PROJECT cell strings differ |
| TimetableColors.SlotColorLength | src/utils/timetableGenerator.ts:131-134 | the cell strings of TH, LAB, LIBRARY and PROJECT are 57, 60, 63 and 63 characters long |
| TimetableColors.SlotColorsDistinct | src/utils/timetableGenerator.ts:131-134 | two of the four kinds share a cell colour exactly when they are the same kind |
| TimetableColors.TypeColorValues | src/utils/timetableGenerator.ts:141-144 | the badge class string of each of TH, LAB, LIBRARY and PROJECT |
| TimetableColors.TypeColorsDistinct | src/utils/timetableGenerator.ts:141-144 | two of the four kinds share a badge colour exactly when they are the same kind |
| JsString.IsSpace | src/utils/dataImportService.ts:64 | definition: the whitespace characters `trim` removes, restricted to ASCII |
| JsString.IsBlank | src/utils/dataImportService.ts:64 | definition: every character is whitespace, so that `trim()` gives the falsy empty string |
| JsString.Lead | src/utils/dataImportService.ts:60 | the count of leading whitespace: every character before it is whitespace, and the character at it is not |
| JsString.Trail | src/utils/dataImportService.ts:60 | the count of trailing whitespace: every character after the cut is whitespace, and the one before it is not |
| JsString.Trim | src/utils/dataImportService.ts:60 | the result is the part of the input that starts right after the leading whitespace, with only whitespace before and after it; it is empty exactly when the input is all whitespace, and otherwise neither starts nor ends with whitespace |
| JsString.TrimStartOf | src/utils/dataImportService.ts:60 | leading whitespace before a part that starts with a non-space is exactly what is removed at the front |
| JsString.TrimEndOf | src/utils/dataImportService.ts:60 | trailing whitespace after a part that ends with a non-space is exactly what is removed at the back |
| JsString.TrimPadded | src/utils/dataImportService.ts:60 | trimming whitespace-padded text whose ends are non-spaces gives exactly that text |
| JsString.TrimIdempotent | src/utils/dataImportService.ts:64 | trimming twice is trimming once |
| JsString.RemoveChar | src/utils/dataImportService.ts:60 | the character no longer occurs and no other character is lost; order and multiplicity are stated by `RemoveCharAppend` and `RemoveCharSingle` |
| JsString.RemoveCharAppend | src/utils/dataImportService.ts:60 | deleting from a concatenation deletes from each part, in order |
| JsString.RemoveCharSingle | src/utils/dataImportService.ts:60 | on one character, deletion drops it when it is the deleted character and keeps it otherwise |
| JsString.RemoveCharBetween | src/utils/dataImportService.ts:60 | deleting the one occurrence between two parts that lack it joins the two parts |
| JsString.Split | src/utils/dataImportService.ts:59 | a split yields at least one piece and no piece contains the separator |
| JsString.JoinSplit | src/utils/dataImportService.ts:59 | joining the pieces of a split gives back the string |
| JsString.SplitJoin | src/utils/dataImportService.ts:59-65 | splitting the join of separator-free pieces gives back the pieces |
| JsString.ToLower | src/utils/dataImportService.ts:21 | lowercasing keeps the length and maps each character through ASCII lowercasing |
| JsString.Contains | src/utils/dataImportService.ts:94-98 | definition of `includes`: the second string starts at some position of the first |
| JsString.ContainsTransitive | src/utils/dataImportService.ts:98 | a string that contains t contains everything t contains |
| JsString.NatToString | src/utils/timetableGenerator.ts:25 | definition: the decimal digits of an index inside a template literal; its meaning is `NatToStringValue` |
| JsString.NatToStringValue | src/utils/timetableGenerator.ts:25 | the rendering of an index is a non-empty digit string that reads back as the index, with no leading zero unless the index is 0: the canonical decimal of `${n}` |
| JsString.NatToStringInjective | src/utils/timetableGenerator.ts:91 | distinct indices render differently |
| DataImportService.FileExtension | src/utils/dataImportService.ts:21 | the extension, the last `.`-segment lowercased, contains no `.` |
| DataImportService.ExtensionAfterLastDot | src/utils/dataImportService.ts:21 | `base + "." + ext` with a dot-free `ext` has extension `ext` lowercased |
| DataImportService.ExtensionWithoutDot | src/utils/dataImportService.ts:21 | a dot-free name is its own extension, lowercased |
| DataImportService.CleanCell | src/utils/dataImportService.ts:60 | a cleaned cell holds no `"`, is no longer than the raw cell, and holds the same characters as the trimmed cell apart from `"`; what it is exactly is `CleanPaddedCell` |
| DataImportService.CleanPaddedCell | src/utils/dataImportService.ts:60 | a cell made of whitespace, a part with non-space ends, and whitespace is cleaned to that part with every `"` deleted |
| DataImportService.CleanQuotedCell | src/utils/dataImportService.ts:60 | a padded cell in one pair of quotes is cleaned to its contents |
| DataImportService.CleanInnerQuote | src/utils/dataImportService.ts:60 | a quote inside a cell is deleted as well |
| DataImportService.CleanCells | src/utils/dataImportService.ts:60 | one cell per comma-separated piece, and no cell holds a comma or a quote |
| DataImportService.CleanCellsAt | src/utils/dataImportService.ts:60 | cell j is the j-th comma-separated piece, cleaned |
| DataImportService.ValueAt | src/utils/dataImportService.ts:68 | the value at a position, or `''` past the end of the line |
| DataImportService.RowPrefix | src/utils/dataImportService.ts:67-69 | definition: the row after the `forEach` has assigned the first n headers in order; its properties are `RowPrefixKeys` and `RowPrefixValue` |
| DataImportService.RowOf | src/utils/dataImportService.ts:66-69 | definition: the row after all headers are assigned; its properties are `RowOfSpec` and `RowOfDropsExtra` |
| DataImportService.RowOfSpec | src/utils/dataImportService.ts:66-69 | a row's keys are exactly the headers; a header maps to the value at its last occurrence's position, or `''` when the line is shorter |
| DataImportService.RowPrefixKeys | src/utils/dataImportService.ts:67-69 | after assigning n headers, the row's keys are those headers |
| DataImportService.RowPrefixValue | src/utils/dataImportService.ts:67-69 | a header not repeated later keeps the value at its own position |
| DataImportService.RowOfDropsExtra | src/utils/dataImportService.ts:67-69 | values beyond the last header do not affect the row |
| DataImportService.NonBlank | src/utils/dataImportService.ts:64 | the filter keeps only non-blank lines and is no longer than its input; membership and order are stated by the lemmas below |
| DataImportService.Kept | src/utils/dataImportService.ts:64 | definition: one line is kept when its trimmed form is non-empty |
| DataImportService.NonBlankMembers | src/utils/dataImportService.ts:63-64 | a line is kept exactly when it is one of the lines and is not blank |
| DataImportService.NonBlankAppend | src/utils/dataImportService.ts:63-64 | filtering a concatenation of blocks of lines is filtering each block, in order |
| DataImportService.NonBlankSnoc | src/utils/dataImportService.ts:63-64 | one more line is kept at the end exactly when it is not blank |
| DataImportService.NonBlankOne | src/utils/dataImportService.ts:64 | a single line is kept exactly when it is not blank |
| DataImportService.NonBlankKeepsAll | src/utils/dataImportService.ts:64 | when no line is blank, every line is kept |
| DataImportService.RowsOf | src/utils/dataImportService.ts:63-72 | definition: the rows of the data lines, line by line; its properties are `RowsOfSpec`, `RowsOfAppend` and `OneLine` |
| DataImportService.LineRows | src/utils/dataImportService.ts:64-70 | definition: one line's row when its trimmed form is non-empty, otherwise none |
| DataImportService.CsvRows | src/utils/dataImportService.ts:58-72 | definition: headers from the first line, rows from every later line; `ParseCsv` computes it |
| DataImportService.RowsOfSpec | src/utils/dataImportService.ts:63-72 | one row per non-blank data line, in order, built from that line's cleaned cells |
| DataImportService.RowsOfAppend | src/utils/dataImportService.ts:63-72 | the rows of two blocks of lines are the rows of each, concatenated |
| DataImportService.RowsOfSnoc | src/utils/dataImportService.ts:63-72 | one more line adds exactly that line's rows at the end |
| DataImportService.OneLine | src/utils/dataImportService.ts:64-70 | a non-blank line yields exactly one row; a blank line yields none |
| DataImportService.RowKeys | src/utils/dataImportService.ts:60-69 | every parsed row has exactly the cleaned header cells as keys |
| DataImportService.BuildRow | src/utils/dataImportService.ts:66-69 | the loop over headers builds exactly `RowOf` |
| DataImportService.ParseCsv | src/utils/dataImportService.ts:58-73 | the loop over lines, starting after the header line, returns exactly `CsvRows` of the text |
| DataImportService.CleanPlainCell | src/utils/dataImportService.ts:60 | a cell with no quote and nothing to trim is cleaned to itself |
| DataImportService.CleanRenderedLine | src/utils/dataImportService.ts:65 | the cleaned cells of a comma-joined line of plain cells are those cells |
| DataImportService.RenderedLineNotBlank | src/utils/dataImportService.ts:64 | a rendered line with a non-empty plain cell is not skipped as blank |
| DataImportService.SplitRendered | src/utils/dataImportService.ts:59 | splitting a rendered text on newlines yields its header line and data lines |
| DataImportService.RowsOfRendered | src/utils/dataImportService.ts:63-72 | rendered plain records parse to one row per record |
| DataImportService.CsvRoundTrip | src/utils/dataImportService.ts:53-81 | rendering headers and records of plain cells and then parsing gives one row per record, each mapping every header to the record's cell at its position |
| DataImportService.FacultyKey | src/utils/dataImportService.ts:94 | definition: the lowercased key includes teacher, faculty or instructor |
| DataImportService.SubjectKey | src/utils/dataImportService.ts:96 | definition: the lowercased key includes subject or course |
| DataImportService.RoomKey | src/utils/dataImportService.ts:98 | definition: the lowercased key includes room or classroom |
| DataImportService.DetectDataType | src/utils/dataImportService.ts:91-103 | the first keyword group that some key matches decides the category, as listed below this table |
| DataImportService.DetectUsesKeysOnly | src/utils/dataImportService.ts:92 | the category depends only on the sample's keys |
| DataImportService.RowsShareCategory | src/utils/dataImportService.ts:37 | all rows of one text fall in the same category, so classifying the first row classifies the file |
| DataImportService.RoomKeyIsRoom | src/utils/dataImportService.ts:98 | the `classroom` keyword is subsumed by `room` |
| DataImportService.TeacherBeforeCourse | src/utils/dataImportService.ts:94-96 | headers "Teacher Name" and "Course" classify as faculty |
| DataImportService.DataStore.Get | src/utils/dataImportService.ts:122-136 | a category's stored rows, or `[]` when it was never stored |
| DataImportService.DataStore.GetFaculty | src/utils/dataImportService.ts:122-124 | the stored faculty rows, or `[]` |
| DataImportService.DataStore.GetSubjects | src/utils/dataImportService.ts:126-128 | the stored subject rows, or `[]` |
| DataImportService.DataStore.GetRooms | src/utils/dataImportService.ts:130-132 | the stored room rows, or `[]` |
| DataImportService.DataStore.GetStudents | src/utils/dataImportService.ts:134-136 | the stored student rows, or `[]` |
| DataImportService.DataStore.constructor | src/utils/dataImportService.ts:113-120 | a fresh store holds nothing and has no import time |
| DataImportService.DataStore.StoreData | src/utils/dataImportService.ts:105-111 | the category's rows are replaced wholesale, every other category is unchanged, and the import time is set |
| DataImportService.DataStore.ClearData | src/utils/dataImportService.ts:138-140 | everything is forgotten and every getter returns `[]` |
| DataImportService.DataStore.ImportFile | src/utils/dataImportService.ts:19-51 | each dispatch case and its outcome, as listed below this table |

Details for the longer rows:

- **`PoolShape`** states the following.
  - The pool has one region per phase.
  - Theory sessions have kind TH, are single and have no batches. Teacher and course come from the (j/3)-th selected theory teacher, and the room is `rooms.theory[(j/3) % |rooms.theory|]`.
  - Lab sessions have kind LAB, are double and carry D1 to D4. Teacher, course and room come from the ((j−nTh)/2)-th selected lab teacher, with the room round-robin over `rooms.lab`.
  - Library and project sessions have the fixed fields.
  - Pool identifiers are `theory-${index}-${i}`, `lab-${index}-${i}`, `library-${i}` and `project-${i}`, and placement replaces them with cell identifiers.
- **`PlacementAt`** has three cases.
  - A single session fills its cell.
  - A double session before the last cell fills its cell and the next one, and the second copy's course gets `" (Cont.)"`.
  - A double session at the last cell leaves that cell empty and is still used up.
- **`DetectDataType`** decides in this order: faculty iff some key mentions teacher/faculty/instructor; subjects iff none does and some key mentions subject/course; rooms iff neither group matches and some key mentions room/classroom; students otherwise. Keys are lowercased before matching.
- **`ImportFile`** has these cases.
  - Extension `csv` with readable text and at least one row: the result is `Imported(|rows|, rows)`, the rows are stored under the category of the first row, and the import time is set.
  - Extension `csv` with zero rows: "No data found in the file.".
  - Extension `csv` with an unreadable file: "Failed to read CSV file".
  - Extension `xlsx` or `xls`: the Excel-not-implemented message.
  - Anything else: the unsupported-format message.
  - Every failure leaves the store unchanged.

## Left out

- The `Math.random` comparator sort: its order is ambient randomness, and an inconsistent comparator gives no particular order. It is modelled as a caller-supplied permutation `order` of the pool positions.
- The unused computations `totalSlotsPerWeek`, `theorySessions` and `labSessions` (timetableGenerator.ts:6, 13-14) and the unused `branch` and `division` parameters: nothing depends on them.
- The contents of `@/data/timetableData` are not part of this model. The roster, catalogue, days and rooms are parameters.
- TimetableGenerator.Pool: `rooms.theory[index % 0]` with an empty room list and a selected teacher is `undefined` in JavaScript and is excluded by the precondition `RoomsCover`.
- TimetableGenerator.FormatTimeSlot: the index is a `nat`. A negative or fractional `slotIndex`, which JavaScript would let through to an `undefined` slot lookup, is not modelled.
- `FileReader` asynchrony, `localStorage`, and `JSON.stringify`/`JSON.parse` are browser calls. The file's text is a parameter, and the store is the in-memory state of `DataStore`.
- The catch path of `getStoredData` (corrupt stored JSON read as `{}`) is not modelled, because nothing is serialised here.
- `new Date().toISOString()`: the import time is the parameter `now`.
- `console.error` and the catch path of `importFile` (dataImportService.ts:44-49): `localStorage.setItem` can throw when storage is full or disabled, and then nothing is stored and the error message is returned. The store here is in memory, so a failing write is not modelled, and `DataStore.ImportFile` always succeeds on a CSV text with at least one data row.
- JsString.Trim: JavaScript's `trim` removes all Unicode whitespace and line terminators; the model removes only ASCII space, tab, LF, VT, FF and CR.
- JsString.ToLower: only ASCII letters are lowercased, not the full Unicode case mapping.
- A parsed row is a `map`, so the insertion order of its properties is not kept. Special property names such as `__proto__`, which a JavaScript object treats differently, are ordinary keys here.
- The page and component files (`src/pages/*.tsx`, `src/components/ui/branch-selection.tsx`) are UI markup and are not part of this model.
