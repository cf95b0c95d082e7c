# A verified model of the CpE student utilities

This project models the core of a small web site for Computer Engineering students. It has one course table and five features built over it:

- the course table itself, with each course's code, name, units, year, semester, grade and prerequisite codes;
- the prerequisite searcher, which shows what a course requires and what requires it, and searches courses by text;
- the GWA calculator, a table of courses whose grades and units reduce to a general weighted average;
- the document uploader form, where a student picks subjects and submits a signature, an ID photo and personal data;
- the form-filling endpoint `POST /api/generate-pdf`, which fills one copy of a PDF template per subject and answers with that PDF or with a zip archive;
- the curriculum page, which groups the table by year and semester.

The model is organised as follows:

- `text.dfy` (module `Text`) holds the ASCII string operations the site relies on: `trim`, `toLowerCase`, `toUpperCase`, `includes`, `Number.parseFloat` and `Number(...) || 0`.
- `seqs.dfy` (module `Seqs`) holds `filter`, the subsequence relation and distinctness.
- `catalog.dfy` (module `Catalog`) holds the table, as constants, with the facts proved about it: codes are unique, field values are as expected, exactly one prerequisite code dangles, and the prerequisite relation is acyclic.
- `resolver.dfy` covers the prerequisite searcher, `calculator.dfy` the GWA table (a class), `uploader.dfy` the uploader (a class) and `curriculum.dfy` the curriculum page.
- `grouping.dfy` holds the group-by-key loop that the curriculum page and the uploader share.
- `generator.dfy` covers the endpoint. pdf-lib and JSZip are foreign libraries, so the model replaces them:
  - An environment supplies whether the template exists and loads, its page count and page height, an embedding oracle and a saving oracle.
  - The model computes the validation, the drawing operations, the scale factors, the file names, the skipping loop, the zip entries and the choice of response.

Three behaviours of the code are worth knowing:

- **An empty archive.** When no PDF is produced, the route still answers with an empty zip archive, and so does the model (`Generator.ArchiveAnswer`, `Generator.NoPagesEmptyArchive`).
- **CPE0045L.** The record is listed in the third-semester block of year 3 of the table, but its semester field is "2". Grouping and term selection use the field, as the code does.
- **Loaded calculator rows are the table's records.** `filter` returns the record objects themselves, so typing into a loaded row writes into `predefinedSubjects`. A typed grade comes back on the next load, and picking a subject for a loaded row duplicates a code in the table (`Calculator.TypedGradeComesBack`, `Calculator.SelectionDuplicatesCode`).

## Model

| member | source | states |
|---|---|---|
| Catalog.CodesUnique | app/gwacalculator/subjects.ts:12-123 | no two records of the table share a code |
| Catalog.FieldValues | app/gwacalculator/subjects.ts:2-10 | every year is "1".."4", every semester "1".."3", every grade is empty and every units value is a one-digit integer literal |
| Catalog.ZeroUnitsExactlyNstp | app/gwacalculator/subjects.ts:12-123 | a record has zero units exactly when it is NSTP1 or NSTP2 |
| Catalog.CodesNormal | app/gwacalculator/subjects.ts:12-123 | every code and prerequisite code is already trimmed and upper case |
| Catalog.DanglingPrerequisite | app/gwacalculator/subjects.ts:50-53 | CPE0005 and CPE0005L list only "COE0005L", which is the code of no record |
| Catalog.PrerequisitesResolveEarlier | app/gwacalculator/subjects.ts:12-123 | every prerequisite code is the dangling one or the code of an earlier record |
| Catalog.RequiresEarlier | app/gwacalculator/subjects.ts:12-123 | a record only requires records placed before it |
| Catalog.NoSelfPrerequisite | app/gwacalculator/subjects.ts:12-123 | no course lists itself as a prerequisite |
| Catalog.ChainDescends | app/gwacalculator/subjects.ts:12-123 | in a catalog whose records only require earlier ones, a prerequisite chain always ends before it starts |
| Catalog.Acyclic | app/gwacalculator/subjects.ts:12-123 | no prerequisite chain of the table returns to its start |
| Catalog.TableOk | app/gwacalculator/subjects.ts:12-123 | the table has 86 records and every row satisfies the row facts: field values, and the position of every prerequisite's record |
| Catalog.Table | app/gwacalculator/subjects.ts:12-123 | the 86 records in source order; what holds of them is the contract of `Catalog.TableOk` and the lemmas above |
| Catalog.TermRecords | app/components/calculator.tsx:113 | the records of one year and semester in catalog order; membership is the contract of `Calculator.LoadedRecords` and `Uploader.TermSelection` |
| Text.Trim | app/prereq/page.tsx:28 | `trim()` is the part of the text after its leading white space, with white space only before and after it, and it neither starts nor ends with white space |
| Text.TrimIdempotent | app/prereq/page.tsx:37 | trimming twice is trimming once |
| Text.TrimEmptyIffAllSpace | app/components/DocumentUploader.tsx:51 | the trimmed text is empty exactly when the text is all white space |
| Text.ToLower | app/components/DocumentUploader.tsx:56 | `toLowerCase()` keeps the length and lowers each ASCII letter |
| Text.ToUpper | app/prereq/page.tsx:28 | `toUpperCase()` keeps the length and raises each ASCII letter |
| Text.ToLowerConcat | app/components/calculator.tsx:96 | lowering distributes over concatenation |
| Text.Normalize | app/prereq/page.tsx:28 | `trim().toUpperCase()`; its properties are the contracts of the three lemmas below |
| Text.NormalizeIsNormal | app/prereq/page.tsx:28 | `trim().toUpperCase()` gives a code in normal form (trimmed, no lower-case letter) |
| Text.NormalizeOfNormal | app/prereq/page.tsx:28 | normalising a code already in normal form changes nothing |
| Text.NormalizeIdempotent | app/prereq/page.tsx:37 | normalising twice is normalising once |
| Text.Contains | app/components/calculator.tsx:96 | `includes`: the text occurs at some position; `Calculator.CodeFindsItself` and the search lemmas rely on it |
| Text.ParseDecimal | app/prereq/page.tsx:29-30 | the strict reading behind `Number(...)` on trimmed text: an optional sign and an unsigned literal ("5", "5.", ".5", "5.25"), else not a number; unsigned text never reads as negative |
| Text.ParseDigits | app/prereq/page.tsx:29-30 | under `Number(...)`, digits read as the value of the digits |
| Text.ParseNegative | app/prereq/page.tsx:29-30 | under `Number(...)`, a leading '-' negates the number written after it |
| Text.ScanNumber | app/components/calculator.tsx:81-82 | the numeric-prefix scan of `parseFloat`: it is not a number exactly when no digit was read and the text starts with neither a digit nor '.' and a digit; its values are never negative |
| Text.ParseFloatSkipsSpace | app/components/calculator.tsx:81-82 | `parseFloat` ignores leading white space |
| Text.ParseFloatExtendsDecimal | app/components/calculator.tsx:81-82 | `parseFloat` agrees with the strict reading on every decimal literal |
| Text.ParseFloatIgnoresSuffix | app/components/calculator.tsx:81-82 | text after the number is ignored, so "4 units" reads as 4 |
| Text.DigitTextNonNegative | app/components/calculator.tsx:33 | text that starts with a digit reads as a non-negative number |
| Text.AccumulateIsDigitsValue | app/components/calculator.tsx:81-82 | reading digits from the front gives the value of the digits |
| Text.ParseFloat | app/components/calculator.tsx:81-82 | `Number.parseFloat`: white space skipped, an optional sign, then the numeric prefix; its properties are the contracts of `ParseFloatSkipsSpace`, `ParseFloatExtendsDecimal`, `ParseFloatIgnoresSuffix` and `DigitTextNonNegative` |
| Text.NumberOrZero | app/prereq/page.tsx:29-30 | `Number(s) \|\| 0`: a non-zero answer is the strict reading of the trimmed text, anything that is not a number gives 0, and a negative answer comes from a leading '-' |
| Text.LeadingSpacesConcat | app/api/generate-pdf/route.ts:242 | `\s+` matches a whole run of white space: the run in front of text that does not start with white space is exactly what is counted |
| Seqs.Filter | app/prereq/page.tsx:52-54 | `filter` keeps only elements that pass and never grows |
| Seqs.FilterMembership | app/prereq/page.tsx:52-54 | an element is kept exactly when it is present and passes |
| Seqs.FilterIsSubseq | app/prereq/page.tsx:52-54 | `filter` keeps the input order |
| Seqs.FilterConcat | app/components/DocumentUploader.tsx:95 | `filter` distributes over concatenation |
| Resolver.Format | app/prereq/page.tsx:25-33 | formatting normalises the codes, turns units and year into numbers (0 when not a number) and keeps the other fields |
| Resolver.FormattedSubjects | app/prereq/page.tsx:25-33 | the formatted table has the same length and order, record by record |
| Resolver.Find | app/prereq/page.tsx:38 | `find` gives the first record with the code, or none when no record has it |
| Resolver.Resolve | app/prereq/page.tsx:42-46 | the codes of the resolved records are exactly the resolvable codes, in the order listed |
| Resolver.GetSubjectPrerequisites | app/prereq/page.tsx:36-47 | an unknown code has no prerequisites; every result is a formatted record |
| Resolver.GetSubsequentCourses | app/prereq/page.tsx:50-55 | every result lists the normalised code among its prerequisites |
| Resolver.Search | app/prereq/page.tsx:57-91 | a blank term gives no result; any other result matches the lower-cased term in code or name |
| Resolver.FormattedDistinct | app/prereq/page.tsx:25-33 | unique normalised codes stay distinct after formatting |
| Resolver.FindUnique | app/prereq/page.tsx:38 | with unique codes, `find` returns the one record that carries the code |
| Resolver.ResolveMembership | app/prereq/page.tsx:42-46 | with distinct codes, a record is resolved exactly when its code is listed |
| Resolver.PrerequisitesInDeclaredOrder | app/prereq/page.tsx:36-47 | the prerequisites shown are the listed codes that resolve, in listed order, and no more than declared |
| Resolver.Duality | app/prereq/page.tsx:36-55 | B requires A exactly when A is among B's prerequisites: the forward and the reverse lookups agree |
| Resolver.SubsequentMembership | app/prereq/page.tsx:50-55 | the courses that require a code are exactly the records listing it, in table order |
| Resolver.SearchMembership | app/prereq/page.tsx:62-70 | a non-blank term finds exactly the records whose lower-cased code or name contains it, in table order |
| Resolver.TableUniqueCodes | app/prereq/page.tsx:25-33 | the table's normalised codes are unique |
| Resolver.TableDuality | app/prereq/page.tsx:36-55 | the two lookups agree on the site's own table |
| Resolver.FormattingKeepsNormalCodes | app/prereq/page.tsx:28-31 | codes already in normal form are left as they are by formatting |
| Resolver.TableFormattingKeepsCodes | app/prereq/page.tsx:28-31 | on the table, formatting changes no code and no prerequisite code |
| Resolver.DanglingDropped | app/prereq/page.tsx:42-46 | a course whose only prerequisite code matches no record shows no prerequisites |
| Resolver.QueryNormalized | app/prereq/page.tsx:37-51 | both lookups depend only on the normalised query: surrounding white space and letter case make no difference |
| Resolver.DanglingPrerequisiteDropped | app/prereq/page.tsx:36-47 | any query that normalises to "CPE0005", such as " cpe0005 ", shows no prerequisites, because COE0005L is dropped |
| Calculator.SetField | app/components/calculator.tsx:35 | setting a field changes that field and no other |
| Calculator.Accepts | app/components/calculator.tsx:33 | the test on grade and units input: the empty text, or text `parseFloat` reads as a non-negative number; `Calculator.EditKeepsNonNegative` states what it guarantees |
| Calculator.Gwa | app/components/calculator.tsx:90 | the weighted average, or N/A without positive units; `ComputeGwa` is proved equal to it and `NotAvailableIff`, `WithinGrades` and `OneRowAverage` characterise it |
| Calculator.Readings | app/components/calculator.tsx:80-82 | each row is read with `parseFloat` on its grade and units |
| Calculator.ReadRow | app/components/calculator.tsx:81-82 | one row's grade and units under `parseFloat`; used by `Readings`, whose contract states it |
| Calculator.Edit | app/components/calculator.tsx:30-49 | typing changes only the edited row; in grade or units it is refused unless the text is empty or a non-negative number |
| Calculator.Select | app/components/calculator.tsx:51-58 | picking a record copies its code, name and units into the row, keeps the grade and leaves other rows alone |
| Calculator.RemoveAt | app/components/calculator.tsx:67 | removing a valid index shifts the later rows down by one; an invalid index changes nothing |
| Calculator.RowsOf | app/components/calculator.tsx:115 | loaded records become rows one for one |
| Calculator.Loaded | app/components/calculator.tsx:113-115 | a load always leaves at least one row |
| Calculator.FilteredSubjects | app/components/calculator.tsx:93-98 | the search list of the code field; its membership is the contract of `Calculator.FilteredMembership` |
| Calculator.SetRecordField | app/components/calculator.tsx:35 | writing a field into a record changes the row it shows exactly as writing the row would, and keeps year, semester and prerequisites |
| Calculator.Shown | app/components/calculator.tsx:10 | the rows on screen: an own row shows its fields, a loaded row those of its record |
| Calculator.IndicesFrom | app/components/calculator.tsx:113 | the positions of the records `filter` keeps, strictly increasing and in range |
| Calculator.GwaTable.constructor | app/components/calculator.tsx:10-13 | the table starts with one blank row of its own over the unedited table, no open search and empty year and semester |
| Calculator.GwaTable.HandleInputChange | app/components/calculator.tsx:30-49 | the rows shown become the edit of the old rows; an own row changes in place and a loaded row's record changes in the catalog; typing in the code field opens that row's search |
| Calculator.GwaTable.WriteField | app/components/calculator.tsx:35 | the write goes into whichever object the row is, and the shared rows stay distinct records |
| Calculator.GwaTable.HandleSubjectSelection | app/components/calculator.tsx:51-58 | the rows shown become the selection of the picked catalog record into the old rows; a loaded row's record is overwritten in the catalog; the search closes |
| Calculator.GwaTable.AddRow | app/components/calculator.tsx:60-62 | one blank row of its own is appended; the earlier rows and the catalog are unchanged |
| Calculator.GwaTable.DeleteRow | app/components/calculator.tsx:64-70 | with more than one row the row at the index goes, both as shown and as objects; the last row is never removed; the catalog is unchanged |
| Calculator.GwaTable.ClearAllSubjects | app/components/calculator.tsx:72-74 | exactly one blank row of its own remains; the catalog keeps what was typed into loaded rows |
| Calculator.GwaTable.ComputeGwa | app/components/calculator.tsx:76-91 | the accumulation loop gives the weighted average of the counted rows on screen, or N/A without positive units |
| Calculator.GwaTable.HandleYearChange | app/components/calculator.tsx:100-102 | only the year changes |
| Calculator.GwaTable.HandleSemesterChange | app/components/calculator.tsx:104-106 | only the semester changes |
| Calculator.GwaTable.LoadSubjectsForYearAndSemester | app/components/calculator.tsx:108-116 | with a year and a semester the rows become the term's records themselves, as the catalog holds them now, or one blank row when there are none; otherwise nothing changes |
| Calculator.EditShown | app/components/calculator.tsx:30-49 | typing shows as the edit of the rows whether the row is its own object or a record, and keeps every record in at most one row |
| Calculator.SelectShown | app/components/calculator.tsx:51-58 | a selection shows as the selection of the rows in both kinds of row and keeps the sharing sound |
| Calculator.RemoveShown | app/components/calculator.tsx:67 | removing a row object removes exactly that row from the screen |
| Calculator.RecordsAt | app/components/calculator.tsx:113 | the records at a list of positions, in that order |
| Calculator.IndicesFromFilter | app/components/calculator.tsx:113 | the picked positions hold exactly the records `filter` returns, in order |
| Calculator.LoadShown | app/components/calculator.tsx:113-115 | a load shows `Loaded` of the current catalog, and each record once |
| Calculator.AccumulateStep | app/components/calculator.tsx:80-88 | one loop step adds exactly the counted row to both sums |
| Calculator.SumsConcat | app/components/calculator.tsx:80-88 | both sums distribute over concatenation |
| Calculator.UncountedIgnored | app/components/calculator.tsx:84 | a row without a numeric grade and units can be inserted anywhere without changing the average |
| Calculator.TotalUnitsSign | app/components/calculator.tsx:86 | with non-negative entries the unit total is non-negative, and positive exactly when some counted row has positive units |
| Calculator.NotAvailableIff | app/components/calculator.tsx:90 | with non-negative entries the result is N/A exactly when every counted row has zero units |
| Calculator.WithinGrades | app/components/calculator.tsx:90 | the average lies between the lowest and the highest grade of the rows that carry units |
| Calculator.WeightedSumBounds | app/components/calculator.tsx:85-86 | grades within [lo, hi] keep the weighted sum within lo and hi times the units |
| Calculator.OneRowAverage | app/components/calculator.tsx:90 | one counted row with units averages to its own grade |
| Calculator.NoGradesNoAverage | app/components/calculator.tsx:84-90 | with no grade read, the unit total is zero and the result is N/A |
| Calculator.AddRowKeepsGwa | app/components/calculator.tsx:60-62 | adding a blank row leaves the average as it was |
| Calculator.DeleteUncountedKeepsGwa | app/components/calculator.tsx:64-70 | deleting a row that does not count leaves the average as it was |
| Calculator.ReadingsRemoveAt | app/components/calculator.tsx:67 | the readings of the remaining rows are the old readings without the deleted one |
| Calculator.NoGradesNoGwa | app/components/calculator.tsx:72-74 | a table with no grade typed in, such as a cleared one, shows N/A |
| Calculator.EditKeepsNonNegative | app/components/calculator.tsx:31-37 | typing never lets a negative grade or units value in |
| Calculator.SelectKeepsNonNegative | app/components/calculator.tsx:51-58 | picking a record with non-negative units keeps every entry non-negative |
| Calculator.LoadedRecords | app/components/calculator.tsx:113-115 | the loaded records are exactly the term's records; with none, one blank row is loaded |
| Calculator.LoadedNonNegative | app/components/calculator.tsx:113-115 | loading from a catalog without grades and with non-negative units shows N/A |
| Calculator.LoadedKeepsNonNegative | app/components/calculator.tsx:113-115 | records that read as non-negative numbers load as non-negative entries |
| Calculator.LoadedFromTable | app/components/calculator.tsx:108-116 | a load while the catalog still holds the unedited table (the first load after the page opens) shows N/A until a grade is typed |
| Calculator.TypedGradeComesBack | app/components/calculator.tsx:30-49 | a grade typed into a loaded row is kept by its record, and the record with that grade is loaded again with its term |
| Calculator.ReloadShowsAverage | app/components/calculator.tsx:76-91 | after such a grade on a record with positive units, reloading the term no longer shows N/A |
| Calculator.SelectionDuplicatesCode | app/components/calculator.tsx:51-58 | picking another record for a loaded row leaves two records with the picked code in the catalog the search reads |
| Calculator.FilteredMembership | app/components/calculator.tsx:93-98 | the empty text offers nothing; otherwise a record is offered exactly when its lower-cased "code name" contains the lower-cased text |
| Calculator.CodeFindsItself | app/components/calculator.tsx:93-98 | typing a record's whole code offers that record |
| Grouping.GroupBy | app/curriculum/page.tsx:7-17 | the loop builds the dictionary whose keys are the records' keys in first-seen order, each mapped to its records in order |
| Grouping.GroupingSnoc | app/curriculum/page.tsx:10-13 | pushing one record keeps the dictionary a grouping of the records seen so far |
| Grouping.KeysDistinct | app/curriculum/page.tsx:10-12 | a key is created only once |
| Grouping.KeysMembership | app/curriculum/page.tsx:9-12 | the keys are exactly the keys of the records |
| Grouping.ExactlyOneGroup | app/components/DocumentUploader.tsx:203-210 | each record is in the group of its own key and in no other, and each group keeps the input order |
| Grouping.SizesSum | app/curriculum/page.tsx:29 | the group sizes add up to the number of records |
| Curriculum.Split | app/curriculum/page.tsx:34 | `split` always gives at least one piece |
| Curriculum.CurriculumKey | app/curriculum/page.tsx:9 | the key `${year}-${semester}`; `DecodeKeyRecovers` shows it loses nothing for hyphen-free fields |
| Curriculum.SplitNoSeparator | app/curriculum/page.tsx:34 | a text without the separator splits into itself |
| Curriculum.SplitJoin | app/curriculum/page.tsx:34 | splitting `a-b`, where `a` has no '-', gives `a` followed by the pieces of `b` |
| Curriculum.DecodeKey | app/curriculum/page.tsx:34 | the heading read back with `split("-")`: the first two pieces, or empty text for a missing one |
| Curriculum.DecodeKeyRecovers | app/curriculum/page.tsx:9 | when neither field contains '-', the heading decoded from the key is the group's year and semester |
| Curriculum.GroupCurriculum | app/curriculum/page.tsx:7-17 | the `reduce` groups the table by year and semester, and the groups add up to the table's length |
| Curriculum.TableKeysDecode | app/curriculum/page.tsx:33-34 | on the table every key decodes to its records' year and semester |
| Uploader.SelectedConcat | app/components/DocumentUploader.tsx:93 | a code is selected in a concatenation exactly when it is selected in either part |
| Uploader.Toggle | app/components/DocumentUploader.tsx:91-100 | removes the subject's code when it is selected, else appends the subject; `ToggleFlips` and `ToggleTwice` characterise it |
| Uploader.ToggleFlips | app/components/DocumentUploader.tsx:91-100 | toggling flips whether the code is selected and leaves other codes alone; removal keeps the order, and otherwise the subject is appended |
| Uploader.ToggleTwice | app/components/DocumentUploader.tsx:91-100 | toggling an unselected subject twice restores the selection |
| Uploader.AddMissing | app/components/DocumentUploader.tsx:107-116 | the old selection stays as a prefix, and at most one entry per filtered subject is added |
| Uploader.AddMissingCovers | app/components/DocumentUploader.tsx:107-116 | afterwards a code is selected exactly when it was selected before or is filtered |
| Uploader.AddMissingNoDuplicates | app/components/DocumentUploader.tsx:110-113 | no code is pushed twice, and no code that was already selected |
| Uploader.AddMissingIsFilter | app/components/DocumentUploader.tsx:107-116 | with distinct filtered codes, exactly the not-yet-selected filtered subjects are appended, in filtered order |
| Uploader.SelectAll | app/components/DocumentUploader.tsx:102-118 | clear on equal lengths, else add the missing visible subjects; `LengthTestIgnoresMembership` and `SelectAllAdds` characterise it |
| Uploader.LengthTestIgnoresMembership | app/components/DocumentUploader.tsx:103-105 | equal lengths clear the selection even when no visible subject is selected |
| Uploader.SelectAllAdds | app/components/DocumentUploader.tsx:106-116 | with different lengths, select-all keeps the old selection and adds every filtered code |
| Uploader.VisibleSubjects | app/components/DocumentUploader.tsx:50-61 | the visible list for a query; characterised by `VisibleSubjectsSpec` |
| Uploader.VisibleSubjectsSpec | app/components/DocumentUploader.tsx:50-61 | a white-space query shows the whole catalog; any other query shows, in catalog order, the records whose lower-cased code or name contains the lower-cased query |
| Uploader.FilterKeepsCodesDistinct | app/components/DocumentUploader.tsx:54-58 | filtering keeps codes distinct |
| Uploader.VisibleCodesDistinct | app/components/DocumentUploader.tsx:50-61 | a catalog with distinct codes shows visible subjects with distinct codes |
| Uploader.TableFacts | app/gwacalculator/subjects.ts:12-123 | the table has distinct codes and one-character years and semesters |
| Uploader.GroupKey | app/components/DocumentUploader.tsx:205 | the heading "Year y - Semester s"; `GroupKeyInjective` shows it determines the term |
| Uploader.GroupKeyInjective | app/components/DocumentUploader.tsx:205 | with one-character fields, the heading determines the year and the semester |
| Uploader.GroupsOfVisible | app/components/DocumentUploader.tsx:203-210 | each visible subject is under exactly its own heading, in catalog order, and shares that heading with subjects of its own year and semester only |
| Uploader.TermSelection | app/components/DocumentUploader.tsx:123-125 | term selection gives exactly the records of that year and semester, with distinct codes when the catalog's are |
| Uploader.Ready | app/components/DocumentUploader.tsx:142-145 | the client guard: both files, name, student number and year present and a subject selected; `GuardMatchesValidation` ties it to the route |
| Uploader.RequestForm | app/components/DocumentUploader.tsx:149-159 | the form data sent: the files, the three fields, the selection and the style name; `GuardMatchesValidation` shows the route reads back exactly these |
| Uploader.GuardMatchesValidation | app/components/DocumentUploader.tsx:142-159 | the route accepts the form built from the state exactly when the client guard passes, with the selected subjects and the chosen style |
| Uploader.DocumentUploader.constructor | app/components/DocumentUploader.tsx:13-25 | every field starts empty, the style is stacked and the whole catalog is visible |
| Uploader.DocumentUploader.ClearAllFields | app/components/DocumentUploader.tsx:27-40 | every field goes back to its initial value and the style to stacked; `loading` is kept |
| Uploader.DocumentUploader.ClearSubjects | app/components/DocumentUploader.tsx:43-47 | only the selection, the query and the visible list are reset |
| Uploader.DocumentUploader.SetSearchQuery | app/components/DocumentUploader.tsx:50-61 | the visible list becomes the query's subjects and nothing else changes |
| Uploader.DocumentUploader.OnSignatureDrop | app/components/DocumentUploader.tsx:63-67 | the first dropped file becomes the signature; an empty drop changes nothing |
| Uploader.DocumentUploader.OnIdPhotoDrop | app/components/DocumentUploader.tsx:69-73 | the first dropped file becomes the ID photo; an empty drop changes nothing |
| Uploader.DocumentUploader.HandleFieldChange | app/components/DocumentUploader.tsx:13-19 | only the edited text field changes |
| Uploader.DocumentUploader.HandleSubjectToggle | app/components/DocumentUploader.tsx:91-100 | the selection is toggled, so the subject's code is selected exactly when it was not |
| Uploader.DocumentUploader.HandleSelectAllSubjects | app/components/DocumentUploader.tsx:102-118 | the push loop computes select-all: clear on equal lengths, otherwise add the missing filtered subjects |
| Uploader.DocumentUploader.HandleSemesterYearSelection | app/components/DocumentUploader.tsx:121-132 | with both fields filled, the term's records replace the selection, the query is cleared and everything is visible; otherwise nothing changes |
| Uploader.DocumentUploader.HandleDisplayStyleChange | app/components/DocumentUploader.tsx:135-137 | only the style changes |
| Uploader.DocumentUploader.HandleSubmit | app/components/DocumentUploader.tsx:139-200 | a request is sent exactly when the guard passes, and then it carries the state's form data; when not loading, exactly when the button is enabled |
| Uploader.DocumentUploader.GroupedSubjects | app/components/DocumentUploader.tsx:203-210 | the visible subjects grouped under "Year y - Semester s" |
| Generator.Validate | app/api/generate-pdf/route.ts:19-45 | rejections are error responses; the form is accepted exactly when the required fields are present and the subjects parse to a non-empty list, and then the job carries that list and the style, "stacked" by default |
| Generator.HasRequiredFields | app/api/generate-pdf/route.ts:30 | both files, name, student number and year present; `Validate` and `MissingFields` state the answer without them |
| Generator.StyleOf | app/api/generate-pdf/route.ts:28 | the display style sent, or "stacked" when none was; stated in `Validate` |
| Generator.EmbedFirst | app/api/generate-pdf/route.ts:97-119 | embedding fails exactly when every format in the fallback order fails |
| Generator.EmbedFirstPicksFirst | app/api/generate-pdf/route.ts:97-119 | a successful embedding is the one of the first format that works |
| Generator.EmbedTwo | app/api/generate-pdf/route.ts:97-107 | with two formats, the first format's image when it embeds, else the second's |
| Generator.ScaleFactor | app/api/generate-pdf/route.ts:125-145 | `Math.min` of the two ratios; characterised by `ScaleFits` and `ScaleEnlargesSmallImages` |
| Generator.ScaledSignature | app/api/generate-pdf/route.ts:126-131 | the signature scaled into 100 by 50; `PageLayout` states its bounds |
| Generator.ScaledIdPhoto | app/api/generate-pdf/route.ts:137-145 | the ID photo scaled into 150 by 150; `PageLayout` states its bounds |
| Generator.ScaleFits | app/api/generate-pdf/route.ts:125-145 | the scaled image fits its box, touches it on one side and keeps its proportions |
| Generator.ScaleEnlargesSmallImages | app/api/generate-pdf/route.ts:128-131 | the factor is at least 1 exactly when the image already fits its box |
| Generator.SubjectLines | app/api/generate-pdf/route.ts:178-208 | the stacked style draws three size-8 lines, any other style one size-12 line starting with the code, all at x = 250 |
| Generator.PageOps | app/api/generate-pdf/route.ts:150-236 | the drawings of one page in order; `PageLayout` states their layout |
| Generator.PageLayout | app/api/generate-pdf/route.ts:150-236 | images come before every text; both signatures share a size within 100 by 50; the ID photo fits 150 by 150 and starts 30 points right of the lower signature |
| Generator.StripSpecial | app/api/generate-pdf/route.ts:242 | dropping special characters leaves only word characters, white space and '-' |
| Generator.CollapseSpaces | app/api/generate-pdf/route.ts:242 | collapsing leaves no white space and never lengthens the text |
| Generator.CollapseSpacesChars | app/api/generate-pdf/route.ts:242 | collapsing adds no character but '_' |
| Generator.Sanitize | app/api/generate-pdf/route.ts:242 | a sanitised name has only word characters and '-', and is no longer than the name |
| Generator.SanitizeIdempotent | app/api/generate-pdf/route.ts:242 | a sanitised name has no white space, and sanitising it again changes nothing |
| Generator.StripSpecialConcat | app/api/generate-pdf/route.ts:242 | dropping special characters distributes over concatenation |
| Generator.CollapseJoin | app/api/generate-pdf/route.ts:242 | a whole run of white space between a word and the rest becomes one '_' |
| Generator.SanitizeTagged | app/api/generate-pdf/route.ts:242 | "WORD (TAG)" sanitises to "WORD_TAG" |
| Generator.PdfNameTagged | app/api/generate-pdf/route.ts:242-243 | a record named "WORD (TAG)" gets the file name CODE_WORD_TAG.pdf |
| Generator.PdfName | app/api/generate-pdf/route.ts:243 | code, '_', sanitised name, ".pdf"; `PdfNameTagged` and `PdfNamesDistinct` characterise it |
| Generator.PdfNamesDistinct | app/api/generate-pdf/route.ts:243 | different codes without '_' give different file names |
| Generator.ProcessSubject | app/api/generate-pdf/route.ts:73-247 | a produced file is named after the subject |
| Generator.ProcessSubjectSkips | app/api/generate-pdf/route.ts:78-119 | a subject is skipped exactly when the template does not load or has no page, an image embeds in neither format, or saving fails |
| Generator.Generated | app/api/generate-pdf/route.ts:72-253 | there are never more files than subjects |
| Generator.GeneratePdfs | app/api/generate-pdf/route.ts:72-253 | the loop, with its `continue`s and its `catch`, computes the generated list |
| Generator.GeneratedIsFilter | app/api/generate-pdf/route.ts:72-253 | the generated files are those of the subjects that produce one, in subject order |
| Generator.GeneratedAll | app/api/generate-pdf/route.ts:72-253 | there are as many files as subjects exactly when no subject is skipped |
| Generator.GeneratedNone | app/api/generate-pdf/route.ts:75-82 | a template that does not load or has no page yields no file |
| Generator.GeneratedNamesDistinct | app/api/generate-pdf/route.ts:242-247 | with distinct codes without '_', the file names are distinct and each names a requested subject |
| Generator.Names | app/api/generate-pdf/route.ts:271 | the names of the files, in order |
| Generator.Lookup | app/api/generate-pdf/route.ts:271 | a name has no entry exactly when it is not among the names |
| Generator.Put | app/api/generate-pdf/route.ts:271 | `zip.file` keeps the count for a known name and adds one entry for a new one |
| Generator.ZipOf | app/api/generate-pdf/route.ts:270-272 | the archive has no more entries than files |
| Generator.BuildZip | app/api/generate-pdf/route.ts:267-272 | the loop fills the archive as the files are added in order |
| Generator.PutLookup | app/api/generate-pdf/route.ts:271 | after `zip.file`, the new name holds the new content and every other name keeps its own |
| Generator.PutNames | app/api/generate-pdf/route.ts:271 | after `zip.file`, the names are the old ones and the new one |
| Generator.PutDistinct | app/api/generate-pdf/route.ts:271 | `zip.file` keeps the names distinct |
| Generator.PutNew | app/api/generate-pdf/route.ts:271 | a new name is appended at the end |
| Generator.ZipOfLookup | app/api/generate-pdf/route.ts:270-272 | each name in the archive holds the content of the last file of that name |
| Generator.ZipOfNames | app/api/generate-pdf/route.ts:270-272 | the archive's names are distinct and exactly the files' names |
| Generator.ZipOfDistinct | app/api/generate-pdf/route.ts:270-272 | files with distinct names become the archive's entries unchanged, in order |
| Generator.Respond | app/api/generate-pdf/route.ts:11-297 | the whole answer to a request; `Post` is proved equal to it and the lemmas below characterise it |
| Generator.Post | app/api/generate-pdf/route.ts:11-297 | the route, step by step, answers as the whole-route function does |
| Generator.MissingFields | app/api/generate-pdf/route.ts:30-35 | a form missing a required field gets 400 "Missing required fields", whatever the environment |
| Generator.MalformedSubjects | app/api/generate-pdf/route.ts:38 | subjects that do not parse get 500 with the parser's message |
| Generator.NoSubjectsSelected | app/api/generate-pdf/route.ts:40-45 | an empty subject list gets 400 "No subjects selected" |
| Generator.TemplateMissing | app/api/generate-pdf/route.ts:55-64 | without the template a valid form gets 500 "PDF template not found", whatever the images and oracles would do |
| Generator.AcceptedNeverFails | app/api/generate-pdf/route.ts:72-253 | once the form is valid and the template exists, the route never fails: per-subject errors only leave files out |
| Generator.SinglePdf | app/api/generate-pdf/route.ts:256-264 | the answer is a PDF exactly when one subject was requested and its file was produced; it is named after the subject and typed application/pdf |
| Generator.ArchiveAnswer | app/api/generate-pdf/route.ts:266-289 | several subjects always give an archive, and a single failed subject gives an empty archive |
| Generator.NoPagesEmptyArchive | app/api/generate-pdf/route.ts:78-82 | a template without pages gives an empty archive, however many subjects were requested |
| Generator.ArchiveKeepsEveryFile | app/api/generate-pdf/route.ts:267-272 | with distinct codes without '_' (as in the table), the archive holds exactly the generated files, in order |

## Left out

- The rendering of every page, event wiring, focus and click-outside handling, alerts and `console` logging are left out. They are user interface or I/O.
- The download in the uploader is left out: the blob, the object URL, the `a.download` name and the alert on failure are browser I/O.
  - The model returns the request that `handleSubmit` would send.
  - `loading` is set back to false, as the `finally` block does.
- The network request between the uploader and the route is not modelled. `Uploader.GuardMatchesValidation` links the two by building the route's form from the component's state.
- `JSON.stringify` of the selection and the route's `JSON.parse` are assumed to round-trip. The route receives either the parsed records or a parse error with its message.
- pdf-lib is not modelled. Loading the template, embedding an image, drawing and saving are oracles in `Generator.Env`.
  - The drawing operations passed to the saving oracle are computed by the model.
  - Colours, always black, are omitted.
- JSZip's archive encoding (DEFLATE, level 9) is not modelled. The archive is modelled as its list of entries; `zip.file` replaces an entry of the same name in place.
- The date is one parameter of the environment for the whole request. The route computes it with `toLocaleDateString` for each subject, so a request that crosses midnight could date its PDFs differently.
- The file system is reduced to one flag for whether the template is found. A read failing after the access check succeeds is not modelled.
- Template loading, page count and page height are the same for every subject. They come from the same template bytes, so the oracle is deterministic.
- The dropzone's file-type and count filter is not modelled. Any dropped list is accepted and its first file is taken.
- The `semester` and `academicYear` form fields are not modelled. The uploader sends them, but the route does not read them (lines 24-25 are commented out).
- Text is ASCII only. `toLowerCase`, `toUpperCase`, `trim` and the `\w`/`\s` classes are modelled on ASCII letters and the ASCII white-space set; Unicode case mapping and white space are not.
- Text.ParseFloat: exponents ("1e3") and "Infinity" are not modelled. The site's grades and units are plain decimals.
- Text.NumberOrZero: exponents ("1e3"), "Infinity" and hexadecimal, binary and octal literals ("0x1F") read as 0 in the model, where `Number` gives their value.
- Calculator.GwaTable.ComputeGwa: the average is exact. The `toFixed(4)` display rounding and floating-point error are not modelled.
- The calculator's writes into `predefinedSubjects` do not reach the other pages' models. The module-level array is shared by every page of a session, but the uploader, the prerequisite searcher and the curriculum page are modelled over the unedited table, and a new calculator starts from it too.
- Generator.ScaleFits: real arithmetic is exact. Floating-point rounding of the scale factors is not modelled.
- Generator.EmbedFirst: the embedding oracle only returns images at least one pixel wide and high. A decoded image of height 0 would give an infinite scale factor.
- Literal examples of sanitising concrete table names, such as "COGNATE/TRACK COURSE 1", are not stated. Evaluating the string functions on long literals is beyond what the verifier does cheaply. Generator.PdfNameTagged states the general "WORD (TAG)" case instead.
- The other pages of the site (home, undertaking, navigation, sitemap) are not part of this model.
