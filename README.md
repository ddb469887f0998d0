# Grade sheets: a verified model

This project models the core of a class grade-book application. A teacher keeps
one grade sheet per class, subject and semester. A sheet holds the metadata
(class, subject, semester, teacher, coefficient) and a roster of students. Each
student has names, a gender, three continuous-assessment scores D1–D3 and an
exam score.

The grade engine derives several values for each student:

- the mean of the set D scores (`moyDev`);
- the semester average (`moyenne`);
- the weighted average (`moyCoef`);
- the mention;
- the annual average (`moyG`), taken against the semester-1 sheet;
- the competition rank.

It also computes class statistics. The sheet store keeps the database of sheets
and the key of the sheet being edited. It handles initialisation, navigation,
metadata and student edits, sorting and reset, and the view of the current
sheet. The spreadsheet export's sheet-name clean-up and de-duplication are
modelled as well.

Modules, one per part of the program:

- `Text` (text.dfy): JavaScript's `trim`, `toLowerCase` on the letters the names
  use, number-to-string conversion, and `String.prototype.replace` with a string
  pattern.
- `Grades` (grades.dfy): the records of types.ts, the class and subject options,
  the sheet key, `calculateMention`, `roundToTwo` and the per-student step of
  `recalculateGrades`. It includes the semester-1 match and
  `generateInitialStudents`.
- `Ranking` (ranking.dfy): the stable descending sort, the rank loop with its
  rank map, and `recalculateGrades` as a method. The method is proved equal to
  the specification function `Recalculated`, and the rank properties are proved
  about `Recalculated`.
- `Stats` (stats.dfy): `Array.prototype.filter` and `calculateClassStats`.
- `SheetNames` (sheetnames.dfy): the sheet-name code of `exportFullDbToExcel`:
  - cleaning illegal characters;
  - cutting the name to 31 characters;
  - the `while` loop that adds a `(n)` suffix;
  - a `Workbook` class whose sheet names grow as sheets are appended.
- `Store` (store.dfy): the application component's state as the class
  `SheetStore`. Its fields are `db`, `currentSheetId` and `view`, and there is
  one method per handler. Each `setDb` updater body is a pure function
  (`WithSheet`, `UpdateRoster`, `SortedRoster`, `ResetRoster`, `CurrentView`)
  with its own lemmas.

Scores are reals. A score is `Blank` (the empty string in the program) or
`Mark(v)`. The id generator is replaced by a supplied sequence of distinct ids,
and the reset confirmation dialog by a boolean parameter.

Where the code's own comments say otherwise, the model follows the code:

- The comment at utils.ts:91 describes active students as those with a name or
  a grade. The filter at utils.ts:92-95 requires a name AND a positive average,
  a D1 score or an exam score. D2 and D3 alone do not make a student active.
- The comments at App.tsx:107-111 suggest that the stored semester-1 averages
  could be used as they are. App.tsx:116 recomputes the semester-1 sheet, and so
  does the model.

Other behaviours of the code that the model keeps:

- The reset clears names, gender and scores and keeps each student's id
  (App.tsx:227-240), and so does the model.
- `finalMoy` averages the unrounded D-score mean with the exam score
  (utils.ts:40). The rounded `moyDev` is only stored. `moyCoef` and the mention
  are computed from the unrounded `finalMoy` too (utils.ts:64-66).
- Ranks are competition ranks. Equal averages share a rank and the next
  distinct average skips ahead, so [15, 15, 10] gives 1, 1, 3 (utils.ts:74-82).
- After a reset, a semester-2 recompute still gives every student an annual
  average: half of the matched semester-1 average, or 0. The reset record's
  `moyG: undefined` lasts only until the next recompute.
- The stored reset record has rank 0. Recomputing it gives rank 1 to every
  student, because they all tie.

## Model

| member | source | states |
|---|---|---|
| Text.TrimStartSpec | utils.ts:47-48 | `trim` drops exactly the leading whitespace: what is kept is a suffix that does not start with whitespace, and everything dropped is whitespace |
| Text.TrimEndSpec | utils.ts:47-48 | the same for trailing whitespace: the kept prefix does not end with whitespace, and the dropped tail is all whitespace |
| Text.TrimEmptyIff | utils.ts:93 | a trimmed name is empty exactly when every character is whitespace |
| Text.Trim | utils.ts:47-48 | definition of `String.prototype.trim`: drop leading, then trailing JavaScript whitespace (properties in TrimStartSpec, TrimEndSpec, TrimEmptyIff) |
| Text.IsJsWhitespace | utils.ts:47-48 | definition of the characters `trim` removes: the WhiteSpace and LineTerminator code points of ECMAScript (properties in TrimStartSpec, TrimEndSpec, TrimEmptyIff) |
| Text.LowerChar | utils.ts:47-48 | lower-casing maps A–Z and the Latin-1 capitals to the letter 32 code points on, Œ to œ and Ÿ to ÿ, keeps every other character, never yields a capital, and keeps whitespace |
| Text.ToLower | utils.ts:47-48 | definition of `toLowerCase`: LowerChar on every character (property in TrimLowerIgnoresCase) |
| Text.CaseVariantLower | utils.ts:47-48 | two characters that differ only in case lower to the same character and are whitespace together |
| Text.TrimStartAligned | utils.ts:47-48 | strings with whitespace in the same places lose the same number of leading characters to `trim` |
| Text.TrimEndAligned | utils.ts:47-48 | the same for trailing characters |
| Text.TrimLowerIgnoresCase | utils.ts:47-48 | strings that differ only in the case of their letters have the same trimmed, lower-cased form |
| Text.NatToString | App.tsx:75 | the decimal form of a number is a non-empty string of digits |
| Text.IntToString | App.tsx:75 | definition of the decimal form a template literal gives an integer, with '-' before a negative one (properties in IntToStringInjective, SheetKeyInjective) |
| Text.ParseNatToString | App.tsx:75 | reading the decimal form back gives the number (round trip) |
| Text.NatToStringInjective | App.tsx:75 | different numbers have different decimal forms |
| Text.IntToStringInjective | App.tsx:75 | different integers, negative ones included, have different decimal forms |
| Text.SplitAtSeparator | App.tsx:75 | a string joined at a separator that neither left part contains splits back uniquely |
| Text.ReplaceFirst | App.tsx:105 | with no occurrence of the pattern, `replace` returns the string unchanged |
| Text.ReplaceFirstAt | App.tsx:105 | when the first occurrence is right after x, `replace` substitutes exactly that occurrence and keeps the rest |
| Grades.SheetKey | App.tsx:75 | definition of the key `{cls}_{subj}_S{sem}` (property in SheetKeyInjective) |
| Grades.SheetKeyInjective | App.tsx:75 | a key `{cls}_{subj}_S{sem}` determines its class, subject and semester when the names hold no '_' |
| Grades.Round2 | utils.ts:22-24 | definition of `roundToTwo` as floor(100x + 1/2) / 100 (properties in Round2Spec to Round2InRange) |
| Grades.Round2Spec | utils.ts:22-24 | `roundToTwo` gives a whole number of hundredths within half a hundredth of its input, with halves rounded up |
| Grades.Round2Monotone | utils.ts:22-24 | rounding never reverses order |
| Grades.Round2Cents | utils.ts:22-24 | a value that is already a whole number of hundredths is unchanged |
| Grades.Round2InRange | utils.ts:22-24 | rounding keeps a value of [0, 20] in [0, 20] |
| Grades.Mention | utils.ts:13-20 | definition of `calculateMention` (properties in MentionBands, MentionMonotone) |
| Grades.MentionBands | utils.ts:13-20 | each of the six labels is given exactly on its band, lower bound included (10 is Passable, 18 Excellent), and the label is never empty |
| Grades.MentionMonotone | utils.ts:13-20 | a higher average never gets a lower mention |
| Grades.DevNotes | utils.ts:31 | the set D scores are at most three, and there are none exactly when D1–D3 are all blank |
| Grades.MoyDev | utils.ts:31-34 | definition of the mean of the set D scores, 0 when none (properties in FinalMoyInRange, ExamOnly, ThreeScores) |
| Grades.Sum | utils.ts:33 | definition of `reduce((a, b) => a + b, 0)` over the set D scores (property in SumInRange) |
| Grades.CompValue | utils.ts:36 | definition of the exam mark with '' read as 0 (properties in FinalMoyInRange, ExamOnly, ThreeScores) |
| Grades.HasAnyGrade | utils.ts:39 | definition: some D score or the exam score is set |
| Grades.FinalMoy | utils.ts:36-40 | definition of `finalMoy`: (moyDev + exam or 0) / 2 when a score is set, else 0 (properties in FinalMoyInRange, ExamOnly, ThreeScores, NoGradeDefaults) |
| Grades.NameKey | utils.ts:47-48 | definition of `s.trim().toLowerCase()` (properties in NameKeyIgnoresCase, BlankNameKey) |
| Grades.SameName | utils.ts:46-49 | definition of the match test: both name keys equal (properties in SameNameIgnoresCase, BlankNamesMatchFirstBlank) |
| Grades.FindFrom | utils.ts:46-49 | `find` returns the first semester-1 student whose trimmed, lower-cased names both match, and it returns none exactly when no student matches |
| Grades.FindMatch | utils.ts:45-48 | definition of `s1Students.find(...)`: the search from the first semester-1 student (properties in FindFrom, FindMatchIgnoresCase, BlankNamesMatchFirstBlank, AnnualAverageExample) |
| Grades.FirstMatchFound | utils.ts:45-48 | `find` returns the index of the first semester-1 student with the same trimmed, lower-cased names |
| Grades.AnnualAverage | utils.ts:43-58 | the annual average is absent exactly when there is no semester-1 data |
| Grades.AnnualAverageMatched | utils.ts:43-58 | when s1[i] is the first semester-1 student with the same trimmed, lower-cased names, `moyG` is the rounded mean of its `moyenne` and `finalMoy` |
| Grades.AnnualAverageUnmatched | utils.ts:43-58 | with semester-1 data but no semester-1 student with the same names, `moyG` is half of `finalMoy`, rounded |
| Grades.Weighted | utils.ts:64 | definition of `roundToTwo(finalMoy * coefficient)` (properties in WeightedInRange, WeightedNearProduct, MoyCoefNearProduct) |
| Grades.ComputeStudent | utils.ts:30-67 | the per-student step keeps the id, names, gender, scores and rank |
| Grades.ComputeStudentMention | utils.ts:39-66 | the mention is '' exactly when no score is set; `moyG` is absent exactly when there is no semester-1 data |
| Grades.SumInRange | utils.ts:33 | a sum of scores in [0, 20] lies in [0, 20 × count] |
| Grades.FinalMoyInRange | utils.ts:31-40 | with every set score in [0, 20], the D-score mean and the final average lie in [0, 20] |
| Grades.WeightedInRange | utils.ts:64 | the weighted average of a value in [0, 20] lies between 0 and the weighted 20 |
| Grades.WeightedNearProduct | utils.ts:64 | `roundToTwo(finalMoy * coefficient)` is within half a hundredth of the product, for any average and coefficient |
| Grades.MoyCoefNearProduct | utils.ts:64 | `moyCoef` is within half a hundredth of the unrounded final average times the coefficient |
| Grades.MoyCoefNotFromMoyenne | utils.ts:62-64 | `moyCoef` weighs the unrounded final average, not `moyenne`: D1 = 0.25 and exam 20 at coefficient 2 give `moyenne` 10.13 and `moyCoef` 20.25, while weighing `moyenne` would give 20.26 |
| Grades.MoyCoefInRange | utils.ts:64 | `moyCoef` lies between 0 and 20 weighted by the coefficient |
| Grades.AnnualAverageInRange | utils.ts:51-57 | with semester averages in [0, 20], the annual average (matched or not) is in [0, 20] |
| Grades.ComputeStudentInRange | utils.ts:60-64 | with scores in [0, 20], `moyDev` and `moyenne` lie in [0, 20] and `moyCoef` in [0, roundToTwo(20 × coefficient)], which can exceed 20 × coefficient by rounding |
| Grades.NoGradeDefaults | utils.ts:32-66 | with no score set, `moyDev`, `moyenne` and `moyCoef` are 0 and the mention is '' |
| Grades.ExamOnly | utils.ts:36-40 | with only the exam set, the final average is half the exam mark and `moyDev` is 0 |
| Grades.ThreeScores | utils.ts:31-40 | with all scores set, the final average is ((d1 + d2 + d3) / 3 + exam) / 2 |
| Grades.ExamOnlySixteen | utils.ts:36-66 | an exam-only 16 gives `moyenne` 8 and the mention Insuffisant |
| Grades.AnnualAverageExample | utils.ts:51-53 | a match with semester-1 average 14 and final average 10 gives an annual average of 12 |
| Grades.AnnualAverageNoMatchExample | utils.ts:54-57 | with no match, a final average of 12 gives an annual average of 6 |
| Grades.NameKeyIgnoresCase | utils.ts:47-48 | names that differ only in the case of their letters have the same key |
| Grades.SameNameIgnoresCase | utils.ts:46-49 | whether a semester-1 student matches does not depend on the case of the names |
| Grades.FindFromAgree | utils.ts:46-49 | two students matched by the same semester-1 students find the same one |
| Grades.FindMatchIgnoresCase | utils.ts:46-49 | two students whose names differ only in case match the same semester-1 student, or none |
| Grades.BlankNameKey | utils.ts:46-48 | a blank name matches another name exactly when that one is blank too |
| Grades.BlankNames | App.tsx:211 | definition of a blank row: both names trim to '' (also used by the sort) |
| Grades.BlankNamesMatchFirstBlank | utils.ts:46-49 | a student with blank names matches the first semester-1 student with blank names, and nobody when there is none |
| Grades.BlankStudent | utils.ts:138-150 | definition of a fresh slot: every raw field '', derived fields 0 or '', rank 0 (properties in BlankStudentComputes) |
| Grades.GenerateInitialStudents | utils.ts:133-153 | `count` blank records (every score '', every derived value 0 or '', rank 0) with the supplied ids in order, and distinct ids from distinct ids |
| Grades.BlankStudentComputes | utils.ts:133-153 | a blank record has no score, and computing it gives averages 0 and mention '' |
| Ranking.CountAbovePermutation | utils.ts:71-82 | the number of students strictly above a value does not depend on the roster's order |
| Ranking.SortByMoyenne | utils.ts:71 | definition of the stable descending sort as insertion (properties in SortSpec, SortStable, SortMembers) |
| Ranking.SortSpec | utils.ts:71 | the descending sort is a permutation of its input and is sorted by `moyenne`, highest first |
| Ranking.SortStable | utils.ts:71 | the sort is stable: students with equal `moyenne` keep their relative order |
| Ranking.SortMembers | utils.ts:71 | every student of the sorted roster comes from the input |
| Ranking.Calculate | utils.ts:30-68 | definition of the per-student `map` (property in CalculateKeepsRaw) |
| Ranking.CalculateKeepsRaw | utils.ts:30-61 | the computed roster has the input's length and order; each record keeps its raw fields and id; distinct ids stay distinct |
| Ranking.Recalculated | utils.ts:27-88 | definition of what `recalculateGrades` returns: each computed student with 1 + the number strictly above it as rank (properties in RanksInRange, RankOrder, TopRankIsOne, RanksOrderIndependent) |
| Ranking.RankAtDrop | utils.ts:74-82 | in a sorted roster, where the average drops (or at the top) the rank is the position plus one |
| Ranking.RankMap | utils.ts:72-82 | the rank loop gives every id of the sorted roster a rank, and each entry is 1 plus the number of students strictly above that student |
| Ranking.ApplyRanks | utils.ts:84-87 | the final map changes only `rang`, and gives each student the rank the map holds for its id |
| Ranking.AssignRanks | utils.ts:71-87 | sort, rank loop and lookup give every student a rank in [1, n] and change nothing else; with distinct ids the ranks are the competition ranks of `Ranked` |
| Ranking.RankMapCovers | utils.ts:84-87 | every id of the computed roster is in the rank map, and every rank in it lies in [1, n] |
| Ranking.RankOfDistinct | utils.ts:76-87 | with distinct ids, the rank looked up for a student is its competition rank in the unsorted roster |
| Ranking.RecalculateGrades | utils.ts:27-88 | the result has the input's length and order, each record is the computed student with a rank in [1, n], and with distinct ids the result is `Recalculated` |
| Ranking.RanksInRange | utils.ts:84-87 | ranking changes only `rang`, and every rank lies in [1, n] |
| Ranking.RankOrder | utils.ts:71-82 | equal averages share a rank, and a strictly higher average gets a strictly better rank |
| Ranking.TopRankIsOne | utils.ts:74-79 | a student with the highest average has rank 1 |
| Ranking.RanksOrderIndependent | utils.ts:71-82 | a student's rank does not depend on the order of the roster |
| Ranking.RankExample | utils.ts:74-82 | averages [15, 15, 10] get ranks [1, 1, 3] |
| Stats.FilterSpec | utils.ts:92-95 | `filter` keeps exactly the elements that pass the test and never lengthens the list |
| Stats.FilterComplement | utils.ts:112-113 | filtering by a test and by its negation splits the list: the two lengths add up to the whole |
| Stats.FilterMultiset | App.tsx:210-211 | the two halves of a split by a test and its negation hold together exactly the elements of the list |
| Stats.FilterDisjoint | utils.ts:114-115 | two tests that never both hold select at most the whole list between them |
| Stats.FilterOfFilter | utils.ts:116-117 | filtering a filtered list selects at most what filtering the whole list selects |
| Stats.Filter | utils.ts:92-100 | definition of `array.filter(p)`, keeping order (properties in FilterSpec, FilterComplement, FilterMultiset, FilterDisjoint, FilterOfFilter) |
| Stats.IsNamed | utils.ts:93 | definition: a trimmed name is non-empty |
| Stats.IsActive | utils.ts:92-95 | definition of the active filter: named, and a positive average, a D1 score or an exam score (property in ActiveChecksOnlyD1) |
| Stats.MeanTimesCount | utils.ts:129 | the mean times the count is the total |
| Stats.MeanBounds | utils.ts:129 | a mean lies between the bounds its summands lie between |
| Stats.SumMoyenneBounds | utils.ts:119 | the sum of averages in [lo, hi] lies in [lo × n, hi × n] |
| Stats.CalculateClassStats | utils.ts:90-131 | definition of `calculateClassStats` (properties in ClassStatsCounts to UnnamedRosterEmptyStats) |
| Stats.SumMoyenne | utils.ts:119 | definition of `reduce((acc, curr) => acc + curr.moyenne, 0)` (properties in SumMoyenneBounds, ClassAverageIsMean) |
| Stats.Mean | utils.ts:129 | definition of `sumAverage / count` for a positive count (properties in MeanTimesCount, MeanBounds, ClassAverageInRange) |
| Stats.ClassStatsCounts | utils.ts:97-128 | the total is the number of active students; passes plus fails is the total; the pass counts by gender are within the gender counts; the two genders together are within the total |
| Stats.ClassStatsMembers | utils.ts:92-112 | the active students are exactly the roster's students that are named and have a positive average, a D1 score or an exam score; the passes are the active ones with an average of at least 10 |
| Stats.ClassStatsEmpty | utils.ts:99-110 | with no active student every count and the class average are 0 |
| Stats.ClassAverageIsMean | utils.ts:119-129 | the class average times the number of active students is the sum of their averages |
| Stats.ClassAverageInRange | utils.ts:119-129 | with averages in [0, 20], the class average is in [0, 20] |
| Stats.ActiveChecksOnlyD1 | utils.ts:94 | a named student with average 0 and no exam score is active with a D1 score, and not with only a D2 score |
| Stats.UnnamedRosterEmptyStats | utils.ts:92-110 | a roster without names has all-zero statistics |
| SheetNames.IsIllegalSheetChar | utils.ts:507 | definition of the seven characters the pattern `/[[\]*:?/\\]/g` matches (property in SheetNameLegal) |
| SheetNames.RawSheetName | utils.ts:505 | definition of the sheet name before cleaning: the class, discipline and semester joined as in the sheet key (property in SheetNameLegal) |
| SheetNames.Sanitize | utils.ts:507 | definition: each of `[ ] * : ? / \` becomes '_' |
| SheetNames.SheetNameFor | utils.ts:505-508 | definition of the cleaned key cut to 31 characters (property in SheetNameLegal) |
| SheetNames.SheetNameLegal | utils.ts:505-508 | the sheet name has no `[ ] * : ? / \` and at most 31 characters; it is the cleaned key cut to 31 characters, and the key itself when that was already legal and short |
| SheetNames.Candidate | utils.ts:514 | definition of the code's candidate: the name cut to 28 characters plus "(n)" (properties in CandidateInjective, CandidateLength, TenthCollisionTooLong) |
| SheetNames.FittedCandidate | utils.ts:514 | definition of the corrected candidate: the name cut to leave room for "(n)" within 31 characters (property in FittedCandidateLength) |
| SheetNames.SuffixInjective | utils.ts:514 | a name of the form prefix(n) determines its prefix and its counter |
| SheetNames.CandidateInjective | utils.ts:514 | different counters give different `(n)` candidates for the same name |
| SheetNames.CandidateByInjective | utils.ts:514 | the same holds for the corrected rule that fits the suffixed name to 31 characters |
| SheetNames.TakenCandidatesBound | utils.ts:513-516 | if candidates 1..m are all taken, there are at least m existing names, so the loop ends within n + 1 rounds |
| SheetNames.UniqueSheetName | utils.ts:511-516 | the loop returns a name not yet in the workbook: the name itself when free, otherwise the candidate with the smallest free counter |
| SheetNames.UniqueChoiceDeterministic | utils.ts:511-516 | that choice is unique: any two results satisfying it are equal |
| SheetNames.CandidateLength | utils.ts:514 | a candidate is the cut name plus 2 plus the counter's digits long, and at most 31 characters while the counter is below 10 |
| SheetNames.TenthCollisionTooLong | utils.ts:514 | the code as written: a name of 28–31 characters whose candidates (1)–(9) are taken gets a 32-character name |
| SheetNames.FittedCandidateLength | utils.ts:514 | a candidate under the corrected rule is at most 31 characters, and it is the whole name plus the suffix when that fits |
| SheetNames.FittedChoiceLength | utils.ts:511-516 | the name chosen under the corrected rule is at most 31 characters |
| SheetNames.Workbook.constructor | utils.ts:474 | a new workbook has no sheet names |
| SheetNames.Workbook.AppendSheet | utils.ts:505-518 | appending a sheet adds exactly the unique choice for its cleaned name (at most 31 characters) and keeps the names distinct |
| SheetNames.AppendKeepsDistinct | utils.ts:513-518 | appending a name not present keeps the workbook's names distinct |
| Store.OptionsAreKeyParts | utils.ts:6-11 | no class or subject option holds '_', and no subject starts with "S2" |
| Store.OptionKeysInjective | App.tsx:71-75 | different (class, subject, semester) combinations from the options get different keys |
| Store.SiblingS1Key | App.tsx:105 | definition: the first "_S2" of the key replaced by "_S1" (property in SiblingOfSemesterTwo) |
| Store.SiblingOfSemesterTwo | App.tsx:103-106 | replacing the first "_S2" in a semester-2 key gives the semester-1 key of the same class and subject |
| Store.DefaultMetadata | App.tsx:77-83 | definition of a new sheet's metadata: its class, discipline and semester, no teacher, coefficient 1 (properties in WithSheetSpec, InitialDbComplete) |
| Store.BlankRoster | App.tsx:84 | definition of `generateInitialStudents(100)` with supplied ids (property in BlankRosterSpec) |
| Store.DefaultSheet | App.tsx:76-84 | definition of a new sheet: default metadata and the blank roster (properties in WithSheetSpec, BlankRosterSpec, InitialDbComplete) |
| Store.BlankRosterSpec | App.tsx:84 | a new sheet's roster is 100 blank slots with distinct ids from those supplied, and it never has an active student |
| Store.WithSheet | App.tsx:138-146 | definition of `handleSelectClass`'s update: the default sheet added when its key is absent (property in WithSheetSpec) |
| Store.WithSheetSpec | App.tsx:138-146 | selecting a sheet adds its key, keeps every existing sheet unchanged, and gives a new sheet the default metadata |
| Store.ApplyMetadataEdit | App.tsx:172-181 | definition of `{ ...metadata, [field]: value }` for the fields edited in place (property in MetadataEditKeeps) |
| Store.MetadataEditKeeps | App.tsx:172-181 | a field edit changes that metadata field only; class and semester are not edited in place |
| Store.Navigates | App.tsx:158-168 | definition: a class or semester edit moves to another sheet instead of editing this one (properties in NavigationKeyParts, SheetStore.MetadataChange) |
| Store.NavigationKey | App.tsx:158-168 | definition of the key a class or semester change moves to (property in NavigationKeyParts) |
| Store.NavigationKeyParts | App.tsx:158-168 | changing class or semester moves to the key of the new class or semester with the same subject |
| Store.ApplyStudentEdit | App.tsx:192 | definition of `{ ...s, [field]: value }` (property in StudentEditKeeps) |
| Store.StudentEditKeeps | App.tsx:191-193 | a student edit changes the edited field only and keeps the id and every derived field |
| Store.UpdateRoster | App.tsx:191-193 | definition of the roster `map` that edits the student with the id (properties in UpdateRosterSpec, UpdateTouchesOne) |
| Store.UpdateRosterSpec | App.tsx:187-195 | only the student with that id changes; length, order and ids are kept; with no match the roster is unchanged |
| Store.UpdateTouchesOne | App.tsx:191-193 | with distinct ids, every other student is unchanged |
| Store.RecalculatedKeepsIds | utils.ts:84-87 | recomputing keeps length, order and ids, and keeps ids distinct |
| Store.NamedOrBlank | App.tsx:210-211 | every row is either named or blank, never both |
| Store.SortedRoster | App.tsx:207-219 | definition of `handleSort`'s roster: recomputed without semester-1 data, named rows sorted, then blank rows (properties in SortedRosterPermutation, SortedRosterLayout, SortedRosterNoAnnual) |
| Store.SortedRosterPermutation | App.tsx:207-219 | the sorted roster is a permutation of the recomputed roster, has the same length, and keeps ids distinct |
| Store.SortedRosterLayout | App.tsx:207-219 | named students come first, sorted by descending average with ties in their original order; the blank rows follow in their original order |
| Store.SortedRosterNoAnnual | App.tsx:207 | sorting uses no semester-1 data: no sorted record has an annual average |
| Store.ResetRoster | App.tsx:232-238 | definition of the reset roster: a blank record with each student's id (properties in ResetThenRecalculate, ResetComputed) |
| Store.ResetThenRecalculate | App.tsx:228-238 | a reset keeps length, order and ids; recomputing afterwards gives everyone average 0, mention '' and rank 1, an annual average only with semester-1 data, and no active student |
| Store.AllTiedRankOne | utils.ts:74-82 | when every average is 0 all ranks are 1 |
| Store.ResetComputed | App.tsx:232-238 | computing a reset roster gives every row average 0, mention '' and no name |
| Store.S1Students | App.tsx:102-118 | definition of the semester-1 roster a semester-2 view uses (property in SemesterTwoReadsSemesterOne) |
| Store.CurrentView | App.tsx:98-121 | definition of `calculatedStudents` (properties in NoAnnualOutsideSemesterTwo, SemesterTwoReadsSemesterOne; method CalculatedStudents) |
| Store.NoAnnualOutsideSemesterTwo | App.tsx:101-120 | a sheet that is not semester 2 is viewed without annual averages |
| Store.SemesterTwoReadsSemesterOne | App.tsx:103-117 | a semester-2 sheet of the options is viewed against its semester-1 sibling, recomputed with that sheet's own coefficient, or against nothing when the sibling is absent |
| Store.AddDefaultSheet | App.tsx:75-85 | one step of the nested loops adds exactly the next key, with default metadata and a blank roster |
| Store.HasDefaultsStep | App.tsx:74-86 | adding the next default sheet keeps every earlier one in place |
| Store.InitialDbComplete | App.tsx:70-88 | after the last step the keys are exactly the class × subject × {1, 2} keys, each with its default metadata |
| Store.BuildInitialDb | App.tsx:70-88 | the nested loops build one sheet per class, subject and semester 1 and 2, with coefficient 1, teacher '' and 100 blank slots |
| Store.SheetStore.constructor | App.tsx:13-19 | the initial state is an empty database, no current sheet and the dashboard |
| Store.SheetStore.InitializeEmptyDb | App.tsx:69-90 | the database becomes the 80 default sheets of the options with blank rosters; the current key and view are unchanged |
| Store.SheetStore.SelectClass | App.tsx:134-150 | a sheet is created only when its key is absent, existing sheets are unchanged, and the current key becomes that key with the editor view |
| Store.SheetStore.MetadataChange | App.tsx:152-182 | without a current sheet nothing changes; a class or semester change navigates and leaves the current sheet untouched; any other field is updated in place and nothing else changes |
| Store.SheetStore.StudentUpdate | App.tsx:184-196 | only the current sheet's roster changes, by the student update; without a current sheet nothing changes |
| Store.SheetStore.Sort | App.tsx:198-223 | only the current sheet's roster changes, to the sorted roster; metadata and other sheets are unchanged |
| Store.SheetStore.Reset | App.tsx:225-242 | when confirmed, only the current sheet's roster changes, to blank records with the same ids; otherwise nothing changes |
| Store.SheetStore.CalculatedStudents | App.tsx:98-121 | the view is the current sheet recomputed against its recomputed semester-1 sibling, or empty without a current sheet |

## Left out

- `Number.EPSILON` in `roundToTwo` and floating-point error in general: scores
  are exact reals, and rounding is floor(100x + 1/2) / 100.
- `toLowerCase` is modelled for capitals in ASCII and Latin-1 and for Œ and Ÿ.
  Other capitals, such as Š, Ł, Ğ and Č, keep their case in the model, although
  JavaScript lowers them.
  `length` counts characters, not UTF-16 code units.
- `crypto.randomUUID()`: ids come from a supplied sequence, and distinctness
  is a precondition where it matters.
- Grades.MoyDev: the D-score mean divides by the literal counts 1, 2 and 3
  rather than by the list length. There are never more than three scores.
- Ranking.RecalculateGrades: for a roster with duplicate ids the model states
  only that ranks lie in [1, n]. The program's map lookup then gives one rank
  to both duplicates, which the model does not state.
- Store.SheetStore.CalculatedStudents and Store.CurrentView: the semester-1 key
  is derived from the current key, as the code does. The facts about the
  derived key are proved only for keys built from the class and subject
  options (Store.SiblingOfSemesterTwo, Store.SemesterTwoReadsSemesterOne).
- Store.SheetStore.Reset: `window.confirm` becomes the `confirmed` parameter.
  `alert` messages are left out.
- Store.SheetStore.MetadataChange: the semester arrives as a number. The
  `parseInt` of the dropdown value, and its NaN case, are left out.
- Store.SheetStore.InitializeEmptyDb: its `Valid()` is stated only when the
  current key is '' or one of the initial keys, because the program does not
  reset the current key.
- SheetNames.Workbook.AppendSheet: it uses the corrected suffix rule (see
  Findings). The code as written is SheetNames.UniqueSheetName with `Cut28`.
  Rendering the sheet and `XLSX.writeFile` are left out.
- `localStorage` load and save, JSON parsing, the install prompt, the service
  worker, the React components and the Excel and Word export layouts are left
  out. They are I/O and presentation.
- Input validation in the grade table and the metadata form is not modelled as
  code. The grade table keeps scores in [0, 20], and the form's
  `parseFloat(...) || 1` (MetadataForm.tsx:46) never stores 0 or NaN as the
  coefficient. The input's `min={1}` does not filter typed values, so a
  negative coefficient such as -2 is stored. The range lemmas take "scores in
  [0, 20]" and "coefficient at least 0" as preconditions, so they say nothing
  about a negative coefficient, which the program accepts.
- `calculateClassStats` is a pure function (filter and reduce only), so it has
  no separate method.

## Findings

| source | as written | input that shows it | evidently intended | confidence | as-written member | corrected member |
|---|---|---|---|---|---|---|
| utils.ts:511-516 | a colliding name is cut to 28 characters and given "(n)", so from n = 10 on the candidate has 32 or more characters | a sheet name of 28 to 31 characters whose candidates (1) to (9) are already in the workbook: the tenth is 28 + 4 = 32 characters | every sheet name fits Excel's 31-character limit, which lines 504-508 enforce | not executed; needs ten sheets whose names collide after cutting | SheetNames.TenthCollisionTooLong | SheetNames.FittedChoiceLength |
