# Course planner: plan editing, dirty tracking and option persistence

This project models the core of a course-planning web application. A plan
is a sequence of years. Each year is a sequence of quarters, and each quarter
is a sequence of courses. Next to the schedule sit two sets of bookmarked
courses, one for credit and one not for credit.

The application object edits the plan in place:

- add, remove and move a course;
- bookmark a course, or remove a bookmark;
- add a quarter to a year, append a year, clear the plan or reset one year.

Adding or moving a course passes through a soft confirmation policy. A
duplicate warning comes first. A warning when the quarter would exceed 7.5
credits comes second.

An "unsaved changes" flag records whether the plan differs from the copy
last persisted in the user's account, whose encoding is the baseline string
`originalDataString`. The flag is recomputed as "the plan's encoding differs
from the baseline" by six edits:

- adding, removing and moving a course;
- adding and removing a bookmark;
- clearing the plan or resetting one year.

Other operations set or clear the flag directly:

- setting an option clears it, and only when the active plan id becomes "None" from another value;
- confirming a discard of changes clears it;
- saving to the account clears it at once, and sets it back to true when the save fails;
- activating an account plan with empty content sets it to whether the address has a query; loading one with content leaves it as the discard guard left it.

Loading at start-up sets the baseline and the active plan id; the flag
changes only through setting that option. Adding a quarter or a year never
touches the flag.

User options ("switches") are written to the browser's key/value storage
under a `switch_` prefix when an option is set with `save`, and read back from
it on start-up. The
project also models a few small conversion tables:

- distribution codes to area names;
- a distribution string to its acronym;
- year and quarter indices to labels and colours;
- prerequisite depth to a colour;
- the text line of the error alert.

The project has four modules:

- `Wrappers` (Wrappers.dfy) holds `Option`.
- `Utility` (Utility.dfy) holds switch persistence and the conversion tables.
- `Plan` (Plan.dfy) holds the schedule as a value:
  - quarter ordering and the sort;
  - JavaScript `indexOf`/`splice` removal;
  - credits;
  - the duplicate lookup;
  - the confirmation policy;
  - the schedule updates;
  - the multiset of all scheduled courses.
- `Planner` (App.dfy) holds the application class `App`, whose fields are the state the component changes, and query-parameter handling.

Each `App` method except `ComponentDidMount` states its whole new state in
terms of the `Plan` and `Utility` functions; `ComponentDidMount` states the
rewritten address, the open tab and the plan (see Left out). The properties are proved about those functions: sortedness and permutation of
the target quarter, frames on every other quarter, credit totals, the
policy's if-and-only-if conditions, course-count preservation by moves, and
the save/load round trip of options.

The plan codec belongs to `CourseManager`, which is not part of this model.
Its encoding (`getDataString`, whose difference from the baseline is what
`save` reports) and its string loader (`loadFromString`) are uninterpreted
function-valued constants of `App`, fixed at construction. Its duplicate
lookup and per-quarter credit sum are specified functions,
`Plan.DuplicateCourse` and `Plan.QuarterCredits`.

Confirmation dialogs are an explicit `confirmed` argument. The outcome of
each network call is an argument of the operation that consumes it:

- the account login result;
- the start-up load;
- the fetched account plans;
- the outcome of a save.

`updatePlan` is split in two:

- `UpdatePlan` takes the snapshot and clears the flag;
- `UpdatePlanSettled` applies the save's outcome.

Browser storage is the `App` field `storage`.

The shapes follow the code:

- `addYear` appends a year of three empty quarters (src/App.tsx:517).
- Resetting one year leaves two empty quarters (src/App.tsx:564).
- A fresh application has four years of two quarters (src/App.tsx:61-66), and `clearData()` gives four years of three (src/App.tsx:526-531).
- `addYear` and `addSummerQuarter` do not call `save`, so they do not recompute the unsaved flag.
- The source compares courses by object identity; the model compares them by value (see Left out).

## Model

| member | source | states |
|---|---|---|
| Utility.SwitchKeyRoundTrip | src/utility/Utility.tsx:33-41 | a prefixed key is a switch key, and dropping the 7-character prefix gives the option name back |
| Utility.SwitchIdRoundTrip | src/utility/Utility.tsx:33-41 | a key that starts with `switch_` is the prefix followed by its option name |
| Utility.SwitchKeyInjective | src/utility/Utility.tsx:41-53 | distinct option names have distinct storage keys |
| Utility.Defaults | src/utility/Utility.tsx:22-26 | the defaults are exactly save_to_storage = true, notifications = true and settings_tab = "Appearance" |
| Utility.DecodeStored | src/utility/Utility.tsx:36-40 | a stored "true" reads as true and "false" as false, each exactly then; any other string reads as itself |
| Utility.Stringify | src/App.tsx:262-264 | `val?.toString()` is missing exactly for an unset value |
| Utility.StoredValueRoundTrip | src/utility/Utility.tsx:36-40 | a boolean, or a non-empty string that does not spell a boolean, is saved as a non-empty string and reads back as itself |
| Utility.OptionNames | src/utility/Utility.tsx:22-44 | the options present after reading some keys are the defaults plus the names of the prefixed keys read |
| Utility.OptionsFrom | src/utility/Utility.tsx:22-44 | after reading some keys, an option takes its decoded stored value if its key was read, else its default |
| Utility.LoadedSwitches | src/utility/Utility.tsx:15-49 | the loaded options are the defaults overridden by the decoded value of every `switch_` key in storage; nothing else appears |
| Utility.OptionsFromStep | src/utility/Utility.tsx:32-43 | reading one more key changes only the option it names, and only if it is a prefixed key |
| Utility.LoadSwitchesFromStorage | src/utility/Utility.tsx:15-49 | the loop over the storage keys yields exactly the loaded options, stated pointwise |
| Utility.EmptyStorageGivesDefaults | src/utility/Utility.tsx:22-26 | an empty storage yields exactly save_to_storage = true, notifications = true and settings_tab = "Appearance" |
| Utility.SaveSwitchToStorage | src/utility/Utility.tsx:51-57 | a non-empty value is stored under `switch_` + key; an empty or missing one removes that key; no other key changes |
| Utility.SaveThenLoad | src/utility/Utility.tsx:32-54 | after saving a non-empty string, the next load yields its decoding for that option |
| Utility.RemoveThenLoad | src/utility/Utility.tsx:32-57 | after a removal, the next load gives the option its default, or omits it if it has none |
| Utility.SaveLeavesOtherOptions | src/utility/Utility.tsx:32-57 | saving one option leaves what the next load yields for every other option unchanged |
| Utility.ParseDigit | src/utility/Utility.tsx:72 | `parseInt` of one character is a number exactly for a decimal digit, and that number is the digit's value |
| Utility.DistroName | src/utility/Utility.tsx:74-99 | the area is "Engenharia" exactly for a parsed digit 1..7, else "Indefinido" |
| Utility.ConvertDistros | src/utility/Utility.tsx:66-103 | a missing or empty input gives no entries; otherwise one entry per character, "Engenharia" exactly for '1'..'7' and "Indefinido" for anything else |
| Utility.Split | src/utility/Utility.tsx:60 | `split(' ')` gives at least one piece, no piece contains a space, and joining them with spaces restores the input |
| Utility.Initial | src/utility/Utility.tsx:62 | `d[0]` appended to a string: "undefined" exactly for an empty word, otherwise the word's first character |
| Utility.InitialsOfNonEmptyWords | src/utility/Utility.tsx:59-64 | with no empty word, the acronym has one character per word, and each is that word's first character |
| Utility.GetDistroAcronym | src/utility/Utility.tsx:59-64 | the loop concatenates each space-separated word's first character, with "undefined" for an empty word; with no empty word, its length is the word count |
| Utility.AcronymOfEmptyString | src/utility/Utility.tsx:59-64 | as written, the acronym of "" is "undefined" |
| Utility.AcronymOfWords | src/utility/Utility.tsx:59-64 | the acronym of the non-empty words has one character per non-empty word |
| Utility.DistroAcronym | src/utility/Utility.tsx:59-64 | corrected acronym: one character per non-empty word, each a non-space character of the input; equals the original whenever no word is empty |
| Utility.AcronymCharsOccur | src/utility/Utility.tsx:59-64 | every character of the corrected acronym occurs in the input and is not a space |
| Utility.ConvertYear | src/utility/Utility.tsx:105-130 | the label is numeric exactly for 0..9, where it is 2023 + index; anything else gives the single fallback |
| Utility.ConvertYearInjective | src/utility/Utility.tsx:105-130 | an index in 0..9 has a label no other index shares, the fallback included |
| Utility.ConvertQuarter | src/utility/Utility.tsx:132-145 | 0..3 give "1º PERIODO".."4º PERIODO" with a non-gray colour; anything else gives "LOL WHAT??" in gray, gray exactly then |
| Utility.ConvertQuarterInjective | src/utility/Utility.tsx:132-141 | distinct in-range quarters get distinct titles and colours |
| Utility.PrereqColor | src/utility/Utility.tsx:147-162 | the colour is gray exactly outside 0..4 |
| Utility.PrereqColorInjective | src/utility/Utility.tsx:147-158 | distinct depths in 0..4 get distinct colours |
| Utility.ErrorTextView | src/utility/Utility.tsx:180 | the text is the error, then " - ", then the location, with the combined length |
| Plan.EmptySchedule | src/App.tsx:524-531 | the given number of years, each of the given number of empty quarters |
| Plan.EmptyYear | src/App.tsx:517 | the given number of quarters, each empty |
| Plan.IdLe | src/App.tsx:351 | the id order is reflexive and puts a prefix first |
| Plan.IdLeAntisymmetric | src/App.tsx:351 | two ids each ordered no later than the other are equal |
| Plan.LocaleCompare | src/App.tsx:351 | `localeCompare` as plain character order: -1, 0 or 1, zero exactly for equal ids, not positive exactly when the ids are in order |
| Plan.IdLeTotal | src/App.tsx:351 | the id order compares any two ids |
| Plan.IdLeTransitive | src/App.tsx:351 | the id order is transitive |
| Plan.Before | src/App.tsx:348-351 | a non-placeholder goes before a placeholder and never after it; a non-placeholder may stand before another with the same id |
| Plan.Comparator | src/App.tsx:348-351 | the sort comparator: positive for a placeholder first, negative for a non-placeholder before a placeholder, zero between non-placeholders exactly for equal ids; not positive exactly when `Before` holds, for every pair but two placeholders |
| Plan.BeforeTotal | src/App.tsx:348-352 | the quarter order compares any two courses |
| Plan.BeforeTransitive | src/App.tsx:348-352 | the quarter order is transitive |
| Plan.OrderedMeans | src/App.tsx:348-352 | in a sorted quarter, no placeholder precedes a non-placeholder, and non-placeholders are in id order |
| Plan.OrderedCons | src/App.tsx:348-352 | a course that precedes every course of a sorted quarter can be put first |
| Plan.OrderedTail | src/App.tsx:348-352 | the rest of a sorted quarter is sorted, and its head precedes all of it |
| Plan.Insert | src/App.tsx:347-352 | inserting into a sorted quarter keeps it sorted and adds exactly that course |
| Plan.SortQuarter | src/App.tsx:348-352 | the sorted quarter is ordered and a permutation of the input |
| Plan.IndexOf | src/App.tsx:373 | -1 exactly when the course is absent; otherwise the index of its first occurrence |
| Plan.SpliceOne | src/App.tsx:372-375 | `splice(start, 1)` with JavaScript's negative-index rule removes exactly one element, or none past the end |
| Plan.SpliceOut | src/App.tsx:372-375 | removes the first occurrence when present; when absent, drops the last course of a non-empty quarter |
| Plan.SpliceOutOrdered | src/App.tsx:372-375 | removing from a sorted quarter leaves it sorted |
| Plan.QuarterCredits | src/App.tsx:315-317 | `getQuarterCredits`: an empty quarter has no credits; with non-negative units the total is non-negative and at least every course's units |
| Plan.CreditsInsert | src/App.tsx:315-317 | insertion adds the course's units to the quarter's credits |
| Plan.CreditsSort | src/App.tsx:315-317 | sorting does not change a quarter's credits |
| Plan.CreditsAppend | src/App.tsx:315-317 | the credits of two lists of courses together are the sum of their credits; in particular a push adds the course's units |
| Plan.AddedCourseCredits | src/App.tsx:315-352 | after push-and-sort, the quarter's credits are the old credits plus the course's units, the policy's total |
| Plan.FindInYear | src/App.tsx:286 | a found quarter of the year, at or after the start index, holds the id; none only when no such quarter does |
| Plan.FindInYears | src/App.tsx:286 | a found location, in a year at or after the start index, holds the id; none only when no such year does |
| Plan.DuplicateCourse | src/App.tsx:286 | a found location holds a course with the same id; none exactly when no scheduled course has it |
| Plan.CoursePrompt | src/App.tsx:276-341 | the duplicate warning fires exactly under the duplicate rule and comes first; otherwise the credit warning fires exactly when credits plus units exceed 7.5 and reports that total; a total of exactly 7.5 passes |
| Plan.MovePromptNeverDuplicate | src/App.tsx:387-432 | with the duplicate check waived, only the credit warning can fire |
| Plan.YearBagUpdate | src/App.tsx:400-417 | replacing one quarter changes a year's multiset of courses by exactly that quarter's difference |
| Plan.ScheduleBagUpdate | src/App.tsx:400-417 | replacing one quarter changes the schedule's multiset of courses by exactly that quarter's difference |
| Plan.SetQuarter | src/App.tsx:347-375 | exactly one quarter is replaced; the shape and every other quarter stay |
| Plan.AddToQuarter | src/App.tsx:347-352 | the target quarter gains exactly the course and is sorted; its credits grow by the units; every other quarter and year is unchanged; the schedule's multiset gains the course |
| Plan.RemoveFromQuarter | src/App.tsx:371-375 | the target quarter is the splice result; every other quarter is unchanged; a present course leaves the schedule's multiset; an absent one drops the last course; an empty quarter stays |
| Plan.MoveSchedule | src/App.tsx:398-417 | the target quarter is sorted and contains the course; from a bookmark the move is an insertion only, otherwise a removal from the old quarter then an insertion |
| Plan.MovePreservesCourses | src/App.tsx:398-417 | moving a course that is in its old quarter leaves the multiset of scheduled courses unchanged |
| Plan.MovePreservesCount | src/App.tsx:398-417 | moving out of a non-empty quarter preserves the number of scheduled courses |
| Plan.MoveFromBookmarksAddsCourse | src/App.tsx:398-417 | moving from a bookmark adds exactly that course to the scheduled courses |
| Planner.SavedSwitchReloads | src/App.tsx:251-266 | a boolean, or a non-empty string that does not spell a boolean, set with save reads back as itself on the next load; an unset or empty value is removed and reloads as its default, or is absent (Utility.RemoveThenLoad) |
| Planner.Lookup | src/App.tsx:589-606 | the account plan exists exactly when the plans were fetched and contain the id |
| Planner.ParamGet | src/App.tsx:131-135 | a value for the name is missing exactly when no pair has that name; a found value is that of the first pair with the name |
| Planner.ParamDelete | src/App.tsx:132-136 | a pair is kept exactly when its name differs; a single pair is kept or dropped by its name |
| Planner.ParamDeleteCounts | src/App.tsx:132-136 | every pair with another name is kept exactly as often as it occurred, and none with the name is left |
| Planner.ParamDeleteAppend | src/App.tsx:132-136 | deletion works pair by pair, so the kept pairs stay in their order |
| Planner.DeleteKeepsOthers | src/App.tsx:132-136 | deleting one name does not change what any other name reads |
| Planner.StripAuthParams | src/App.tsx:129-142 | `code`, `state` and `action` are gone, and every other parameter is kept and reads as before |
| Planner.StripAuthParamsAppend | src/App.tsx:129-142 | the address written back is the original query with only the login pairs removed, the rest in order |
| Planner.StripAuthParamsCounts | src/App.tsx:129-142 | every other pair is kept exactly as often as it occurred |
| Planner.StrippedAddressHasNoLogin | src/App.tsx:138-160 | the rewritten address no longer carries a login answer |
| Planner.LoginReturned | src/App.tsx:131-160 | a login answer needs a pair `code` and a pair `state`, each with a non-empty value |
| Planner.IsFalsy | src/App.tsx:676-677 | an unset option, `false` and the empty string are falsy; a flag exactly when false, a string exactly when empty |
| Planner.App.constructor | src/App.tsx:49-125 | four years of two empty quarters, no bookmarks, options loaded from storage with the tab set to the search, nothing unsaved, an empty baseline |
| Planner.App.SetSwitch | src/App.tsx:251-266 | the option is updated and, with save, written through; unsaved changes are cleared exactly when the active plan id becomes "None" from a different value |
| Planner.App.AddCourse | src/App.tsx:343-364 | applied exactly when there is no prompt or it is confirmed; then the target quarter gains the course sorted, everything else stays, and the flag is recomputed; otherwise nothing changes |
| Planner.App.RemoveCourse | src/App.tsx:366-385 | at a bookmark location, removes from the set `quarter == 1` selects and leaves the schedule; otherwise splices the quarter; the flag is always recomputed |
| Planner.App.MoveCourse | src/App.tsx:387-434 | equal locations are a no-op; otherwise only the credit warning can stop it; out of a non-empty quarter the course count is preserved, and from a bookmark the course is added; bookmarks are untouched |
| Planner.App.AddBookmark | src/App.tsx:436-459 | only the chosen set gains the course; adding twice is adding once; the flag is recomputed |
| Planner.App.RemoveBookmark | src/App.tsx:461-488 | only the chosen set loses the course; an absent course changes nothing; the flag is recomputed |
| Planner.App.AddSummerQuarter | src/App.tsx:490-513 | once confirmed, exactly the given year gains one empty quarter; the flag is not recomputed |
| Planner.App.AddYear | src/App.tsx:515-520 | exactly one year of three empty quarters is appended; the flag is not recomputed |
| Planner.App.ClearData | src/App.tsx:522-584 | with no year, four years of three empty quarters and no bookmarks; with a confirmed year, that year becomes two empty quarters and all else stays |
| Planner.App.DiscardChanges | src/App.tsx:706-737 | proceeds at once exactly when there is neither an overwrite warning nor unsaved work, else only when confirmed, which clears the flag |
| Planner.App.DeactivatePlan | src/App.tsx:661-673 | when it proceeds, the active plan id becomes "None" and is saved, and nothing is unsaved; otherwise nothing changes |
| Planner.App.ActivateAccountPlan | src/App.tsx:586-659 | a missing or malformed plan changes nothing; an empty one sets the id and baseline, with unsaved work exactly when the address has a query; a non-empty one replaces the plan behind the discard guard |
| Planner.App.UpdatePlan | src/App.tsx:675-704 | with no active plan nothing changes; otherwise the encoding is snapshotted and the flag cleared at once |
| Planner.App.UpdatePlanSettled | src/App.tsx:688-703 | success makes the snapshot the baseline, so an unchanged plan is clean; failure restores the flag |
| Planner.App.InitializePlan | src/App.tsx:185-235 | a failed or malformed load changes nothing; otherwise the id is set and saved, the baseline taken, and the plan replaced only by a loaded one; loading ends in every case |
| Planner.App.LogInSettled | src/App.tsx:162-173 | on a successful login the tab becomes "Plans" and the active plan id "None", saved to storage, clearing the flag unless it was already "None"; a failed login changes nothing |
| Planner.App.ComponentDidMount | src/App.tsx:127-183 | the address loses the login parameters; the account tab opens exactly after a successful login from a code and state; once the login has resolved, or when there was none, the start-up load applies |

`Planner.App.Dirty` carries no row: it is the definition the `App` contracts
use for the flag `CourseManager.save` reports (the plan's encoding differs
from the baseline), whose code is not part of this model. The six edits that
call `save` state `unsavedChanges == Dirty()` afterwards.

Three generic proof helpers carry no row, because they model no line of
the source: `Plan.MultisetCancel` (cancelling a common multiset summand),
`Utility.FourDigits` (the place value of a four-digit string) and
`Utility.WordCharInJoin` (a word's first character occurs in a join).

## Left out

- `CourseManager` is not part of this model. Its encoding and string loader are uninterpreted. Its `save` is reduced to the boolean it returns, so the storage and URL writes it makes are left out. Its `load` becomes the `LoadResponse` input. Because the encoding is uninterpreted, it is not proved that an edit makes the plan dirty; only the flag's definition as "encoding differs from the baseline" is stated.
- Alerts, toasts, the alert text and the debug log are left out. Each confirmation is the `confirmed` argument, taken at the time the operation runs.
- Promises and their timing are left out: the login, plan fetch, start-up load and save outcomes are inputs. Two overlapping saves, which can race, are concurrency and are not modelled.
- Browser globals are left out: `window.history` (the stripped query is returned instead), `onbeforeunload`, `window.open` and `document`. The length of the address's query string is the `hasQuery` argument.
- Course units are exact `real` values rather than floating point, and `parseFloat` of the units string is not modelled.
- `localeCompare` is plain lexicographic order on ids, by character code.
- Plan.SortQuarter: the source comparator is inconsistent when both courses are placeholders. The model keeps placeholders after all other courses and makes no claim about their relative order, which is the model's own choice.
- Courses are compared by value, including in bookmark sets and `indexOf`; the source uses object identity, so two equal course objects are one course here.
- `generateRandomString` (uses `Math.random`) is left out, as is every component outside the application class: rendering, drag and drop, and the search, menu and account panels.
- The UI caps are not preconditions. Fewer than four quarters (src/components/Year.tsx:104) and fewer than ten years (src/components/Content.tsx:60) only hide the buttons, so `AddSummerQuarter` and `AddYear` accept any size.
- Utility.LoadSwitchesFromStorage: `Object.keys` order is not modelled, because distinct keys name distinct options and the result does not depend on the order. The `getItem` null branch cannot be reached, because every key read comes from the storage itself.
- Utility.LoadSwitchesFromStorage: the `set` half of the returned options object (the setter callback) is left out. The model returns the map of values.
- The login, logout and plan-loaded toasts, and the `method` field of the load result, only choose message text and are left out.
- JavaScript strings are sequences of UTF-16 code units, while a Dafny `char` here is a Unicode scalar value. `distros.length` and `distros[i]` (src/utility/Utility.tsx:71-72), `d[0]` (:62) and `substring(7)` (:41) differ from the model for characters outside the Basic Multilingual Plane; for example the source gives two "Indefinido" entries for one emoji and the model one. Distribution codes and option names are ASCII, so this does not arise in practice.
- Planner.App.ComponentDidMount: the result of the start-up load is stated for the plan and the tab only. The flag, the stored id and the baseline that follow come from the LogInSettled and InitializePlan contracts composed. A rejected login promise is not modelled: `Account.logIn(...).then(...)` has no `catch` (src/App.tsx:162-177), so on a rejection the source never runs `initializePlan` and `loadingLogin` stays true; the model's login outcome is only success or failure, and it always ends loading.

## Findings

| source | as written | input that shows it | evidently intended | confidence | as-written member | corrected member |
|---|---|---|---|---|---|---|
| src/utility/Utility.tsx:59-64 | each space-separated word contributes `d[0]`, which is `undefined` for an empty word, so `+=` appends the text "undefined" | `""` (also `"a  b"` or a trailing space) gives "undefined" (resp. "aundefinedb") | one initial per non-empty word, only characters of the input | not executed | Utility.GetDistroAcronym, Utility.AcronymOfEmptyString | Utility.DistroAcronym |
