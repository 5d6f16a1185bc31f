# Mentor/student roster — a Dafny model

This project models the logic core of a small React roster application, in
which students and mentors are listed together:

- **Matcher** (`generateUserList`). Every student with a task code gets
  `availableMentors`. This is the comma-joined names, in roster order, of
  the mentors whose open range `(availableStartCode, availableEndCode)`
  strictly contains that task code. Every mentor with both bounds gets
  `availableStudents`, computed symmetrically. All other records pass
  through unchanged.
- **Controller** (`App`). It holds the active tab, the matched roster and
  the displayed list. It reacts to a tab click, to a submitted record and
  to a sort request:
  - A submitted record gets the id `max(ids) + 1`, is appended, and the
    whole roster is matched again.
  - A sort uses one of three whitelisted numeric keys, ascending or
    descending. A missing value counts as 0, ties keep their order, and
    any other key is ignored. A sort does not re-match, so the stored
    name lists keep the pre-sort roster order until the next submission
    re-matches the whole roster.
  - The display effect, which React runs after every change of tab or
    roster, is the explicit `Refresh` step at the end of each transition.
- **Entry form** (`Form`). It holds the initial form data, the field and
  role change handlers, and the submit check. The check builds the role's
  required-field list and refuses the form while any of those fields is
  empty, reporting the empty ones in list order.
- **Roster table** (`UserList`). It holds the column list for each tab and
  the three direction flags that header clicks toggle while requesting a
  sort.

Modules follow the program's structure:

| module | file | contents |
|---|---|---|
| `Lists` | lists.dfy | order-preserving `Filter`, comma `Join` and its inverse `Split` |
| `Users` | users.dfy | `Role`, the field names `Key`, the record `Participant`, `Names`, `Ids` |
| `Matcher` | matcher.dfy | `generateUserList` and its properties |
| `Sorter` | sorter.dfy | the key whitelist and the stable sort |
| `Tabs` | tabs.dfy | tab tokens |
| `App` | app.dfy | controller state and transitions |
| `UserList` | user_list.dfy | columns and sort-flag state machine |
| `Form` | form.dfy | form state, handlers, submit check |

**The tab tokens disagree.** The tab bar (`src/components/TabComponent.tsx:7`)
emits `"all"`, `"student"` and `"mentor"`. The display effect
(`src/App.tsx:72-78`) and the column table (`src/components/UserList.tsx:50-55`)
branch on `"all"`, `"students"` and `"mentors"`. The model keeps both
vocabularies as written:

- A tab is a string token (`Tabs.Tab`).
- On a token the effect does not recognise, the display is left as it was.
- A column lookup with such a token finds no entry (`None`).

`Tabs.EmittedRecognized`, `UserList.EmittedRoleTabsHaveNoColumns`,
`UserList.EmittedTabsNeverSort` and `App.EmittedRoleTabFreezesDisplay`
state the consequences for the controller's own state: after the tab bar
emits a role tab, the controller's displayed list is left untouched and no
header click requests a sort. The running program does not get that far:
the table then looks up a column list that does not exist and crashes on
its next render (see "## Left out").

The sort is a stable insertion sort on the rank: the value when ascending,
its negation when descending. This is the order that the comparator
`a - b` or `b - a` defines under JavaScript's stable `Array.prototype.sort`.
Stability is stated as follows: for every value `v`, the records whose key
value is `v` appear in the result in the same order as in the input.

## Model

| member | source | states |
|---|---|---|
| Matcher.MentorsFor | src/App.tsx:13-36 | a student's matches are exactly the roster's mentors that have both bounds and whose bounds strictly enclose the task code (order and repeats: `MatchesKeepRosterOrder`, `MatchCounts`) |
| Matcher.StudentsFor | src/App.tsx:47-58 | a mentor's matches are exactly the roster's students that have a task code strictly inside the mentor's range (order and repeats: `MatchesKeepRosterOrder`, `MatchCounts`) |
| Matcher.MatchesKeepRosterOrder | src/App.tsx:19-20 | the matches of a roster split at any point are the front's matches followed by the back's, and a single record is listed iff it qualifies, so matches follow roster order |
| Matcher.MatchCounts | src/App.tsx:19-22 | every qualifying record is listed exactly as often as the roster holds it and no other record is listed, so nothing is de-duplicated |
| Matcher.RangeIsOpen | src/App.tsx:10-36 | a student and a mentor are paired iff start < taskCode < end; a task code equal to either bound never matches |
| Matcher.MatchIsSymmetric | src/App.tsx:29-56 | a mentor is in a student's match list iff that student is in the mentor's match list |
| Matcher.GenerateUserList | src/App.tsx:24-63 | the matched roster has the same length, keeps every record in place with every input field and id unchanged |
| Matcher.DerivedFields | src/App.tsx:24-62 | a student with a task code receives the joined names of its mentors, a mentor with both bounds the joined names of its students, and every other record passes through unchanged |
| Matcher.DerivedNamesRecoverable | src/App.tsx:19-22 | when names contain no comma and there is at least one match, splitting a derived field at "," gives the matched names in roster order |
| Matcher.MatchIsIdempotent | src/App.tsx:24-63 | matching the matcher's own output changes nothing (a roster sorted afterwards is not such an output: see `App.SortLeavesNamesStale`) |
| Lists.FilterMembers | src/App.tsx:19-20 | the filter keeps exactly the elements that satisfy the predicate |
| Lists.FilterAppend | src/App.tsx:19-20 | the filter distributes over concatenation, so kept elements stay in roster order |
| Lists.Join | src/App.tsx:22 | `.join(",")`: no names give the empty string and one name gives itself; `SplitJoin` pins the general case |
| Lists.SplitJoin | src/App.tsx:19-22 | joining comma-free names with "," and splitting the result at "," recovers the names in order |
| Sorter.AsSortKey | src/App.tsx:90-93 | a key is accepted iff it is one of studyMinutes, score, experienceDays, and each of them selects its own field for sorting |
| Sorter.Sort | src/App.tsx:96-100 | the sorted roster is a permutation of the input, ranked by value (missing as 0), and records with equal values keep their input order |
| Sorter.SortByKey | src/App.tsx:92-101 | a key outside the whitelist leaves the roster unchanged; otherwise the result is a permutation ordered ascending or descending by the key's value (`Sorter.Value`: the field, missing as 0) and stable on ties |
| Sorter.SortKeepsIds | src/App.tsx:95-100 | sorting keeps the multiset of ids, so distinct ids stay distinct |
| Tabs.EmittedRecognized | src/App.tsx:71-79 | of the tokens the tab bar emits only "all" is recognised by the effect and the column table |
| App.Refresh | src/App.tsx:71-79 | the display effect brings the display up to date for a recognised tab, leaves the state unchanged for any other, and never changes the tab or the roster |
| App.TabView | src/App.tsx:71-79 | "all" shows the roster itself, "students"/"mentors" show exactly the roster's records of that role, and any other token leaves the displayed list as it was |
| App.RoleViewsPartition | src/App.tsx:74-77 | the students view and the mentors view together hold every roster record exactly as often as the roster does |
| App.RoleViewCounts | src/App.tsx:74-77 | a role view holds every record of its role exactly as often as the roster does, and no other record |
| App.RoleViewsKeepOrder | src/App.tsx:74-77 | the view of a roster split at any point is the front's view followed by the back's, and a single record is shown iff it has the role, so each view keeps roster order |
| App.Init | src/App.tsx:66-79 | the first render shows the "all" tab with the seed matched once; its derived fields are consistent, and a non-empty seed with distinct ids gives a valid state |
| App.SelectTab | src/App.tsx:81-83 | a tab click changes the tab only, refreshes the display for a recognised tab, keeps it for any other, and preserves validity |
| App.MaxId | src/App.tsx:86 | the maximum id bounds every id and is the id of some record |
| App.NextIdIsFresh | src/App.tsx:86-87 | the appended record comes last with id max + 1, above every existing id, and distinct ids stay distinct |
| App.FreshIdKeepsDistinct | src/App.tsx:86-87 | appending a record whose id exceeds every id keeps the ids distinct |
| App.AddUser | src/App.tsx:85-88 | the submitted record is appended last with id max + 1, old records keep their ids and input fields, the whole roster is re-matched, and distinct ids stay distinct |
| App.Submit | src/App.tsx:85-89 | a submission keeps the tab, replaces the roster by the re-matched one, refreshes the display for a recognised tab and preserves validity |
| App.Sort | src/App.tsx:92-102 | a non-whitelisted key changes nothing; otherwise the roster becomes its stable sort, a permutation ordered by the key with records of equal value in their old order, the display is refreshed, and validity preserved |
| App.SortLeavesNamesStale | src/App.tsx:95-101 | a sort does not re-match: a mentor storing "A,B" keeps it after the sort puts B before A, while matching the sorted roster would store "B,A" |
| App.EmittedRoleTabFreezesDisplay | src/App.tsx:71-79 | after the tab bar emits "student" or "mentor", neither the tab click, nor a submission, nor a sort changes the displayed list |
| App.MatchExample | src/App.tsx:24-63 | a mentor covering (10, 20) and a student with task code 15 are listed in each other's derived fields |
| App.AddExample | src/App.tsx:85-88 | adding a student with task code 25 to that roster gives it id 3 and an empty mentor list, and the mentor keeps its one student |
| UserList.ColumnsByTab | src/components/UserList.tsx:50-57 | only the three recognised tokens have columns; every tab starts with the common columns, shows a role's column group, derived column included, iff it shows that role, and shows no column twice |
| UserList.ColumnGroupsInOrder | src/components/UserList.tsx:52-54 | each role tab shows the common columns followed by its own group, and "all" shows the students tab's columns followed by the mentor group |
| UserList.DerivedColumnsPlacement | src/components/UserList.tsx:22-36 | availableMentors is the last student column and availableStudents the last mentor column, each absent from the other groups |
| UserList.EmittedRoleTabsHaveNoColumns | src/components/UserList.tsx:50-60 | the tab bar's role tokens have no column list |
| UserList.HeaderClick | src/components/UserList.tsx:72-86 | a click requests a sort iff it is on studyMinutes or score on the students tab or on experienceDays on the mentors tab; it requests the negation of that key's flag, then flips that flag only; every other click changes nothing |
| UserList.FirstClickAscends | src/components/UserList.tsx:43-47 | with all flags initially false, the first sorting click requests ascending order |
| UserList.ClicksAlternate | src/components/UserList.tsx:72-86 | two clicks in a row on the same sortable column request opposite directions |
| UserList.EmittedTabsNeverSort | src/components/UserList.tsx:72-86 | on any token the tab bar emits, no header click requests a sort or changes a flag |
| Form.RequiredFields | src/components/Form.tsx:33-52 | the required list starts with the seven common fields and never contains hobbies, id or a derived field |
| Form.RequiredFieldsAreInputColumns | src/components/Form.tsx:33-51 | a role's required fields are its table columns without hobbies and without the derived column, in table order |
| Form.HandleSubmit | src/components/Form.tsx:30-70 | the form data is submitted iff no required field is empty (`Form.IsEmpty`: "", null, undefined, empty list; a numeric 0 is filled); otherwise the report lists exactly the empty required fields in required-list order |
| Form.HandleChange | src/components/Form.tsx:72-77 | a field change sets that field and leaves the role and every other field unchanged |
| Form.HandleRoleChange | src/components/Form.tsx:79-83 | a role change sets the role state and the role field to the new role and resets every other field to its initial value |
| Form.RoleAgreementKept | src/components/Form.tsx:79-83 | the role state and the form's role field agree initially and after every handler |
| Form.ResetFormIsRejected | src/components/Form.tsx:54-67 | the initial form and any freshly reset form are rejected, with name among the empty fields |
| Form.InitialFormReport | src/components/Form.tsx:9-62 | the initial student form reports name, email, postCode, phone, url and studyLangs, with the numeric zeros counted as filled |

## Left out

- Rendering: JSX, Bootstrap markup, `alert`, DOM events and `preventDefault` are presentation. The rejection message is modelled as the list of empty fields, not the alert text.
- React scheduling: `useState`, `useEffect` and `useMemo` become explicit state transitions. The display effect is applied once at the end of each transition, and stale closures are not modelled.
- The display state starts as an empty list before the first effect. `App.Init` includes that first effect run.
- `src/components/TabComponent.tsx` and `src/components/FormField.tsx` are click handling and presentation. Only the tab bar's token set is modelled, as `Tabs.Emitted`.
- Text inputs: `taskCode` and the mentor bounds arrive as strings without a converter, so at runtime they may compare as text. They are modelled as integers, and `Number` parsing is not modelled.
- `score` may be fractional at runtime. Every sort key is modelled as an integer.
- The `User` type and the `USER_LIST` seed data in `src/data/users` are not part of this model. The record shape comes from the fields the core uses, and the seed is a parameter of `App.Init`.
- How a form's field map becomes a `User` record is not modelled. `App.Submit` takes a `Participant`, and `Form.HandleSubmit` returns the field map it would pass.
- App.AddUser: requires a non-empty roster. On an empty roster the source computes `Math.max()` as `-Infinity`, which gives a non-integer id.
- UserList.ColumnsByTab: an unrecognised token returns `None`. In the source the table's effect stores `undefined` as its column list (`src/components/UserList.tsx:59-61`), and the next render calls `.map` on it (`src/components/UserList.tsx:68`). That throws, and since nothing catches it, the whole application unmounts: tab bar, table and form. The crash is not modelled. So `App.EmittedRoleTabFreezesDisplay` describes the controller's state machine taken on its own: in the running program the later submission and sort it chains never happen.
- Matcher.MatchIsIdempotent: the derived fields are consistent only with the roster as matched; after `App.Sort` the stored name lists keep the pre-sort order until the next submission, as in the source (`App.SortLeavesNamesStale`).
- Lists.Split: only the part of `String.prototype.split(",")` used as the inverse of `join` is modelled. The matcher itself never splits.
