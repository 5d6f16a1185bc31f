/** The roster table (`UserList`): which columns each tab shows, and the
    three ascending/descending flags that header clicks toggle while
    asking the controller to sort. */
module UserList {
  import opened Users
  import opened Tabs
  import Sorter

  const CommonColumns: seq<Key> := [Name, RoleKey, Email, Age, PostCode, Phone, Hobbies, Url]
  const StudentColumns: seq<Key> := [StudyMinutes, TaskCode, StudyLangs, Score, AvailableMentors]
  const MentorColumns: seq<Key> := [ExperienceDays, UseLangs, AvailableStartCode, AvailableEndCode, AvailableStudents]

  /** `columnsByTab[activeTab]`; an unrecognised token has no entry. */
  function ColumnsByTab(tab: Tab): (r: Option<seq<Key>>)
    ensures r.Some? <==> Recognized(tab)
    ensures r.Some? ==> CommonColumns <= r.value
    // a role's column group is shown exactly on the tabs that show that role
    ensures r.Some? ==> forall k :: k in r.value <==>
      || k in CommonColumns
      || (k in StudentColumns && tab != Mentors)
      || (k in MentorColumns && tab != Students)
    // a derived column is shown exactly on the tabs that show its role
    ensures r.Some? ==> (AvailableMentors in r.value <==> tab == All || tab == Students)
    ensures r.Some? ==> (AvailableStudents in r.value <==> tab == All || tab == Mentors)
    // no column is shown twice
    ensures r.Some? ==> forall i, j :: 0 <= i < j < |r.value| ==> r.value[i] != r.value[j]
  {
    if tab == All then Some(CommonColumns + StudentColumns + MentorColumns)
    else if tab == Students then Some(CommonColumns + StudentColumns)
    else if tab == Mentors then Some(CommonColumns + MentorColumns)
    else None
  }

  /** The groups come in a fixed order: each role tab shows the common
      columns followed by its own group, and "all" shows the students
      tab's columns followed by the mentor group. */
  lemma ColumnGroupsInOrder()
    ensures ColumnsByTab(Students).value == CommonColumns + StudentColumns
    ensures ColumnsByTab(Mentors).value == CommonColumns + MentorColumns
    ensures ColumnsByTab(All).value == ColumnsByTab(Students).value + MentorColumns
  {
  }

  /** Each derived column belongs to its own role's group only, as that
      group's last column. */
  lemma DerivedColumnsPlacement()
    ensures StudentColumns[|StudentColumns| - 1] == AvailableMentors
    ensures MentorColumns[|MentorColumns| - 1] == AvailableStudents
    ensures AvailableMentors !in CommonColumns && AvailableMentors !in MentorColumns
    ensures AvailableStudents !in CommonColumns && AvailableStudents !in StudentColumns
  {
  }

  /** The tab bar's role tokens have no column list. */
  lemma EmittedRoleTabsHaveNoColumns(tab: Tab)
    requires tab in Emitted && tab != All
    ensures ColumnsByTab(tab).None?
  {
    EmittedRecognized(tab);
  }

  /** `isAscendingByStudyMinute`, `isAscendingByScore`,
      `isAscendingByExperienceDay` */
  datatype SortFlags = SortFlags(studyMinutes: bool, score: bool, experienceDays: bool)

  const InitialFlags: SortFlags := SortFlags(false, false, false)

  /** The flag that belongs to a whitelisted sort key. */
  function Flag(flags: SortFlags, key: Sorter.SortKey): bool {
    match key
    case StudyMinutesKey => flags.studyMinutes
    case ScoreKey => flags.score
    case ExperienceDaysKey => flags.experienceDays
  }

  /** A call of `handleSortByKey(key, isAscending)`. */
  datatype SortRequest = SortRequest(key: Key, ascending: bool)

  datatype Click = Click(flags: SortFlags, request: Option<SortRequest>)

  /** The header `onClick` for column `key` on tab `tab`: a sortable
      column on its role's tab requests the negation of its flag and
      then flips that flag; every other click does nothing. */
  function HeaderClick(flags: SortFlags, key: Key, tab: Tab): (r: Click)
    ensures r.request.Some? <==>
      (tab == Students && (key == StudyMinutes || key == Score))
      || (tab == Mentors && key == ExperienceDays)
    ensures r.request.None? ==> r.flags == flags
    ensures r.request.Some? ==>
      && key in Sorter.SortKeys
      && r.request.value.key == key
      && var k := Sorter.AsSortKey(key).value;
         && r.request.value.ascending == !Flag(flags, k)
         && Flag(r.flags, k) == r.request.value.ascending
         // the other two flags are untouched
         && forall other :: other != k ==> Flag(r.flags, other) == Flag(flags, other)
  {
    if key == StudyMinutes && tab == Students then
      Click(flags.(studyMinutes := !flags.studyMinutes), Some(SortRequest(key, !flags.studyMinutes)))
    else if key == Score && tab == Students then
      Click(flags.(score := !flags.score), Some(SortRequest(key, !flags.score)))
    else if key == ExperienceDays && tab == Mentors then
      Click(flags.(experienceDays := !flags.experienceDays), Some(SortRequest(key, !flags.experienceDays)))
    else
      Click(flags, None)
  }

  /** The first click on a sortable column asks for ascending order. */
  lemma FirstClickAscends(key: Key, tab: Tab)
    requires HeaderClick(InitialFlags, key, tab).request.Some?
    ensures HeaderClick(InitialFlags, key, tab).request.value.ascending
  {
  }

  /** Two clicks in a row on the same sortable column ask for opposite
      directions. */
  lemma ClicksAlternate(flags: SortFlags, key: Key, tab: Tab)
    requires HeaderClick(flags, key, tab).request.Some?
    ensures HeaderClick(HeaderClick(flags, key, tab).flags, key, tab).request.Some?
    ensures HeaderClick(HeaderClick(flags, key, tab).flags, key, tab).request.value.ascending
         == !HeaderClick(flags, key, tab).request.value.ascending
  {
  }

  /** No click on the "all" tab, nor on a token the tab bar emits, ever
      requests a sort. */
  lemma EmittedTabsNeverSort(flags: SortFlags, key: Key, tab: Tab)
    requires tab in Emitted
    ensures HeaderClick(flags, key, tab) == Click(flags, None)
  {
  }
}
