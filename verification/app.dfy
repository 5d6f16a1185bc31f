/** The roster controller (`App`): it owns the matched roster, the active
    tab and the displayed list, and reacts to a tab click, a form
    submission and a sort request. The display effect, which React runs
    after every change of the active tab or the roster, is the explicit
    `Refresh` step at the end of each transition. */
module App {
  import opened Lists
  import opened Users
  import opened Tabs
  import Matcher
  import Sorter

  /** The component's state: `activeTab`, `userList` (the matched roster)
      and `displayUserList`. */
  datatype AppState = AppState(activeTab: Tab, userList: seq<Participant>, display: seq<Participant>)

  /** What the display effect shows for `tab`; an unrecognised token
      leaves the previously displayed list `shown` in place. */
  function TabView(roster: seq<Participant>, tab: Tab, shown: seq<Participant>): (r: seq<Participant>)
    ensures tab == All ==> r == roster
    ensures tab == Students ==> forall p :: p in r <==> p in roster && p.role == Student
    ensures tab == Mentors ==> forall p :: p in r <==> p in roster && p.role == Mentor
    ensures Recognized(tab) ==> |r| <= |roster|
    ensures !Recognized(tab) ==> r == shown
  {
    FilterMembers(roster, HasRole(Student));
    FilterMembers(roster, HasRole(Mentor));
    if tab == All then roster
    else if tab == Students then Filter(roster, HasRole(Student))
    else if tab == Mentors then Filter(roster, HasRole(Mentor))
    else shown
  }

  /** The display effect: it brings the display up to date for a
      recognised tab, leaves it alone for any other, and touches nothing
      else. */
  function Refresh(s: AppState): (r: AppState)
    ensures r.activeTab == s.activeTab && r.userList == s.userList
    ensures Shown(r)
    ensures !Recognized(s.activeTab) ==> r == s
  {
    s.(display := TabView(s.userList, s.activeTab, s.display))
  }

  /** The displayed list is the view of the roster for a recognised tab. */
  ghost predicate Shown(s: AppState) {
    Recognized(s.activeTab) ==> s.display == TabView(s.userList, s.activeTab, s.display)
  }

  /** The controller invariant: a non-empty roster (so that the next id
      is defined), distinct ids, and an up-to-date display. */
  ghost predicate Valid(s: AppState) {
    |s.userList| > 0 && DistinctIds(s.userList) && Shown(s)
  }

  /** The first render: the seed list matched once, the "all" tab active,
      and the effect run over the initially empty display. */
  function Init(seed: seq<Participant>): (r: AppState)
    ensures r.activeTab == All && r.display == r.userList
    ensures r.userList == Matcher.GenerateUserList(seed)
    ensures |r.userList| == |seed|
    ensures forall i :: 0 <= i < |seed| ==> Base(r.userList[i]) == Base(seed[i])
    // the derived fields are consistent: matching again changes nothing
    ensures Matcher.GenerateUserList(r.userList) == r.userList
    ensures |seed| > 0 && DistinctIds(seed) ==> Valid(r)
  {
    Matcher.MatchIsIdempotent(seed);
    Refresh(AppState(All, Matcher.GenerateUserList(seed), []))
  }

  /** `handleTabClick`, followed by the effect. */
  function SelectTab(s: AppState, tab: Tab): (r: AppState)
    ensures r.activeTab == tab && r.userList == s.userList
    ensures Shown(r)
    ensures !Recognized(tab) ==> r.display == s.display
    ensures Valid(s) ==> Valid(r)
  {
    Refresh(s.(activeTab := tab))
  }

  /** `Math.max(...ids)` over a non-empty roster. */
  function MaxId(users: seq<Participant>): (r: int)
    requires |users| > 0
    ensures forall i :: 0 <= i < |users| ==> users[i].id <= r
    ensures exists i :: 0 <= i < |users| && users[i].id == r
  {
    if |users| == 1 then users[0].id
    else
      var m := MaxId(users[1..]);
      assert forall i :: 1 <= i < |users| ==> users[i] == users[1..][i - 1];
      if users[0].id >= m then users[0].id else m
  }

  /** `[...userList, { ...formData, id: newId }]` */
  function WithNextId(users: seq<Participant>, formData: Participant): seq<Participant>
    requires |users| > 0
  {
    users + [formData.(id := MaxId(users) + 1)]
  }

  /** The roster after `handleSubmit(formData)`: the record gets id
      `max + 1`, is appended, and the whole roster is matched again, as
      at the first render. */
  function AddUser(users: seq<Participant>, formData: Participant): (r: seq<Participant>)
    requires |users| > 0
    ensures r == Matcher.GenerateUserList(WithNextId(users, formData))
    ensures |r| == |users| + 1
    // the new record comes last and carries the id `max + 1`, above every old id
    ensures r[|users|].id == MaxId(users) + 1
    ensures forall i :: 0 <= i < |users| ==> r[i].id == users[i].id && r[i].id < r[|users|].id
    ensures Base(r[|users|]) == Base(formData.(id := r[|users|].id))
    // the old records keep every input field
    ensures forall i :: 0 <= i < |users| ==> Base(r[i]) == Base(users[i])
    // the derived fields are consistent with the new roster
    ensures Matcher.GenerateUserList(r) == r
    ensures DistinctIds(users) ==> DistinctIds(r)
  {
    var added := WithNextId(users, formData);
    NextIdIsFresh(users, formData);
    Matcher.MatchIsIdempotent(added);
    Matcher.GenerateUserList(added)
  }

  /** The appended record carries `max + 1`, above every existing id,
      and the appended roster keeps distinct ids. */
  lemma NextIdIsFresh(users: seq<Participant>, formData: Participant)
    requires |users| > 0
    ensures |WithNextId(users, formData)| == |users| + 1
    ensures forall i :: 0 <= i < |users| ==> WithNextId(users, formData)[i] == users[i]
    ensures WithNextId(users, formData)[|users|] == formData.(id := MaxId(users) + 1)
    ensures forall i :: 0 <= i < |users| ==> users[i].id < MaxId(users) + 1
    ensures DistinctIds(users) ==> DistinctIds(WithNextId(users, formData))
  {
    FreshIdKeepsDistinct(users, formData.(id := MaxId(users) + 1));
  }

  /** `handleSubmit(formData)` followed by the effect. */
  function Submit(s: AppState, formData: Participant): (r: AppState)
    requires |s.userList| > 0
    ensures r.userList == AddUser(s.userList, formData)
    ensures r.activeTab == s.activeTab && Shown(r)
    ensures !Recognized(s.activeTab) ==> r.display == s.display
    ensures Valid(s) ==> Valid(r)
  {
    Refresh(s.(userList := AddUser(s.userList, formData)))
  }

  /** Appending a record whose id exceeds every existing id keeps the
      ids distinct. */
  lemma FreshIdKeepsDistinct(users: seq<Participant>, p: Participant)
    requires forall i :: 0 <= i < |users| ==> users[i].id < p.id
    ensures DistinctIds(users) ==> DistinctIds(users + [p])
  {
    assert Ids(users + [p]) == Ids(users) + [p.id];
    assert p.id !in Ids(users);
  }

  /** `handleSortByKey(key, isAscending)`: a non-whitelisted key is
      ignored; otherwise the roster is replaced by its stable sort and the
      effect runs. */
  function Sort(s: AppState, key: Key, ascending: bool): (r: AppState)
    ensures key !in Sorter.SortKeys ==> r == s
    ensures key in Sorter.SortKeys ==>
      && r.activeTab == s.activeTab
      && r.userList == Sorter.SortByKey(s.userList, key, ascending)
      && multiset(r.userList) == multiset(s.userList)
      && Sorter.OrderedBy(r.userList, Sorter.AsSortKey(key).value, ascending)
      // records with equal values keep their relative order
      && (forall v :: Filter(r.userList, Sorter.ValueIs(Sorter.AsSortKey(key).value, v))
                   == Filter(s.userList, Sorter.ValueIs(Sorter.AsSortKey(key).value, v)))
      && Shown(r)
    ensures !Recognized(s.activeTab) ==> r.display == s.display
    ensures Valid(s) ==> Valid(r)
  {
    if key !in Sorter.SortKeys then s
    else
      var sorted := Sorter.SortByKey(s.userList, key, ascending);
      Sorter.SortKeepsIds(s.userList, key, ascending);
      assert |sorted| == |multiset(sorted)| == |multiset(s.userList)| == |s.userList|;
      Refresh(s.(userList := sorted))
  }

  /** The student and mentor views split the roster: together they hold
      every record exactly as often as the roster does. */
  lemma RoleViewsPartition(roster: seq<Participant>, shown: seq<Participant>)
    ensures multiset(TabView(roster, Students, shown)) + multiset(TabView(roster, Mentors, shown))
            == multiset(TabView(roster, All, shown))
  {
    FilterPartition(roster, HasRole(Student), HasRole(Mentor));
  }

  /** A role view keeps every record of its role as often as the roster
      holds it and no other record. */
  lemma RoleViewCounts(roster: seq<Participant>, shown: seq<Participant>)
    ensures forall p :: multiset(TabView(roster, Students, shown))[p] ==
              (if p.role == Student then multiset(roster)[p] else 0)
    ensures forall p :: multiset(TabView(roster, Mentors, shown))[p] ==
              (if p.role == Mentor then multiset(roster)[p] else 0)
  {
    FilterCount(roster, HasRole(Student));
    FilterCount(roster, HasRole(Mentor));
  }

  /** A role view keeps roster order: the view of a roster split at any
      point is the view of the front followed by the view of the back,
      and a single record is shown iff it has the role. */
  lemma RoleViewsKeepOrder(a: seq<Participant>, b: seq<Participant>, x: Participant, shown: seq<Participant>)
    ensures TabView(a + b, Students, shown) == TabView(a, Students, shown) + TabView(b, Students, shown)
    ensures TabView(a + b, Mentors, shown) == TabView(a, Mentors, shown) + TabView(b, Mentors, shown)
    ensures TabView([x], Students, shown) == if x.role == Student then [x] else []
    ensures TabView([x], Mentors, shown) == if x.role == Mentor then [x] else []
  {
    FilterAppend(a, b, HasRole(Student));
    FilterAppend(a, b, HasRole(Mentor));
    FilterSingleton(x, HasRole(Student));
    FilterSingleton(x, HasRole(Mentor));
  }

  /** The token mismatch as the controller's state sees it: after the tab
      bar emits "student" or "mentor", the display keeps whatever it showed
      before, and neither a submission nor a sort refreshes it. (The table
      has no columns for such a token, so the rendered page fails before
      either can happen.) */
  lemma EmittedRoleTabFreezesDisplay(s: AppState, tab: Tab, p: Participant, key: Key, ascending: bool)
    requires tab in Emitted && tab != All
    requires |s.userList| > 0
    ensures SelectTab(s, tab).display == s.display
    ensures Submit(SelectTab(s, tab), p).display == s.display
    ensures Sort(SelectTab(s, tab), key, ascending).display == s.display
  {
    EmittedRecognized(tab);
  }

  /** A sort does not re-match: the name lists stored by the matcher keep
      the roster order from before the sort, so the sorted roster is no
      longer what the matcher would produce for it. A mentor covering
      (10, 20) stores "A,B" for students A (15, five study minutes) and B
      (16, one study minute); sorting by study minutes puts B before A, and
      matching the sorted roster would store "B,A". */
  lemma SortLeavesNamesStale(m: Participant, a: Participant, b: Participant)
    requires m.role == Mentor && m.availableStartCode == Some(10) && m.availableEndCode == Some(20)
    requires m.studyMinutes == None
    requires a.role == Student && a.taskCode == Some(15) && a.studyMinutes == Some(5) && a.name == "A"
    requires b.role == Student && b.taskCode == Some(16) && b.studyMinutes == Some(1) && b.name == "B"
    ensures Matcher.GenerateUserList([m, a, b])[0].availableStudents == Some("A,B")
    ensures Sorter.SortByKey(Matcher.GenerateUserList([m, a, b]), StudyMinutes, true)[0].availableStudents == Some("A,B")
    ensures Matcher.GenerateUserList(Sorter.SortByKey(Matcher.GenerateUserList([m, a, b]), StudyMinutes, true))[0].availableStudents
            == Some("B,A")
  {
    var g := Matcher.GenerateUserList([m, a, b]);
    TrioMatched(m, a, b);
    SortedTrioRematched(g);
  }

  /** The matched roster: the mentor stores "A,B", and every field the
      sort and the matcher read is kept. */
  lemma TrioMatched(m: Participant, a: Participant, b: Participant)
    requires m.role == Mentor && m.availableStartCode == Some(10) && m.availableEndCode == Some(20)
    requires m.studyMinutes == None
    requires a.role == Student && a.taskCode == Some(15) && a.studyMinutes == Some(5) && a.name == "A"
    requires b.role == Student && b.taskCode == Some(16) && b.studyMinutes == Some(1) && b.name == "B"
    ensures var g := Matcher.GenerateUserList([m, a, b]);
      && |g| == 3
      && g[0].availableStudents == Some("A,B")
      && Base(g[0]) == Base(m) && Base(g[1]) == Base(a) && Base(g[2]) == Base(b)
  {
    TwoStudentsMatched(m, a, b);
    Matcher.DerivedFields([m, a, b], 0);
    assert Names(Matcher.StudentsFor([m, a, b], 10, 20)) == ["A", "B"];
    JoinTwo("A", "B");
    assert "A" + [Separator] + "B" == "A,B";
  }

  /** Sorting that roster puts B before A without touching the stored
      "A,B"; matching the sorted roster would store "B,A". */
  lemma SortedTrioRematched(g: seq<Participant>)
    requires |g| == 3 && g[0].availableStudents == Some("A,B")
    requires g[0].role == Mentor && g[0].availableStartCode == Some(10) && g[0].availableEndCode == Some(20)
    requires g[0].studyMinutes == None
    requires g[1].role == Student && g[1].taskCode == Some(15) && g[1].studyMinutes == Some(5) && g[1].name == "A"
    requires g[2].role == Student && g[2].taskCode == Some(16) && g[2].studyMinutes == Some(1) && g[2].name == "B"
    ensures Sorter.SortByKey(g, StudyMinutes, true)[0].availableStudents == Some("A,B")
    ensures Matcher.GenerateUserList(Sorter.SortByKey(g, StudyMinutes, true))[0].availableStudents == Some("B,A")
  {
    var sorted := [g[0], g[2], g[1]];
    SortedTrio(g);
    RematchedTrio(sorted);
  }

  lemma SortedTrio(g: seq<Participant>)
    requires |g| == 3
    requires g[0].studyMinutes == None && g[1].studyMinutes == Some(5) && g[2].studyMinutes == Some(1)
    ensures Sorter.SortByKey(g, StudyMinutes, true) == [g[0], g[2], g[1]]
  {
    assert g == [g[0], g[1], g[2]];
    SortThree(g[0], g[1], g[2]);
  }

  lemma RematchedTrio(r: seq<Participant>)
    requires |r| == 3
    requires r[0].role == Mentor && r[0].availableStartCode == Some(10) && r[0].availableEndCode == Some(20)
    requires r[1].role == Student && r[1].taskCode == Some(16) && r[1].name == "B"
    requires r[2].role == Student && r[2].taskCode == Some(15) && r[2].name == "A"
    ensures Matcher.GenerateUserList(r)[0].availableStudents == Some("B,A")
  {
    assert r == [r[0], r[1], r[2]];
    TwoStudentsMatched(r[0], r[1], r[2]);
    Matcher.DerivedFields(r, 0);
    assert Names(Matcher.StudentsFor(r, 10, 20)) == ["B", "A"];
    JoinTwo("B", "A");
    assert "B" + [Separator] + "A" == "B,A";
  }

  /** A mentor covering (10, 20) is matched with both students, in roster
      order. */
  lemma TwoStudentsMatched(m: Participant, a: Participant, b: Participant)
    requires m.role == Mentor && m.availableStartCode == Some(10) && m.availableEndCode == Some(20)
    requires a.role == Student && a.taskCode.Some? && 10 < a.taskCode.value < 20
    requires b.role == Student && b.taskCode.Some? && 10 < b.taskCode.value < 20
    ensures Names(Matcher.StudentsFor([m, a, b], 10, 20)) == [a.name, b.name]
  {
    var q := Matcher.StudentFor(10, 20);
    FilterCons(m, [a, b], q);
    FilterCons(a, [b], q);
    FilterSingleton(b, q);
    assert Matcher.StudentsFor([m, a, b], 10, 20) == [a, b];
  }

  lemma JoinTwo(x: string, y: string)
    ensures Join([x, y]) == x + [Separator] + y
  {
    assert [x, y][1..] == [y];
  }

  /** Sorting three records by study minutes (0, 5, 1) ascending. */
  lemma SortThree(x: Participant, y: Participant, z: Participant)
    requires x.studyMinutes == None && y.studyMinutes == Some(5) && z.studyMinutes == Some(1)
    ensures Sorter.Sort([x, y, z], Sorter.StudyMinutesKey, true) == [x, z, y]
  {
    var k := Sorter.StudyMinutesKey;
    assert [x, y, z][1..] == [y, z];
    assert [y, z][1..] == [z];
    assert [z][1..] == [];
    assert Sorter.Sort([z], k, true) == [z];
    assert Sorter.Insert(y, [], k, true) == [y];
    assert Sorter.Insert(y, [z], k, true) == [z, y];
    assert Sorter.Sort([y, z], k, true) == [z, y];
    assert Sorter.Insert(x, [z, y], k, true) == [x, z, y];
  }

  /** A record with the given id, role and name and every optional
      field absent. */
  function Blank(id: int, role: Role, name: string): Participant {
    Participant(id, role, name, "", 0, "", "", [], "",
                None, None, [], None, None, [], None, None, None, None)
  }

  const ExampleMentor: Participant :=
    Blank(1, Mentor, "Mentor1").(availableStartCode := Some(10), availableEndCode := Some(20))
  const ExampleStudent: Participant := Blank(2, Student, "Student1").(taskCode := Some(15))
  const LateStudent: Participant := Blank(0, Student, "Student2").(taskCode := Some(25))

  /** A mentor covering (10, 20) and a student with task code 15 match
      each other. */
  lemma MatchExample()
    ensures Init([ExampleMentor, ExampleStudent]).userList[1].availableMentors == Some("Mentor1")
    ensures Init([ExampleMentor, ExampleStudent]).userList[0].availableStudents == Some("Student1")
  {
    var roster := [ExampleMentor, ExampleStudent];
    FilterAppend([ExampleMentor], [ExampleStudent], Matcher.MentorFor(15));
    FilterSingleton(ExampleMentor, Matcher.MentorFor(15));
    FilterSingleton(ExampleStudent, Matcher.MentorFor(15));
    assert roster == [ExampleMentor] + [ExampleStudent];
    assert Matcher.MentorsFor(roster, 15) == [ExampleMentor];
    FilterAppend([ExampleMentor], [ExampleStudent], Matcher.StudentFor(10, 20));
    FilterSingleton(ExampleMentor, Matcher.StudentFor(10, 20));
    FilterSingleton(ExampleStudent, Matcher.StudentFor(10, 20));
    assert Matcher.StudentsFor(roster, 10, 20) == [ExampleStudent];
  }

  /** Adding a student with task code 25 to the matched example roster
      gives it the id 3 and an empty mentor list, and the mentor's list
      is re-derived unchanged. */
  lemma AddExample()
    ensures AddUser(Init([ExampleMentor, ExampleStudent]).userList, LateStudent)[2].id == 3
    ensures AddUser(Init([ExampleMentor, ExampleStudent]).userList, LateStudent)[2].availableMentors == Some("")
    ensures AddUser(Init([ExampleMentor, ExampleStudent]).userList, LateStudent)[0].availableStudents == Some("Student1")
  {
    var m := Init([ExampleMentor, ExampleStudent]).userList;
    assert Base(m[0]) == Base(ExampleMentor) && Base(m[1]) == Base(ExampleStudent);
    AddToExample(m);
  }

  lemma AddToExample(m: seq<Participant>)
    requires |m| == 2
    requires m[0].id == 1 && m[0].role == Mentor
    requires m[0].availableStartCode == Some(10) && m[0].availableEndCode == Some(20)
    requires m[1].id == 2 && m[1].role == Student && m[1].taskCode == Some(15) && m[1].name == "Student1"
    ensures AddUser(m, LateStudent)[2].id == 3
    ensures AddUser(m, LateStudent)[2].availableMentors == Some("")
    ensures AddUser(m, LateStudent)[0].availableStudents == Some("Student1")
  {
    assert MaxId(m) == 2;
    var late := LateStudent.(id := 3);
    assert WithNextId(m, LateStudent) == [m[0], m[1], late];
    ThreeRecordExample(m[0], m[1], late);
  }

  /** The late student finds no mentor. */
  lemma LateStudentUnmatched(a: Participant, b: Participant, c: Participant)
    requires a.role == Mentor && a.availableStartCode == Some(10) && a.availableEndCode == Some(20)
    requires b.role == Student
    requires c.role == Student && c.taskCode == Some(25)
    ensures Matcher.MentorsFor([a, b, c], 25) == []
  {
    var p := Matcher.MentorFor(25);
    assert [a, b, c] == [a] + [b] + [c];
    FilterAppend([a] + [b], [c], p);
    FilterAppend([a], [b], p);
    FilterSingleton(a, p);
    FilterSingleton(b, p);
    FilterSingleton(c, p);
  }

  /** The mentor still finds exactly the first student. */
  lemma MentorKeepsStudent(a: Participant, b: Participant, c: Participant)
    requires a.role == Mentor
    requires b.role == Student && b.taskCode == Some(15)
    requires c.role == Student && c.taskCode == Some(25)
    ensures Matcher.StudentsFor([a, b, c], 10, 20) == [b]
  {
    var q := Matcher.StudentFor(10, 20);
    assert [a, b, c] == [a] + [b] + [c];
    FilterAppend([a] + [b], [c], q);
    FilterAppend([a], [b], q);
    FilterSingleton(a, q);
    FilterSingleton(b, q);
    FilterSingleton(c, q);
  }

  /** The matching step of `AddExample`, on the three records. */
  lemma ThreeRecordExample(a: Participant, b: Participant, c: Participant)
    requires a.role == Mentor && a.availableStartCode == Some(10) && a.availableEndCode == Some(20)
    requires b.role == Student && b.taskCode == Some(15) && b.name == "Student1"
    requires c.role == Student && c.taskCode == Some(25)
    ensures Matcher.GenerateUserList([a, b, c])[2].availableMentors == Some("")
    ensures Matcher.GenerateUserList([a, b, c])[0].availableStudents == Some("Student1")
  {
    LateStudentUnmatched(a, b, c);
    MentorKeepsStudent(a, b, c);
    assert Names([b]) == ["Student1"];
    Matcher.DerivedFields([a, b, c], 0);
    Matcher.DerivedFields([a, b, c], 2);
  }
}
