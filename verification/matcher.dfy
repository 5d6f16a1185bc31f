/** The matcher (`generateUserList`): every matchable student gets the
    comma-joined names of the mentors whose open range strictly contains
    its task code, and every matchable mentor gets the names of the
    students whose task code lies strictly inside its range. */
module Matcher {
  import opened Lists
  import opened Users

  /** `isInRange`: the open interval test. */
  predicate InRange(value: int, start: int, end: int) {
    value > start && value < end
  }

  /** The student-side selector: a mentor with both bounds whose range
      strictly contains `taskCode`. */
  function MentorFor(taskCode: int): Participant -> bool {
    (m: Participant) => m.role == Mentor
         && m.availableStartCode.Some? && m.availableEndCode.Some?
         && InRange(taskCode, m.availableStartCode.value, m.availableEndCode.value)
  }

  /** The mentor-side selector: a student with a task code strictly
      inside `(start, end)`. */
  function StudentFor(start: int, end: int): Participant -> bool {
    (s: Participant) => s.role == Student && s.taskCode.Some? && InRange(s.taskCode.value, start, end)
  }

  /** The mentors of `roster`, in roster order, that a student with
      `taskCode` is matched with. */
  function MentorsFor(roster: seq<Participant>, taskCode: int): (r: seq<Participant>)
    ensures forall m :: m in r <==>
      m in roster && MatchableMentor(m)
      && m.availableStartCode.value < taskCode < m.availableEndCode.value
  {
    FilterMembers(roster, MentorFor(taskCode));
    Filter(roster, MentorFor(taskCode))
  }

  /** The students of `roster`, in roster order, that a mentor with
      range `(start, end)` is matched with. */
  function StudentsFor(roster: seq<Participant>, start: int, end: int): (r: seq<Participant>)
    ensures forall s :: s in r <==>
      s in roster && MatchableStudent(s) && start < s.taskCode.value < end
  {
    FilterMembers(roster, StudentFor(start, end));
    Filter(roster, StudentFor(start, end))
  }

  /** One record of the result of `generateUserList(roster)`. */
  function Derive(roster: seq<Participant>, user: Participant): Participant {
    if MatchableStudent(user) then
      user.(availableMentors := Some(Join(Names(MentorsFor(roster, user.taskCode.value)))))
    else if MatchableMentor(user) then
      user.(availableStudents := Some(Join(Names(StudentsFor(
        roster, user.availableStartCode.value, user.availableEndCode.value)))))
    else
      user
  }

  /** `users.map(user => Derive(roster, user))` */
  function DeriveAll(roster: seq<Participant>, users: seq<Participant>): (r: seq<Participant>)
    ensures |r| == |users|
    ensures forall i :: 0 <= i < |users| ==> r[i] == Derive(roster, users[i])
  {
    if |users| == 0 then [] else [Derive(roster, users[0])] + DeriveAll(roster, users[1..])
  }

  /** `generateUserList`: the whole roster re-matched against itself.
      Only the derived fields may change, and ids keep their positions;
      `DerivedFields` states what each record receives. */
  function GenerateUserList(roster: seq<Participant>): (r: seq<Participant>)
    ensures |r| == |roster|
    ensures forall i :: 0 <= i < |roster| ==> Base(r[i]) == Base(roster[i])
    ensures Ids(r) == Ids(roster)
  {
    DeriveAll(roster, roster)
  }

  /** What record `i` of the matched roster carries: a matchable student
      the joined names of its mentors, a matchable mentor the joined names
      of its students, and any other record exactly what it had. */
  lemma DerivedFields(roster: seq<Participant>, i: int)
    requires 0 <= i < |roster|
    ensures MatchableStudent(roster[i]) ==>
      && GenerateUserList(roster)[i].availableMentors
         == Some(Join(Names(MentorsFor(roster, roster[i].taskCode.value))))
      && GenerateUserList(roster)[i].availableStudents == roster[i].availableStudents
    ensures MatchableMentor(roster[i]) ==>
      && GenerateUserList(roster)[i].availableStudents
         == Some(Join(Names(StudentsFor(roster, roster[i].availableStartCode.value, roster[i].availableEndCode.value))))
      && GenerateUserList(roster)[i].availableMentors == roster[i].availableMentors
    ensures !MatchableStudent(roster[i]) && !MatchableMentor(roster[i]) ==>
      GenerateUserList(roster)[i] == roster[i]
  {
  }

  /** No match is dropped or merged: every qualifying record is listed as
      often as the roster holds it, so equal names are not de-duplicated. */
  lemma MatchCounts(roster: seq<Participant>, taskCode: int, start: int, end: int)
    ensures forall m :: multiset(MentorsFor(roster, taskCode))[m] ==
              (if MatchableMentor(m) && m.availableStartCode.value < taskCode < m.availableEndCode.value
               then multiset(roster)[m] else 0)
    ensures forall s :: multiset(StudentsFor(roster, start, end))[s] ==
              (if MatchableStudent(s) && start < s.taskCode.value < end then multiset(roster)[s] else 0)
  {
    FilterCount(roster, MentorFor(taskCode));
    FilterCount(roster, StudentFor(start, end));
  }

  /** The matches follow roster order: the matches in a roster split at
      any point are the matches of the front followed by those of the
      back, and a single record is listed iff it qualifies. */
  lemma MatchesKeepRosterOrder(a: seq<Participant>, b: seq<Participant>, x: Participant, taskCode: int, start: int, end: int)
    ensures MentorsFor(a + b, taskCode) == MentorsFor(a, taskCode) + MentorsFor(b, taskCode)
    ensures StudentsFor(a + b, start, end) == StudentsFor(a, start, end) + StudentsFor(b, start, end)
    ensures MentorsFor([x], taskCode) ==
      if MatchableMentor(x) && x.availableStartCode.value < taskCode < x.availableEndCode.value then [x] else []
    ensures StudentsFor([x], start, end) ==
      if MatchableStudent(x) && start < x.taskCode.value < end then [x] else []
  {
    FilterAppend(a, b, MentorFor(taskCode));
    FilterAppend(a, b, StudentFor(start, end));
    FilterSingleton(x, MentorFor(taskCode));
    FilterSingleton(x, StudentFor(start, end));
  }

  /** A derived field can be read back: when the matched names contain no
      comma and there is at least one match, splitting the stored string
      at "," gives the matched names in roster order. */
  lemma DerivedNamesRecoverable(roster: seq<Participant>, i: int)
    requires 0 <= i < |roster|
    requires forall p :: p in roster ==> Separator !in p.name
    ensures MatchableStudent(roster[i]) && |MentorsFor(roster, roster[i].taskCode.value)| > 0 ==>
      Split(GenerateUserList(roster)[i].availableMentors.value)
        == Names(MentorsFor(roster, roster[i].taskCode.value))
    ensures (&& MatchableMentor(roster[i])
             && |StudentsFor(roster, roster[i].availableStartCode.value, roster[i].availableEndCode.value)| > 0) ==>
      Split(GenerateUserList(roster)[i].availableStudents.value)
        == Names(StudentsFor(roster, roster[i].availableStartCode.value, roster[i].availableEndCode.value))
  {
    DerivedFields(roster, i);
    var u := roster[i];
    if MatchableStudent(u) {
      var ms := MentorsFor(roster, u.taskCode.value);
      if |ms| > 0 {
        NamesCommaFree(roster, ms);
        SplitJoin(Names(ms));
      }
    } else if MatchableMentor(u) {
      var ss := StudentsFor(roster, u.availableStartCode.value, u.availableEndCode.value);
      if |ss| > 0 {
        NamesCommaFree(roster, ss);
        SplitJoin(Names(ss));
      }
    }
  }

  lemma NamesCommaFree(roster: seq<Participant>, sub: seq<Participant>)
    requires forall p :: p in roster ==> Separator !in p.name
    requires forall p :: p in sub ==> p in roster
    ensures forall n :: n in Names(sub) ==> Separator !in n
  {
  }

  /** The open interval is strict on both ends: a matchable student and
      a matchable mentor are paired iff the task code lies strictly
      between the bounds, so a task code equal to either bound never
      matches. */
  lemma RangeIsOpen(roster: seq<Participant>, student: Participant, mentor: Participant)
    requires student in roster && MatchableStudent(student)
    requires mentor in roster && MatchableMentor(mentor)
    ensures mentor in MentorsFor(roster, student.taskCode.value) <==>
      mentor.availableStartCode.value < student.taskCode.value < mentor.availableEndCode.value
    ensures student.taskCode.value == mentor.availableStartCode.value ==>
      mentor !in MentorsFor(roster, student.taskCode.value)
    ensures student.taskCode.value == mentor.availableEndCode.value ==>
      mentor !in MentorsFor(roster, student.taskCode.value)
  {
  }

  /** Symmetry: a mentor is among a student's matches iff the student is
      among that mentor's matches, though the two lists are derived
      separately. */
  lemma MatchIsSymmetric(roster: seq<Participant>, student: Participant, mentor: Participant)
    requires student in roster && MatchableStudent(student)
    requires mentor in roster && MatchableMentor(mentor)
    ensures mentor in MentorsFor(roster, student.taskCode.value) <==>
      student in StudentsFor(roster, mentor.availableStartCode.value, mentor.availableEndCode.value)
  {
  }

  /** Deriving touches none of the fields a selector reads, so selecting
      from a re-derived list yields the same names as selecting from the
      original. */
  lemma {:induction false} NamesSurviveDerive(
    roster: seq<Participant>, users: seq<Participant>, p: Participant -> bool)
    requires forall u :: p(Derive(roster, u)) == p(u)
    ensures Names(Filter(DeriveAll(roster, users), p)) == Names(Filter(users, p))
  {
    if |users| > 0 {
      var u0, rest := users[0], users[1..];
      var d := DeriveAll(roster, users);
      var d0, drest := d[0], d[1..];
      assert drest == DeriveAll(roster, rest);
      NamesSurviveDerive(roster, rest, p);
      var f1, f2 := Filter(drest, p), Filter(rest, p);
      assert d0 == Derive(roster, u0);
      assert d0.name == u0.name;
      assert p(d0) == p(u0);
      if p(u0) {
        assert Filter(d, p) == [d0] + f1;
        assert Filter(users, p) == [u0] + f2;
        NamesCons(d0, f1);
        NamesCons(u0, f2);
      } else {
        assert Filter(d, p) == f1;
        assert Filter(users, p) == f2;
      }
    }
  }

  /** Matching the matcher's own output changes nothing: the derived
      fields depend only on roles, names, task codes and bounds, which the
      matcher leaves alone. (A roster that was reordered after matching is
      not such an output: its stored name lists keep the old order.) */
  lemma {:induction false} MatchIsIdempotent(roster: seq<Participant>)
    ensures GenerateUserList(GenerateUserList(roster)) == GenerateUserList(roster)
  {
    var m := GenerateUserList(roster);
    forall i | 0 <= i < |m|
      ensures Derive(m, m[i]) == m[i]
    {
      RederiveRecord(roster, i);
    }
    assert DeriveAll(m, m) == m;
  }

  /** One record of a matched roster is a fixed point of re-deriving. */
  lemma RederiveRecord(roster: seq<Participant>, i: int)
    requires 0 <= i < |roster|
    ensures Derive(GenerateUserList(roster), GenerateUserList(roster)[i]) == GenerateUserList(roster)[i]
  {
    var m := GenerateUserList(roster);
    var u := roster[i];
    if MatchableStudent(u) {
      var t := u.taskCode.value;
      SelectorsIgnoreDerived(roster, t, 0, 0);
      NamesSurviveDerive(roster, roster, MentorFor(t));
    } else if MatchableMentor(u) {
      var lo, hi := u.availableStartCode.value, u.availableEndCode.value;
      SelectorsIgnoreDerived(roster, 0, lo, hi);
      NamesSurviveDerive(roster, roster, StudentFor(lo, hi));
    }
  }

  /** Neither selector reads a derived field. */
  lemma SelectorsIgnoreDerived(roster: seq<Participant>, taskCode: int, start: int, end: int)
    ensures forall u :: MentorFor(taskCode)(Derive(roster, u)) == MentorFor(taskCode)(u)
    ensures forall u :: StudentFor(start, end)(Derive(roster, u)) == StudentFor(start, end)(u)
  {
  }
}
