/** The participant record of the roster (`User` in the source) and the
    names of its fields (`keyof User`), shared by the matcher, the sorter,
    the form and the table. */
module Users {

  datatype Option<T> = None | Some(value: T) {
    /** `x ?? default` */
    function GetOr(default: T): T {
      match this
      case Some(v) => v
      case None => default
    }
  }

  /** The role, a closed sum type instead of the string literals
      "student" and "mentor". */
  datatype Role = Student | Mentor

  /** The string the form stores for a role. */
  function RoleName(role: Role): string {
    match role
    case Student => "student"
    case Mentor => "mentor"
  }

  /** The field names of a participant (`keyof User`). */
  datatype Key =
    | Id | Name | RoleKey | Email | Age | PostCode | Phone | Hobbies | Url
    | StudyMinutes | TaskCode | StudyLangs | Score
    | ExperienceDays | UseLangs | AvailableStartCode | AvailableEndCode
    | AvailableMentors | AvailableStudents

  /** One participant. Per-role fields are optional: a student normally
      carries `taskCode`, `studyMinutes` and `score`, a mentor the two
      range bounds and `experienceDays`. The last two fields are derived
      by the matcher and absent on input. */
  datatype Participant = Participant(
    id: int,
    role: Role,
    name: string,
    email: string,
    age: int,
    postCode: string,
    phone: string,
    hobbies: seq<string>,
    url: string,
    studyMinutes: Option<int>,
    taskCode: Option<int>,
    studyLangs: seq<string>,
    score: Option<int>,
    experienceDays: Option<int>,
    useLangs: seq<string>,
    availableStartCode: Option<int>,
    availableEndCode: Option<int>,
    availableMentors: Option<string>,
    availableStudents: Option<string>)

  /** The record with both derived fields cleared: two records agree on
      every input field iff their bases are equal. */
  function Base(p: Participant): Participant {
    p.(availableMentors := None, availableStudents := None)
  }

  /** A student takes part in matching iff it has a task code. */
  predicate MatchableStudent(p: Participant) {
    p.role == Student && p.taskCode.Some?
  }

  /** A mentor takes part in matching iff it has both range bounds. */
  predicate MatchableMentor(p: Participant) {
    p.role == Mentor && p.availableStartCode.Some? && p.availableEndCode.Some?
  }

  /** The selector `user => user.role === role`. */
  function HasRole(role: Role): Participant -> bool {
    (p: Participant) => p.role == role
  }

  /** `users.map(u => u.name)` */
  function Names(users: seq<Participant>): (r: seq<string>)
    ensures |r| == |users|
    ensures forall i :: 0 <= i < |users| ==> r[i] == users[i].name
  {
    seq(|users|, i requires 0 <= i < |users| => users[i].name)
  }

  lemma NamesCons(x: Participant, xs: seq<Participant>)
    ensures Names([x] + xs) == [x.name] + Names(xs)
  {
  }

  /** `users.map(u => u.id)` */
  function Ids(users: seq<Participant>): (r: seq<int>)
    ensures |r| == |users|
    ensures forall i :: 0 <= i < |users| ==> r[i] == users[i].id
  {
    seq(|users|, i requires 0 <= i < |users| => users[i].id)
  }

  lemma IdsCons(x: Participant, xs: seq<Participant>)
    ensures Ids([x] + xs) == [x.id] + Ids(xs)
  {
  }

  /** No id occurs twice in the roster. */
  ghost predicate DistinctIds(users: seq<Participant>) {
    forall id :: multiset(Ids(users))[id] <= 1
  }
}
