/** The entry form (`Form`): its state (the selected role and the field
    values), the two change handlers, and the submit check that refuses a
    form while any field its role requires is empty. */
module Form {
  import opened Lists
  import opened Users
  import UserList

  /** A field value as the form holds it. */
  datatype Value = Str(s: string) | Num(n: int) | List(items: seq<string>) | Null | Undefined

  /** `formData`, read by key; a key it does not hold reads as
      `undefined`. */
  type FormData = Key -> Value

  /** `{ ...data, [key]: value }` */
  function Update(data: FormData, key: Key, value: Value): FormData {
    (k: Key) => if k == key then value else data(k)
  }

  /** `initialFormData`: empty strings and lists, zero numbers, the
      student role, and no derived fields. */
  function InitialValue(key: Key): Value {
    match key
    case Id => Num(0)
    case Name => Str("")
    case RoleKey => Str("student")
    case Email => Str("")
    case Age => Num(0)
    case PostCode => Str("")
    case Phone => Str("")
    case Hobbies => List([])
    case Url => Str("")
    case StudyMinutes => Num(0)
    case TaskCode => Num(0)
    case StudyLangs => List([])
    case Score => Num(0)
    case ExperienceDays => Num(0)
    case UseLangs => List([])
    case AvailableStartCode => Num(0)
    case AvailableEndCode => Num(0)
    case AvailableMentors => Undefined
    case AvailableStudents => Undefined
  }

  const InitialFormData: FormData := InitialValue

  /** The two pieces of component state: `role` and `formData`. */
  datatype FormState = FormState(role: Role, data: FormData)

  const InitialState: FormState := FormState(Student, InitialFormData)

  /** The `role` state names the role that `formData` holds. */
  ghost predicate RoleAgrees(s: FormState) {
    s.data(RoleKey) == Str(RoleName(s.role))
  }

  /** The emptiness test: "", null, undefined or an empty array. A
      numeric 0 counts as filled. */
  predicate IsEmpty(v: Value) {
    v == Str("") || v == Null || v == Undefined || (v.List? && |v.items| == 0)
  }

  /** The selector `key => formData[key]` is empty. */
  function EmptyIn(data: FormData): Key -> bool {
    (k: Key) => IsEmpty(data(k))
  }

  const CommonRequired: seq<Key> := [Name, RoleKey, Email, Age, PostCode, Phone, Url]
  const StudentRequired: seq<Key> := [StudyMinutes, TaskCode, StudyLangs, Score]
  const MentorRequired: seq<Key> := [ExperienceDays, UseLangs, AvailableStartCode, AvailableEndCode]

  /** `requiredFields` after the role-dependent push. */
  function RequiredFields(role: Role): (r: seq<Key>)
    ensures CommonRequired <= r
    ensures Hobbies !in r && Id !in r
    ensures AvailableMentors !in r && AvailableStudents !in r
  {
    match role
    case Student => CommonRequired + StudentRequired
    case Mentor => CommonRequired + MentorRequired
  }

  /** What a click on the submit button does. */
  datatype Outcome = Submitted(data: FormData) | Rejected(emptyFields: seq<Key>)

  /** `handleSubmit`: the form data goes to `onSubmit` iff no required
      field is empty; otherwise the empty required fields are reported in
      the order of the required list. */
  function HandleSubmit(s: FormState): (r: Outcome)
    ensures r.Submitted? <==> forall k :: k in RequiredFields(s.role) ==> !IsEmpty(s.data(k))
    ensures r.Submitted? ==> r.data == s.data
    ensures r.Rejected? ==>
      && |r.emptyFields| > 0
      && (forall k :: k in r.emptyFields <==> k in RequiredFields(s.role) && IsEmpty(s.data(k)))
      && r.emptyFields == Filter(RequiredFields(s.role), EmptyIn(s.data))
  {
    var required := RequiredFields(s.role);
    var emptyFields := Filter(required, EmptyIn(s.data));
    FilterMembers(required, EmptyIn(s.data));
    if |emptyFields| > 0 then
      assert emptyFields[0] in emptyFields;
      Rejected(emptyFields)
    else
      assert forall k :: k !in emptyFields;
      Submitted(s.data)
  }

  /** `handleChange(key)` receiving `value`. */
  function HandleChange(s: FormState, key: Key, value: Value): (r: FormState)
    ensures r.role == s.role
    ensures r.data(key) == value
    ensures forall k :: k != key ==> r.data(k) == s.data(k)
  {
    s.(data := Update(s.data, key, value))
  }

  /** `handleRolechange`: the role state follows the selection and the
      form is reset to its initial values under the new role. */
  function HandleRoleChange(s: FormState, newRole: Role): (r: FormState)
    ensures r.role == newRole
    ensures RoleAgrees(r)
    ensures forall k :: k != RoleKey ==> r.data(k) == InitialFormData(k)
  {
    FormState(newRole, Update(InitialFormData, RoleKey, Str(RoleName(newRole))))
  }

  /** The role state and the form's role field agree at the start, and
      every handler keeps them in agreement (the role field has its own
      handler, so `handleChange` is never bound to it). */
  lemma RoleAgreementKept(s: FormState, key: Key, value: Value, newRole: Role)
    ensures RoleAgrees(InitialState)
    ensures RoleAgrees(s) && key != RoleKey ==> RoleAgrees(HandleChange(s, key, value))
    ensures RoleAgrees(HandleRoleChange(s, newRole))
  {
  }

  /** A freshly reset form, like the initial one, cannot be submitted:
      at least the name is empty. */
  lemma ResetFormIsRejected(s: FormState, newRole: Role)
    ensures HandleSubmit(InitialState).Rejected?
    ensures HandleSubmit(HandleRoleChange(s, newRole)).Rejected?
    ensures Name in HandleSubmit(HandleRoleChange(s, newRole)).emptyFields
  {
    assert Name in RequiredFields(Student);
    assert Name in RequiredFields(newRole);
  }

  /** The initial student form reports its five empty text fields and the
      empty list of study languages; the zeros count as filled. */
  lemma InitialFormReport()
    ensures HandleSubmit(InitialState) == Rejected([Name, Email, PostCode, Phone, Url, StudyLangs])
  {
    var required := RequiredFields(Student);
    assert required == [Name, RoleKey, Email, Age, PostCode, Phone, Url, StudyMinutes, TaskCode, StudyLangs, Score];
    InitialEmptyFields(required, EmptyIn(InitialFormData));
  }

  lemma InitialEmptyFields(required: seq<Key>, e: Key -> bool)
    requires required == [Name, RoleKey, Email, Age, PostCode, Phone, Url, StudyMinutes, TaskCode, StudyLangs, Score]
    requires e == EmptyIn(InitialFormData)
    ensures Filter(required, e) == [Name, Email, PostCode, Phone, Url, StudyLangs]
  {
    var common := [Name, RoleKey, Email, Age, PostCode, Phone, Url];
    var student := [StudyMinutes, TaskCode, StudyLangs, Score];
    assert required == common + student;
    FilterAppend(common, student, e);
    InitialCommonEmpty(e);
    InitialStudentEmpty(e);
  }

  lemma InitialCommonEmpty(e: Key -> bool)
    requires e == EmptyIn(InitialFormData)
    ensures Filter([Name, RoleKey, Email, Age, PostCode, Phone, Url], e) == [Name, Email, PostCode, Phone, Url]
  {
    var front, back := [Name, RoleKey, Email], [Age, PostCode, Phone, Url];
    InitialFrontEmpty(e);
    InitialBackEmpty(e);
    FilterAppend(front, back, e);
    assert [Name, RoleKey, Email, Age, PostCode, Phone, Url] == front + back by {}
    assert [Name, Email] + [PostCode, Phone, Url] == [Name, Email, PostCode, Phone, Url] by {}
  }

  lemma InitialFrontEmpty(e: Key -> bool)
    requires e == EmptyIn(InitialFormData)
    ensures Filter([Name, RoleKey, Email], e) == [Name, Email]
  {
    assert e(Name) && !e(RoleKey) && e(Email);
    FilterCons(Name, [RoleKey, Email], e);
    FilterCons(RoleKey, [Email], e);
    FilterSingleton(Email, e);
  }

  lemma InitialBackEmpty(e: Key -> bool)
    requires e == EmptyIn(InitialFormData)
    ensures Filter([Age, PostCode, Phone, Url], e) == [PostCode, Phone, Url]
  {
    assert !e(Age) && e(PostCode) && e(Phone) && e(Url);
    FilterCons(Age, [PostCode, Phone, Url], e);
    FilterCons(PostCode, [Phone, Url], e);
    FilterCons(Phone, [Url], e);
    FilterSingleton(Url, e);
  }

  lemma InitialStudentEmpty(e: Key -> bool)
    requires e == EmptyIn(InitialFormData)
    ensures Filter([StudyMinutes, TaskCode, StudyLangs, Score], e) == [StudyLangs]
  {
    assert !e(StudyMinutes) && !e(TaskCode) && e(StudyLangs) && !e(Score);
    FilterCons(StudyMinutes, [TaskCode, StudyLangs, Score], e);
    FilterCons(TaskCode, [StudyLangs, Score], e);
    FilterCons(StudyLangs, [Score], e);
    FilterSingleton(Score, e);
  }

  /** The required fields of a role are that role's input columns in the
      table, without `hobbies` and without the derived column. */
  lemma RequiredFieldsAreInputColumns(role: Role)
    ensures RequiredFields(role) ==
      UserList.CommonColumns[..6] + UserList.CommonColumns[7..]
      + (match role
         case Student => UserList.StudentColumns[..4]
         case Mentor => UserList.MentorColumns[..4])
  {
  }
}
