/** The student panel: the only kind whose add validates its draft (the email
    must match the pattern of module Email) and the only one that announces a
    successful add. */
module StudentRegistry {
  import Email
  import Registry

  datatype Student = Student(id: int, name: string, email: string, major: string, avatar: string)

  /** The form's fields: a student without its id and avatar. */
  datatype StudentDraft = StudentDraft(name: string, email: string, major: string)

  type StudentPanel = Registry.Panel<StudentDraft, Student>

  /** The placeholder image reference every student is given. */
  const PlaceholderAvatar: string := "/placeholder.svg?height=40&width=40"

  const BlankDraft: StudentDraft := StudentDraft("", "", "")

  const InvalidEmail: Registry.Toast := Registry.ErrorToast("Please enter a valid email address")

  const StudentAdded: Registry.Toast := Registry.SuccessToast("Student added successfully!")

  const Seed: seq<Student> := [
    Student(1, "John Doe", "john@example.com", "Computer Science", PlaceholderAvatar),
    Student(2, "Jane Smith", "jane@example.com", "Biology", PlaceholderAvatar)
  ]

  /** The panel as it is first shown: the two seed students and an empty form. */
  const Initial: StudentPanel := Registry.Panel(Seed, BlankDraft)

  function IdOf(s: Student): int {
    s.id
  }

  function Build(d: StudentDraft, id: int): Student {
    Student(id, d.name, d.email, d.major, PlaceholderAvatar)
  }

  function AcceptsDraft(d: StudentDraft): bool {
    Email.ValidateEmail(d.email)
  }

  const Kind: Registry.Kind<StudentDraft, Student> :=
    Registry.Kind(IdOf, AcceptsDraft, Build, BlankDraft, InvalidEmail, StudentAdded)

  lemma KindAssignsIds()
    ensures Registry.AssignsIds(Kind)
  {
  }

  /** A draft whose email does not match the pattern is refused: the list and
      the draft stay as they are and one error notice is raised. Otherwise the
      draft becomes the last student, numbered one past the old length, the
      form is cleared and one success notice is raised. */
  function AddStudent(p: StudentPanel): (a: Registry.Added<StudentDraft, Student>)
    ensures !Email.MatchesPattern(p.draft.email) ==> a.panel == p && a.toast == InvalidEmail
    ensures Email.MatchesPattern(p.draft.email) ==>
      && |a.panel.records| == |p.records| + 1
      && a.panel.records[..|p.records|] == p.records
      && a.panel.records[|p.records|]
         == Student(|p.records| + 1, p.draft.name, p.draft.email, p.draft.major, PlaceholderAvatar)
      && a.panel.draft == BlankDraft
      && a.toast == StudentAdded
  {
    Email.ValidateEmailCorrect(p.draft.email);
    Registry.Add(Kind, p)
  }

  /** Keeps exactly the students whose id differs from `id`, in order. */
  function DeleteStudent(records: seq<Student>, id: int): (r: seq<Student>)
    ensures Registry.KeepsExactly(records, r, IdOf, id)
  {
    Registry.DeleteKeepsExactly(records, IdOf, id);
    Registry.Delete(records, IdOf, id)
  }

  /** From the seed, deleting student 1 and adding any accepted draft leaves
      two students that both carry id 2. */
  lemma StudentIdCollision(d: StudentDraft)
    requires Email.MatchesPattern(d.email)
    ensures var r := AddStudent(Registry.Panel(DeleteStudent(Seed, 1), d)).panel.records;
      && |r| == 2
      && r[0] == Seed[1]
      && r[1].id == 2 && r[0].id == 2
      && !Registry.UniqueIds(r, IdOf)
  {
    KindAssignsIds();
    Email.ValidateEmailCorrect(d.email);
    Registry.IdCollision(Kind, Registry.Panel(Seed, d));
  }

  /** Adding "Amy" with the email "amy@x.co" to the seed gives a third
      student, numbered 3, with the major typed in. */
  lemma AddAmy()
    ensures var a := AddStudent(Initial.(draft := StudentDraft("Amy", "amy@x.co", "Math")));
      && |a.panel.records| == 3
      && a.panel.records[2].id == 3
      && a.panel.records[2].major == "Math"
      && a.toast == StudentAdded
  {
    var l, d, t := "amy", "x", "co";
    assert Email.LocalPart(l) && Email.DomainPart(d) && Email.TopLevel(t);
    assert "amy@x.co" == l + "@" + d + "." + t;
    assert Email.MatchesPattern("amy@x.co");
    var p := Initial.(draft := StudentDraft("Amy", "amy@x.co", "Math"));
    assert |p.records| == 2;
  }

  /** An email without '@' is refused and the seed list is kept. */
  lemma RejectNotAnEmail()
    ensures var p := Initial.(draft := StudentDraft("", "not-an-email", ""));
      AddStudent(p) == Registry.Added(p, InvalidEmail)
  {
    Email.NoAtRejected("not-an-email");
  }
}
