/** The course panel: no validation, no notification, and a colour tag drawn
    from a five-entry palette. The random draw is replaced by an index the
    caller supplies. */
module CourseRegistry {
  import Registry

  datatype Course = Course(id: int, code: string, name: string, instructor: string, color: string)

  /** The form's fields: a course without its id and colour. */
  datatype CourseDraft = CourseDraft(code: string, name: string, instructor: string)

  type CoursePanel = Registry.Panel<CourseDraft, Course>

  const Palette: seq<string> := ["bg-blue-500", "bg-green-500", "bg-yellow-500", "bg-red-500", "bg-purple-500"]

  const BlankDraft: CourseDraft := CourseDraft("", "", "")

  const Seed: seq<Course> := [
    Course(1, "CS101", "Introduction to Programming", "Dr. Smith", "bg-blue-500"),
    Course(2, "BIO201", "Cell Biology", "Dr. Johnson", "bg-green-500")
  ]

  const Initial: CoursePanel := Registry.Panel(Seed, BlankDraft)

  function IdOf(c: Course): int {
    c.id
  }

  function AcceptsDraft(d: CourseDraft): bool {
    true
  }

  /** The kind of a course add whose colour draw came out as `color`. */
  function KindWith(color: string): Registry.Kind<CourseDraft, Course> {
    Registry.Kind(
      IdOf,
      AcceptsDraft,
      (d: CourseDraft, id: int) => Course(id, d.code, d.name, d.instructor, color),
      BlankDraft,
      Registry.Silent,
      Registry.Silent)
  }

  lemma KindAssignsIds(color: string)
    ensures Registry.AssignsIds(KindWith(color))
  {
  }

  /** Always appends the draft as a course numbered one past the old length,
      coloured with palette entry `pick`; clears the form and stays silent. */
  function AddCourse(p: CoursePanel, pick: nat): (a: Registry.Added<CourseDraft, Course>)
    requires pick < |Palette|
    ensures |a.panel.records| == |p.records| + 1
    ensures a.panel.records[..|p.records|] == p.records
    ensures a.panel.records[|p.records|]
            == Course(|p.records| + 1, p.draft.code, p.draft.name, p.draft.instructor, Palette[pick])
    ensures a.panel.records[|p.records|].color in Palette
    ensures a.panel.draft == BlankDraft
    ensures a.toast == Registry.Silent
  {
    Registry.Add(KindWith(Palette[pick]), p)
  }

  /** Keeps exactly the courses whose id differs from `id`, in order. */
  function DeleteCourse(records: seq<Course>, id: int): (r: seq<Course>)
    ensures Registry.KeepsExactly(records, r, IdOf, id)
  {
    Registry.DeleteKeepsExactly(records, IdOf, id);
    Registry.Delete(records, IdOf, id)
  }

  /** Two adds to the seed give four courses; the new ones are numbered 3
      and 4 and are coloured from the palette. */
  lemma AddTwice(d1: CourseDraft, pick1: nat, d2: CourseDraft, pick2: nat)
    requires pick1 < |Palette| && pick2 < |Palette|
    ensures var a1 := AddCourse(Initial.(draft := d1), pick1);
      var a2 := AddCourse(a1.panel.(draft := d2), pick2);
      && |a2.panel.records| == 4
      && a2.panel.records[..2] == Seed
      && a2.panel.records[2].id == 3 && a2.panel.records[3].id == 4
      && a2.panel.records[2].color in Palette && a2.panel.records[3].color in Palette
  {
    var a1 := AddCourse(Initial.(draft := d1), pick1);
    var a2 := AddCourse(a1.panel.(draft := d2), pick2);
    assert a2.panel.records[..3] == a1.panel.records;
    assert a2.panel.records[2] == a1.panel.records[2];
    assert a2.panel.records[..2] == a1.panel.records[..2];
  }
}
