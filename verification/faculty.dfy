/** The faculty panel: no validation, no notification, and the same inline
    placeholder image for every member. */
module FacultyRegistry {
  import Registry

  datatype Faculty = Faculty(id: int, name: string, email: string, department: string, avatar: string)

  /** The form's fields: a faculty member without id and avatar. */
  datatype FacultyDraft = FacultyDraft(name: string, email: string, department: string)

  type FacultyPanel = Registry.Panel<FacultyDraft, Faculty>

  /** The inline SVG placeholder image; an opaque reference here. */
  const PlaceholderDataUrl: string :=
    "data:image/svg+xml,%3Csvg xmlns='http://www.w3.org/2000/svg' width='40' height='40' viewBox='0 0 40 40'%3E%3Crect width='40' height='40' fill='%23f0f0f0'/%3E%3Ctext x='50%25' y='50%25' font-size='20' text-anchor='middle' dy='.3em' fill='%23cccccc'%3E?%3C/text%3E%3C/svg%3E"

  const BlankDraft: FacultyDraft := FacultyDraft("", "", "")

  const Seed: seq<Faculty> := [
    Faculty(1, "Dr. Smith", "smith@example.com", "Computer Science", PlaceholderDataUrl),
    Faculty(2, "Dr. Johnson", "johnson@example.com", "Biology", PlaceholderDataUrl)
  ]

  const Initial: FacultyPanel := Registry.Panel(Seed, BlankDraft)

  function IdOf(f: Faculty): int {
    f.id
  }

  function AcceptsDraft(d: FacultyDraft): bool {
    true
  }

  function Build(d: FacultyDraft, id: int): Faculty {
    Faculty(id, d.name, d.email, d.department, PlaceholderDataUrl)
  }

  const Kind: Registry.Kind<FacultyDraft, Faculty> :=
    Registry.Kind(IdOf, AcceptsDraft, Build, BlankDraft, Registry.Silent, Registry.Silent)

  /** Always appends the draft as a member numbered one past the old length,
      with the placeholder image; the email is not checked. Clears the form
      and stays silent. */
  function AddFaculty(p: FacultyPanel): (a: Registry.Added<FacultyDraft, Faculty>)
    ensures |a.panel.records| == |p.records| + 1
    ensures a.panel.records[..|p.records|] == p.records
    ensures a.panel.records[|p.records|]
            == Faculty(|p.records| + 1, p.draft.name, p.draft.email, p.draft.department, PlaceholderDataUrl)
    ensures a.panel.draft == BlankDraft
    ensures a.toast == Registry.Silent
  {
    Registry.Add(Kind, p)
  }

  /** Keeps exactly the faculty members whose id differs from `id`, in order. */
  function DeleteFaculty(records: seq<Faculty>, id: int): (r: seq<Faculty>)
    ensures Registry.KeepsExactly(records, r, IdOf, id)
  {
    Registry.DeleteKeepsExactly(records, IdOf, id);
    Registry.Delete(records, IdOf, id)
  }

  /** Deleting member 1 from the seed leaves only the member seeded as 2. */
  lemma DeleteFirstSeed()
    ensures DeleteFaculty(Seed, 1) == [Seed[1]]
  {
    Registry.DeleteFirstOfTwo(Seed, IdOf);
  }
}
