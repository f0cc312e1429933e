/** The dashboard: the three collapse flags and the three panels. A panel is
    only mounted while its section is expanded; minimising a section discards
    the panel's records and draft, and expanding it again starts the panel
    afresh from its seed. */
module Dashboard {
  import Sections
  import StudentRegistry
  import CourseRegistry
  import FacultyRegistry

  datatype Mounted<P> = Unmounted | Mounted(panel: P)

  datatype Dashboard = Dashboard(
    minimized: Sections.Minimized,
    students: Mounted<StudentRegistry.StudentPanel>,
    courses: Mounted<CourseRegistry.CoursePanel>,
    faculty: Mounted<FacultyRegistry.FacultyPanel>)

  const Initial: Dashboard := Dashboard(
    Sections.AllExpanded,
    Mounted(StudentRegistry.Initial),
    Mounted(CourseRegistry.Initial),
    Mounted(FacultyRegistry.Initial))

  /** Whether section `s` currently has a mounted panel. */
  function HasPanel(d: Dashboard, s: Sections.Section): bool {
    match s
    case Students => d.students.Mounted?
    case Courses => d.courses.Mounted?
    case Faculty => d.faculty.Mounted?
  }

  /** Exactly the expanded sections have a panel. */
  ghost predicate Consistent(d: Dashboard) {
    forall s: Sections.Section :: HasPanel(d, s) <==> !Sections.IsMinimized(d.minimized, s)
  }

  /** Flips section `s`; minimising unmounts its panel, expanding mounts a
      fresh one. The other sections are untouched. */
  function ToggleMinimize(d: Dashboard, s: Sections.Section): (r: Dashboard)
    ensures Consistent(d) ==> Consistent(r)
    ensures r.minimized == Sections.Toggle(d.minimized, s)
    ensures s != Sections.Students ==> r.students == d.students
    ensures s != Sections.Courses ==> r.courses == d.courses
    ensures s != Sections.Faculty ==> r.faculty == d.faculty
    ensures s == Sections.Students && !r.minimized.students ==> r.students == Mounted(StudentRegistry.Initial)
    ensures s == Sections.Courses && !r.minimized.courses ==> r.courses == Mounted(CourseRegistry.Initial)
    ensures s == Sections.Faculty && !r.minimized.faculty ==> r.faculty == Mounted(FacultyRegistry.Initial)
  {
    var m := Sections.Toggle(d.minimized, s);
    match s
    case Students =>
      d.(minimized := m, students := if m.students then Unmounted else Mounted(StudentRegistry.Initial))
    case Courses =>
      d.(minimized := m, courses := if m.courses then Unmounted else Mounted(CourseRegistry.Initial))
    case Faculty =>
      d.(minimized := m, faculty := if m.faculty then Unmounted else Mounted(FacultyRegistry.Initial))
  }

  lemma InitialConsistent()
    ensures Consistent(Initial)
  {
  }

  /** Minimising and re-expanding a section restores the flags but resets
      its panel to the seed, whatever was added or deleted before. */
  lemma CollapseExpandResets(d: Dashboard, s: Sections.Section)
    requires !Sections.IsMinimized(d.minimized, s)
    ensures var r := ToggleMinimize(ToggleMinimize(d, s), s);
      && (s == Sections.Students ==> r == d.(students := Mounted(StudentRegistry.Initial)))
      && (s == Sections.Courses ==> r == d.(courses := Mounted(CourseRegistry.Initial)))
      && (s == Sections.Faculty ==> r == d.(faculty := Mounted(FacultyRegistry.Initial)))
  {
    Sections.ToggleTwice(d.minimized, s);
  }

  /** Expanding and re-minimising a collapsed section restores the dashboard. */
  lemma ExpandCollapseRestores(d: Dashboard, s: Sections.Section)
    requires Consistent(d)
    requires Sections.IsMinimized(d.minimized, s)
    ensures ToggleMinimize(ToggleMinimize(d, s), s) == d
  {
    Sections.ToggleTwice(d.minimized, s);
    assert !HasPanel(d, s);
  }
}
