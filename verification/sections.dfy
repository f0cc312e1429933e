/** The dashboard's three collapse flags, one per panel; all start expanded. */
module Sections {

  datatype Section = Students | Courses | Faculty

  datatype Minimized = Minimized(students: bool, courses: bool, faculty: bool)

  const AllExpanded: Minimized := Minimized(false, false, false)

  function IsMinimized(m: Minimized, s: Section): bool {
    match s
    case Students => m.students
    case Courses => m.courses
    case Faculty => m.faculty
  }

  /** Flips the flag of section `s` and no other. */
  function Toggle(m: Minimized, s: Section): (r: Minimized)
    ensures IsMinimized(r, s) == !IsMinimized(m, s)
    ensures forall t: Section | t != s :: IsMinimized(r, t) == IsMinimized(m, t)
  {
    match s
    case Students => m.(students := !m.students)
    case Courses => m.(courses := !m.courses)
    case Faculty => m.(faculty := !m.faculty)
  }

  /** A flag state is determined by its three flags. */
  lemma FlagsDetermine(m: Minimized, m': Minimized)
    requires forall t: Section :: IsMinimized(m, t) == IsMinimized(m', t)
    ensures m == m'
  {
    assert IsMinimized(m, Students) == IsMinimized(m', Students);
    assert IsMinimized(m, Courses) == IsMinimized(m', Courses);
    assert IsMinimized(m, Faculty) == IsMinimized(m', Faculty);
  }

  /** Toggling a section twice restores the flags. */
  lemma ToggleTwice(m: Minimized, s: Section)
    ensures Toggle(Toggle(m, s), s) == m
  {
    var r := Toggle(Toggle(m, s), s);
    forall t: Section ensures IsMinimized(r, t) == IsMinimized(m, t) {
    }
    FlagsDetermine(r, m);
  }

  /** Toggles of two sections commute. */
  lemma ToggleCommutes(m: Minimized, s: Section, t: Section)
    ensures Toggle(Toggle(m, s), t) == Toggle(Toggle(m, t), s)
  {
    var a, b := Toggle(Toggle(m, s), t), Toggle(Toggle(m, t), s);
    forall u: Section ensures IsMinimized(a, u) == IsMinimized(b, u) {
    }
    FlagsDetermine(a, b);
  }
}
