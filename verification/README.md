# College management dashboard — registry model

This project models the logic of the college management dashboard
(`src/components/Dashboard.tsx`). The dashboard has three panels: students,
courses and faculty. Each panel keeps an in-memory list of records and a form
draft, and supports the same two operations:

- **Add.** Check the draft. Only students are checked: their email must match
  a fixed pattern. Then number the new record `length + 1`, attach a derived
  field, append the record and clear the draft.
- **Delete.** Drop every record whose id equals the argument.

Around the panels sit three collapse flags, one per section.

The model is functional. Each `setX` call of the component becomes a pure
function that returns the next state.

- `Registry` holds the generic panel: `Panel` (records plus draft), `Add`,
  `Delete`, and lemmas about the id policy. It is parameterised by a `Kind`:
  how to read an id, which drafts are accepted, how a record is built (this is
  where the avatar or colour is attached), the blank draft, and the
  notification raised on rejection and on success.
- `StudentRegistry`, `CourseRegistry` and `FacultyRegistry` instantiate
  `Registry` with the source's seeds, constants and messages.
- `Email` gives the email pattern twice. `MatchesPattern` says declaratively
  which strings match `^[a-zA-Z0-9._-]+@[a-zA-Z0-9.-]+\.[a-zA-Z]{2,6}$`.
  `ValidateEmail` checks a string by finding its first '@' and the last '.'
  after it. A lemma proves the two agree on every string.
- `Sections` holds the three collapse flags. `Dashboard` holds the flags and
  the three panels together.

Notifications become a `Toast` value: `Silent`, `ErrorToast(message)` or
`SuccessToast(message)`. The random colour draw for a new course becomes a
palette index supplied by the caller.

The id policy `length + 1` is modelled as written. It is a latent flaw: after
a delete, the next add can reuse an id that a surviving record still carries.
The model proves this instead of hiding it:

- `Registry.IdCollision` and `StudentRegistry.StudentIdCollision` give the
  concrete case. Start from the seed, delete id 1, add: two records now carry
  id 2.
- `Registry.AddUniqueIff` gives the general condition. After an add, ids are
  unique exactly when they were unique before and no record already carried
  the new id.

Two consequences of the code are easy to miss:

- **Minimising a panel resets it.** Each panel is rendered only while its
  section is expanded (`src/components/Dashboard.tsx`, lines 355, 373 and
  391). Minimising unmounts the panel and discards its state; expanding
  mounts a fresh panel that starts again from its seed.
  `Dashboard.ToggleMinimize` models this, and
  `Dashboard.CollapseExpandResets` proves that minimising and then expanding
  discards every add and delete.
- **A delete removes every record carrying the id.** With unique ids that is
  one record (`Registry.DeleteUniquePresent`); with duplicates,
  `Registry.DeleteLength` gives the count.

## Model

| member | source | states |
|---|---|---|
| Email.ValidateEmail | src/components/Dashboard.tsx:44-47 | finds the first '@' and the last '.' after it; a string without '@' is rejected, and an accepted string has at least 6 characters, starts with a local-part character and ends with a letter; equal to MatchesPattern by ValidateEmailCorrect |
| Email.ValidateEmailCorrect | src/components/Dashboard.tsx:44-47 | ValidateEmail accepts a string exactly when it matches the pattern: local part, '@', domain, '.', 2 to 6 letters, anchored at both ends |
| Email.ValidateEmailSound | src/components/Dashboard.tsx:44-47 | every string ValidateEmail accepts splits as local part '@' domain '.' top-level segment |
| Email.ValidateEmailComplete | src/components/Dashboard.tsx:44-47 | every string of the pattern's form is accepted, whatever dots the domain holds |
| Email.SplitIsUnique | src/components/Dashboard.tsx:45 | the pattern is unambiguous: an accepted string has only one split into local part, domain and top-level segment |
| Email.SingleAt | src/components/Dashboard.tsx:45 | an accepted address holds exactly one '@', and no '@' appears in its domain or top-level segment |
| Email.NoAtRejected | src/components/Dashboard.tsx:45 | a string without '@' is rejected |
| Registry.Add | src/components/Dashboard.tsx:49-71 | a rejected draft leaves records and draft untouched and raises the kind's rejection notice; an accepted draft is appended as record `length + 1`, earlier records are unchanged, the draft is reset and the success notice raised |
| Registry.Delete | src/components/Dashboard.tsx:73-75 | the result is no longer than the input, holds only input records without the id, and keeps every input record without the id |
| Registry.DeleteKeepsExactly | src/components/Dashboard.tsx:74 | the delete result is exactly the records whose id differs, at strictly increasing original positions |
| Registry.DeleteAbsent | src/components/Dashboard.tsx:148-150 | deleting an id that no record carries leaves the list unchanged |
| Registry.DeleteIdempotent | src/components/Dashboard.tsx:225-227 | deleting the same id twice equals deleting it once |
| Registry.DeleteLength | src/components/Dashboard.tsx:74 | a delete shortens the list by the number of records carrying the id, so every duplicate goes |
| Registry.DeleteUniquePresent | src/components/Dashboard.tsx:74 | with unique ids, deleting the id of record i removes exactly that record and shortens the list by one |
| Registry.DeletePreservesUnique | src/components/Dashboard.tsx:74 | a delete never creates duplicate ids |
| Registry.AddKeepsDense | src/components/Dashboard.tsx:38-61 | while ids are exactly 1..n, as in the seeds, an add keeps them 1..n+1 and hence unique |
| Registry.AddUniqueIff | src/components/Dashboard.tsx:61 | after an accepted add, ids are unique if and only if they were unique before and no existing record already carried `length + 1`, for any list, including one that already holds duplicates |
| Registry.AddThenDeleteIff | src/components/Dashboard.tsx:61-74 | deleting the id an add just assigned restores the old list if and only if no older record carried that id |
| Registry.IdCollision | src/components/Dashboard.tsx:38-74 | from records numbered 1 and 2, deleting 1 and adding gives the old second record followed by the new one, both numbered 2 |
| Registry.DeleteFirstOfTwo | src/components/Dashboard.tsx:74 | deleting the first of two records with different ids leaves exactly the second |
| StudentRegistry.AddStudent | src/components/Dashboard.tsx:49-71 | an email outside the pattern leaves the panel unchanged with one error notice; otherwise the student becomes the last record with id `length + 1`, the draft's name, email and major and the placeholder avatar, the draft is cleared and one success notice is raised |
| StudentRegistry.DeleteStudent | src/components/Dashboard.tsx:73-75 | keeps exactly the students whose id differs, in original order |
| StudentRegistry.StudentIdCollision | src/components/Dashboard.tsx:38-75 | from the seed, deleting student 1 and adding any valid draft leaves Jane Smith and the new student both with id 2 |
| StudentRegistry.AddAmy | src/components/Dashboard.tsx:38-71 | adding Amy with email amy@x.co to the seed gives three students, the third numbered 3 with major Math, and a success notice |
| StudentRegistry.RejectNotAnEmail | src/components/Dashboard.tsx:49-60 | adding with email "not-an-email" keeps the panel as it was and raises the invalid-email error |
| CourseRegistry.AddCourse | src/components/Dashboard.tsx:142-146 | always appends a course with id `length + 1`, the draft's code, name and instructor and palette colour `pick`, one of the five palette entries; the draft is cleared and nothing is announced |
| CourseRegistry.DeleteCourse | src/components/Dashboard.tsx:148-150 | keeps exactly the courses whose id differs, in original order |
| CourseRegistry.AddTwice | src/components/Dashboard.tsx:136-146 | two adds to the seed give four courses, the new ones numbered 3 and 4 with palette colours |
| FacultyRegistry.AddFaculty | src/components/Dashboard.tsx:218-223 | always appends a member with id `length + 1`, the draft's name, email and department and the inline placeholder image; the email is not checked, the draft is cleared and nothing is announced |
| FacultyRegistry.DeleteFaculty | src/components/Dashboard.tsx:225-227 | keeps exactly the faculty members whose id differs, in original order |
| FacultyRegistry.DeleteFirstSeed | src/components/Dashboard.tsx:212-227 | deleting member 1 from the seed leaves only the member seeded as 2, unchanged |
| Sections.Toggle | src/components/Dashboard.tsx:307-309 | flips the flag of the named section and leaves the other two unchanged |
| Sections.ToggleTwice | src/components/Dashboard.tsx:307-309 | toggling the same section twice restores the flags |
| Sections.ToggleCommutes | src/components/Dashboard.tsx:307-309 | toggling two sections in either order gives the same flags |
| Dashboard.ToggleMinimize | src/components/Dashboard.tsx:301-391 | toggling preserves "a panel is mounted exactly when its section is expanded", flips only that section's flag, leaves the other panels alone, and an expanded section starts from its seed |
| Dashboard.CollapseExpandResets | src/components/Dashboard.tsx:349-391 | minimising then expanding a section restores the flags but resets that panel to its seed |
| Dashboard.ExpandCollapseRestores | src/components/Dashboard.tsx:349-391 | expanding then minimising a collapsed section restores the whole dashboard |

## Left out

- Rendering, JSX, hooks, `AnimatePresence`/`motion` animations and CSS classes: these are presentation. Each state setter is modelled as a function that returns the new state.
- The per-field `onChange` handlers: each one replaces a single draft field. In the model this is a record update on `Panel.draft`, with no separate member.
- Toast display options (position, auto-close time, progress bar, click and drag behaviour): these belong to the notification library. Only the kind of notice and its message are modelled.
- `Math.random` in the course colour choice: it uses floating point and is nondeterministic. The caller supplies a palette index below 5, the range that `Math.floor(Math.random() * 5)` produces.
- The `setInterval` hue rotation: it is a timer acting on the DOM with a floating-point angle.
- Avatar fallback initials: they are presentation only.
- Image URLs and the inline SVG placeholder: these are kept as opaque string constants.
- JavaScript `number` ids are modelled as unbounded integers. Ids stay far below 2^53, and NaN ids cannot arise.
- General regular-expression semantics: only this one fixed pattern is modelled. JavaScript matches it on UTF-16 code units and Dafny on Unicode characters; the two agree here because every character the pattern accepts is ASCII.
