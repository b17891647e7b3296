# Student records: a verified Dafny model

This project models the core of a student-records application and proves properties of the model.

On the server, the model covers the `Alumno` document schema and the student handlers:
- listing active students and listing all students;
- lookup by id;
- creation, which hashes the credential;
- partial update, which re-hashes the credential only when one is supplied;
- soft delete (`activo := false`) and restore;
- search by `nombre` or `matricula`;
- viewing and updating one's own profile.

On the client, it covers:
- the form schemas: login, message, student and profile;
- the student list page: search, filters, twelve per page, edit, add and delete;
- the messages page: search, mark as read, send, reply and delete;
- the breadcrumb trail.

Layout:

| file | module | models |
|---|---|---|
| `wrappers.dfy` | `Wrappers` | `Option` and `Result` |
| `text.dfy` | `Text` | `toLowerCase`, `includes`, `split`/`join` and the decimal text of an integer |
| `seqs.dfy` | `Seqs` | `filter`, `map` and `slice` on arrays |
| `alumno_model.dfy` | `AlumnoModel` | the schema: paths, schema types, casting, `required`, the `activo` default |
| `alumno_controller.dfy` | `AlumnoController` | the handlers as specification functions, and the class `AlumnoStore` |
| `validation.dfy` | `Validation` | the four form schemas as predicates |
| `students_page.dfy` | `StudentsPage` | the student list page, and the class `StudentsView` |
| `messages_page.dfy` | `MessagesPage` | the messages page, and the class `MessagesView` |
| `breadcrumb.dfy` | `Breadcrumb` | the breadcrumb trail |

A stored document is a map from schema paths to values, so a merge is map override and "nothing else changes" is a statement per path.

`AlumnoStore` holds the documents (`map<Id, Document>`) and an id counter. Each handler is a method proved against a specification function of the old state; the properties the handlers promise are lemmas about those functions.

The store's invariant `StoreInvariant` holds before and after every handler. It says:
- every document conforms to the schema and has a `matricula` and an `activo`;
- no two documents share a `matricula`, active or not;
- every stored credential is a hash output;
- every id is below the counter.

The credential hash is a function the store is built with. The model assumes only that it never returns its input, and that assumption is stated in the store constructor's precondition.

The two pages are classes whose fields are the page's state. Each handler states its whole new state with a `State()` record of all the fields, as `old(State())` with the changed fields replaced.

The model follows the code, also where it departs from what one might expect:
- Read handlers return the stored document with its credential hash.
- The code hands the search text to the database unescaped, as a regular expression, and does not treat it as escaped literal text. The model reads it as literal text, which agrees with the code for every query without characters special to regular expressions.
- A body's `Contrasena` that is not a string makes creation fail (400). A truthy non-string `Contrasena` makes an update fail (500).
- An update does not run the schema's validators, so it can store an empty `matricula`. The unique index still applies.
- `actualizarPerfil` answers an unknown id with `null` (status 200), not 404.

## Model

| member | source | states |
|---|---|---|
| AlumnoModel.Cast | backend/src/models/Alumno.ts:25-45 | a cast value has its path's schema type; a value that already has it is kept unchanged |
| AlumnoModel.CastDocument | backend/src/models/Alumno.ts:25-45 | on success: the same paths, conforming, each value the cast of the given one; on failure: a given path whose value cannot be cast |
| AlumnoModel.CastConforming | backend/src/models/Alumno.ts:25-45 | a document that already conforms casts to itself |
| AlumnoModel.WithDefaults | backend/src/models/Alumno.ts:44 | `activo` is true unless supplied; every supplied path keeps its value |
| AlumnoModel.ConformingShape | backend/src/models/Alumno.ts:38-40 | in a conforming document `activo` is a boolean and every path but `Numero` and `CodigoPostal` holds a string |
| AlumnoController.Status | backend/src/controllers/alumno.controller.ts:41-63 | a failure answers 400, 404 or 500; 404 exactly for a missing document |
| AlumnoController.Resto | backend/src/controllers/alumno.controller.ts:27 | the body without its credential; every other path unchanged |
| AlumnoController.NewAlumno | backend/src/controllers/alumno.controller.ts:27-38 | a built document is well formed and has a non-empty `matricula` |
| AlumnoController.Create | backend/src/controllers/alumno.controller.ts:25-43 | every refusal of a creation answers status 400 |
| AlumnoController.CreateStoresHash | backend/src/controllers/alumno.controller.ts:27-36 | the stored credential is the hash of the submitted one and differs from it |
| AlumnoController.CreateCopiesFields | backend/src/controllers/alumno.controller.ts:33-36 | every other supplied path is stored as its cast; no unsupplied path appears except `activo`, which defaults to true |
| AlumnoController.CreateNeedsCredential | backend/src/controllers/alumno.controller.ts:30-31 | a body without a string credential is refused with 400 |
| AlumnoController.CreateNeedsMatricula | backend/src/models/Alumno.ts:26 | a body without `matricula` is refused |
| AlumnoController.CreateRejectsDuplicate | backend/src/models/Alumno.ts:26 | a body whose `matricula` casts to one held by any stored document, active or not, is refused; this covers a number whose text is held |
| AlumnoController.UpdateData | backend/src/controllers/alumno.controller.ts:48-57 | the update data has the body's paths and values except the credential; the credential is present, as a hash, exactly when the body's is truthy; failure exactly for a truthy non-string credential |
| AlumnoController.ApplyUpdate | backend/src/controllers/alumno.controller.ts:59 | "no document" exactly when the data casts and the id is unknown |
| AlumnoController.Update | backend/src/controllers/alumno.controller.ts:46-65 | an update fails only with 404 or 500 |
| AlumnoController.UpdateProfile | backend/src/controllers/alumno.controller.ts:119-135 | a profile update fails only with 500 |
| AlumnoController.UpdateChangesOnlySupplied | backend/src/controllers/alumno.controller.ts:48-59 | an unsupplied path keeps its stored value or stays absent; a supplied path takes the cast of the supplied value |
| AlumnoController.UpdateCredentialRule | backend/src/controllers/alumno.controller.ts:51-57 | a truthy credential is stored as its hash; otherwise the stored credential is untouched |
| AlumnoController.UpdateUnknownId | backend/src/controllers/alumno.controller.ts:59-61 | updating an unknown id fails, with 404 when the body is acceptable |
| AlumnoController.UpdateEmptyBody | backend/src/controllers/alumno.controller.ts:48-60 | an empty body leaves the document as it is |
| AlumnoController.UpdateProfileAgrees | backend/src/controllers/alumno.controller.ts:122-131 | the profile update equals the update on a known id and answers `null` for an unknown id |
| AlumnoController.SetActivo | backend/src/controllers/alumno.controller.ts:69-78 | fails, with 404, exactly for an unknown id |
| AlumnoController.SetActivoOnlyFlag | backend/src/controllers/alumno.controller.ts:75 | soft delete and restore set the flag and change no other path |
| AlumnoController.SetActivoIdempotent | backend/src/controllers/alumno.controller.ts:75-76 | a second soft delete (or restore) gives the same document |
| AlumnoController.RestoreUndoesDelete | backend/src/controllers/alumno.controller.ts:82-92 | restoring a soft-deleted active document gives it back unchanged |
| AlumnoController.Active | backend/src/controllers/alumno.controller.ts:7 | exactly the documents whose `activo` is true, unchanged |
| AlumnoController.Search | backend/src/controllers/alumno.controller.ts:99-105 | exactly the active documents whose `nombre` or `matricula` contains the query, ignoring case |
| AlumnoController.SearchWithinActive | backend/src/controllers/alumno.controller.ts:99-105 | the search result is part of the active listing |
| AlumnoController.SearchEmptyQuery | backend/src/controllers/alumno.controller.ts:102-103 | an empty query finds every active document |
| AlumnoController.DeleteHidesRestoreShows | backend/src/controllers/alumno.controller.ts:7 | a soft-deleted document leaves the listing and the search; a restored one is back in both |
| AlumnoController.CreatePreservesInvariant | backend/src/models/Alumno.ts:26 | inserting a created document under a fresh id keeps the store invariant, including unique `matricula` |
| AlumnoController.ApplyUpdatePreservesInvariant | backend/src/models/Alumno.ts:26 | a successful merge with hashed update data keeps the store invariant |
| AlumnoController.SetActivoPreservesInvariant | backend/src/controllers/alumno.controller.ts:75-76 | flipping `activo` keeps the store invariant |
| AlumnoController.AlumnoStore.ObtenerAlumnos | backend/src/controllers/alumno.controller.ts:6-9 | returns the active documents |
| AlumnoController.AlumnoStore.ObtenerTodos | backend/src/controllers/alumno.controller.ts:12-15 | returns every document, active or not |
| AlumnoController.AlumnoStore.ObtenerAlumnoPorId | backend/src/controllers/alumno.controller.ts:18-22 | returns the document whatever its `activo`, or 404 |
| AlumnoController.AlumnoStore.VerPerfil | backend/src/controllers/alumno.controller.ts:111-116 | returns the document, or 404 |
| AlumnoController.AlumnoStore.constructor | backend/src/controllers/alumno.controller.ts:30-31 | the store starts empty, with a credential hash that never returns its input |
| AlumnoController.AlumnoStore.CrearAlumno | backend/src/controllers/alumno.controller.ts:25-43 | inserts the created document under a fresh id, answers it with that id, and advances the counter; on refusal the store is unchanged; keeps the invariant |
| AlumnoController.AlumnoStore.FindByIdAndUpdate | backend/src/controllers/alumno.controller.ts:59 | result and new store as the merge specifies; keeps the invariant |
| AlumnoController.AlumnoStore.DatosActualizados | backend/src/controllers/alumno.controller.ts:48-57 | builds the update data the specification describes |
| AlumnoController.AlumnoStore.ActualizarAlumno | backend/src/controllers/alumno.controller.ts:46-65 | answers as the update specifies and stores the merged document only on success |
| AlumnoController.AlumnoStore.ActualizarPerfil | backend/src/controllers/alumno.controller.ts:119-135 | answers as the profile update specifies and stores the merged document only on success |
| AlumnoController.AlumnoStore.EliminarAlumno | backend/src/controllers/alumno.controller.ts:68-79 | sets `activo` to false and answers the confirmation, or 404 with the store unchanged |
| AlumnoController.AlumnoStore.RestaurarAlumno | backend/src/controllers/alumno.controller.ts:82-93 | sets `activo` to true and answers the confirmation, or 404 with the store unchanged |
| AlumnoController.AlumnoStore.BuscarAlumnos | backend/src/controllers/alumno.controller.ts:96-108 | returns the search result |
| Text.Lower | frontend/src/pages/Students.tsx:133-136 | same length, each character lower-cased |
| Text.LowerIdempotent | frontend/src/pages/Students.tsx:133-136 | lower-casing twice is lower-casing once |
| Text.QueryCaseIrrelevant | frontend/src/pages/Students.tsx:133-136 | lowering the query before the search gives the same answer, so the case of the query does not matter |
| Text.IncludesIff | frontend/src/pages/Students.tsx:133-136 | `includes` holds exactly when the text occurs at some position |
| Text.JoinSplit | frontend/src/components/Layout/Breadcrumb.tsx:12 | joining the pieces of a split gives the string back |
| Text.SplitJoin | frontend/src/components/Layout/Breadcrumb.tsx:18 | splitting a join of separator-free pieces gives the pieces back |
| Text.NatToString | frontend/src/pages/Students.tsx:139 | the text of a natural number is a non-empty run of digits without a leading zero |
| Text.DecimalRoundTrip | frontend/src/pages/Students.tsx:139 | reading back the text of a natural number gives the number |
| Text.IntToStringInjective | frontend/src/pages/Students.tsx:139 | different integers have different texts |
| Seqs.FilterMembership | frontend/src/pages/Students.tsx:131 | an element survives `filter` exactly when it is in the list and satisfies the predicate |
| Seqs.FilterIsSubsequence | frontend/src/pages/Students.tsx:131 | `filter` keeps the order of the list |
| Seqs.FilterKeepsAll | frontend/src/pages/Students.tsx:131 | when every element satisfies the predicate, `filter` keeps the whole list |
| Seqs.Map | frontend/src/pages/Students.tsx:190 | `map` keeps the length and transforms each element |
| Seqs.ClampIndex | frontend/src/pages/Students.tsx:149 | `slice` reads an index in range as itself and clamps any other into the list |
| Validation.LoginPasswordRule | frontend/src/utils/validation.ts:8-11 | the login password rule amounts to at least six characters |
| Validation.StudentIdShape | frontend/src/utils/validation.ts:46-49 | a student id is valid exactly when it is `STU` followed by three or more digits |
| Validation.StudentIdExamples | frontend/src/utils/validation.ts:49 | `STU001` is accepted; `STU01`, `stu001` and `STU00a` are not |
| Validation.PhonePatternAlternatives | frontend/src/utils/validation.ts:57-60 | the phone pattern accepts class characters only, or `+` followed by them |
| Validation.PhonePlusOnlyFirst | frontend/src/utils/validation.ts:60 | an accepted phone has no `+` after its first character |
| Validation.MessageLengthsOnly | frontend/src/utils/validation.ts:14-24 | the message schema looks only at the lengths of the fields; with every field filled in it accepts exactly a subject of at most 200 and content of at most 2000 characters |
| Validation.ProfileOfStudent | frontend/src/utils/validation.ts:77-104 | the profile schema checks its contact fields as the student schema does: an accepted student's contact data passes without a new password, and accepted profile contact data completes to an accepted student exactly when the remaining student fields pass |
| Validation.PasswordRuleMeaning | frontend/src/utils/validation.ts:105-115 | without a new password the rule passes; with one it needs the current password, a matching confirmation and six characters |
| StudentsPage.FilteredMembership | frontend/src/pages/Students.tsx:131-142 | a student is listed exactly when it matches the search in one of the four fields and passes every non-empty filter |
| StudentsPage.FilteredKeepsOrder | frontend/src/pages/Students.tsx:131-143 | the listed students are an order-preserving subsequence of the list |
| StudentsPage.NothingFiltered | frontend/src/pages/Students.tsx:131-143 | an empty query and no filters list every student |
| StudentsPage.YearFilterExact | frontend/src/pages/Students.tsx:139 | a year filter passes exactly the students of that year |
| StudentsPage.TotalPages | frontend/src/pages/Students.tsx:147 | the least number of twelve-student pages that hold the list; zero exactly for an empty list |
| StudentsPage.PageOf | frontend/src/pages/Students.tsx:148-149 | a page holds at most twelve students |
| StudentsPage.PageContents | frontend/src/pages/Students.tsx:147-149 | page `p` from 1 to the page count is the run starting at `(p-1)*12`, and it is not empty |
| StudentsPage.ElementOnItsPage | frontend/src/pages/Students.tsx:147-149 | the student at index `k` is on page `k/12+1` at position `k%12`, so the pages show the whole list |
| StudentsPage.PageBeyondLast | frontend/src/pages/Students.tsx:147-149 | a page after the last is empty |
| StudentsPage.WithFilter | frontend/src/pages/Students.tsx:152 | read through any key, the new filters give the new value for the changed key and the old value for every other key |
| StudentsPage.ReplaceById | frontend/src/pages/Students.tsx:190-194 | editing keeps the length and every other student; a student with the id gets the data and keeps its id and enrolment date |
| StudentsPage.ReplaceByIdIdempotent | frontend/src/pages/Students.tsx:190-194 | submitting the same edit twice is submitting it once |
| StudentsPage.RemoveByIdEffect | frontend/src/pages/Students.tsx:220 | deleting removes exactly the students with that id and keeps the order |
| StudentsPage.RemoveAbsentId | frontend/src/pages/Students.tsx:220 | deleting an id nobody has leaves the list unchanged |
| StudentsPage.StaleSearchPage | frontend/src/pages/Students.tsx:270 | after a search leaving at most twelve matches, a later page than the first shows nothing, and there is one page in all |
| StudentsPage.StudentsView.constructor | frontend/src/pages/Students.tsx:13-29 | the page starts on page one with no query and no filters |
| StudentsPage.StudentsView.SetSearchQuery | frontend/src/pages/Students.tsx:270 | typing a query changes only the query |
| StudentsPage.StudentsView.SearchFor | frontend/src/pages/Students.tsx:270 | typing a query also returns to page one, so matches are always shown |
| StudentsPage.StudentsView.HandleFilterChange | frontend/src/pages/Students.tsx:151-154 | changes only that filter and returns to page one |
| StudentsPage.StudentsView.ClearFilters | frontend/src/pages/Students.tsx:156-160 | empties the filters and the query and returns to page one, after which every student is listed |
| StudentsPage.StudentsView.SetCurrentPage | frontend/src/pages/Students.tsx:439 | a page button shows that page, which is not empty |
| StudentsPage.StudentsView.PreviousPage | frontend/src/pages/Students.tsx:430-431 | goes back one page, except on page one; from a page that exists it lands on a non-empty page |
| StudentsPage.StudentsView.NextPage | frontend/src/pages/Students.tsx:447-448 | goes forward one page, except on the last; from a page that exists it lands on a non-empty page |
| StudentsPage.StudentsView.HandleAddStudent | frontend/src/pages/Students.tsx:167-170 | opens the form for a new student |
| StudentsPage.StudentsView.HandleEditStudent | frontend/src/pages/Students.tsx:172-175 | opens the form on that student |
| StudentsPage.StudentsView.HandleDeleteStudent | frontend/src/pages/Students.tsx:177-180 | asks to confirm deleting that student |
| StudentsPage.StudentsView.HandleStudentSubmit | frontend/src/pages/Students.tsx:182-210 | an edit replaces the students with the edited id and keeps the length; an addition puts one new student in front |
| StudentsPage.StudentsView.ConfirmDelete | frontend/src/pages/Students.tsx:212-228 | removes the students with that id and closes the dialog; with nothing to delete, nothing changes |
| MessagesPage.FilteredMembership | frontend/src/pages/Messages.tsx:63-67 | a message is listed exactly when its sender name, subject or content contains the query, ignoring case; order is kept |
| MessagesPage.NothingFiltered | frontend/src/pages/Messages.tsx:63-67 | an empty query lists every message |
| MessagesPage.MarkRead | frontend/src/pages/Messages.tsx:72-74 | the messages with that id become read; all others and the length are unchanged |
| MessagesPage.MarkReadIdempotent | frontend/src/pages/Messages.tsx:72-74 | marking read twice is marking read once |
| MessagesPage.MarkReadMarks | frontend/src/pages/Messages.tsx:73 | after marking, every message with that id is read |
| MessagesPage.RemoveByIdEffect | frontend/src/pages/Messages.tsx:124 | deleting removes exactly the messages with that id and keeps the order |
| MessagesPage.WithDraftField | frontend/src/pages/Messages.tsx:137-139 | read through any field, the new draft gives the new value for the changed field and the old value for every other field |
| MessagesPage.Outgoing | frontend/src/pages/Messages.tsx:83-93 | a sent message carries the draft's receiver name, subject and content and is read |
| MessagesPage.ReplyDraft | frontend/src/pages/Messages.tsx:103-107 | a reply goes to the sender, has the subject prefixed with `Re: ` and no content |
| MessagesPage.MessagesView.constructor | frontend/src/pages/Messages.tsx:12-22 | the page starts with nothing selected, no query and an empty draft, listing every message |
| MessagesPage.MessagesView.SetSearchQuery | frontend/src/pages/Messages.tsx:164 | changes only the query |
| MessagesPage.MessagesView.HandleMessageSelect | frontend/src/pages/Messages.tsx:69-76 | selects the message and, when it is unread, marks its id read |
| MessagesPage.MessagesView.SetShowCompose | frontend/src/pages/Messages.tsx:152 | opens or closes the compose pane |
| MessagesPage.MessagesView.HandleSendMessage | frontend/src/pages/Messages.tsx:78-98 | with a field empty nothing changes; otherwise one read message goes in front, the draft is emptied and the pane closes |
| MessagesPage.MessagesView.HandleReply | frontend/src/pages/Messages.tsx:100-109 | fills the draft with the reply and opens the pane; with nothing selected nothing changes |
| MessagesPage.MessagesView.HandleDeleteMessage | frontend/src/pages/Messages.tsx:111-114 | asks to confirm deleting that message |
| MessagesPage.MessagesView.CancelDelete | frontend/src/pages/Messages.tsx:194-197 | closes the dialog without deleting |
| MessagesPage.MessagesView.ConfirmDelete | frontend/src/pages/Messages.tsx:116-135 | removes the messages with that id and clears the selection exactly when it has that id; with nothing to delete, nothing changes |
| MessagesPage.MessagesView.HandleMessageChange | frontend/src/pages/Messages.tsx:137-139 | changes only that draft field |
| Breadcrumb.PathnamesWellFormed | frontend/src/components/Layout/Breadcrumb.tsx:12 | no segment is empty or holds `/` |
| Breadcrumb.PathnamesOfCanonicalPath | frontend/src/components/Layout/Breadcrumb.tsx:12 | `/` followed by `/`-joined segments splits back into those segments |
| Breadcrumb.Capitalize | frontend/src/components/Layout/Breadcrumb.tsx:17 | the first character upper-cased, the rest unchanged |
| Breadcrumb.ItemsShape | frontend/src/components/Layout/Breadcrumb.tsx:14-20 | the dashboard crumb first, one crumb per later segment, each with the capitalized segment and the path through it |
| Breadcrumb.ItemPathsExtend | frontend/src/components/Layout/Breadcrumb.tsx:18 | each crumb's path is the previous one's plus `/` and one segment, so it has the previous one as prefix |
| Breadcrumb.Render | frontend/src/components/Layout/Breadcrumb.tsx:22-24 | nothing exactly when there are no segments or the first is `dashboard`; otherwise the crumbs |
| Breadcrumb.RenderRoot | frontend/src/components/Layout/Breadcrumb.tsx:22-24 | the root path renders nothing |
| Breadcrumb.RenderCanonical | frontend/src/components/Layout/Breadcrumb.tsx:12-24 | a path written from segments renders nothing when the first is `dashboard`, and their crumbs otherwise |

## Left out

- The bcrypt salt and cost factor: the hash is a function fixed when the store is built. The model assumes of it only that it never returns its input.
- The document database, Express routing and the server: the store is an in-memory map and each handler is one atomic step. Ids come from a counter instead of generated object ids.
- A malformed id, which makes the database raise a cast error: ids are natural numbers, so this error path is not modelled.
- A search request without `query`: the query is always a string.
- Regular-expression syntax in the search text: it is matched as literal text.
- Case folding: only ASCII letters change case. The same holds for the breadcrumb's upper-casing.
- Length bounds: lengths are counted in characters, not in UTF-16 code units.
- Request values: JSON numbers are integers, and `null`, arrays and objects in a body are not modelled. A number casts to its exact decimal digits. So two things differ from the code: integers above 2^53, which parsing the body rounds, and numbers of 1e21 or more, which `String(n)` writes with an exponent (`1e+21`). A `matricula` written as such a number is stored as different text than the code stores. Body keys outside the schema are not representable; strict mode drops them anyway.
- Listing order: a listing is a map from id to document.
- The e-mail check and `Date.parse` in the form schemas: both are parameters.
- The GPA bounds: floating point.
- A fractional year in the student form: `year` is an integer, so the model cannot express a value like `2.5`, which the schema (`number().min(1).max(6)`, with no integer check) accepts.
- The search schema: it accepts every input, so there is nothing to prove about it.
- Error messages of the schemas.
- The loading flags, the student details modal, `showFilters`, timers and the simulated delay.
- `Date.now()` ids and `new Date()` times and dates: these are parameters of the handlers that use them.
- The UI rendering and the components that only display data.
- StudentsPage.StudentsView.SetCurrentPage, StudentsPage.StudentsView.PreviousPage and StudentsPage.StudentsView.NextPage: these require more than one page, because the pagination bar is rendered only then. SetCurrentPage also requires a page in `1..totalPages`, the pages its buttons offer.
- AlumnoController.AlumnoStore.EliminarAlumno and AlumnoController.AlumnoStore.RestaurarAlumno: they always store the flipped flag. With the database, `save` runs the `required` validator, so a document whose `matricula` an update had emptied would make `save` throw. That throw is not caught, and no response is sent.
- The merge `{ ...student, ...data }` replaces every form field, because the form submits all of its fields.

## Findings

| source | as written | input that shows it | evidently intended | confidence | as-written member | corrected member |
|---|---|---|---|---|---|---|
| frontend/src/pages/Students.tsx:270 | typing in the search box keeps the current page, while changing a filter (line 153) or clearing (line 159) returns to page one | thirteen students, page two shown, then a query matching one of them: page two is empty, and with one page in all the page buttons are hidden, although "1 students found" is shown | a new query returns to page one | not executed; medium | StudentsPage.StaleSearchPage | StudentsPage.StudentsView.SearchFor |

`StudentsPage.StudentsView.SetSearchQuery` models the handler as written. `StudentsPage.StudentsView.SearchFor` is the corrected handler. It guarantees that the page shown is not empty whenever some student matches.
