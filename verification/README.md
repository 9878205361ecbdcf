# School app: notifications, profile updates and screen rules in Dafny

This project models the core rules of a small school application. Professors and
students (`ALUNO`) share one user table. The Express/Prisma backend serves the
notification board and the profile endpoints. The React Native front end validates
forms, filters lists and moves between screens.

What is modelled, module by module:

- `Notifications` is the notification controller.
  - The database is a `Store` value: the professors with their names, the notification rows and the autoincrement counter.
  - Each handler is a function from (caller, request, store) to (response, store).
  - The caller is whatever the authentication middleware attached, or `None`.
  - Both list endpoints are methods that collect the selected rows newest first. `IsListing` states what `findMany ... orderBy created_at desc` returns. It leaves the order of rows created at the same instant open, because the query does too.
- `SchoolDb` holds the tables behind the student and professor controllers (`Usuario`, `Aluno`, `Professor`, `MatriculaAluno`, `professor_has_Disciplina`) and the Prisma calls those controllers issue.
  - Each call takes effect whole or fails with its Prisma code: P2025 (no record), P2002 (unique constraint), P2003 (foreign key).
  - A password is stored as the symbolic `Hashed(plain)`.
- `ProfileRules` holds the field checks and the "only the given fields, trimmed" update data. The two controllers write these out identically.
- `AlunoController` and `ProfessorController` model `update`, `getById`, `delete` and the error-code mapping of `create` and `update`.
- `Text` holds the JavaScript string primitives the rules depend on:
  - truthiness of an optional string;
  - `\s` and `trim`;
  - UTF-16 `length`;
  - the email pattern `^[^\s@]+@[^\s@]+\.[^\s@]+$`, as a scanner proved equal to the pattern's language;
  - decimal `parseInt`.
- The screens are modelled in these modules:
  - `Register` covers the registration form.
  - `ProfileForm` covers the professor's profile form and how it relates to the backend checks.
  - `Enrollment` covers enrolling students in a discipline.
  - `Grades` covers the grade labels, the approval count, the grade range check and the edit modal.
  - `AppState` covers the screen state machine, with an invariant tying the screen to the remembered user type.
  - `NotificationTypes` covers the type vocabulary and its colours and icons.
- `Seqs` (`filter` and order-preserving sub-sequences), `Wrappers` (`Option`, `Result`) and `Roles` (`ALUNO`/`PROFESSOR`) are shared helpers.

Where the code and the documented design differ, this model follows the code:

- A notification's `type` is free text in the backend. Only the front end restricts it to four values.
- Notifications have no expiry and no audience. Those fields exist in the client's types but have no logic behind them.
- The student list shows the active notifications of every professor, not only of the student's own professors.

## Model

| member | source | states |
|---|---|---|
| Notifications.Create | app-school/back/src/controllers/NotificationsController.ts:15-50 | A non-professor gets 403 "Apenas professores podem criar notificações", an empty title or message 400 "Título e mensagem são obrigatórios", and a professor without a `Professor` row 404 "Professor não encontrado". It succeeds (201) exactly for a registered professor with both texts given. On success exactly one row is added under a fresh key, owned by the caller, active, with type defaulting to "aviso", and every other row is kept. Any failure leaves the store unchanged, and the store invariant is kept. |
| Notifications.CreatedIsListed | app-school/back/src/controllers/NotificationsController.ts:36-43 | A notification just created appears in its owner's list and in every student's list. |
| Notifications.Insert | app-school/back/src/controllers/NotificationsController.ts:72-74 | Inserting a row adds exactly that row and nothing else. |
| Notifications.InsertNewest | app-school/back/src/controllers/NotificationsController.ts:72-74 | Insertion keeps a list ordered newest first. |
| Notifications.InsertDistinct | app-school/back/src/controllers/NotificationsController.ts:68-75 | Inserting a row with a new id keeps the ids distinct. |
| Notifications.Collect | app-school/back/src/controllers/NotificationsController.ts:68-75 | The query returns every selected row exactly once and nothing else, newest first. |
| Notifications.ListingsAgree | app-school/back/src/controllers/NotificationsController.ts:72-74 | Any two results of the same query hold the same rows and have the same length. |
| Notifications.ListingsAgreeOnAges | app-school/back/src/controllers/NotificationsController.ts:72-74 | Any two results of the same query have rows of the same `created_at` at every position, so only rows of equal age may be ordered differently. |
| Notifications.SameAges | app-school/back/src/controllers/NotificationsController.ts:72-74 | Two newest-first orderings of the same distinct rows have the same `created_at` at every position. |
| Notifications.ListByProfessor | app-school/back/src/controllers/NotificationsController.ts:53-82 | A non-professor gets 403 and a professor without a professor row 404. Otherwise the answer is exactly the caller's notifications, active or not, newest first. |
| Notifications.Project | app-school/back/src/controllers/NotificationsController.ts:109-116 | The student view keeps id, title, message, type and creation time, and adds the owner's name instead of its id. |
| Notifications.ListForStudent | app-school/back/src/controllers/NotificationsController.ts:85-123 | A non-student gets 403. A student gets 200 with the newest-first listing of all active notifications, each projected. |
| Notifications.StudentListShowsExactlyActive | app-school/back/src/controllers/NotificationsController.ts:92-116 | Every view in a student's list is of an active notification, and every active notification appears with its owner's name, newest first. |
| Notifications.ApplyPatch | app-school/back/src/controllers/NotificationsController.ts:156-164 | Title, message and type change only when given non-empty. `is_active` changes whenever it is given, false included. Owner and creation time never change. |
| Notifications.ApplyPatchIdempotent | app-school/back/src/controllers/NotificationsController.ts:156-164 | Applying a patch twice is the same as applying it once. |
| Notifications.Update | app-school/back/src/controllers/NotificationsController.ts:126-171 | The checks run in order: role 403, professor row 404, notification 404, owner 403. The update succeeds exactly when the caller may modify the notification. On failure the store is unchanged. On success only that notification changes, by the patch. |
| Notifications.UpdateIdempotent | app-school/back/src/controllers/NotificationsController.ts:156-164 | Sending the same update twice leaves the store as sending it once. |
| Notifications.ActivationControlsVisibility | app-school/back/src/controllers/NotificationsController.ts:162 | After a successful update that sets `isActive`, the notification is in the student listing exactly when `isActive` is true. |
| Notifications.OwnerDeactivationHidesNotice | app-school/back/src/controllers/NotificationsController.ts:152-153 | A new urgent notice is active. Another professor's edit is refused with 403. After the owner deactivates it, no student listing shows it. |
| Notifications.Delete | app-school/back/src/controllers/NotificationsController.ts:174-212 | It makes the same ordered checks as update and succeeds exactly when the caller may modify the notification. On success exactly that key is removed and everything else is kept. On failure nothing changes. |
| Notifications.DeletedStaysGone | app-school/back/src/controllers/NotificationsController.ts:191-197 | After a delete, any registered professor's later update or delete of that id is a 404. |
| Text.Trim | app-school/back/src/controllers/AlunoController.ts:147-148 | `trim` returns the infix between the leading and trailing white space. It has no white space at either end and is empty exactly when the input is all white space. |
| Text.TrimIdempotent | app-school/back/src/controllers/AlunoController.ts:127-147 | Trimming a trimmed string changes nothing. |
| Text.JsLength | app-school/back/src/controllers/AlunoController.ts:139 | `length` counts UTF-16 units. It lies between the character count and twice that, and equals the character count on Basic Multilingual Plane text. |
| Text.IsEmail | app-school/back/src/controllers/AlunoController.ts:131 | The scanner accepts exactly the strings of `^[^\s@]+@[^\s@]+\.[^\s@]+$`. |
| Text.IndexOf | app-school/back/src/controllers/AlunoController.ts:131 | This returns the position of the first occurrence, or the length when the character is absent. |
| Text.IsEmailMatchesPattern | app-school/back/src/controllers/AlunoController.ts:131 | The scan and the pattern's language coincide, in both directions. |
| Text.ParseInt | app-school/back/src/controllers/AlunoController.ts:96 | `parseInt` is NaN exactly when no digit follows the leading white space and optional sign. |
| Text.ParseIntRoundTrip | app-school/front/pages/UpdateProfileProfessor.tsx:32 | An integer written in decimal reads back as itself. |
| SchoolDb.WithoutPassword | app-school/back/src/controllers/AlunoController.ts:108-110 | The returned user has every column but the password, plus the included profile row. |
| SchoolDb.WithoutPasswordIgnoresSenha | app-school/back/src/controllers/AlunoController.ts:172-174 | The returned user does not depend on the stored password. |
| SchoolDb.FindFirst | app-school/back/src/controllers/AlunoController.ts:94-102 | This finds a user exactly when the id exists with the requested kind, and returns it without the password. |
| SchoolDb.ApplyData | app-school/back/src/controllers/AlunoController.ts:154-160 | Each column is written only when present in the data. The kind never changes. |
| SchoolDb.UpdateUsuario | app-school/back/src/controllers/AlunoController.ts:154-170 | A missing user, a kind mismatch, or a missing `Aluno` row for a nested update is P2025. A matching user is P2002 exactly when the new email belongs to another user or the new matricula to another student, and Ok otherwise. On Ok exactly that user and its `Aluno` row change, and the constraints are kept. |
| SchoolDb.DeleteMany | app-school/back/src/controllers/AlunoController.ts:53 | This removes exactly the rows that reference the id. An absent id filters nothing, so every row goes. |
| SchoolDb.DeleteAlunoRow | app-school/back/src/controllers/AlunoController.ts:54 | This succeeds exactly when the `Aluno` row exists and no enrolment refers to it. |
| SchoolDb.DeleteProfessorRow | app-school/back/src/controllers/ProfessorController.ts:54 | This succeeds exactly when the `Professor` row exists and no `professor_has_Disciplina` row refers to it. |
| SchoolDb.DeleteUsuarioRow | app-school/back/src/controllers/AlunoController.ts:55 | This succeeds exactly when the user exists and no profile row refers to it. |
| ProfileRules.UserData | app-school/back/src/controllers/AlunoController.ts:145-149 | Only the given (truthy) fields are written. Name and email are trimmed and the password is hashed. |
| ProfileRules.StoredNomeInBounds | app-school/back/src/controllers/AlunoController.ts:127-147 | A name that passed its check is stored already trimmed and 2 to 100 units long. |
| AlunoController.Validate | app-school/back/src/controllers/AlunoController.ts:122-141 | The checks run in order: id, name 2..100 trimmed, email pattern, matricula not blank, password at least 6. The first failure names the message, and all pass exactly when each does. |
| AlunoController.AlunoData | app-school/back/src/controllers/AlunoController.ts:151-152 | The nested `Aluno` update is present exactly when a matricula is given, trimmed. |
| AlunoController.UpdateFailure | app-school/back/src/controllers/AlunoController.ts:175-183 | P2025 maps to 404 "Aluno não encontrado", P2002 to 400 "Email ou matrícula já em uso", and anything else to 500 with the update error. |
| AlunoController.CreateFailure | app-school/back/src/controllers/AlunoController.ts:29-34 | P2002 maps to 400 "Email ou matrícula já em uso" and anything else to 500 with the create error. |
| AlunoController.Update | app-school/back/src/controllers/AlunoController.ts:117-185 | A failed check answers 400 and writes nothing. The answer is 404 exactly when no matching student exists. It is 400 "Email ou matrícula já em uso" exactly when the student exists but the new email or matricula belongs to someone else, and 200 exactly when it exists and neither does. Success writes exactly the update data and answers with the user without password. Any failure leaves the tables unchanged. |
| AlunoController.UpdateWritesGivenFields | app-school/back/src/controllers/AlunoController.ts:145-166 | After success each column holds the trimmed or hashed new value when given and the old one otherwise. Other users, other students' matriculas and the enrolments are untouched. |
| AlunoController.UpdateKeepsConstraints | app-school/back/src/controllers/AlunoController.ts:154-170 | An update keeps the foreign keys and the uniqueness of email and matricula. |
| AlunoController.MissingIdNeedsNoStore | app-school/back/src/controllers/AlunoController.ts:123-125 | Without an id the answer is 400 whatever the tables hold. |
| AlunoController.UpdateAnswerIgnoresPassword | app-school/back/src/controllers/AlunoController.ts:172-174 | Two updates that differ only in the new password get the same answer. |
| AlunoController.GetById | app-school/back/src/controllers/AlunoController.ts:86-115 | An empty parameter is a 400. A parameter `parseInt` reads as NaN is the 500 "Erro ao buscar aluno". Otherwise the answer is 200 exactly when the number is the id of a student, with the user without password, and 404 "Aluno não encontrado" when it is not. |
| AlunoController.GetByIdIgnoresPassword | app-school/back/src/controllers/AlunoController.ts:108-110 | The answer does not depend on any stored password. |
| AlunoController.Delete | app-school/back/src/controllers/AlunoController.ts:50-60 | The enrolments are deleted first, whatever happens next. The answer is 200 exactly when the id names an `Aluno` row whose user exists and has no `Professor` row; under the table constraints, exactly when the id names an `Aluno` row. Otherwise it is the 500 message. On 200 the `Aluno` row and the user are gone. A 500 leaves `usuarios` intact, while the enrolments, and possibly the `Aluno` row, are already deleted. |
| AlunoController.DeleteCascades | app-school/back/src/controllers/AlunoController.ts:53-56 | Deleting an existing student removes exactly its enrolments, its `Aluno` row and its user, answers 200 and keeps the constraints. |
| AlunoController.AlunoRowBeforeEnrolmentsFails | app-school/back/src/controllers/AlunoController.ts:53-54 | The `Aluno` row cannot go while an enrolment refers to it, which is why enrolments go first. |
| AlunoController.DeleteWithoutIdWipesEnrolments | app-school/back/src/controllers/AlunoController.ts:51-53 | A request without `usuarioId` answers 500 after removing every enrolment. |
| AlunoController.DeleteChecked | app-school/back/src/controllers/AlunoController.ts:50-60 | With the id checked first, a request without one changes nothing. No request removes another student's enrolments. |
| ProfessorController.Validate | app-school/back/src/controllers/ProfessorController.ts:98-113 | The checks run in order: id, name 2..100 trimmed, email pattern, password at least 6. The first failure names the message. |
| ProfessorController.UpdateFailure | app-school/back/src/controllers/ProfessorController.ts:137-146 | P2025 maps to 404 "Professor não encontrado", P2002 to 400 "Email já em uso", and anything else to 500 with the update error. |
| ProfessorController.CreateFailure | app-school/back/src/controllers/ProfessorController.ts:28-33 | P2002 maps to 400 "Email já em uso" and anything else to 500 with the create error. |
| ProfessorController.Update | app-school/back/src/controllers/ProfessorController.ts:93-147 | A failed check answers 400 and writes nothing. The answer is 404 exactly when no professor has the id. It is 400 "Email já em uso" exactly when the professor exists and the new email belongs to another user, and 200 exactly when it exists and the email is free. Success writes only that user, restricted to `PROFESSOR`, and answers without password. Any failure leaves the tables unchanged. |
| ProfessorController.UpdateWritesGivenFields | app-school/back/src/controllers/ProfessorController.ts:117-128 | After success each column holds the trimmed or hashed new value when given and the old one otherwise. Nothing else changes. |
| ProfessorController.UpdateKeepsConstraints | app-school/back/src/controllers/ProfessorController.ts:123-132 | An update keeps the database constraints. |
| ProfessorController.MissingIdNeedsNoStore | app-school/back/src/controllers/ProfessorController.ts:99-101 | Without an id the answer is 400 whatever the tables hold. |
| ProfessorController.UpdateAnswerIgnoresPassword | app-school/back/src/controllers/ProfessorController.ts:134-136 | Two updates that differ only in the new password get the same answer. |
| ProfessorController.GetById | app-school/back/src/controllers/ProfessorController.ts:62-91 | An empty parameter is a 400. A parameter `parseInt` reads as NaN is the 500 "Erro ao buscar professor". Otherwise the answer is 200 exactly when the number is the id of a professor, with the user without password, and 404 "Professor não encontrado" when it is not. |
| ProfessorController.GetByIdIgnoresPassword | app-school/back/src/controllers/ProfessorController.ts:84-86 | The answer does not depend on any stored password. |
| ProfessorController.Delete | app-school/back/src/controllers/ProfessorController.ts:50-60 | The link rows are deleted first, whatever happens next. The answer is 200 exactly when the id names a `Professor` row whose user exists and has no `Aluno` row; under the table constraints, exactly when the id names a `Professor` row. Otherwise it is the 500 message. On 200 the `Professor` row and the user are gone. A 500 leaves `usuarios` intact, while the link rows, and possibly the `Professor` row, are already deleted. |
| ProfessorController.DeleteCascades | app-school/back/src/controllers/ProfessorController.ts:53-56 | Deleting an existing professor removes exactly its link rows, its `Professor` row and its user, answers 200 and keeps the constraints. |
| ProfessorController.ProfessorRowBeforeLinksFails | app-school/back/src/controllers/ProfessorController.ts:53-54 | The `Professor` row cannot go while a link row refers to it. |
| ProfessorController.DeleteWithoutIdWipesLinks | app-school/back/src/controllers/ProfessorController.ts:51-53 | A request without `usuarioId` answers 500 after removing every professor's link rows. |
| ProfessorController.DeleteChecked | app-school/back/src/controllers/ProfessorController.ts:50-60 | With the id checked first, a request without one changes nothing. No request removes another professor's link rows. |
| Register.UpdateFormData | app-school/front/pages/Register.tsx:78-85 | The named field takes the value and every other field is kept. The one exception is that switching the type to PROFESSOR empties the matricula. |
| Register.UpdateFormDataIdempotent | app-school/front/pages/Register.tsx:78-85 | Setting a field twice to the same value equals setting it once. |
| Register.SwitchingTipo | app-school/front/pages/Register.tsx:82-83 | Switching to ALUNO keeps the matricula. Passing through PROFESSOR loses it. |
| Register.HandleRegister | app-school/front/pages/Register.tsx:32-63 | The checks run in order: all four fields filled, matricula for a student, passwords equal, password at least 6. Each message fires exactly when its check is the first to fail. The payload copies the fields and carries the matricula exactly for a student. |
| Register.RegisterAcceptsExactly | app-school/front/pages/Register.tsx:35-53 | A registration is sent exactly when every check passes. |
| Register.ProfessorSendsNoMatricula | app-school/front/pages/Register.tsx:40-62 | After choosing PROFESSOR the matricula check never fails and no matricula is sent. |
| ProfileForm.LoadUserData | app-school/front/pages/UpdateProfileProfessor.tsx:24-41 | The id changes only when an id is stored and the type is PROFESSOR, and then becomes `parseInt` of it. The other fields never change. |
| ProfileForm.LoadStoredProfessorId | app-school/front/pages/UpdateProfileProfessor.tsx:29-33 | A professor id stored as decimal text loads as that id. |
| ProfileForm.FormError | app-school/front/pages/UpdateProfileProfessor.tsx:43-67 | The checks run in order: id, trimmed name at least 2, email pattern, non-empty password at least 6, password confirmed. Each message fires exactly when its check is the first to fail. |
| ProfileForm.ValidateForm | app-school/front/pages/UpdateProfileProfessor.tsx:43-70 | The form is valid exactly when every check holds. An empty password skips both password checks. |
| ProfileForm.EmptySenhaSkipsPasswordChecks | app-school/front/pages/UpdateProfileProfessor.tsx:59-67 | With no password typed, the confirmation field does not matter. |
| ProfileForm.Payload | app-school/front/pages/UpdateProfileProfessor.tsx:77-86 | The payload always has id, name and email, and has the password exactly when one was typed. |
| ProfileForm.HandleUpdate | app-school/front/pages/UpdateProfileProfessor.tsx:72-88 | Something is sent exactly when the form is valid. |
| ProfileForm.SentFormPassesBackend | app-school/front/pages/UpdateProfileProfessor.tsx:43-70 | What the form sends passes every backend check whenever the trimmed name is at most 100 units long. |
| ProfileForm.LongNameRefusedByBackend | app-school/front/pages/UpdateProfileProfessor.tsx:49-52 | A 101-letter name passes the form and is refused by the backend. |
| Enrollment.MatriculasPorDisciplina | app-school/front/pages/MatricularAluno.tsx:90-92 | This returns exactly the enrolments in the discipline, in their order. |
| Enrollment.StudentCount | app-school/front/pages/MatricularAluno.tsx:101-102 | The count shown is the number of enrolments whose discipline is the one shown, counted one by one. |
| Enrollment.EnrolledIds | app-school/front/pages/MatricularAluno.tsx:59-61 | This lists exactly the student ids of the discipline's enrolments. |
| Enrollment.Available | app-school/front/pages/MatricularAluno.tsx:63-65 | The available students are an order-preserving sub-sequence of the students. |
| Enrollment.AvailableExactly | app-school/front/pages/MatricularAluno.tsx:58-65 | A student is available exactly when it is listed and not enrolled in the discipline. |
| Enrollment.SelecionarDisciplina | app-school/front/pages/MatricularAluno.tsx:55-69 | Selecting a discipline remembers it, opens the modal and offers exactly its available students. |
| Enrollment.MatricularAluno | app-school/front/pages/MatricularAluno.tsx:71-78 | Nothing happens without a selection. Otherwise the request names the student's user id and the discipline's id. |
| Enrollment.OfferedStudentIsNew | app-school/front/pages/MatricularAluno.tsx:58-78 | Enrolling an offered student never requests an enrolment that already exists. |
| Enrollment.EnrolmentReloaded | app-school/front/pages/MatricularAluno.tsx:83 | After the reload the discipline's count is one higher and the student is no longer offered. |
| Grades.Classify | app-school/front/pages/AlunoHome.tsx:183-186 | The label is Aprovado exactly for a truthy grade of at least 7, Reprovado for a truthy grade below 7, and Pendente for a missing or zero grade. |
| Grades.StyleOf | app-school/front/pages/GerenciarNotas.tsx:114 | The no-grade style is used exactly when the grade is missing or zero. |
| Grades.StyleMatchesLabel | app-school/front/pages/AlunoHome.tsx:170-186 | The colour and the label always agree. |
| Grades.Approvals | app-school/front/pages/AlunoHome.tsx:86 | The approved enrolments are a sub-sequence of the enrolments. |
| Grades.CountApprovals | app-school/front/pages/AlunoHome.tsx:85-87 | The approval count is the number of enrolments labelled Aprovado. |
| Grades.CountedIffAprovado | app-school/front/pages/AlunoHome.tsx:85-87 | An enrolment is counted exactly when its label is Aprovado. |
| Grades.LabelsPartition | app-school/front/pages/AlunoHome.tsx:85-87 | The approved enrolments number as many as the Aprovado labels, and the three labels add up to the number of enrolments. |
| Grades.InitializeAluno | app-school/front/pages/AlunoHome.tsx:30-45 | The report loads exactly when an id is stored, using `parseInt` of it. |
| Grades.StoredIdLoadsReport | app-school/front/pages/AlunoHome.tsx:33-36 | An id stored in decimal loads that student's report. |
| Grades.SalvarNota | app-school/front/pages/GerenciarNotas.tsx:68-78 | Nothing happens without a selection. A grade that is not a number or lies outside [0, 10] is refused with the message. Otherwise the grade is sent with the selected enrolment's id. |
| Grades.AbrirModalNota | app-school/front/pages/GerenciarNotas.tsx:62-66 | The modal opens empty exactly when the grade is missing or zero. |
| Grades.ReopenAndSave | app-school/front/pages/GerenciarNotas.tsx:64-78 | Saving an unchanged modal resends the grade it opened with, and refuses an empty one. |
| Grades.ZeroGradeShowsPending | app-school/front/pages/GerenciarNotas.tsx:71-78 | A grade of 0 is accepted and sent, yet it is labelled Pendente, styled as no grade, and reopens empty. |
| Grades.ClassifyChecked | app-school/front/pages/AlunoHome.tsx:78 | With only a null grade counting as pending, a label is Pendente exactly for a missing grade. |
| Grades.SavedGradeIsNeverPending | app-school/front/pages/GerenciarNotas.tsx:71-75 | Every grade that can be saved, 0 included, gets a pass or fail label. Away from 0 the corrected label agrees with the original. |
| AppState.NamesDistinct | app-school/front/App.tsx:18-28 | The ten screens have ten distinct names. |
| AppState.CheckAuthStatus | app-school/front/App.tsx:38-53 | A stored token and type lead to the student dashboard for ALUNO and the professor dashboard for any other type. Anything else, or a storage failure, leads to welcome. |
| AppState.HandleLogin | app-school/front/App.tsx:55-58 | Login remembers the role and opens that role's dashboard. |
| AppState.HandleLogout | app-school/front/App.tsx:60-63 | Logout forgets the user type and shows welcome. |
| AppState.Navigate | app-school/front/App.tsx:65-73 | Navigation keeps the user type. |
| AppState.NavigateIsConstant | app-school/front/App.tsx:65-73 | Each navigation reaches the same screen from every state, and different navigations reach different screens. |
| AppState.Step | app-school/front/App.tsx:75-160 | An event takes effect exactly when the screen showing offers its callback. |
| AppState.Back | app-school/front/App.tsx:125-150 | An inner screen's back callback is one it is given. |
| AppState.BackIsTheOnlyWayOut | app-school/front/App.tsx:125-150 | Grades, enrolment and professor notifications lead back to the professor dashboard, and student notifications to the student dashboard. That is the only way out of them. |
| AppState.StepKeepsConsistent | app-school/front/App.tsx:38-73 | Every step keeps three facts: no user type before login, ALUNO on student screens, and some other non-empty type on professor screens. |
| AppState.RunKeepsConsistent | app-school/front/App.tsx:75-160 | Any run of events keeps the screen and the user type in agreement. |
| AppState.StartIsConsistent | app-school/front/App.tsx:31-32 | The start state is consistent. |
| NotificationTypes.Name | app-school/front/service/notificationService.ts:7 | Each type's name is one of the four words. |
| NotificationTypes.Parse | app-school/front/service/notificationService.ts:15 | Only a name reads as a type. |
| NotificationTypes.VocabularyRoundTrip | app-school/front/service/notificationService.ts:7 | Name then parse gives the type back, and exactly the four words parse. |
| NotificationTypes.TypeColor | app-school/front/service/notificationService.ts:53-61 | urgente maps to #dc3545, comunicado to #007bff and lembrete to #ffc107. Every other text, aviso included, maps to #28a745. |
| NotificationTypes.TypeIcon | app-school/front/service/notificationService.ts:63-71 | urgente gets 🚨, comunicado 📢 and lembrete ⏰. Every other text, aviso included, gets 📝. |
| NotificationTypes.KindsLookDistinct | app-school/front/service/notificationService.ts:53-71 | The four types have pairwise distinct colours and icons. Unknown text looks like aviso. |
| Seqs.Filter | app-school/front/pages/MatricularAluno.tsx:63-65 | `filter` keeps exactly the elements that satisfy the predicate, in order. |
| Seqs.FilterAppend | app-school/front/pages/AlunoHome.tsx:86 | Filtering a concatenation filters each part. |
| Seqs.FilterCount | app-school/front/pages/MatricularAluno.tsx:101-102 | The length of a filtered list is the number of elements that satisfy the predicate. |

## Left out

- The 500 answers of the notification handlers are not modelled. These come from a failing database or a thrown exception, and the model's store does not fail.
- Notifications.Update: the path id is taken as an integer. A non-numeric `:id` makes `parseInt` yield NaN, which Prisma rejects with a 500; that case is not modelled.
- Notifications.Delete: the same integer-id simplification as Update.
- Notifications.ListForStudent requires the store invariant. The `include` of the owner assumes the foreign key from a notification to its professor; a dangling owner is not modelled.
- Notifications.Create takes the creation time as a parameter `now` instead of reading the clock.
- SchoolDb.Valid is an assumption about the data. The Prisma schema is not part of this model. The foreign keys from the profile rows to `Usuario` and from the link rows to the profile rows (refusing deletes), and unique `email` and `matricula`, are taken as the schema's constraints. "No user has both an `Aluno` and a `Professor` row" is not a database constraint. The create handlers keep it because each creates a fresh user with one profile row. The kind of a profile row's user is not constrained, because `create` takes `tipo` from the request body.
- The notification table and the user tables are separate models. The schema that links them, including what happens to a professor's notifications when the professor is deleted, is not part of this model.
- AlunoController.Update: `usuarioId` is taken as a number. A JSON string id would be rejected by Prisma with a 500.
- ProfessorController.Update: the same numeric-id simplification as AlunoController.Update.
- AlunoController.Delete: `usuarioId` is taken as a number, as the client sends it. A JSON string id would make Prisma reject the query with a 500.
- ProfessorController.Delete: the same numeric-id simplification as AlunoController.Delete.
- Text.ParseInt: only decimal text. A `0x` prefix (read as hexadecimal) and loss of precision beyond 2^53 are not modelled.
- The `create`, `list` and `getBulletin` handlers of the two controllers are modelled only through the error mapping of `create`. They are plain Prisma calls.
- bcrypt is represented by the symbolic value `Hashed(plain)`. No hash is computed.
- Grades are exact reals. `parseFloat` is abstracted to the number it yields or `None` for NaN, so Grades.SalvarNota takes the parsed value rather than the typed text. Grades.ReopenAndSave assumes that `parseFloat` of a number's `toString` gives the number back.
- `calcularMedia`, `toFixed` and `formatDate` are left out because they are floating-point or locale formatting.
- Storage (`AsyncStorage`), alerts, axios service calls, loading flags and `Promise.all` are left out. Their results enter the model as parameters, for example `StorageRead`.
- Register.UpdateFormData takes a field from the six form fields. A field name outside the form would add a new key in the source; that case is not modelled.
- AppState.Step does not model the `default` branch of `renderCurrentScreen`, which no state reaches.
- The rendering, styles and the screens without rules (`ProfessorHome`, `home`, the two notification pages) are left out.

## Findings

| source | as written | input that shows it | evidently intended | confidence | as-written member | corrected member |
|---|---|---|---|---|---|---|
| app-school/back/src/controllers/AlunoController.ts:51-55 | `delete` passes `usuarioId` from the body to `deleteMany` without checking it | A body without `usuarioId` makes the filter `{ alunoId: undefined }`, which Prisma reads as no filter. Every enrolment of every student is deleted; then `aluno.delete` fails and the answer is 500. | Reject a missing id with 400 before any write, as `update` does | high that the guard is missing; not executed | AlunoController.DeleteWithoutIdWipesEnrolments | AlunoController.DeleteChecked |
| app-school/back/src/controllers/ProfessorController.ts:51-55 | `delete` passes `usuarioId` from the body to `deleteMany` without checking it | A body without `usuarioId` deletes every `professor_has_Disciplina` row of every professor; then `professor.delete` fails and the answer is 500. | Reject a missing id with 400 before any write | high that the guard is missing; not executed | ProfessorController.DeleteWithoutIdWipesLinks | ProfessorController.DeleteChecked |
| app-school/front/pages/AlunoHome.tsx:183-186 | The label tests the grade's truthiness, so 0 reads as no grade | `salvarNota` accepts 0 (GerenciarNotas.tsx:72) and sends it. The student then sees "Pendente" and "N/A", and the edit modal reopens empty. | Only a null grade is pending, as `calcularMedia` (AlunoHome.tsx:78) already treats it | medium; not executed | Grades.ZeroGradeShowsPending | Grades.ClassifyChecked |
