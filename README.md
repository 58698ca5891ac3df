# Course registration engine, modelled in Dafny

This project models the registration engine of a course-registration system. The engine decides whether a student may enrol in a subject, and it tracks each registration through ACTIVE → CANCELLED or ACTIVE → COMPLETED. The system implements these rules twice, and both are modelled:

- **The stand-alone console application** (`SimpleCourseRegistrationApp.java`).
  - Its state is three in-memory maps (students, subjects, registrations) and a registration-id counter.
  - It is the class `ConsoleApp.CourseRegistrationApp`.
  - `registerStudent`, `cancelRegistration`, `addNewStudent` and `addNewSubject` are methods that change the maps.
  - The guard loops of `registerStudent` and `displayAvailableSubjects` are loop methods. Each is proved against a specification function.
  - The invariant `ConsistentStore` is kept by every method:
    - a subject's enrollment equals the number of its ACTIVE registrations;
    - a limited capacity is never exceeded;
    - registration ids are below the counter;
    - no registration is COMPLETED.
- **The Spring service layer** (`RegistrationService`, `SubjectService`, `StudentService`).
  - Each service is a class over the list its repository returns from `findAll`. The two other services share their tables with the registration service.
  - Create, update, delete, register, cancel and complete are methods. The lookups and conversions are functions.
- **Shared parts.**
  - The entities (`Student`, `Subject`, `Registration`) and `SubjectDTO` are datatypes. Their helper methods are functions, with lemmas about them.
  - Every repository query is a filter over the table, and it keeps the table's order.

`LocalDate.now()` is an explicit `today` parameter throughout.

The model records these differences between the two implementations:

- The console checks capacity last. The service checks availability before duplicates (`Divergences.CheckOrderDiffers`). Since the service records no enrollment, one of its subjects is unavailable only when its capacity is 0.
- The service never changes a subject's enrollment. `updateEnrollmentCount` saves the row unchanged. So its capacity check depends only on the stored capacity (`RegistrationServices.AvailabilityIgnoresRegistrations`).
- The service's list of subjects for a student ignores capacity and prerequisites (`Divergences.SpringListKeepsRefusedSubjects`). For a stored student aged at least 15, the console's list agrees exactly with its own registration guards (`ConsoleApp.ListedIffAccepted`). The console's list does not check the age, so a student under 15 is shown subjects that registration then refuses (`ConsoleApp.ListingIgnoresAge`).
- No console operation writes COMPLETED. So a console subject with a prerequisite can never be registered for (`ConsoleApp.PrerequisiteNeverMet`).

Files:

- `common.dfy`: optional values, results, dates and string predicates.
- `seqs.dfy`: filter, map, count and sub-list.
- `model.dfy`: entities.
- `subject_dto.dfy`: the subject DTO.
- `service_errors.dfy`: the services' exceptions.
- `*_repository.dfy`: the queries.
- `*_service.dfy`: the services.
- `console_app.dfy`: the console engine.
- `divergences.dfy`: the differences between the two implementations.

## Model

| member | source | states |
|---|---|---|
| Model.ValidSubjectIdHasOnePrefix | src/main/java/com/courseregistration/model/Subject.java:15 | a subject id matching `^(0550\|9069)\d{4}$` carries exactly one of the two prefixes |
| Model.StudentAndSubjectIdsDisjoint | src/main/java/com/courseregistration/model/Student.java:17 | no id matches both the student pattern `^69\d{6}$` and the subject pattern |
| Model.AgeIgnoresMonthAndDay | src/main/java/com/courseregistration/model/Student.java:132-134 | getAge is the difference of calendar years: changing the month and day of birth does not change it, and age ≥ 15 exactly when the birth year is at most the current year minus 15 |
| Model.FullNameDeterminesParts | src/main/java/com/courseregistration/model/Student.java:136-138 | getFullName joins title, first and last name with single spaces; when title and first name have no space, the full name determines all three parts |
| Model.FirstSpaceAfterWord | src/main/java/com/courseregistration/model/Student.java:136-138 | the first space of `word + " " + rest` is right after the word (induction over the word) |
| Model.NewSubject | src/main/java/com/courseregistration/model/Subject.java:51-60 | the constructor copies its six arguments and sets the enrollment to 0 |
| Model.AvailabilityByCapacity | src/main/java/com/courseregistration/model/Subject.java:128-130 | isAvailable: capacity -1 is always available, capacity 0 (admitted by `@Min(-1)`) never, a positive capacity exactly while the enrollment is below it |
| Model.NoPrerequisiteWhenNullOrBlank | src/main/java/com/courseregistration/model/Subject.java:132-134 | hasPrerequisite is false for a null prerequisite id, and for a given id it holds exactly when the id is not empty or whitespace-only; every valid subject id counts as a prerequisite |
| Model.CourseTypeOfValidId | src/main/java/com/courseregistration/model/Subject.java:136-138 | for a valid id the course type is Faculty exactly for prefix "0550" and General Education exactly for prefix "9069" |
| Model.NewRegistration | src/main/java/com/courseregistration/model/Registration.java:44-49 | the two-argument constructor keeps both ids, assigns no id and sets status ACTIVE |
| Model.SetStatus | src/main/java/com/courseregistration/model/Registration.java:88-90 | setStatus changes the status and nothing else |
| SubjectDto.NewSubjectDTO | src/main/java/com/courseregistration/dto/SubjectDTO.java:28-42 | the DTO constructor copies its six arguments and the enrollment starts at 0 |
| SubjectServices.DtoHelpersAgree | src/main/java/com/courseregistration/dto/SubjectDTO.java:102-112 | the DTO's isAvailable, hasPrerequisite and getCourseType agree with the entity's on a converted subject |
| RegistrationRepository.FindByStudentId | src/main/java/com/courseregistration/repository/RegistrationRepository.java:16 | exactly the registrations of that student, in table order |
| RegistrationRepository.FindBySubjectId | src/main/java/com/courseregistration/repository/RegistrationRepository.java:18 | exactly the registrations for that subject, in table order |
| RegistrationRepository.FindByStatus | src/main/java/com/courseregistration/repository/RegistrationRepository.java:20 | exactly the registrations with that status, in table order |
| RegistrationRepository.FindActiveRegistrationsByStudentId | src/main/java/com/courseregistration/repository/RegistrationRepository.java:22-23 | exactly the ACTIVE registrations of the student |
| RegistrationRepository.FindActiveRegistrationsBySubjectId | src/main/java/com/courseregistration/repository/RegistrationRepository.java:25-26 | exactly the ACTIVE registrations for the subject |
| RegistrationRepository.CountActiveRegistrationsBySubjectId | src/main/java/com/courseregistration/repository/RegistrationRepository.java:28-29 | the COUNT is the length of findActiveRegistrationsBySubjectId |
| RegistrationRepository.CountActiveRegistrationsByStudentId | src/main/java/com/courseregistration/repository/RegistrationRepository.java:31-32 | the COUNT is the length of findActiveRegistrationsByStudentId |
| Seqs.CountIsFilterLength | src/main/java/com/courseregistration/repository/RegistrationRepository.java:28-32 | a COUNT over a WHERE clause equals the length of the list the clause selects (induction over the table) |
| RegistrationRepository.FindByStudentIdAndSubjectIdAndStatus | src/main/java/com/courseregistration/repository/RegistrationRepository.java:34 | a single-result query: empty exactly when no registration matches all three fields, the one matching registration when exactly one does, and an incorrect-result-size failure carrying the count when more than one does |
| RegistrationRepository.ExistsByStudentIdAndSubjectIdAndStatus | src/main/java/com/courseregistration/repository/RegistrationRepository.java:36 | true exactly when some registration matches all three fields |
| RegistrationRepository.FindByStudentIdAndSubjectId | src/main/java/com/courseregistration/repository/RegistrationRepository.java:38-39 | every registration of the pair, whatever its status |
| SubjectRepository.FindByInstructorName | src/main/java/com/courseregistration/repository/SubjectRepository.java:15 | exactly the subjects with that instructor |
| SubjectRepository.FindByCredits | src/main/java/com/courseregistration/repository/SubjectRepository.java:17 | exactly the subjects with that number of credits |
| SubjectRepository.FindAvailableSubjects | src/main/java/com/courseregistration/repository/SubjectRepository.java:19-20 | exactly the subjects for which isAvailable holds |
| SubjectRepository.FindSubjectsWithoutPrerequisites | src/main/java/com/courseregistration/repository/SubjectRepository.java:22-23 | exactly the subjects whose prerequisite is null; none of them has a prerequisite |
| SubjectRepository.EmptyPrerequisiteNotListedAsWithout | src/main/java/com/courseregistration/repository/SubjectRepository.java:22-23 | a subject with an empty prerequisite id has no prerequisite by hasPrerequisite yet is left out of findSubjectsWithoutPrerequisites |
| SubjectRepository.FindByPrerequisiteSubjectId | src/main/java/com/courseregistration/repository/SubjectRepository.java:25-26 | exactly the subjects whose prerequisite is that id |
| SubjectRepository.FindFacultyCourses | src/main/java/com/courseregistration/repository/SubjectRepository.java:28-29 | exactly the subjects whose course type is Faculty |
| SubjectRepository.FindGeneralEducationCourses | src/main/java/com/courseregistration/repository/SubjectRepository.java:31-32 | exactly the subjects whose id starts with "9069" |
| SubjectRepository.CourseTypesPartition | src/main/java/com/courseregistration/repository/SubjectRepository.java:28-32 | over valid ids each subject is in exactly one of the two course-type lists, the second list is exactly the General Education courses, and the lengths add up to the table's |
| SubjectRepository.FindBySubjectNameContaining | src/main/java/com/courseregistration/repository/SubjectRepository.java:34-35 | exactly the subjects whose name contains the string |
| SubjectRepository.EmptyFragmentFindsEverySubject | src/main/java/com/courseregistration/repository/SubjectRepository.java:34-35 | an empty fragment (`LIKE '%%'`) returns the whole table, and every subject is found by its own name |
| SubjectRepository.FindSubjectsWithAvailableCapacity | src/main/java/com/courseregistration/repository/SubjectRepository.java:37-38 | the same list as findAvailableSubjects |
| StudentRepository.FindByEmail | src/main/java/com/courseregistration/repository/StudentRepository.java:15 | a stored student with that email, present exactly when existsByEmail holds |
| StudentRepository.FindByCurrentSchool | src/main/java/com/courseregistration/repository/StudentRepository.java:17 | exactly the students of that school |
| StudentRepository.FindByNameContaining | src/main/java/com/courseregistration/repository/StudentRepository.java:19-20 | exactly the students whose first or last name contains the string |
| StudentRepository.EmptyFragmentFindsEveryStudent | src/main/java/com/courseregistration/repository/StudentRepository.java:19-20 | an empty fragment (`LIKE '%%'`) returns the whole table, and every student is found by their own first name and by their own last name |
| StudentRepository.FindByAgeGreaterThan | src/main/java/com/courseregistration/repository/StudentRepository.java:22-23 | exactly the students born on or after the date, who are therefore no older than someone born then |
| StudentRepository.ExistsByEmail | src/main/java/com/courseregistration/repository/StudentRepository.java:25 | true exactly when some student has that email |
| SubjectServices.IndexOfSubject | src/main/java/com/courseregistration/service/SubjectService.java:93-94 | findById: the position of a row with that id, absent exactly when no row has it |
| SubjectServices.IndexOfSubjectIsTheRow | src/main/java/com/courseregistration/service/SubjectService.java:93-94 | with unique ids, findById finds the one row with the id |
| SubjectServices.ExistsByIdMeansSomeRow | src/main/java/com/courseregistration/service/SubjectService.java:76 | existsById holds exactly when some row has the id |
| SubjectServices.SubjectService.constructor | src/main/java/com/courseregistration/service/SubjectService.java:16-19 | the service starts over an empty subject table, which keeps ids unique and records no enrollment |
| SubjectServices.SubjectService.CreateSubject | src/main/java/com/courseregistration/service/SubjectService.java:74-90 | fails on an existing id, then on a non-blank prerequisite that is not stored; otherwise appends the converted subject with enrollment 0; keeps ids unique |
| SubjectServices.UpdatedSubject | src/main/java/com/courseregistration/service/SubjectService.java:103-108 | the five setters replace name, credits, instructor, prerequisite and capacity and keep the id and enrollment |
| SubjectServices.SubjectService.UpdateSubject | src/main/java/com/courseregistration/service/SubjectService.java:92-112 | fails on an unknown id, then on a missing prerequisite; otherwise replaces only that row by the updated one, with no check of the capacity against the enrollment |
| SubjectServices.SubjectService.DeleteSubject | src/main/java/com/courseregistration/service/SubjectService.java:114-119 | fails on an unknown id; otherwise removes exactly that row, and every other row stays |
| SubjectServices.SubjectService.UpdateEnrollmentCount | src/main/java/com/courseregistration/service/SubjectService.java:121-128 | fails exactly for an unknown id and changes nothing |
| SubjectServices.IsSubjectAvailable | src/main/java/com/courseregistration/service/SubjectService.java:130-133 | false for an unknown id; with unique ids, true exactly when the subject's row is available |
| SubjectServices.SubjectHasPrerequisite | src/main/java/com/courseregistration/service/SubjectService.java:135-138 | false for an unknown id; with unique ids, true exactly when the subject's row has a prerequisite |
| SubjectServices.GetPrerequisiteSubjectId | src/main/java/com/courseregistration/service/SubjectService.java:140-144 | fails exactly for an unknown id; otherwise the prerequisite of a row with that id |
| SubjectServices.ConvertToDTO | src/main/java/com/courseregistration/service/SubjectService.java:147-158 | all seven fields are copied, the enrollment included |
| SubjectServices.ConvertToEntity | src/main/java/com/courseregistration/service/SubjectService.java:160-169 | the entity built from a DTO has enrollment 0 |
| SubjectServices.ConversionRoundTrips | src/main/java/com/courseregistration/service/SubjectService.java:147-169 | entity → DTO → entity keeps the six constructor fields and resets the enrollment to 0; DTO → entity → DTO does the same |
| StudentServices.IndexOfStudent | src/main/java/com/courseregistration/service/StudentService.java:72-73 | findById: the position of a row with that id, absent exactly when no row has it |
| StudentServices.CreateRejection | src/main/java/com/courseregistration/service/StudentService.java:50-64 | createStudent throws, in this order, on a duplicate id, a duplicate email, an age under 15, and on nothing else |
| StudentServices.StudentService.constructor | src/main/java/com/courseregistration/service/StudentService.java:17-20 | the service starts over an empty student table, with unique ids and emails |
| StudentServices.StudentService.CreateStudent | src/main/java/com/courseregistration/service/StudentService.java:50-69 | a rejected student changes nothing; otherwise the converted student is appended; ids and emails stay unique |
| StudentServices.UpdateRejection | src/main/java/com/courseregistration/service/StudentService.java:71-84 | updateStudent throws, in this order, on an unknown id, on a changed email that a row already holds, and on an age under 15; with unique ids it goes ahead exactly when the id is stored, the age is at least 15 and the email is the student's own or nobody's, so a student may keep their own email |
| StudentServices.UpdatedStudent | src/main/java/com/courseregistration/service/StudentService.java:86-92 | the six setters take every field but the id from the DTO |
| StudentServices.StudentService.UpdateStudent | src/main/java/com/courseregistration/service/StudentService.java:71-96 | a rejected update changes nothing; otherwise only that row is replaced and keeps its id; ids and emails stay unique |
| StudentServices.StudentService.DeleteStudent | src/main/java/com/courseregistration/service/StudentService.java:98-103 | fails on an unknown id; otherwise removes exactly that row |
| StudentServices.IsStudentEligible | src/main/java/com/courseregistration/service/StudentService.java:105-108 | false for an unknown id; with unique ids, true exactly when that student is at least 15 |
| StudentServices.StoredStudentEligibility | src/main/java/com/courseregistration/service/StudentService.java:105-108 | a student just appended is eligible exactly when old enough |
| StudentServices.IndexOfAppended | src/main/java/com/courseregistration/service/StudentService.java:105-108 | findById locates an appended student with a new id in the last position (induction over the table) |
| StudentServices.ConvertToDTO | src/main/java/com/courseregistration/service/StudentService.java:111-121 | all seven fields are copied |
| StudentServices.ConvertToEntity | src/main/java/com/courseregistration/service/StudentService.java:123-133 | all seven fields are copied through the seven-argument constructor |
| StudentServices.ConversionRoundTrips | src/main/java/com/courseregistration/service/StudentService.java:111-133 | the two conversions are inverse to each other on all seven fields and keep the age |
| RegistrationServices.IndexOfRegistration | src/main/java/com/courseregistration/service/RegistrationService.java:105-106 | findById: the first position holding that id, absent exactly when no row has it |
| RegistrationServices.IndexOfRegistrationByPosition | src/main/java/com/courseregistration/service/RegistrationService.java:105-106 | with identity ids, registration n is found in position n - 1, and ids outside 1..size are not found |
| RegistrationServices.HasCompletedPrerequisite | src/main/java/com/courseregistration/service/RegistrationService.java:162-165 | true exactly when some registration of the student for the prerequisite is COMPLETED, hence false on an empty table |
| RegistrationServices.RegisterRejection | src/main/java/com/courseregistration/service/RegistrationService.java:72-92 | registration goes ahead exactly when the student is eligible, the subject available, the pair has no ACTIVE registration and any prerequisite is completed; the checks come in the source's order: an ineligible student, then an unavailable subject, then an ACTIVE registration of the pair, then an uncompleted prerequisite, which is the subject's stored prerequisite |
| RegistrationServices.RegistrationService.constructor | src/main/java/com/courseregistration/service/RegistrationService.java:20-35 | the service is wired to the given student and subject services and starts over an empty registration table |
| RegistrationServices.RegistrationService.RegisterStudent | src/main/java/com/courseregistration/service/RegistrationService.java:67-102 | a rejection saves nothing; otherwise exactly one ACTIVE registration for the pair is appended with the next id; no student or subject changes |
| RegistrationServices.AvailabilityIgnoresRegistrations | src/main/java/com/courseregistration/service/RegistrationService.java:77-79 | while no enrollment is recorded, a subject is available exactly when it exists with capacity -1 or positive, however many registrations it has |
| RegistrationServices.CancelStep | src/main/java/com/courseregistration/service/RegistrationService.java:104-119 | cancel fails, changing nothing, on an unknown id, a registration not ACTIVE or a missing subject (rollback); otherwise only that registration's status becomes CANCELLED |
| RegistrationServices.RegistrationService.CancelRegistration | src/main/java/com/courseregistration/service/RegistrationService.java:104-119 | the result and the new table are those of CancelStep; no student or subject changes |
| RegistrationServices.CompleteStep | src/main/java/com/courseregistration/service/RegistrationService.java:121-133 | complete fails, changing nothing, on an unknown id or a registration not ACTIVE; otherwise only that registration's status becomes COMPLETED; the subject is never consulted |
| RegistrationServices.RegistrationService.CompleteRegistration | src/main/java/com/courseregistration/service/RegistrationService.java:121-133 | the result and the new table are those of CompleteStep; no student or subject changes |
| RegistrationServices.IndexOfRegistrationAfterUpdate | src/main/java/com/courseregistration/service/RegistrationService.java:112-113 | saving a registration with the same id leaves it where findById finds it |
| RegistrationServices.FinalStatusesStayFinal | src/main/java/com/courseregistration/service/RegistrationService.java:108-110 | cancel and complete refuse a CANCELLED or COMPLETED registration with "not active" and change nothing |
| RegistrationServices.SecondStatusChangeFails | src/main/java/com/courseregistration/service/RegistrationService.java:125-127 | after a successful cancel or complete, cancelling or completing the same id again fails with "not active" and changes nothing |
| RegistrationServices.GetAvailableSubjectsForStudent | src/main/java/com/courseregistration/service/RegistrationService.java:135-160 | exactly the stored subject ids the student holds no ACTIVE registration for, in findAll order, with no capacity or prerequisite filter |
| ConsoleApp.RegisterRejection | SimpleCourseRegistrationApp.java:188-239 | registration goes ahead exactly when the student is stored and at least 15, the subject stored, the pair has no ACTIVE registration, any prerequisite is COMPLETED and the subject is available; each refusal is pinned to the first failing check in the source's order, capacity last |
| ConsoleApp.CourseRegistrationApp.constructor | SimpleCourseRegistrationApp.java:13-16 | the three maps start empty and the registration counter at 1, a consistent store |
| ConsoleApp.CourseRegistrationApp.HasActiveRegistration | SimpleCourseRegistrationApp.java:210-216 | the loop over the registrations finds an ACTIVE one of the pair exactly when one exists |
| ConsoleApp.CourseRegistrationApp.CompletedPrerequisite | SimpleCourseRegistrationApp.java:219-228 | the loop finds a COMPLETED registration of the student for the prerequisite exactly when one exists |
| ConsoleApp.CourseRegistrationApp.RegisterStudent | SimpleCourseRegistrationApp.java:181-251 | a rejection changes no map and not the counter; otherwise one ACTIVE registration is stored under the counter's value, which is above every id in use, the counter advances by one, the subject's enrollment rises by one and nothing else changes; the store stays consistent |
| ConsoleApp.CourseRegistrationApp.CancelRegistration | SimpleCourseRegistrationApp.java:522-540 | an unknown id or a registration not ACTIVE changes nothing; otherwise that registration becomes CANCELLED and its subject's enrollment drops by one; the store stays consistent |
| ConsoleApp.CourseRegistrationApp.AddNewStudent | SimpleCourseRegistrationApp.java:330-384 | refuses, in this order, an id not matching `^69\d{6}$`, a stored id and a birth date after today; otherwise stores the student under its id |
| ConsoleApp.CourseRegistrationApp.AddNewSubject | SimpleCourseRegistrationApp.java:386-449 | refuses, in this order, a bad id, a stored id, credits ≤ 0, a non-empty prerequisite that is not stored and a capacity other than -1 or positive; otherwise stores the subject with enrollment 0, an empty prerequisite as null |
| ConsoleApp.CourseRegistrationApp.AvailableSubjects | SimpleCourseRegistrationApp.java:458-508 | nothing for an unknown student; otherwise exactly the subjects with no ACTIVE registration of the student, available, and with any prerequisite completed |
| ConsoleApp.ListingIgnoresAge | SimpleCourseRegistrationApp.java:458-478 | the listing has no age check: for a stored student under 15, every subject passing the subject checks is listed, yet registerStudent refuses it as too young |
| ConsoleApp.ListedIffAccepted | SimpleCourseRegistrationApp.java:467-508 | for a stored student aged at least 15, a subject is listed exactly when registerStudent would accept it |
| ConsoleApp.PrerequisiteNeverMet | SimpleCourseRegistrationApp.java:219-233 | since nothing stored is COMPLETED, a subject with a prerequisite is never accepted and never listed |
| ConsoleApp.EnrollmentWithinBounds | SimpleCourseRegistrationApp.java:592-594 | in a consistent store an enrollment is never negative and never above a limited capacity |
| ConsoleApp.ActiveKeysAfterAdd | SimpleCourseRegistrationApp.java:242-244 | storing a new ACTIVE registration adds one to its subject's ACTIVE count and to no other |
| ConsoleApp.ActiveKeysAfterCancel | SimpleCourseRegistrationApp.java:539-540 | cancelling an ACTIVE registration takes one from its subject's ACTIVE count and from no other |
| ConsoleApp.NoActiveKeysForNewSubject | SimpleCourseRegistrationApp.java:398-401 | a subject id not yet stored has no ACTIVE registrations, so a new subject's enrollment of 0 is its count |
| Divergences.CheckOrderDiffers | src/main/java/com/courseregistration/service/RegistrationService.java:72-84 | for every pair of stores: a student old enough holding an ACTIVE registration for the subject is refused by the console as already registered whatever the subject's capacity, while the service refuses an eligible student for an unavailable subject as unavailable whatever the registrations |
| Divergences.SpringListKeepsRefusedSubjects | src/main/java/com/courseregistration/service/RegistrationService.java:146-149 | the service lists an unavailable subject that its own registerStudent refuses |

## Left out

- Console input and output are not modelled: the menu loop, the prompts, the press-Enter pauses and all printing. The read-only views `displayAllStudents`, `displayAllSubjects`, `displayStudentRegistrations` and `displaySubjectDetails` only print, so they are left out too.
- Text parsing is not modelled: `LocalDate.parse`, `Integer.parseInt` and `Long.parseLong`, and their exception messages. Operations take already-parsed values, and the console takes its inputs already trimmed.
- `initializeSampleData` is not modelled. It is a fixed fixture, and the console model starts from empty maps. The sample store satisfies the same invariant: every capacity is positive and no registration exists.
- Clocks: `LocalDate.now()` is the `today` parameter. The registration timestamps (`LocalDateTime.now()`) are not modelled, because nothing depends on them.
- Concurrency is not modelled: `ConcurrentHashMap` and the check-then-act race between concurrent requests. Every operation is one sequential step.
- `@Transactional` is modelled only as the rollback of the Spring cancel when the subject row is gone.
- JPA machinery is not modelled:
  - bean validation (`@Pattern`, `@Min`, `@NotBlank` and so on) at persist time;
  - lazy associations;
  - cascades. With `CascadeType.ALL`, deleting a student or subject would also delete its registrations; `DeleteSubject` and `DeleteStudent` do not model that.
  - `@GeneratedValue` is modelled as the next position in the table.
- RegistrationRepository.FindByStudentIdAndSubjectId: the JPQL path `r.subject.subjectId` is an inner join, so it skips registrations whose subject row is gone. The model filters on the registration's own subject id.
- SQL `LIKE` is modelled only as prefix and substring matching. Wildcard characters in the argument and database collation are not modelled.
- Integer widths are not modelled: `int`, `Integer` and `long` are unbounded here, so a wrap-around of an enrollment or of the registration counter is not represented.
- The getters and setters are record updates. The service listing methods (`getAll…`, `get…By…`, `search…`) only map a modelled query through the modelled conversion, so they have no members of their own.
- The no-argument constructors of `Registration`, `Subject`, `Student` and `SubjectDTO` are not modelled. They leave the string fields null; the model has no null strings, and the services never call these constructors.
- `StudentDTO.java` is not part of this model. Its `getAge` is taken to equal `Student.getAge`.
- `RegistrationDTO`, `RegistrationRequestDTO`, the controllers, `DataInitializer` and the security configuration are not modelled. A service result is the saved registration itself, not its DTO.
- Map iteration order in the console is unspecified, so its listings are sets.
- ConsoleApp.ListedIffAccepted: stated only for a stored student aged at least 15. The listing has no age check, so for a younger student it and the registration guards disagree; `ConsoleApp.ListingIgnoresAge` states that case.
- ConsoleApp.CourseRegistrationApp.CancelRegistration: requires the invariant, which rules out the source's failure when a cancelled registration's subject is missing. No console operation removes a subject, so that case does not arise.
- StudentRepository.FindByEmail: returns the first matching student, where Spring would fail with an incorrect-result-size error if two rows shared an email. The student service keeps emails unique (`UniqueEmails` is part of its invariant), so two matches do not arise on the modelled path.
