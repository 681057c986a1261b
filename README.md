# College timetable generator and course memberships — Dafny model

This project models the core of a small Flask college-management application:

- the seeding script's lookup from a group's specialty code to the names of
  its courses (`get_courses_for_specialty`);
- the greedy timetable generator `create_schedule`. It walks the groups,
  weekdays 1 to 5 and up to four slots a day. Each cell gets one of the
  group's courses, the first free teacher and the first free room, and the
  generator then books that teacher and that room for the (day, slot). A
  teacher of the course is preferred; failing that, any free teacher is
  taken;
- the seeded course catalog and groups, used as a fixture: every seeded
  group is shown to get at least ten courses;
- the role-guarded course-membership operations of `User`. A teacher adds
  and removes courses they teach; a student enrols in and leaves courses.

Files and modules:

- `specialty.dfy` (module `Specialty`): the specialty lookup.
- `generator.dfy` (module `Generator`): the generator. Occupancy is a set of
  (id, day, slot) triples. Each loop level is a method that takes and returns
  a `Placement` (the two occupancy sets and the rows created so far). The
  random choices are inputs (`DayDraw`).
- `seed.dfy` (module `Seed`): the seeded catalog and groups.
- `users.dfy` (module `Users`): the `User` class, whose methods change its
  fields in place. Each method is specified by a function on a `Membership`
  value.

The central guarantees proved about `Generator.CreateSchedule`:

- no teacher and no room is ever given two rows at the same (day, slot);
- every row's teacher and room are exactly the greedy choice made against the
  bookings of the rows before it in the result;
- the rows come in the order the source creates them: all rows of an earlier
  group come before any row of a later group, and a group's rows are in
  (day, slot) order;
- every row lies on days 1..5 and in slots 1..4, has week type `all`, and
  belongs to one of the groups; its slot is at most the number of courses
  that group sampled for that day, and its course is the one sampled for
  that slot;
- within one group and day, slots and courses are pairwise different;
- every drawn cell is settled: each (group, day, slot) the group drew holds
  a row with the course sampled for that slot, unless at the end no teacher
  or no room is free at that (day, slot). Cells are skipped only when they
  cannot be filled;
- every drawn cell is filled in its group's turn: the cell holds its row iff
  some teacher and some room were free there against the rows of the groups
  before it;
- with no teachers, no rows are created.

When fewer courses are available than slots, the fallback copies the group's
own courses. It does not draw from the whole catalog. Since `day_courses` is
empty when the filter runs, each day's sample is drawn from the group's own
courses either way, without repetition.

## Model

| member | source | states |
|---|---|---|
| Specialty.OccursIsSubstring | create_new_data.py:146-167 | `Occurs`, the model of Python's substring test `code in specialty` used at lines 146, 153, 160 and 167, holds iff the code is the slice of the specialty at some position. |
| Specialty.CoursesForSpecialty | create_new_data.py:145-178 | Every bucket, the default included, names English and physical education, and holds 5 to 11 names. |
| Specialty.BucketIdentifiesCode | create_new_data.py:145-178 | Each code's bucket is returned exactly when that code is a substring and no earlier-tested code is; the default bucket is returned exactly when no code occurs. |
| Specialty.SeededCodesSelectTheirBuckets | create_new_data.py:145-173 | No seeded code contains a code tested before it, so each of the four codes used for groups selects its own bucket. |
| Specialty.FirstCodeWins | create_new_data.py:146-153 | An illustration of the test order: a specialty containing both "ИС" and "ПКС" gets the "ПКС" bucket. |
| Generator.CourseIds | create_new_data.py:201 | The ids are exactly the courses' ids: every course's id is among them and every id is some course's; there are no more ids than courses. |
| Generator.GroupCourses | create_new_data.py:200-201 | A course is in the result iff it is a catalog course whose name is in the specialty's list; the result is no longer than the catalog. |
| Generator.DistinctIdsIdentify | create_new_data.py:184-201 | A catalog whose ids are pairwise different lists no course twice, and its ids identify its courses. |
| Generator.CoursesOfGroup | create_new_data.py:200-201 | A course is one of the group's iff it is a catalog course whose name is in the bucket for the group's specialty. |
| Generator.GroupCoursesLowerBound | create_new_data.py:201 | If each of a set of ids belongs to a catalog course named in the list, the group gets at least that many courses. |
| Generator.Without | create_new_data.py:212 | A course is kept iff it is in the list and not excluded. |
| Generator.WithoutNothing | create_new_data.py:208-214 | Excluding the empty `day_courses` keeps the whole list in order. So the fallback copy and the filtered list are the same list, and the day's sample is drawn from the group's courses either way. |
| Generator.TeachersOf | create_new_data.py:221 | A teacher is kept iff they are listed and teach the course. |
| Generator.FirstInFilter | create_new_data.py:221-230 | The first free teacher of the filtered list is the first free teacher of the course in the full list. |
| Generator.FindFreeTeacher | create_new_data.py:225-237 | The index returned is the first free teacher; the end of the list is returned only when none is free. |
| Generator.FindFreeRoom | create_new_data.py:243-248 | The index returned is the first free room; the end of the list is returned only when none is free. |
| Generator.ChooseTeacher | create_new_data.py:221-237 | The result is the greedy choice: the first free teacher of the course, else the first free teacher, else none. A teacher is found iff some listed teacher is free, and a found teacher is listed and free. |
| Generator.GreedyTeacherUnique | create_new_data.py:221-237 | The greedy choice is unique: two results meeting it are equal. |
| Generator.GreedyTeacherListed | create_new_data.py:225-237 | A greedily chosen teacher is listed and free at the (day, slot). |
| Generator.GreedyRoomListed | create_new_data.py:243-248 | A greedily chosen room is listed and free at the (day, slot). |
| Generator.PlaceCell | create_new_data.py:218-269 | One cell keeps the invariant (busy sets equal the rows' keys, no double booking, every row greedy). It adds a row iff a teacher and a room are free, and otherwise changes nothing. An added row is the one row for this group, course, day and slot, with week type `all`, and exactly its teacher's and room's keys are booked. |
| Generator.GreedilyGrownIsGood | create_new_data.py:254-269 | Appending a row whose teacher and room are the greedy free choices, and booking both keys, keeps the invariant. |
| Generator.CellFreeAgrees | create_new_data.py:227-228 | Whether a cell is free depends only on the bookings of that (day, slot). |
| Generator.CellFreeShrinks | create_new_data.py:268-269 | Bookings only grow, so a cell that is not free stays not free. |
| Generator.ScheduleDay | create_new_data.py:207-269 | One day keeps the invariant and only appends. Slot s holds the s-th sampled course, in slot order. Slot s gets a row iff some teacher and some room were free at (day, s) when the day began. Only this day's sampled slots are booked. Every new row's course belongs to the group, and no course is repeated that day. |
| Generator.DayFillStep | create_new_data.py:218-269 | One slot of the day loop: the slot is filled iff it was free at the start of the day, and later slots' bookings are untouched. |
| Generator.DayCoursesDistinct | create_new_data.py:216-219 | A day's rows carry courses of the group, none twice. |
| Generator.ScheduleGroup | create_new_data.py:197-219 | One group keeps the invariant and adds only that group's rows, on days 1..5 and in (day, slot) order, each with the course sampled for its day and slot. Cell (d, s) of the sample gets a row iff a teacher and a room were free there before the group began. A group with no courses is skipped and adds nothing. |
| Generator.GroupDayStep | create_new_data.py:207-219 | One day of the group loop keeps every invariant of that loop other than `Good`, which `ScheduleDay` ensures. |
| Generator.DayOrderStep | create_new_data.py:207-218 | Rows of a new day in slot order, appended after rows of earlier days, keep the group's rows in (day, slot) order. |
| Generator.GroupPairsStep | create_new_data.py:207-218 | A new day's rows, in increasing slots with distinct courses, keep slots and courses apart within each day. |
| Generator.GroupFillStep | create_new_data.py:207-219 | One day of the group loop: the day's cells are filled iff they were free before the group, and later days' bookings are untouched. |
| Generator.CreateSchedule | create_new_data.py:180-272 | No teacher or room is double-booked, and every row is the greedy choice. Rows lie on days 1..5, slots 1..4, week type `all`. Each row's group is listed, its slot is within that group's sample for the day, and its course is the one sampled for that slot. Slots and courses are distinct within a group and day. Every sampled cell holds its row unless no teacher or no room is free there in the final bookings. No row of a later group precedes a row of an earlier group, and each group's rows are in (day, slot) order. Every sampled cell of group g holds its row iff a teacher and a room were free there against the rows of groups[..g]. With no teachers there are no rows. |
| Generator.OuterStep | create_new_data.py:197-271 | One group of the outer loop keeps every invariant of that loop other than `Good`, which `ScheduleGroup` ensures. |
| Generator.CellOrderStep | create_new_data.py:197-264 | Appending a new group's rows in (day, slot) order keeps every group's rows in (day, slot) order. |
| Generator.NothingFreeWithoutTeachers | create_new_data.py:188-190 | With no teachers no cell is free, so the empty result settles every sampled cell and fills each in turn. |
| Generator.RowsOf | create_new_data.py:197 | The filter keeps exactly the rows whose group is in the set, and is no longer than its input. |
| Generator.RowsOfAppend | create_new_data.py:197 | Filtering distributes over concatenation. |
| Generator.RowsOfAll | create_new_data.py:197 | Rows all in the set are kept whole, in order. |
| Generator.RowsOfNone | create_new_data.py:197 | Rows none of which is in the set filter to nothing. |
| Generator.OrderStep | create_new_data.py:197-271 | Appending one group's rows after the rows of earlier groups keeps the rows in group order. |
| Generator.EarlierGroupsOnly | create_new_data.py:197 | Before group i's turn, every row belongs to one of groups[..i], and none to group i. |
| Generator.LaterRowsFilteredOut | create_new_data.py:197 | Appending rows of group i does not change the rows of groups[..g] for g <= i. |
| Generator.InTurnStep | create_new_data.py:197-271 | After each group, its cells and those of every earlier group are filled in their turn. |
| Generator.EarlierCellInTurn | create_new_data.py:197-271 | An earlier group's cell keeps its in-turn filling when a later group's rows are appended. |
| Generator.OwnCellInTurn | create_new_data.py:207-269 | A cell of the group just placed is filled iff it was free against exactly the rows placed before that group. |
| Generator.InTurnKept | create_new_data.py:197-271 | Rows of a later group do not change whether an earlier group has a given row. |
| Generator.InTurnNew | create_new_data.py:218-264 | The group just placed has its sampled row in a cell iff it filled that cell. |
| Generator.SettledStep | create_new_data.py:197-272 | After each group, every sampled cell of it and of earlier groups holds its row or cannot be filled. |
| Generator.SettledKept | create_new_data.py:264-269 | A settled cell stays settled as rows are appended and bookings grow. |
| Generator.SettledNew | create_new_data.py:239-269 | A cell of the group just placed is settled, because it was filled iff it was free. |
| Generator.ChosenRowsUseListedResources | create_new_data.py:221-257 | Every greedy row names a listed teacher and a listed room; with no teachers or no rooms no row exists. |
| Generator.ExtendsTransitive | create_new_data.py:264-269 | Appending rows and growing busy sets composes across steps. |
| Seed.SeededCourses | create_new_data.py:39-86 | The catalog has the 36 courses in list order, with consecutive ids. |
| Seed.SeededGroups | create_new_data.py:92-112 | The ten groups get consecutive ids. |
| Seed.SeededKeysAreUnique | create_new_data.py:39-106 | Seeded course ids are pairwise different, and so are seeded group ids. |
| Seed.BucketNamesAreSeeded | create_new_data.py:39-80 | Every name of every bucket is a seeded course name. |
| Seed.IdsAt | create_new_data.py:82-86 | The ids at distinct increasing catalog positions are that many distinct ids. |
| Seed.CoveredBy | create_new_data.py:200-201 | Catalog names at increasing positions that are all in the list give the group at least that many courses. |
| Seed.SoftwareBucketIsLarge | create_new_data.py:146-152 | The "ПКС" bucket matches at least 10 seeded courses. |
| Seed.InfoSystemsBucketIsLarge | create_new_data.py:153-159 | The "ИС" bucket matches at least 10 seeded courses. |
| Seed.EconomicsBucketIsLarge | create_new_data.py:160-166 | The "ЭК" bucket matches at least 11 seeded courses. |
| Seed.ManagementBucketIsLarge | create_new_data.py:167-173 | The "МН" bucket matches at least 11 seeded courses. |
| Seed.SeededGroupIsScheduled | create_new_data.py:92-106 | Each seeded group gets at least ten courses. |
| Seed.SeededGroupsAreScheduled | create_new_data.py:203-216 | No seeded group is skipped, and every day's sample has exactly as many courses as slots were drawn. |
| Users.AddTeaching | app/models.py:75-77 | The course is taught afterwards iff it was taught before or the user is a teacher. Other courses, the role and enrolments are untouched. The user changes iff they are a teacher and the course was absent. |
| Users.RemoveTeaching | app/models.py:79-81 | The course is taught afterwards iff it was taught and the user is not a teacher. Nothing else changes. The user changes iff they are a teacher and the course was present. |
| Users.Enroll | app/models.py:84-86 | The same rule as adding a taught course, on enrolments, guarded by role 'student'; courses taught are untouched. |
| Users.Unenroll | app/models.py:88-90 | The same rule as removing a taught course, on enrolments, guarded by role 'student'. |
| Users.User.constructor | app/models.py:34 | A new user has role 'student' and no memberships. |
| Users.User.AddTeachingCourse | app/models.py:75-77 | Updates the user in place exactly as `AddTeaching` says; nothing else changes. |
| Users.User.RemoveTeachingCourse | app/models.py:79-81 | Updates the user in place exactly as `RemoveTeaching` says. |
| Users.User.EnrollInCourse | app/models.py:84-86 | Updates the user in place exactly as `Enroll` says. |
| Users.User.UnenrollFromCourse | app/models.py:88-90 | Updates the user in place exactly as `Unenroll` says. |
| Users.AddTeachingIdempotent | app/models.py:75-77 | Adding a course to teach twice is the same as adding it once. |
| Users.AddThenRemoveRestores | app/models.py:75-81 | For a teacher and a course not yet taught, adding and then removing restores the user. |
| Users.EnrollThenUnenrollRestores | app/models.py:84-90 | For a student and a course not yet enrolled, enrolling and then leaving restores the user. |
| Users.NewUserIgnoresTeacherOperations | app/models.py:34-81 | A new user is a student, so both teacher operations leave them unchanged. |
| Users.RolesAreExclusive | app/models.py:75-90 | If a teacher operation changes a user, both student operations leave that user unchanged, and the other way round. |

## Left out

- Database persistence is not modelled: clearing tables, the id-sequence reset, `db.session.add`/`commit` (once per group) and the queries that load groups, courses, teachers and rooms. Rows are collected in a sequence, and the loaded lists are inputs.
- The teacher query's `role='teacher'` filter is not modelled. The teacher list is an input, assumed to hold exactly those users.
- Randomness: `random.choice([3, 4])` and `random.sample` are inputs (`DayDraw`). The model states which outcomes are possible, not their distribution.
- Console messages (progress, warnings, the banner) are not modelled; they do not affect the outcome.
- Seeded course descriptions, the seeded rooms' capacity, building and type, and the groups' year, number and size limit are not modelled; the generator never reads them.
- The seed's first ids are parameters, because the script ignores a failure to reset the id counters.
- Courses are identified by id in teacher and user memberships, where the source compares ORM objects.
- `User` columns other than `role` and the two course collections (name, e-mail, password hash, avatar, posts, last seen, attendance) are not modelled; they are not part of the course-membership operations.
- The two course collections are write-only relationships of the database library, and the library is not part of this model. The methods, and the teacher filter at create_new_data.py:221, use `in`, `append`, `add` and `remove` on them. These are modelled with set semantics, the behaviour the code evidently intends. Whether the library supports these operations on a write-only collection is not modelled; if it does not, those lines raise an error as written.
- Users.User.constructor: starts the user with role 'student'. In the source that is a column default, applied when the row is inserted; a user not yet saved reads its role as empty (None). The model describes the user as stored.
- Models other than `User`, forms, routes, migrations and `update_group_limits.py` are not part of this model.
