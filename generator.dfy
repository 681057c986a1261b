/**
 * The timetable placement generator (create_new_data.py, create_schedule):
 * a greedy, non-backtracking pass over groups, weekdays 1..5 and slots that
 * gives each cell the first free teacher (preferring teachers of the course)
 * and the first free room, and books both for that (day, slot).
 *
 * The source keeps its occupancy dictionaries and the rows it hands to the
 * database session in local variables of one function; here they travel in a
 * Placement value that each loop level takes and returns. Randomness enters as
 * the DayDraw inputs.
 */
module Generator {
  import Specialty

  datatype Option<T> = None | Some(value: T)

  datatype Course = Course(id: int, name: string)
  datatype Group = Group(id: int, name: string, specialty: string)
  /** A user with role 'teacher', with the ids of the courses they teach. */
  datatype Teacher = Teacher(id: int, teachingCourses: set<int>)
  datatype Room = Room(id: int, number: string)

  /** One Schedule row handed to the database session. */
  datatype ScheduleRow = ScheduleRow(
    groupId: int, courseId: int, teacherId: int, roomId: int,
    day: int, slot: int, weekType: string)

  /**
   * An occupancy key (id, day, slot). The source builds the string
   * f"{id}_{day}_{slot}"; integer ids contain no '_', so that string is
   * determined by the triple and determines it.
   */
  type Key = (int, int, int)

  /** The generator's state: the two occupancy sets and the rows added so far. */
  datatype Placement = Placement(teacherBusy: set<Key>, roomBusy: set<Key>, rows: seq<ScheduleRow>)

  /**
   * The random choices for one (group, day): `numSlots` from random.choice([3, 4])
   * and `picked` from random.sample.
   */
  datatype DayDraw = DayDraw(numSlots: int, picked: seq<Course>)

  const WeekTypeAll := "all"
  const FirstDay := 1
  const LastDay := 5

  function Min(a: int, b: int): int { if a <= b then a else b }

  // ---------------------------------------------------------------------------
  // Course selection for a group

  /** The ids that occur in a list of courses. */
  function CourseIds(cs: seq<Course>): (ids: set<int>)
    ensures forall c :: c in cs ==> c.id in ids
    ensures forall id :: id in ids ==> exists c :: c in cs && c.id == id
    ensures |ids| <= |cs|
  {
    if cs == [] then {} else {cs[0].id} + CourseIds(cs[1..])
  }

  /** Course ids identify courses, as primary keys do. */
  ghost predicate IdsIdentify(cs: seq<Course>) {
    forall i, j :: 0 <= i < |cs| && 0 <= j < |cs| && cs[i].id == cs[j].id ==> cs[i] == cs[j]
  }

  /** The catalog courses whose name is in `names`, in catalog order. */
  function GroupCourses(courses: seq<Course>, names: seq<string>): (gc: seq<Course>)
    ensures forall c :: c in gc <==> c in courses && c.name in names
    ensures |gc| <= |courses|
  {
    if courses == [] then []
    else (if courses[0].name in names then [courses[0]] else []) + GroupCourses(courses[1..], names)
  }

  /** The courses a group is scheduled from. */
  function CoursesOfGroup(courses: seq<Course>, g: Group): (gc: seq<Course>)
    ensures forall c :: c in gc <==> c in courses && c.name in Specialty.CoursesForSpecialty(g.specialty)
  {
    GroupCourses(courses, Specialty.CoursesForSpecialty(g.specialty))
  }

  /** Course ids are pairwise different, as the primary keys of a catalog query are. */
  ghost predicate DistinctIds(cs: seq<Course>) {
    forall i, j :: 0 <= i < j < |cs| ==> cs[i].id != cs[j].id
  }

  /** A catalog without repeated ids lists no course twice, so its ids identify its courses. */
  lemma DistinctIdsIdentify(cs: seq<Course>)
    requires DistinctIds(cs)
    ensures IdsIdentify(cs)
    ensures forall i, j :: 0 <= i < j < |cs| ==> cs[i] != cs[j]
  {
  }

  lemma IdsIdentifySublist(courses: seq<Course>, sub: seq<Course>)
    requires IdsIdentify(courses)
    requires forall c :: c in sub ==> c in courses
    ensures IdsIdentify(sub)
  {
    forall i, j | 0 <= i < |sub| && 0 <= j < |sub| && sub[i].id == sub[j].id
      ensures sub[i] == sub[j]
    {
      assert sub[i] in courses && sub[j] in courses;
    }
  }

  /**
   * If every id in `ids` belongs to a catalog course named in `names`, the
   * group gets at least |ids| courses.
   */
  lemma GroupCoursesLowerBound(courses: seq<Course>, names: seq<string>, ids: set<int>)
    requires forall id :: id in ids ==> exists c :: c in courses && c.id == id && c.name in names
    ensures |GroupCourses(courses, names)| >= |ids|
  {
    var gc := GroupCourses(courses, names);
    forall id | id in ids ensures id in CourseIds(gc) {
      var c :| c in courses && c.id == id && c.name in names;
      assert c in gc;
    }
    SubsetNoLarger(ids, CourseIds(gc));
  }

  lemma SubsetNoLarger(a: set<int>, b: set<int>)
    requires a <= b
    ensures |a| <= |b|
  {
    assert b == a + (b - a);
    assert a * (b - a) == {};
  }

  /** The courses of `cs` not in `excluded` (the comprehension over day_courses). */
  function Without(cs: seq<Course>, excluded: seq<Course>): (r: seq<Course>)
    ensures forall c :: c in r <==> c in cs && c !in excluded
  {
    if cs == [] then []
    else (if cs[0] in excluded then [] else [cs[0]]) + Without(cs[1..], excluded)
  }

  /** Excluding nothing keeps the whole list, in order. */
  lemma {:induction false} WithoutNothing(cs: seq<Course>)
    ensures Without(cs, []) == cs
  {
    if cs != [] {
      WithoutNothing(cs[1..]);
      assert [cs[0]] + cs[1..] == cs;
    }
  }

  /** An outcome random.sample(groupCourses, min(numSlots, |groupCourses|)) can produce. */
  ghost predicate ValidDraw(d: DayDraw, groupCourses: seq<Course>) {
    && (d.numSlots == 3 || d.numSlots == 4)
    && |d.picked| == Min(d.numSlots, |groupCourses|)
    && (forall i :: 0 <= i < |d.picked| ==> d.picked[i] in groupCourses)
    && (forall i, j :: 0 <= i < j < |d.picked| ==> d.picked[i] != d.picked[j])
  }

  /** The draws of one group: one per weekday 1..5. */
  ghost predicate ValidDraws(ds: seq<DayDraw>, groupCourses: seq<Course>) {
    |ds| == LastDay && forall i :: 0 <= i < |ds| ==> ValidDraw(ds[i], groupCourses)
  }

  // ---------------------------------------------------------------------------
  // Occupancy bookkeeping

  function TeacherKey(r: ScheduleRow): Key { (r.teacherId, r.day, r.slot) }
  function RoomKey(r: ScheduleRow): Key { (r.roomId, r.day, r.slot) }

  ghost function TeacherKeys(rows: seq<ScheduleRow>): set<Key> {
    set r | r in rows :: TeacherKey(r)
  }

  ghost function RoomKeys(rows: seq<ScheduleRow>): set<Key> {
    set r | r in rows :: RoomKey(r)
  }

  /** The busy sets hold exactly the keys of the rows added so far. */
  ghost predicate Consistent(p: Placement) {
    p.teacherBusy == TeacherKeys(p.rows) && p.roomBusy == RoomKeys(p.rows)
  }

  /** No teacher and no room has two rows at the same (day, slot). */
  ghost predicate NoDoubleBooking(rows: seq<ScheduleRow>) {
    forall i, j :: 0 <= i < j < |rows| ==>
      TeacherKey(rows[i]) != TeacherKey(rows[j]) && RoomKey(rows[i]) != RoomKey(rows[j])
  }

  predicate IsFree(id: int, busy: set<Key>, day: int, slot: int) {
    (id, day, slot) !in busy
  }

  predicate Teaches(t: Teacher, courseId: int) {
    courseId in t.teachingCourses
  }

  // ---------------------------------------------------------------------------
  // What a greedy choice is, stated declaratively

  ghost predicate SomeFree(ts: seq<Teacher>, busy: set<Key>, day: int, slot: int) {
    exists i :: 0 <= i < |ts| && IsFree(ts[i].id, busy, day, slot)
  }

  ghost predicate SomeFreeTeaching(ts: seq<Teacher>, courseId: int, busy: set<Key>, day: int, slot: int) {
    exists i :: 0 <= i < |ts| && Teaches(ts[i], courseId) && IsFree(ts[i].id, busy, day, slot)
  }

  ghost predicate SomeFreeRoom(rooms: seq<Room>, busy: set<Key>, day: int, slot: int) {
    exists i :: 0 <= i < |rooms| && IsFree(rooms[i].id, busy, day, slot)
  }

  /** Position `i` holds the first free teacher of `ts`. */
  ghost predicate FirstFreeAt(ts: seq<Teacher>, busy: set<Key>, day: int, slot: int, i: int) {
    && 0 <= i < |ts| && IsFree(ts[i].id, busy, day, slot)
    && forall j :: 0 <= j < i ==> !IsFree(ts[j].id, busy, day, slot)
  }

  /** Position `i` holds the first free teacher of `ts` among those teaching `courseId`. */
  ghost predicate FirstFreeTeachingAt(ts: seq<Teacher>, courseId: int, busy: set<Key>, day: int, slot: int, i: int) {
    && 0 <= i < |ts| && Teaches(ts[i], courseId) && IsFree(ts[i].id, busy, day, slot)
    && forall j :: 0 <= j < i && Teaches(ts[j], courseId) ==> !IsFree(ts[j].id, busy, day, slot)
  }

  /** Position `i` holds the first free room of `rooms`. */
  ghost predicate FirstFreeRoomAt(rooms: seq<Room>, busy: set<Key>, day: int, slot: int, i: int) {
    && 0 <= i < |rooms| && IsFree(rooms[i].id, busy, day, slot)
    && forall j :: 0 <= j < i ==> !IsFree(rooms[j].id, busy, day, slot)
  }

  /**
   * The teacher the generator gives a cell: the first free teacher of the
   * course if there is one, else the first free teacher at all, else none.
   */
  ghost predicate GreedyTeacher(ts: seq<Teacher>, courseId: int, busy: set<Key>, day: int, slot: int,
                                found: Option<Teacher>) {
    if SomeFreeTeaching(ts, courseId, busy, day, slot) then
      exists i :: FirstFreeTeachingAt(ts, courseId, busy, day, slot, i) && found == Some(ts[i])
    else if SomeFree(ts, busy, day, slot) then
      exists i :: FirstFreeAt(ts, busy, day, slot, i) && found == Some(ts[i])
    else
      found == None
  }

  /** The room the generator gives a cell: the first free one, else none. */
  ghost predicate GreedyRoom(rooms: seq<Room>, busy: set<Key>, day: int, slot: int, found: Option<Room>) {
    if SomeFreeRoom(rooms, busy, day, slot) then
      exists i :: FirstFreeRoomAt(rooms, busy, day, slot, i) && found == Some(rooms[i])
    else
      found == None
  }

  /** The greedy teacher choice is a function of its inputs: there is one answer. */
  lemma GreedyTeacherUnique(ts: seq<Teacher>, courseId: int, busy: set<Key>, day: int, slot: int,
                            f1: Option<Teacher>, f2: Option<Teacher>)
    requires GreedyTeacher(ts, courseId, busy, day, slot, f1)
    requires GreedyTeacher(ts, courseId, busy, day, slot, f2)
    ensures f1 == f2
  {
    if SomeFreeTeaching(ts, courseId, busy, day, slot) {
      var i1 :| FirstFreeTeachingAt(ts, courseId, busy, day, slot, i1) && f1 == Some(ts[i1]);
      var i2 :| FirstFreeTeachingAt(ts, courseId, busy, day, slot, i2) && f2 == Some(ts[i2]);
      assert !(i1 < i2) && !(i2 < i1);
    } else if SomeFree(ts, busy, day, slot) {
      var i1 :| FirstFreeAt(ts, busy, day, slot, i1) && f1 == Some(ts[i1]);
      var i2 :| FirstFreeAt(ts, busy, day, slot, i2) && f2 == Some(ts[i2]);
      assert !(i1 < i2) && !(i2 < i1);
    }
  }

  // ---------------------------------------------------------------------------
  // The searches

  /** The teachers of `ts` who teach `courseId`, in list order (course_teachers). */
  function TeachersOf(ts: seq<Teacher>, courseId: int): (r: seq<Teacher>)
    ensures forall t :: t in r <==> t in ts && Teaches(t, courseId)
  {
    if ts == [] then []
    else (if Teaches(ts[0], courseId) then [ts[0]] else []) + TeachersOf(ts[1..], courseId)
  }

  /**
   * The first free teacher of the filtered list is the first free teacher of
   * the course in the whole list.
   */
  lemma {:induction false} FirstInFilter(ts: seq<Teacher>, courseId: int, busy: set<Key>, day: int, slot: int, k: int)
    requires 0 <= k < |TeachersOf(ts, courseId)|
    requires FirstFreeAt(TeachersOf(ts, courseId), busy, day, slot, k)
    ensures exists i :: FirstFreeTeachingAt(ts, courseId, busy, day, slot, i) && ts[i] == TeachersOf(ts, courseId)[k]
  {
    var f := TeachersOf(ts, courseId);
    var rest := TeachersOf(ts[1..], courseId);
    if Teaches(ts[0], courseId) {
      assert f == [ts[0]] + rest;
      if k == 0 {
        assert FirstFreeTeachingAt(ts, courseId, busy, day, slot, 0);
      } else {
        assert FirstFreeAt(rest, busy, day, slot, k - 1) by {
          assert forall j :: 0 <= j < k - 1 ==> rest[j] == f[j + 1];
        }
        FirstInFilter(ts[1..], courseId, busy, day, slot, k - 1);
        var i :| FirstFreeTeachingAt(ts[1..], courseId, busy, day, slot, i) && ts[1..][i] == rest[k - 1];
        assert !IsFree(f[0].id, busy, day, slot);
        assert FirstFreeTeachingAt(ts, courseId, busy, day, slot, i + 1) by {
          forall j | 0 <= j < i + 1 && Teaches(ts[j], courseId)
            ensures !IsFree(ts[j].id, busy, day, slot)
          {
            if j > 0 { assert ts[j] == ts[1..][j - 1]; }
          }
        }
      }
    } else {
      assert f == rest;
      FirstInFilter(ts[1..], courseId, busy, day, slot, k);
      var i :| FirstFreeTeachingAt(ts[1..], courseId, busy, day, slot, i) && ts[1..][i] == rest[k];
      assert FirstFreeTeachingAt(ts, courseId, busy, day, slot, i + 1) by {
        forall j | 0 <= j < i + 1 && Teaches(ts[j], courseId)
          ensures !IsFree(ts[j].id, busy, day, slot)
        {
          assert j > 0;
          assert ts[j] == ts[1..][j - 1];
        }
      }
    }
  }

  /**
   * The loop over candidates that stops at the first teacher whose key is not
   * busy. Returns its position; |candidates| stands for "none found".
   */
  method FindFreeTeacher(candidates: seq<Teacher>, busy: set<Key>, day: int, slot: int) returns (k: nat)
    ensures k <= |candidates|
    ensures k < |candidates| ==> FirstFreeAt(candidates, busy, day, slot, k)
    ensures k == |candidates| ==> !SomeFree(candidates, busy, day, slot)
  {
    k := 0;
    while k < |candidates|
      invariant k <= |candidates|
      invariant forall j :: 0 <= j < k ==> !IsFree(candidates[j].id, busy, day, slot)
    {
      if IsFree(candidates[k].id, busy, day, slot) {
        break;
      }
      k := k + 1;
    }
  }

  /** The loop over rooms that stops at the first free one; |rooms| stands for "none found". */
  method FindFreeRoom(rooms: seq<Room>, busy: set<Key>, day: int, slot: int) returns (k: nat)
    ensures k <= |rooms|
    ensures k < |rooms| ==> FirstFreeRoomAt(rooms, busy, day, slot, k)
    ensures k == |rooms| ==> !SomeFreeRoom(rooms, busy, day, slot)
  {
    k := 0;
    while k < |rooms|
      invariant k <= |rooms|
      invariant forall j :: 0 <= j < k ==> !IsFree(rooms[j].id, busy, day, slot)
    {
      if IsFree(rooms[k].id, busy, day, slot) {
        break;
      }
      k := k + 1;
    }
  }

  /**
   * Teacher selection for one cell: search the course's teachers (all
   * teachers if the course has none), then fall back to all teachers.
   * A teacher is found exactly when some teacher is free.
   */
  method ChooseTeacher(teachers: seq<Teacher>, courseId: int, busy: set<Key>, day: int, slot: int)
    returns (found: Option<Teacher>)
    ensures GreedyTeacher(teachers, courseId, busy, day, slot, found)
    ensures found.Some? <==> SomeFree(teachers, busy, day, slot)
    ensures found.Some? ==> found.value in teachers && IsFree(found.value.id, busy, day, slot)
  {
    var courseTeachers := TeachersOf(teachers, courseId);
    var filtered := courseTeachers != [];
    if !filtered {
      courseTeachers := teachers;
    }
    found := None;
    var k := FindFreeTeacher(courseTeachers, busy, day, slot);
    if k < |courseTeachers| {
      found := Some(courseTeachers[k]);
    }
    if found.None? {
      var k2 := FindFreeTeacher(teachers, busy, day, slot);
      if k2 < |teachers| {
        found := Some(teachers[k2]);
      }
    }

    if filtered && k < |courseTeachers| {
      FirstInFilter(teachers, courseId, busy, day, slot, k);
    } else if !filtered {
      assert !SomeFreeTeaching(teachers, courseId, busy, day, slot) by {
        forall i | 0 <= i < |teachers| ensures !Teaches(teachers[i], courseId) {
          assert teachers[i] !in TeachersOf(teachers, courseId);
        }
      }
    } else {
      assert !SomeFreeTeaching(teachers, courseId, busy, day, slot) by {
        forall i | 0 <= i < |teachers| && Teaches(teachers[i], courseId)
          ensures !IsFree(teachers[i].id, busy, day, slot)
        {
          assert teachers[i] in courseTeachers;
        }
      }
    }
  }

  // ---------------------------------------------------------------------------
  // Placement

  /** The row at position `k` got the greedy teacher and room for the rows before it. */
  ghost predicate ChosenGreedily(teachers: seq<Teacher>, rooms: seq<Room>, rows: seq<ScheduleRow>, k: int)
    requires 0 <= k < |rows|
  {
    && (exists t :: GreedyTeacher(teachers, rows[k].courseId, TeacherKeys(rows[..k]), rows[k].day, rows[k].slot, Some(t))
                    && t.id == rows[k].teacherId)
    && (exists rm :: GreedyRoom(rooms, RoomKeys(rows[..k]), rows[k].day, rows[k].slot, Some(rm))
                     && rm.id == rows[k].roomId)
  }

  ghost predicate AllChosenGreedily(teachers: seq<Teacher>, rooms: seq<Room>, rows: seq<ScheduleRow>) {
    forall k :: 0 <= k < |rows| ==> ChosenGreedily(teachers, rooms, rows, k)
  }

  /** The invariant every placement step keeps. */
  ghost predicate Good(teachers: seq<Teacher>, rooms: seq<Room>, p: Placement) {
    Consistent(p) && NoDoubleBooking(p.rows) && AllChosenGreedily(teachers, rooms, p.rows)
  }

  /** `q` extends `p`: rows are only appended and the busy sets only grow. */
  ghost predicate Extends(p: Placement, q: Placement) {
    && |p.rows| <= |q.rows| && q.rows[..|p.rows|] == p.rows
    && p.teacherBusy <= q.teacherBusy && p.roomBusy <= q.roomBusy
  }

  predicate RowFor(r: ScheduleRow, groupId: int, courseId: int, day: int, slot: int) {
    r.groupId == groupId && r.courseId == courseId && r.day == day && r.slot == slot && r.weekType == WeekTypeAll
  }

  /**
   * One cell: choose a teacher, then a room; if either is missing skip the cell
   * (nothing changes), otherwise add the row and book both.
   */
  method PlaceCell(p: Placement, groupId: int, course: Course, teachers: seq<Teacher>, rooms: seq<Room>,
                   day: int, slot: int) returns (q: Placement)
    requires Good(teachers, rooms, p)
    ensures Good(teachers, rooms, q) && Extends(p, q)
    ensures q.rows != p.rows <==> SomeFree(teachers, p.teacherBusy, day, slot) && SomeFreeRoom(rooms, p.roomBusy, day, slot)
    ensures q.rows == p.rows ==> q == p
    ensures q.rows != p.rows ==> |q.rows| == |p.rows| + 1 && RowFor(q.rows[|p.rows|], groupId, course.id, day, slot)
    ensures q.rows != p.rows ==>
      q.teacherBusy == p.teacherBusy + {TeacherKey(q.rows[|p.rows|])} && q.roomBusy == p.roomBusy + {RoomKey(q.rows[|p.rows|])}
  {
    var found := ChooseTeacher(teachers, course.id, p.teacherBusy, day, slot);
    if found.None? {
      return p;
    }
    var k := FindFreeRoom(rooms, p.roomBusy, day, slot);
    if k == |rooms| {
      return p;
    }
    var teacher, room := found.value, rooms[k];
    var row := ScheduleRow(groupId, course.id, teacher.id, room.id, day, slot, WeekTypeAll);
    q := Placement(p.teacherBusy + {(teacher.id, day, slot)}, p.roomBusy + {(room.id, day, slot)}, p.rows + [row]);
    assert GreedyRoom(rooms, p.roomBusy, day, slot, Some(room));
    GreedilyGrownIsGood(teachers, rooms, p, row, teacher, room);
  }

  /** Appending a row whose teacher and room are the greedy choices, and booking both, keeps the invariant. */
  lemma GreedilyGrownIsGood(teachers: seq<Teacher>, rooms: seq<Room>, p: Placement, row: ScheduleRow,
                            teacher: Teacher, room: Room)
    requires Good(teachers, rooms, p)
    requires GreedyTeacher(teachers, row.courseId, p.teacherBusy, row.day, row.slot, Some(teacher)) && teacher.id == row.teacherId
    requires GreedyRoom(rooms, p.roomBusy, row.day, row.slot, Some(room)) && room.id == row.roomId
    requires IsFree(teacher.id, p.teacherBusy, row.day, row.slot) && IsFree(room.id, p.roomBusy, row.day, row.slot)
    ensures Good(teachers, rooms, Placement(p.teacherBusy + {TeacherKey(row)}, p.roomBusy + {RoomKey(row)}, p.rows + [row]))
  {
    var rows := p.rows + [row];
    assert rows[..|p.rows|] == p.rows;
    assert TeacherKeys(rows) == TeacherKeys(p.rows) + {TeacherKey(row)};
    assert RoomKeys(rows) == RoomKeys(p.rows) + {RoomKey(row)};
    assert NoDoubleBooking(rows) by {
      forall i, j | 0 <= i < j < |rows|
        ensures TeacherKey(rows[i]) != TeacherKey(rows[j]) && RoomKey(rows[i]) != RoomKey(rows[j])
      {
        if j == |p.rows| {
          assert rows[i] in p.rows;
        }
      }
    }
    assert AllChosenGreedily(teachers, rooms, rows) by {
      forall n | 0 <= n < |rows| ensures ChosenGreedily(teachers, rooms, rows, n) {
        if n < |p.rows| {
          assert rows[..n] == p.rows[..n];
          assert ChosenGreedily(teachers, rooms, p.rows, n);
        } else {
          assert rows[..n] == p.rows;
        }
      }
    }
  }

  /** Every row added after position `from` is a row of group `groupId` on `day`. */
  ghost predicate DayRows(rows: seq<ScheduleRow>, from: int, groupId: int, day: int, picked: seq<Course>)
    requires 0 <= from <= |rows|
  {
    && (forall k :: from <= k < |rows| ==>
          && 1 <= rows[k].slot <= |picked|
          && RowFor(rows[k], groupId, picked[rows[k].slot - 1].id, day, rows[k].slot))
    && (forall k, l :: from <= k < l < |rows| ==> rows[k].slot < rows[l].slot)
  }

  /** Some row after position `from` sits in cell (day, slot). */
  ghost predicate Filled(rows: seq<ScheduleRow>, from: int, day: int, slot: int) {
    exists k :: 0 <= from <= k < |rows| && rows[k].day == day && rows[k].slot == slot
  }

  /** Cell (day, slot) can be given a row against these bookings: some teacher and some room are free there. */
  ghost predicate CellFree(teachers: seq<Teacher>, rooms: seq<Room>, teacherBusy: set<Key>, roomBusy: set<Key>,
                           day: int, slot: int) {
    SomeFree(teachers, teacherBusy, day, slot) && SomeFreeRoom(rooms, roomBusy, day, slot)
  }

  /** `b` and `c` hold the same keys, except perhaps keys of `day` at slots below `slot`. */
  ghost predicate SameOutside(b: set<Key>, c: set<Key>, day: int, slot: int) {
    forall id, d, s :: (d != day || slot <= s) ==> ((id, d, s) in b <==> (id, d, s) in c)
  }

  /** `b` and `c` hold the same keys on `day` and every later day. */
  ghost predicate SameFromDay(b: set<Key>, c: set<Key>, day: int) {
    forall id, d, s :: day <= d ==> ((id, d, s) in b <==> (id, d, s) in c)
  }

  /**
   * One (group, day): the source resets day_courses, so the courses available
   * are all of groupCourses, and the sample is taken from them; slot s gets
   * the s-th sampled course.
   */
  method ScheduleDay(p: Placement, groupId: int, groupCourses: seq<Course>, draw: DayDraw,
                     teachers: seq<Teacher>, rooms: seq<Room>, day: int) returns (q: Placement)
    requires Good(teachers, rooms, p)
    requires ValidDraw(draw, groupCourses) && IdsIdentify(groupCourses)
    ensures Good(teachers, rooms, q) && Extends(p, q)
    ensures DayRows(q.rows, |p.rows|, groupId, day, draw.picked)
    ensures forall k :: |p.rows| <= k < |q.rows| ==> q.rows[k].courseId in CourseIds(groupCourses)
    ensures forall k, l :: |p.rows| <= k < l < |q.rows| ==> q.rows[k].courseId != q.rows[l].courseId
    ensures forall s :: 1 <= s <= |draw.picked| ==>
      (Filled(q.rows, |p.rows|, day, s) <==> CellFree(teachers, rooms, p.teacherBusy, p.roomBusy, day, s))
    ensures SameOutside(q.teacherBusy, p.teacherBusy, day, |draw.picked| + 1)
    ensures SameOutside(q.roomBusy, p.roomBusy, day, |draw.picked| + 1)
  {
    var dayCourses: seq<Course> := [];
    var numSlots := draw.numSlots;
    var available := Without(groupCourses, dayCourses);
    if |available| < numSlots {
      available := groupCourses;
    }
    WithoutNothing(groupCourses);
    assert available == groupCourses && |draw.picked| == Min(numSlots, |available|);
    dayCourses := draw.picked;

    q := p;
    for slot := 1 to |dayCourses| + 1
      invariant Good(teachers, rooms, q) && Extends(p, q)
      invariant DayRows(q.rows, |p.rows|, groupId, day, dayCourses)
      invariant forall k :: |p.rows| <= k < |q.rows| ==> q.rows[k].slot < slot
      invariant forall s :: 1 <= s < slot ==>
        (Filled(q.rows, |p.rows|, day, s) <==> CellFree(teachers, rooms, p.teacherBusy, p.roomBusy, day, s))
      invariant SameOutside(q.teacherBusy, p.teacherBusy, day, slot) && SameOutside(q.roomBusy, p.roomBusy, day, slot)
    {
      ghost var before := q;
      q := PlaceCell(q, groupId, dayCourses[slot - 1], teachers, rooms, day, slot);
      ExtendsTransitive(p, before, q);
      DayFillStep(p, before, q, teachers, rooms, day, slot);
      DayRowsStep(before.rows, q.rows, |p.rows|, groupId, day, dayCourses, slot);
    }
    DayCoursesDistinct(q.rows, |p.rows|, groupId, day, draw, groupCourses);
  }

  /** The rows of one day carry courses of the group, no course twice. */
  lemma DayCoursesDistinct(rows: seq<ScheduleRow>, from: int, groupId: int, day: int, draw: DayDraw,
                           groupCourses: seq<Course>)
    requires 0 <= from <= |rows|
    requires DayRows(rows, from, groupId, day, draw.picked)
    requires ValidDraw(draw, groupCourses) && IdsIdentify(groupCourses)
    ensures forall k :: from <= k < |rows| ==> rows[k].courseId in CourseIds(groupCourses)
    ensures forall k, l :: from <= k < l < |rows| ==> rows[k].courseId != rows[l].courseId
  {
    var picked := draw.picked;
    forall k | from <= k < |rows| ensures rows[k].courseId in CourseIds(groupCourses) {
      assert picked[rows[k].slot - 1] in groupCourses;
    }
    forall k, l | from <= k < l < |rows| ensures rows[k].courseId != rows[l].courseId {
      var a, b := rows[k].slot - 1, rows[l].slot - 1;
      assert picked[a] != picked[b];
      assert picked[a] in groupCourses && picked[b] in groupCourses;
    }
  }

  /** Row a is at an earlier cell than row b: an earlier day, or the same day and an earlier slot. */
  predicate CellBefore(a: ScheduleRow, b: ScheduleRow) {
    a.day < b.day || (a.day == b.day && a.slot < b.slot)
  }

  /** From `from` on, the rows of each group come in cell order. */
  ghost predicate CellOrdered(rows: seq<ScheduleRow>, from: int) {
    forall k, l :: 0 <= from <= k < l < |rows| && rows[k].groupId == rows[l].groupId ==> CellBefore(rows[k], rows[l])
  }

  /** A row of the group at a drawn cell, holding the course drawn for that cell. */
  ghost predicate GroupRow(r: ScheduleRow, groupId: int, groupCourses: seq<Course>, draws: seq<DayDraw>) {
    && r.groupId == groupId && FirstDay <= r.day <= LastDay
    && 1 <= r.slot <= 4 && r.weekType == WeekTypeAll
    && r.courseId in CourseIds(groupCourses)
    && r.day <= |draws| && r.slot <= |draws[r.day - 1].picked|
    && r.courseId == draws[r.day - 1].picked[r.slot - 1].id
  }

  /** Every row after position `from` belongs to group `groupId`, on a weekday, with a course of the group. */
  ghost predicate GroupRows(rows: seq<ScheduleRow>, from: int, groupId: int, groupCourses: seq<Course>,
                            draws: seq<DayDraw>)
    requires 0 <= from <= |rows|
  {
    && (forall k :: from <= k < |rows| ==> GroupRow(rows[k], groupId, groupCourses, draws))
    && (forall k, l :: from <= k < l < |rows| && rows[k].day == rows[l].day ==>
          rows[k].slot != rows[l].slot && rows[k].courseId != rows[l].courseId)
  }

  /**
   * One group: resolve its courses; a group without courses is skipped,
   * otherwise weekdays 1..5 are placed in turn.
   */
  method ScheduleGroup(p: Placement, g: Group, courses: seq<Course>, draws: seq<DayDraw>,
                       teachers: seq<Teacher>, rooms: seq<Room>) returns (q: Placement)
    requires Good(teachers, rooms, p)
    requires ValidDraws(draws, CoursesOfGroup(courses, g)) && IdsIdentify(courses)
    ensures Good(teachers, rooms, q) && Extends(p, q)
    ensures GroupRows(q.rows, |p.rows|, g.id, CoursesOfGroup(courses, g), draws)
    ensures CellOrdered(q.rows, |p.rows|)
    ensures forall d, s :: FirstDay <= d <= LastDay && 1 <= s <= |draws[d - 1].picked| ==>
      (Filled(q.rows, |p.rows|, d, s) <==> CellFree(teachers, rooms, p.teacherBusy, p.roomBusy, d, s))
    ensures CoursesOfGroup(courses, g) == [] ==> q == p
  {
    var specialtyCourses := Specialty.CoursesForSpecialty(g.specialty);
    var groupCourses := GroupCourses(courses, specialtyCourses);
    if groupCourses == [] {
      assert forall j :: 0 <= j < |draws| ==> |draws[j].picked| == 0;
      return p;
    }
    IdsIdentifySublist(courses, groupCourses);

    q := p;
    for day := FirstDay to LastDay + 1
      invariant Good(teachers, rooms, q) && Extends(p, q)
      invariant GroupRows(q.rows, |p.rows|, g.id, groupCourses, draws)
      invariant forall k :: |p.rows| <= k < |q.rows| ==> q.rows[k].day < day
      invariant CellOrdered(q.rows, |p.rows|)
      invariant forall d, s :: FirstDay <= d < day && 1 <= s <= |draws[d - 1].picked| ==>
        (Filled(q.rows, |p.rows|, d, s) <==> CellFree(teachers, rooms, p.teacherBusy, p.roomBusy, d, s))
      invariant SameFromDay(q.teacherBusy, p.teacherBusy, day) && SameFromDay(q.roomBusy, p.roomBusy, day)
    {
      ghost var before := q;
      var draw := draws[day - 1];
      assert ValidDraw(draw, groupCourses);
      q := ScheduleDay(q, g.id, groupCourses, draw, teachers, rooms, day);
      GroupDayStep(p, before, q, g.id, groupCourses, teachers, rooms, draws, day);
    }
  }

  /**
   * The group of row `r` is one of groups[..n], its course is one of that
   * group's, and it sits in a slot the group drew for that day with the
   * course sampled for that slot.
   */
  ghost predicate RowOfGroups(r: ScheduleRow, groups: seq<Group>, n: int, courses: seq<Course>,
                              draws: seq<seq<DayDraw>>)
    requires 0 <= n <= |groups|
  {
    exists g :: 0 <= g < n && groups[g].id == r.groupId && r.courseId in CourseIds(CoursesOfGroup(courses, groups[g]))
      && g < |draws| && 1 <= r.day <= |draws[g]| && 1 <= r.slot <= |draws[g][r.day - 1].picked|
      && r.courseId == draws[g][r.day - 1].picked[r.slot - 1].id
  }

  /**
   * Every cell groups[..n] drew holds a row of that group with the course drawn
   * for it, unless no teacher or no room is free at that (day, slot) against
   * the bookings `tb` and `rb`.
   */
  ghost predicate Settled(groups: seq<Group>, draws: seq<seq<DayDraw>>, teachers: seq<Teacher>, rooms: seq<Room>,
                          rows: seq<ScheduleRow>, tb: set<Key>, rb: set<Key>, n: int) {
    forall g, d, s ::
      (0 <= g < n && g < |groups| && g < |draws| && FirstDay <= d <= LastDay && d <= |draws[g]|
       && 1 <= s <= |draws[g][d - 1].picked|) ==> DrawnCellSettled(groups, draws, g, d, s, teachers, rooms, rows, tb, rb)
  }

  /** Cell (d, s) of group g holds the row of the course drawn for it, or no teacher or no room is free there. */
  ghost predicate DrawnCellSettled(groups: seq<Group>, draws: seq<seq<DayDraw>>, g: int, d: int, s: int,
                                   teachers: seq<Teacher>, rooms: seq<Room>, rows: seq<ScheduleRow>,
                                   tb: set<Key>, rb: set<Key>)
    requires 0 <= g < |groups| && g < |draws| && 1 <= d <= |draws[g]| && 1 <= s <= |draws[g][d - 1].picked|
  {
    CellSettled(groups[g].id, draws[g][d - 1].picked[s - 1].id, teachers, rooms, rows, tb, rb, d, s)
  }

  /** The ids of groups[..n]. */
  ghost function GroupIdsBefore(groups: seq<Group>, n: int): set<int>
    requires 0 <= n <= |groups|
  {
    set i | 0 <= i < n :: groups[i].id
  }

  /** The rows whose group is in `ids`, in their order. */
  function RowsOf(rows: seq<ScheduleRow>, ids: set<int>): (r: seq<ScheduleRow>)
    ensures forall x :: x in r <==> x in rows && x.groupId in ids
    ensures |r| <= |rows|
  {
    if rows == [] then []
    else (if rows[0].groupId in ids then [rows[0]] else []) + RowsOf(rows[1..], ids)
  }

  /** No row of a later group comes before a row of an earlier group. */
  ghost predicate InGroupOrder(rows: seq<ScheduleRow>, groups: seq<Group>) {
    forall k, l, a, b :: 0 <= k < l < |rows| && 0 <= a < b < |groups| ==>
      !(rows[k].groupId == groups[b].id && rows[l].groupId == groups[a].id)
  }

  /**
   * Every cell groups[..n] drew holds its row iff some teacher and some room
   * were free there once the groups before it had been placed.
   */
  ghost predicate FilledInTurn(groups: seq<Group>, draws: seq<seq<DayDraw>>, teachers: seq<Teacher>, rooms: seq<Room>,
                               rows: seq<ScheduleRow>, n: int) {
    forall g, d, s ::
      (0 <= g < n && g < |groups| && g < |draws| && FirstDay <= d <= LastDay && d <= |draws[g]|
       && 1 <= s <= |draws[g][d - 1].picked|) ==> DrawnCellInTurn(groups, draws, g, d, s, teachers, rooms, rows)
  }

  /** Cell (d, s) of group g holds its drawn row iff it was free against the rows of groups[..g]. */
  ghost predicate DrawnCellInTurn(groups: seq<Group>, draws: seq<seq<DayDraw>>, g: int, d: int, s: int,
                                  teachers: seq<Teacher>, rooms: seq<Room>, rows: seq<ScheduleRow>)
    requires 0 <= g < |groups| && g < |draws| && 1 <= d <= |draws[g]| && 1 <= s <= |draws[g][d - 1].picked|
  {
    var earlier := RowsOf(rows, GroupIdsBefore(groups, g));
    (HasRow(rows, groups[g].id, draws[g][d - 1].picked[s - 1].id, d, s)
     <==> CellFree(teachers, rooms, TeacherKeys(earlier), RoomKeys(earlier), d, s))
  }

  ghost predicate HasRow(rows: seq<ScheduleRow>, groupId: int, courseId: int, d: int, s: int) {
    exists k :: 0 <= k < |rows| && RowFor(rows[k], groupId, courseId, d, s)
  }

  /** Cell (d, s) holds a row of the group with the course, or no teacher or no room is free there. */
  ghost predicate CellSettled(groupId: int, courseId: int, teachers: seq<Teacher>, rooms: seq<Room>,
                              rows: seq<ScheduleRow>, tb: set<Key>, rb: set<Key>, d: int, s: int) {
    (exists k :: 0 <= k < |rows| && RowFor(rows[k], groupId, courseId, d, s)) || !CellFree(teachers, rooms, tb, rb, d, s)
  }

  ghost predicate UniqueGroupIds(groups: seq<Group>) {
    forall i, j :: 0 <= i < j < |groups| ==> groups[i].id != groups[j].id
  }

  /** The rows of one group on one day hold pairwise different slots and courses. */
  ghost predicate DistinctWithinGroupDay(rows: seq<ScheduleRow>) {
    forall k, l :: 0 <= k < l < |rows| && rows[k].groupId == rows[l].groupId && rows[k].day == rows[l].day ==>
      rows[k].slot != rows[l].slot && rows[k].courseId != rows[l].courseId
  }

  /**
   * The whole generator. With no teachers nothing is created. Otherwise every
   * group is placed in turn, sharing one pair of occupancy sets, so that across
   * all groups no teacher and no room is ever given two rows at the same
   * (day, slot). A drawn cell is left empty only when, in the end, no
   * teacher or no room is free at its (day, slot).
   */
  method CreateSchedule(groups: seq<Group>, courses: seq<Course>, teachers: seq<Teacher>, rooms: seq<Room>,
                        draws: seq<seq<DayDraw>>) returns (rows: seq<ScheduleRow>)
    requires |draws| == |groups|
    requires forall g :: 0 <= g < |groups| ==> ValidDraws(draws[g], CoursesOfGroup(courses, groups[g]))
    requires DistinctIds(courses) && UniqueGroupIds(groups)
    ensures NoDoubleBooking(rows)
    ensures AllChosenGreedily(teachers, rooms, rows)
    ensures forall k :: 0 <= k < |rows| ==>
      && FirstDay <= rows[k].day <= LastDay && 1 <= rows[k].slot <= 4 && rows[k].weekType == WeekTypeAll
      && RowOfGroups(rows[k], groups, |groups|, courses, draws)
    ensures DistinctWithinGroupDay(rows)
    ensures Settled(groups, draws, teachers, rooms, rows, TeacherKeys(rows), RoomKeys(rows), |groups|)
    ensures InGroupOrder(rows, groups)
    ensures CellOrdered(rows, 0)
    ensures FilledInTurn(groups, draws, teachers, rooms, rows, |groups|)
    ensures teachers == [] ==> rows == []
  {
    DistinctIdsIdentify(courses);
    if teachers == [] {
      NothingFreeWithoutTeachers(groups, draws, rooms);
      return [];
    }
    var p := Placement({}, {}, []);
    for i := 0 to |groups|
      invariant Good(teachers, rooms, p)
      invariant forall k :: 0 <= k < |p.rows| ==>
        && FirstDay <= p.rows[k].day <= LastDay && 1 <= p.rows[k].slot <= 4 && p.rows[k].weekType == WeekTypeAll
        && RowOfGroups(p.rows[k], groups, i, courses, draws)
      invariant DistinctWithinGroupDay(p.rows)
      invariant Settled(groups, draws, teachers, rooms, p.rows, p.teacherBusy, p.roomBusy, i)
      invariant InGroupOrder(p.rows, groups)
      invariant CellOrdered(p.rows, 0)
      invariant FilledInTurn(groups, draws, teachers, rooms, p.rows, i)
    {
      ghost var before := p;
      p := ScheduleGroup(p, groups[i], courses, draws[i], teachers, rooms);
      OuterStep(before, p, groups, courses, draws, teachers, rooms, i);
    }
    rows := p.rows;
  }

  ghost function TeacherIds(ts: seq<Teacher>): set<int> { set t | t in ts :: t.id }
  ghost function RoomIds(rooms: seq<Room>): set<int> { set r | r in rooms :: r.id }

  /** Every row names a listed teacher and a listed room; so no teachers or no rooms means no rows. */
  lemma ChosenRowsUseListedResources(teachers: seq<Teacher>, rooms: seq<Room>, rows: seq<ScheduleRow>)
    requires AllChosenGreedily(teachers, rooms, rows)
    ensures forall k :: 0 <= k < |rows| ==> rows[k].teacherId in TeacherIds(teachers) && rows[k].roomId in RoomIds(rooms)
    ensures teachers == [] || rooms == [] ==> rows == []
  {
    forall k | 0 <= k < |rows|
      ensures rows[k].teacherId in TeacherIds(teachers) && rows[k].roomId in RoomIds(rooms)
    {
      assert ChosenGreedily(teachers, rooms, rows, k);
      var t :| GreedyTeacher(teachers, rows[k].courseId, TeacherKeys(rows[..k]), rows[k].day, rows[k].slot, Some(t))
               && t.id == rows[k].teacherId;
      var rm :| GreedyRoom(rooms, RoomKeys(rows[..k]), rows[k].day, rows[k].slot, Some(rm)) && rm.id == rows[k].roomId;
      GreedyTeacherListed(teachers, rows[k].courseId, TeacherKeys(rows[..k]), rows[k].day, rows[k].slot, t);
      GreedyRoomListed(rooms, RoomKeys(rows[..k]), rows[k].day, rows[k].slot, rm);
    }
    if rows != [] {
      assert rows[0].teacherId in TeacherIds(teachers) && rows[0].roomId in RoomIds(rooms);
    }
  }

  lemma GreedyTeacherListed(ts: seq<Teacher>, courseId: int, busy: set<Key>, day: int, slot: int, t: Teacher)
    requires GreedyTeacher(ts, courseId, busy, day, slot, Some(t))
    ensures t in ts && IsFree(t.id, busy, day, slot)
  {
    if SomeFreeTeaching(ts, courseId, busy, day, slot) {
      var i :| FirstFreeTeachingAt(ts, courseId, busy, day, slot, i) && Some(t) == Some(ts[i]);
    } else {
      var i :| FirstFreeAt(ts, busy, day, slot, i) && Some(t) == Some(ts[i]);
    }
  }

  lemma GreedyRoomListed(rooms: seq<Room>, busy: set<Key>, day: int, slot: int, rm: Room)
    requires GreedyRoom(rooms, busy, day, slot, Some(rm))
    ensures rm in rooms && IsFree(rm.id, busy, day, slot)
  {
    var i :| FirstFreeRoomAt(rooms, busy, day, slot, i) && Some(rm) == Some(rooms[i]);
  }

  // ---------------------------------------------------------------------------
  // Steps of the loop invariants, kept apart from the occupancy invariant

  lemma ExtendsTransitive(p: Placement, q: Placement, r: Placement)
    requires Extends(p, q) && Extends(q, r)
    ensures Extends(p, r)
  {
    assert r.rows[..|p.rows|] == r.rows[..|q.rows|][..|p.rows|];
  }

  /** A cell's freeness depends only on the keys of that cell. */
  lemma CellFreeAgrees(teachers: seq<Teacher>, rooms: seq<Room>, tb: set<Key>, rb: set<Key>,
                       tb2: set<Key>, rb2: set<Key>, d: int, s: int)
    requires forall id :: (id, d, s) in tb <==> (id, d, s) in tb2
    requires forall id :: (id, d, s) in rb <==> (id, d, s) in rb2
    ensures CellFree(teachers, rooms, tb, rb, d, s) <==> CellFree(teachers, rooms, tb2, rb2, d, s)
  {
    assert forall id :: IsFree(id, tb, d, s) <==> IsFree(id, tb2, d, s);
    assert forall id :: IsFree(id, rb, d, s) <==> IsFree(id, rb2, d, s);
  }

  /** More bookings never free a cell. */
  lemma CellFreeShrinks(teachers: seq<Teacher>, rooms: seq<Room>, tb: set<Key>, rb: set<Key>,
                        tb2: set<Key>, rb2: set<Key>, d: int, s: int)
    requires tb <= tb2 && rb <= rb2
    ensures CellFree(teachers, rooms, tb2, rb2, d, s) ==> CellFree(teachers, rooms, tb, rb, d, s)
  {
    if CellFree(teachers, rooms, tb2, rb2, d, s) {
      var i :| 0 <= i < |teachers| && IsFree(teachers[i].id, tb2, d, s);
      var j :| 0 <= j < |rooms| && IsFree(rooms[j].id, rb2, d, s);
      assert IsFree(teachers[i].id, tb, d, s) && IsFree(rooms[j].id, rb, d, s);
    }
  }

  /** One slot of the day loop: cell `slot` is filled iff it was free when the day began. */
  lemma DayFillStep(p: Placement, before: Placement, after: Placement, teachers: seq<Teacher>, rooms: seq<Room>,
                    day: int, slot: int)
    requires |p.rows| <= |before.rows|
    requires forall k :: |p.rows| <= k < |before.rows| ==> before.rows[k].day == day && before.rows[k].slot < slot
    requires forall s :: 1 <= s < slot ==>
      (Filled(before.rows, |p.rows|, day, s) <==> CellFree(teachers, rooms, p.teacherBusy, p.roomBusy, day, s))
    requires SameOutside(before.teacherBusy, p.teacherBusy, day, slot) && SameOutside(before.roomBusy, p.roomBusy, day, slot)
    requires after.rows != before.rows <==> CellFree(teachers, rooms, before.teacherBusy, before.roomBusy, day, slot)
    requires after.rows == before.rows ==> after == before
    requires after.rows != before.rows ==>
      && |after.rows| == |before.rows| + 1 && after.rows[..|before.rows|] == before.rows
      && after.rows[|before.rows|].day == day && after.rows[|before.rows|].slot == slot
      && after.teacherBusy == before.teacherBusy + {TeacherKey(after.rows[|before.rows|])}
      && after.roomBusy == before.roomBusy + {RoomKey(after.rows[|before.rows|])}
    ensures forall s :: 1 <= s < slot + 1 ==>
      (Filled(after.rows, |p.rows|, day, s) <==> CellFree(teachers, rooms, p.teacherBusy, p.roomBusy, day, s))
    ensures SameOutside(after.teacherBusy, p.teacherBusy, day, slot + 1) && SameOutside(after.roomBusy, p.roomBusy, day, slot + 1)
  {
    CellFreeAgrees(teachers, rooms, before.teacherBusy, before.roomBusy, p.teacherBusy, p.roomBusy, day, slot);
    var n := |before.rows|;
    if after.rows != before.rows {
      forall k | 0 <= k < n ensures after.rows[k] == before.rows[k] {
        assert after.rows[k] == after.rows[..n][k];
      }
      forall s | 1 <= s < slot ensures Filled(after.rows, |p.rows|, day, s) <==> Filled(before.rows, |p.rows|, day, s) {
        if Filled(after.rows, |p.rows|, day, s) {
          var k :| |p.rows| <= k < |after.rows| && after.rows[k].day == day && after.rows[k].slot == s;
          assert k < n;
        }
      }
      assert Filled(after.rows, |p.rows|, day, slot) by {
        assert after.rows[n].day == day && after.rows[n].slot == slot;
      }
    }
  }

  lemma DayRowsStep(before: seq<ScheduleRow>, after: seq<ScheduleRow>, from: int, groupId: int, day: int,
                    picked: seq<Course>, slot: int)
    requires 0 <= from <= |before| && 1 <= slot <= |picked|
    requires DayRows(before, from, groupId, day, picked)
    requires forall k :: from <= k < |before| ==> before[k].slot < slot
    requires after == before
          || (|after| == |before| + 1 && after[..|before|] == before
              && RowFor(after[|before|], groupId, picked[slot - 1].id, day, slot))
    ensures DayRows(after, from, groupId, day, picked)
    ensures forall k :: from <= k < |after| ==> after[k].slot < slot + 1
  {
    if after != before {
      forall k | from <= k < |before| ensures after[k] == before[k] {
        assert after[k] == after[..|before|][k];
      }
    }
  }

  lemma GroupRowsStep(before: seq<ScheduleRow>, after: seq<ScheduleRow>, from: int, groupId: int,
                      groupCourses: seq<Course>, draws: seq<DayDraw>, day: int)
    requires 0 <= from <= |before| <= |after| && after[..|before|] == before
    requires FirstDay <= day <= LastDay == |draws| && ValidDraw(draws[day - 1], groupCourses)
    requires GroupRows(before, from, groupId, groupCourses, draws)
    requires forall k :: from <= k < |before| ==> before[k].day < day
    requires DayRows(after, |before|, groupId, day, draws[day - 1].picked)
    requires forall k :: |before| <= k < |after| ==> after[k].courseId in CourseIds(groupCourses)
    requires forall k, l :: |before| <= k < l < |after| ==> after[k].courseId != after[l].courseId
    ensures GroupRows(after, from, groupId, groupCourses, draws)
    ensures forall k :: from <= k < |after| ==> after[k].day < day + 1
  {
    forall k | from <= k < |before| ensures after[k] == before[k] {
      assert after[k] == after[..|before|][k];
    }
    forall k | from <= k < |after| ensures GroupRow(after[k], groupId, groupCourses, draws) {
      if |before| <= k {
        assert after[k].slot <= |draws[day - 1].picked| <= draws[day - 1].numSlots;
      }
    }
    GroupPairsStep(before, after, from, day);
  }

  /** Rows of one new day, after rows of earlier days, keep slots and courses apart within each day. */
  lemma GroupPairsStep(before: seq<ScheduleRow>, after: seq<ScheduleRow>, from: int, day: int)
    requires 0 <= from <= |before| <= |after| && after[..|before|] == before
    requires forall k, l :: from <= k < l < |before| && before[k].day == before[l].day ==>
      before[k].slot != before[l].slot && before[k].courseId != before[l].courseId
    requires forall k :: from <= k < |before| ==> before[k].day < day
    requires forall k :: |before| <= k < |after| ==> after[k].day == day
    requires forall k, l :: |before| <= k < l < |after| ==> after[k].slot < after[l].slot
    requires forall k, l :: |before| <= k < l < |after| ==> after[k].courseId != after[l].courseId
    ensures forall k, l :: from <= k < l < |after| && after[k].day == after[l].day ==>
      after[k].slot != after[l].slot && after[k].courseId != after[l].courseId
  {
    forall k | from <= k < |before| ensures after[k] == before[k] {
      assert after[k] == after[..|before|][k];
    }
  }

  /** The rows of one day, in slot order after rows of earlier days, keep the rows in cell order. */
  lemma DayOrderStep(before: seq<ScheduleRow>, after: seq<ScheduleRow>, from: int, day: int)
    requires 0 <= from <= |before| <= |after| && after[..|before|] == before
    requires CellOrdered(before, from)
    requires forall k :: from <= k < |before| ==> before[k].day < day
    requires forall k :: |before| <= k < |after| ==> after[k].day == day
    requires forall k, l :: |before| <= k < l < |after| ==> after[k].slot < after[l].slot
    ensures CellOrdered(after, from)
  {
    forall k | from <= k < |before| ensures after[k] == before[k] {
      assert after[k] == after[..|before|][k];
    }
  }

  /** One day of ScheduleGroup's loop keeps all of the loop's invariants other than Good. */
  lemma GroupDayStep(p: Placement, before: Placement, after: Placement, groupId: int, groupCourses: seq<Course>,
                     teachers: seq<Teacher>, rooms: seq<Room>, draws: seq<DayDraw>, day: int)
    requires FirstDay <= day <= LastDay == |draws| && ValidDraw(draws[day - 1], groupCourses)
    requires Extends(p, before) && Extends(before, after)
    requires GroupRows(before.rows, |p.rows|, groupId, groupCourses, draws)
    requires forall k :: |p.rows| <= k < |before.rows| ==> before.rows[k].day < day
    requires CellOrdered(before.rows, |p.rows|)
    requires forall d, s :: FirstDay <= d < day && 1 <= s <= |draws[d - 1].picked| ==>
      (Filled(before.rows, |p.rows|, d, s) <==> CellFree(teachers, rooms, p.teacherBusy, p.roomBusy, d, s))
    requires SameFromDay(before.teacherBusy, p.teacherBusy, day) && SameFromDay(before.roomBusy, p.roomBusy, day)
    requires DayRows(after.rows, |before.rows|, groupId, day, draws[day - 1].picked)
    requires forall k :: |before.rows| <= k < |after.rows| ==> after.rows[k].courseId in CourseIds(groupCourses)
    requires forall k, l :: |before.rows| <= k < l < |after.rows| ==> after.rows[k].courseId != after.rows[l].courseId
    requires forall s :: 1 <= s <= |draws[day - 1].picked| ==>
      (Filled(after.rows, |before.rows|, day, s) <==> CellFree(teachers, rooms, before.teacherBusy, before.roomBusy, day, s))
    requires SameOutside(after.teacherBusy, before.teacherBusy, day, |draws[day - 1].picked| + 1)
    requires SameOutside(after.roomBusy, before.roomBusy, day, |draws[day - 1].picked| + 1)
    ensures Extends(p, after)
    ensures GroupRows(after.rows, |p.rows|, groupId, groupCourses, draws)
    ensures forall k :: |p.rows| <= k < |after.rows| ==> after.rows[k].day < day + 1
    ensures CellOrdered(after.rows, |p.rows|)
    ensures forall d, s :: FirstDay <= d < day + 1 && 1 <= s <= |draws[d - 1].picked| ==>
      (Filled(after.rows, |p.rows|, d, s) <==> CellFree(teachers, rooms, p.teacherBusy, p.roomBusy, d, s))
    ensures SameFromDay(after.teacherBusy, p.teacherBusy, day + 1) && SameFromDay(after.roomBusy, p.roomBusy, day + 1)
  {
    ExtendsTransitive(p, before, after);
    GroupFillStep(p, before, after, groupId, teachers, rooms, draws, day);
    GroupRowsStep(before.rows, after.rows, |p.rows|, groupId, groupCourses, draws, day);
    DayOrderStep(before.rows, after.rows, |p.rows|, day);
  }

  /** One day of the group loop: the day's cells are filled iff they were free when the group began. */
  lemma GroupFillStep(p: Placement, before: Placement, after: Placement, groupId: int,
                      teachers: seq<Teacher>, rooms: seq<Room>, draws: seq<DayDraw>, day: int)
    requires FirstDay <= day <= LastDay == |draws|
    requires |p.rows| <= |before.rows| <= |after.rows| && after.rows[..|before.rows|] == before.rows
    requires forall k :: |p.rows| <= k < |before.rows| ==> before.rows[k].day < day
    requires DayRows(after.rows, |before.rows|, groupId, day, draws[day - 1].picked)
    requires forall d, s :: FirstDay <= d < day && 1 <= s <= |draws[d - 1].picked| ==>
      (Filled(before.rows, |p.rows|, d, s) <==> CellFree(teachers, rooms, p.teacherBusy, p.roomBusy, d, s))
    requires SameFromDay(before.teacherBusy, p.teacherBusy, day) && SameFromDay(before.roomBusy, p.roomBusy, day)
    requires forall s :: 1 <= s <= |draws[day - 1].picked| ==>
      (Filled(after.rows, |before.rows|, day, s) <==> CellFree(teachers, rooms, before.teacherBusy, before.roomBusy, day, s))
    requires SameOutside(after.teacherBusy, before.teacherBusy, day, |draws[day - 1].picked| + 1)
    requires SameOutside(after.roomBusy, before.roomBusy, day, |draws[day - 1].picked| + 1)
    ensures forall d, s :: FirstDay <= d < day + 1 && 1 <= s <= |draws[d - 1].picked| ==>
      (Filled(after.rows, |p.rows|, d, s) <==> CellFree(teachers, rooms, p.teacherBusy, p.roomBusy, d, s))
    ensures SameFromDay(after.teacherBusy, p.teacherBusy, day + 1) && SameFromDay(after.roomBusy, p.roomBusy, day + 1)
  {
    var n := |before.rows|;
    forall k | 0 <= k < n ensures after.rows[k] == before.rows[k] {
      assert after.rows[k] == after.rows[..n][k];
    }
    forall d, s | FirstDay <= d < day + 1 && 1 <= s <= |draws[d - 1].picked|
      ensures Filled(after.rows, |p.rows|, d, s) <==> CellFree(teachers, rooms, p.teacherBusy, p.roomBusy, d, s)
    {
      if d < day {
        if Filled(after.rows, |p.rows|, d, s) {
          var k :| |p.rows| <= k < |after.rows| && after.rows[k].day == d && after.rows[k].slot == s;
          assert k < n;
        }
      } else {
        CellFreeAgrees(teachers, rooms, before.teacherBusy, before.roomBusy, p.teacherBusy, p.roomBusy, d, s);
        if Filled(after.rows, |p.rows|, d, s) {
          var k :| |p.rows| <= k < |after.rows| && after.rows[k].day == d && after.rows[k].slot == s;
          assert n <= k;
        }
      }
    }
  }

  /** One group of CreateSchedule's loop keeps all of the loop's invariants. */
  lemma OuterStep(before: Placement, after: Placement, groups: seq<Group>, courses: seq<Course>,
                  draws: seq<seq<DayDraw>>, teachers: seq<Teacher>, rooms: seq<Room>, i: int)
    requires 0 <= i < |groups| == |draws| && ValidDraws(draws[i], CoursesOfGroup(courses, groups[i]))
    requires UniqueGroupIds(groups)
    requires Good(teachers, rooms, before)
    requires forall k :: 0 <= k < |before.rows| ==>
      && FirstDay <= before.rows[k].day <= LastDay && 1 <= before.rows[k].slot <= 4
      && before.rows[k].weekType == WeekTypeAll
      && RowOfGroups(before.rows[k], groups, i, courses, draws)
    requires DistinctWithinGroupDay(before.rows)
    requires Settled(groups, draws, teachers, rooms, before.rows, before.teacherBusy, before.roomBusy, i)
    requires InGroupOrder(before.rows, groups) && CellOrdered(before.rows, 0)
    requires FilledInTurn(groups, draws, teachers, rooms, before.rows, i)
    requires Extends(before, after) && CellOrdered(after.rows, |before.rows|)
    requires GroupRows(after.rows, |before.rows|, groups[i].id, CoursesOfGroup(courses, groups[i]), draws[i])
    requires forall d, s :: FirstDay <= d <= LastDay && 1 <= s <= |draws[i][d - 1].picked| ==>
      (Filled(after.rows, |before.rows|, d, s) <==> CellFree(teachers, rooms, before.teacherBusy, before.roomBusy, d, s))
    ensures forall k :: 0 <= k < |after.rows| ==>
      && FirstDay <= after.rows[k].day <= LastDay && 1 <= after.rows[k].slot <= 4
      && after.rows[k].weekType == WeekTypeAll
      && RowOfGroups(after.rows[k], groups, i + 1, courses, draws)
    ensures DistinctWithinGroupDay(after.rows)
    ensures Settled(groups, draws, teachers, rooms, after.rows, after.teacherBusy, after.roomBusy, i + 1)
    ensures InGroupOrder(after.rows, groups) && CellOrdered(after.rows, 0)
    ensures FilledInTurn(groups, draws, teachers, rooms, after.rows, i + 1)
  {
    GroupsStep(before.rows, after.rows, groups, i, courses, draws);
    SettledStep(before, after, groups, draws, teachers, rooms, i, CoursesOfGroup(courses, groups[i]));
    OrderStep(before.rows, after.rows, groups, i, courses, draws);
    EarlierGroupsOnly(before.rows, groups, i, courses, draws);
    CellOrderStep(before.rows, after.rows, groups[i].id);
    InTurnStep(before, after, groups, draws, teachers, rooms, i, courses);
  }

  lemma GroupsStep(before: seq<ScheduleRow>, after: seq<ScheduleRow>, groups: seq<Group>, i: int, courses: seq<Course>,
                    draws: seq<seq<DayDraw>>)
    requires 0 <= i < |groups| == |draws| && UniqueGroupIds(groups)
    requires |before| <= |after| && after[..|before|] == before
    requires forall k :: 0 <= k < |before| ==>
      && FirstDay <= before[k].day <= LastDay && 1 <= before[k].slot <= 4 && before[k].weekType == WeekTypeAll
      && RowOfGroups(before[k], groups, i, courses, draws)
    requires DistinctWithinGroupDay(before)
    requires GroupRows(after, |before|, groups[i].id, CoursesOfGroup(courses, groups[i]), draws[i])
    ensures forall k :: 0 <= k < |after| ==>
      && FirstDay <= after[k].day <= LastDay && 1 <= after[k].slot <= 4 && after[k].weekType == WeekTypeAll
      && RowOfGroups(after[k], groups, i + 1, courses, draws)
    ensures DistinctWithinGroupDay(after)
  {
    forall k | 0 <= k < |before| ensures after[k] == before[k] {
      assert after[k] == after[..|before|][k];
    }
    forall k | 0 <= k < |after| ensures RowOfGroups(after[k], groups, i + 1, courses, draws) {
      if k < |before| {
        assert RowOfGroups(before[k], groups, i, courses, draws);
      } else {
        assert groups[i].id == after[k].groupId;
      }
    }
    // A row of an earlier group never shares its group id with a row of groups[i].
    forall k, l | 0 <= k < |before| <= l < |after|
      ensures after[k].groupId != after[l].groupId
    {
      assert RowOfGroups(before[k], groups, i, courses, draws);
    }
  }

  /** One group of the outer loop: the group's drawn cells become settled, and earlier groups' stay so. */
  lemma SettledStep(before: Placement, after: Placement, groups: seq<Group>, draws: seq<seq<DayDraw>>,
                    teachers: seq<Teacher>, rooms: seq<Room>, i: int, groupCourses: seq<Course>)
    requires 0 <= i < |groups| == |draws| && |draws[i]| == LastDay
    requires Extends(before, after)
    requires Settled(groups, draws, teachers, rooms, before.rows, before.teacherBusy, before.roomBusy, i)
    requires GroupRows(after.rows, |before.rows|, groups[i].id, groupCourses, draws[i])
    requires forall d, s :: FirstDay <= d <= LastDay && 1 <= s <= |draws[i][d - 1].picked| ==>
      (Filled(after.rows, |before.rows|, d, s) <==> CellFree(teachers, rooms, before.teacherBusy, before.roomBusy, d, s))
    ensures Settled(groups, draws, teachers, rooms, after.rows, after.teacherBusy, after.roomBusy, i + 1)
  {
    forall g, d, s | 0 <= g < i + 1 && g < |groups| && g < |draws| && FirstDay <= d <= LastDay && d <= |draws[g]|
      && 1 <= s <= |draws[g][d - 1].picked|
      ensures DrawnCellSettled(groups, draws, g, d, s, teachers, rooms, after.rows, after.teacherBusy, after.roomBusy)
    {
      var courseId := draws[g][d - 1].picked[s - 1].id;
      if g < i {
        assert DrawnCellSettled(groups, draws, g, d, s, teachers, rooms, before.rows, before.teacherBusy, before.roomBusy);
        SettledKept(before, after, groups[g].id, courseId, teachers, rooms, d, s);
      } else {
        SettledNew(before, after, groups[i].id, groupCourses, draws[i], teachers, rooms, d, s);
      }
    }
  }

  /** A settled cell stays settled when rows are appended and bookings grow. */
  lemma SettledKept(before: Placement, after: Placement, groupId: int, courseId: int,
                    teachers: seq<Teacher>, rooms: seq<Room>, d: int, s: int)
    requires Extends(before, after)
    requires CellSettled(groupId, courseId, teachers, rooms, before.rows, before.teacherBusy, before.roomBusy, d, s)
    ensures CellSettled(groupId, courseId, teachers, rooms, after.rows, after.teacherBusy, after.roomBusy, d, s)
  {
    CellFreeShrinks(teachers, rooms, before.teacherBusy, before.roomBusy, after.teacherBusy, after.roomBusy, d, s);
    var n := |before.rows|;
    if exists k :: 0 <= k < n && RowFor(before.rows[k], groupId, courseId, d, s) {
      var k :| 0 <= k < n && RowFor(before.rows[k], groupId, courseId, d, s);
      assert after.rows[k] == after.rows[..n][k];
    }
  }

  /** A drawn cell of the group just placed is settled: it was filled iff it was free. */
  lemma SettledNew(before: Placement, after: Placement, groupId: int, groupCourses: seq<Course>, draws: seq<DayDraw>,
                   teachers: seq<Teacher>, rooms: seq<Room>, d: int, s: int)
    requires Extends(before, after)
    requires FirstDay <= d <= LastDay == |draws| && 1 <= s <= |draws[d - 1].picked|
    requires GroupRows(after.rows, |before.rows|, groupId, groupCourses, draws)
    requires Filled(after.rows, |before.rows|, d, s) <==> CellFree(teachers, rooms, before.teacherBusy, before.roomBusy, d, s)
    ensures CellSettled(groupId, draws[d - 1].picked[s - 1].id, teachers, rooms, after.rows, after.teacherBusy, after.roomBusy, d, s)
  {
    CellFreeShrinks(teachers, rooms, before.teacherBusy, before.roomBusy, after.teacherBusy, after.roomBusy, d, s);
    if CellFree(teachers, rooms, after.teacherBusy, after.roomBusy, d, s) {
      var k :| |before.rows| <= k < |after.rows| && after.rows[k].day == d && after.rows[k].slot == s;
      assert RowFor(after.rows[k], groupId, draws[d - 1].picked[s - 1].id, d, s);
    }
  }

  /** Without teachers no cell is free, so the empty timetable settles every drawn cell. */
  lemma NothingFreeWithoutTeachers(groups: seq<Group>, draws: seq<seq<DayDraw>>, rooms: seq<Room>)
    ensures Settled(groups, draws, [], rooms, [], TeacherKeys([]), RoomKeys([]), |groups|)
    ensures FilledInTurn(groups, draws, [], rooms, [], |groups|)
  {
  }

  lemma {:induction false} RowsOfAppend(a: seq<ScheduleRow>, b: seq<ScheduleRow>, ids: set<int>)
    ensures RowsOf(a + b, ids) == RowsOf(a, ids) + RowsOf(b, ids)
  {
    if a == [] {
      assert a + b == b;
    } else {
      assert (a + b)[0] == a[0];
      assert (a + b)[1..] == a[1..] + b;
      RowsOfAppend(a[1..], b, ids);
    }
  }

  lemma {:induction false} RowsOfAll(a: seq<ScheduleRow>, ids: set<int>)
    requires forall k :: 0 <= k < |a| ==> a[k].groupId in ids
    ensures RowsOf(a, ids) == a
  {
    if a != [] {
      RowsOfAll(a[1..], ids);
      assert [a[0]] + a[1..] == a;
    }
  }

  lemma {:induction false} RowsOfNone(a: seq<ScheduleRow>, ids: set<int>)
    requires forall k :: 0 <= k < |a| ==> a[k].groupId !in ids
    ensures RowsOf(a, ids) == []
  {
    if a != [] {
      RowsOfNone(a[1..], ids);
    }
  }

  /** One group of the outer loop keeps the rows in group order. */
  lemma OrderStep(before: seq<ScheduleRow>, after: seq<ScheduleRow>, groups: seq<Group>, i: int, courses: seq<Course>,
                  draws: seq<seq<DayDraw>>)
    requires 0 <= i < |groups| == |draws| && UniqueGroupIds(groups)
    requires |before| <= |after| && after[..|before|] == before
    requires forall k :: 0 <= k < |before| ==> RowOfGroups(before[k], groups, i, courses, draws)
    requires forall k :: |before| <= k < |after| ==> after[k].groupId == groups[i].id
    requires InGroupOrder(before, groups)
    ensures InGroupOrder(after, groups)
  {
    forall k | 0 <= k < |before| ensures after[k] == before[k] {
      assert after[k] == after[..|before|][k];
    }
    forall k, l, a, b | 0 <= k < l < |after| && 0 <= a < b < |groups|
      ensures !(after[k].groupId == groups[b].id && after[l].groupId == groups[a].id)
    {
      if l < |before| {
        assert !(before[k].groupId == groups[b].id && before[l].groupId == groups[a].id);
      } else if k < |before| {
        assert RowOfGroups(before[k], groups, i, courses, draws);
      }
    }
  }

  /** The rows placed before group i's turn all belong to groups[..i]. */
  lemma EarlierGroupsOnly(rows: seq<ScheduleRow>, groups: seq<Group>, i: int, courses: seq<Course>,
                          draws: seq<seq<DayDraw>>)
    requires 0 <= i < |groups| && UniqueGroupIds(groups)
    requires forall k :: 0 <= k < |rows| ==> RowOfGroups(rows[k], groups, i, courses, draws)
    ensures forall k :: 0 <= k < |rows| ==> rows[k].groupId in GroupIdsBefore(groups, i)
    ensures forall k :: 0 <= k < |rows| ==> rows[k].groupId != groups[i].id
  {
    forall k | 0 <= k < |rows|
      ensures rows[k].groupId in GroupIdsBefore(groups, i) && rows[k].groupId != groups[i].id
    {
      assert RowOfGroups(rows[k], groups, i, courses, draws);
      var g :| 0 <= g < i && groups[g].id == rows[k].groupId;
    }
  }

  /** Rows of group i are not rows of groups[..g] when g <= i, so appending them keeps that filter. */
  lemma LaterRowsFilteredOut(before: seq<ScheduleRow>, added: seq<ScheduleRow>, groups: seq<Group>, i: int, g: int)
    requires 0 <= g <= i < |groups| && UniqueGroupIds(groups)
    requires forall k :: 0 <= k < |added| ==> added[k].groupId == groups[i].id
    ensures RowsOf(before + added, GroupIdsBefore(groups, g)) == RowsOf(before, GroupIdsBefore(groups, g))
  {
    var ids := GroupIdsBefore(groups, g);
    assert groups[i].id !in ids;
    RowsOfAppend(before, added, ids);
    RowsOfNone(added, ids);
    assert RowsOf(before, ids) + [] == RowsOf(before, ids);
  }

  /** Appending one group's rows in cell order, none of whose group was placed before, keeps cell order. */
  lemma CellOrderStep(before: seq<ScheduleRow>, after: seq<ScheduleRow>, groupId: int)
    requires |before| <= |after| && after[..|before|] == before
    requires CellOrdered(before, 0) && CellOrdered(after, |before|)
    requires forall k :: 0 <= k < |before| ==> before[k].groupId != groupId
    requires forall k :: |before| <= k < |after| ==> after[k].groupId == groupId
    ensures CellOrdered(after, 0)
  {
    forall k | 0 <= k < |before| ensures after[k] == before[k] {
      assert after[k] == after[..|before|][k];
    }
  }

  /** One group of the outer loop: its cells are filled in turn, and earlier groups' stay so. */
  lemma InTurnStep(before: Placement, after: Placement, groups: seq<Group>, draws: seq<seq<DayDraw>>,
                   teachers: seq<Teacher>, rooms: seq<Room>, i: int, courses: seq<Course>)
    requires 0 <= i < |groups| == |draws| && |draws[i]| == LastDay && UniqueGroupIds(groups)
    requires Consistent(before) && Extends(before, after)
    requires forall k :: 0 <= k < |before.rows| ==> RowOfGroups(before.rows[k], groups, i, courses, draws)
    requires GroupRows(after.rows, |before.rows|, groups[i].id, CoursesOfGroup(courses, groups[i]), draws[i])
    requires forall d, s :: FirstDay <= d <= LastDay && 1 <= s <= |draws[i][d - 1].picked| ==>
      (Filled(after.rows, |before.rows|, d, s) <==> CellFree(teachers, rooms, before.teacherBusy, before.roomBusy, d, s))
    requires FilledInTurn(groups, draws, teachers, rooms, before.rows, i)
    ensures FilledInTurn(groups, draws, teachers, rooms, after.rows, i + 1)
  {
    EarlierGroupsOnly(before.rows, groups, i, courses, draws);
    forall g, d, s | 0 <= g < i + 1 && g < |groups| && g < |draws| && FirstDay <= d <= LastDay && d <= |draws[g]|
      && 1 <= s <= |draws[g][d - 1].picked|
      ensures DrawnCellInTurn(groups, draws, g, d, s, teachers, rooms, after.rows)
    {
      if g < i {
        assert DrawnCellInTurn(groups, draws, g, d, s, teachers, rooms, before.rows);
        EarlierCellInTurn(before.rows, after.rows, groups, draws, teachers, rooms, i, g, d, s);
      } else {
        OwnCellInTurn(before, after.rows, groups, draws, teachers, rooms, i, CoursesOfGroup(courses, groups[i]), d, s);
      }
    }
  }

  /** A cell of an earlier group keeps its in-turn filling when group i's rows are appended. */
  lemma EarlierCellInTurn(before: seq<ScheduleRow>, after: seq<ScheduleRow>, groups: seq<Group>,
                          draws: seq<seq<DayDraw>>, teachers: seq<Teacher>, rooms: seq<Room>, i: int, g: int, d: int, s: int)
    requires 0 <= g < i < |groups| == |draws| && UniqueGroupIds(groups)
    requires 1 <= d <= |draws[g]| && 1 <= s <= |draws[g][d - 1].picked|
    requires |before| <= |after| && after[..|before|] == before
    requires forall k :: |before| <= k < |after| ==> after[k].groupId == groups[i].id
    requires DrawnCellInTurn(groups, draws, g, d, s, teachers, rooms, before)
    ensures DrawnCellInTurn(groups, draws, g, d, s, teachers, rooms, after)
  {
    var added := after[|before|..];
    assert after == before + added;
    forall k | 0 <= k < |added| ensures added[k].groupId == groups[i].id {
      assert added[k] == after[|before| + k];
    }
    LaterRowsFilteredOut(before, added, groups, i, g);
    InTurnKept(before, after, groups, i, g, draws[g][d - 1].picked[s - 1].id, d, s);
  }

  /** A cell of group i is filled in its turn: against exactly the rows placed before it. */
  lemma OwnCellInTurn(before: Placement, after: seq<ScheduleRow>, groups: seq<Group>, draws: seq<seq<DayDraw>>,
                      teachers: seq<Teacher>, rooms: seq<Room>, i: int, groupCourses: seq<Course>, d: int, s: int)
    requires 0 <= i < |groups| == |draws| && UniqueGroupIds(groups)
    requires 1 <= d <= |draws[i]| && 1 <= s <= |draws[i][d - 1].picked|
    requires Consistent(before) && |before.rows| <= |after| && after[..|before.rows|] == before.rows
    requires forall k :: 0 <= k < |before.rows| ==>
      before.rows[k].groupId in GroupIdsBefore(groups, i) && before.rows[k].groupId != groups[i].id
    requires GroupRows(after, |before.rows|, groups[i].id, groupCourses, draws[i])
    requires Filled(after, |before.rows|, d, s) <==> CellFree(teachers, rooms, before.teacherBusy, before.roomBusy, d, s)
    ensures DrawnCellInTurn(groups, draws, i, d, s, teachers, rooms, after)
  {
    var n := |before.rows|;
    var added := after[n..];
    assert after == before.rows + added;
    forall k | 0 <= k < |added| ensures added[k].groupId == groups[i].id {
      assert added[k] == after[n + k];
    }
    forall k | 0 <= k < n ensures after[k].groupId != groups[i].id {
      assert after[k] == after[..n][k];
    }
    LaterRowsFilteredOut(before.rows, added, groups, i, i);
    RowsOfAll(before.rows, GroupIdsBefore(groups, i));
    InTurnNew(after, n, groups[i].id, groupCourses, draws[i], d, s);
  }

  /** Rows of a later group do not change whether an earlier group has a row. */
  lemma InTurnKept(before: seq<ScheduleRow>, after: seq<ScheduleRow>, groups: seq<Group>, i: int, g: int,
                   courseId: int, d: int, s: int)
    requires 0 <= g < i < |groups| && UniqueGroupIds(groups)
    requires |before| <= |after| && after[..|before|] == before
    requires forall k :: |before| <= k < |after| ==> after[k].groupId == groups[i].id
    ensures HasRow(after, groups[g].id, courseId, d, s) <==> HasRow(before, groups[g].id, courseId, d, s)
  {
    if HasRow(after, groups[g].id, courseId, d, s) {
      var k :| 0 <= k < |after| && RowFor(after[k], groups[g].id, courseId, d, s);
      assert groups[g].id != groups[i].id;
      assert after[k] == after[..|before|][k];
    }
    if HasRow(before, groups[g].id, courseId, d, s) {
      var k :| 0 <= k < |before| && RowFor(before[k], groups[g].id, courseId, d, s);
      assert after[k] == after[..|before|][k];
    }
  }

  /** A group whose rows start at `from` has its drawn row in a cell iff it filled that cell. */
  lemma InTurnNew(rows: seq<ScheduleRow>, from: int, groupId: int, groupCourses: seq<Course>, draws: seq<DayDraw>,
                  d: int, s: int)
    requires 0 <= from <= |rows| && 1 <= d <= |draws| && 1 <= s <= |draws[d - 1].picked|
    requires forall k :: 0 <= k < from ==> rows[k].groupId != groupId
    requires GroupRows(rows, from, groupId, groupCourses, draws)
    ensures HasRow(rows, groupId, draws[d - 1].picked[s - 1].id, d, s) <==> Filled(rows, from, d, s)
  {
    var courseId := draws[d - 1].picked[s - 1].id;
    if Filled(rows, from, d, s) {
      var k :| from <= k < |rows| && rows[k].day == d && rows[k].slot == s;
      assert RowFor(rows[k], groupId, courseId, d, s);
    }
  }
}
