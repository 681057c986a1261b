/**
 * The data the seeding script inserts before it builds the timetable
 * (create_new_data.py, create_new_courses and create_new_groups), used as a
 * fixture for the generator.
 *
 * Ids are assigned by the database on insertion, one after another in list
 * order; the script tries to reset the id counters but ignores a failure to
 * do so, so the first id is a parameter here.
 */
module Seed {
  import Specialty
  import Generator

  // The course names in insertion order, in the five blocks the script lists
  // them in: one block per specialty code and a block of common courses.
  const SoftwareBlock: seq<string> := [
    "Программирование на Python", "Базы данных", "Веб-разработка",
    "Алгоритмы и структуры данных", "Архитектура программного обеспечения",
    "Тестирование программного обеспечения", "Математический анализ",
    "Дискретная математика"
  ]
  const InfoSystemsBlock: seq<string> := [
    "Информационные технологии", "Сетевые технологии", "Системный анализ",
    "Проектирование ИС", "Математическая логика", "Теория вероятностей",
    "Экономика информационных систем"
  ]
  const EconomicsBlock: seq<string> := [
    "Микроэкономика", "Макроэкономика", "Бухгалтерский учет",
    "Финансовый менеджмент", "Маркетинг", "Статистика", "Эконометрика",
    "Право", "Информационные технологии в экономике"
  ]
  const ManagementBlock: seq<string> := [
    "Основы менеджмента", "Управление персоналом", "Стратегический менеджмент",
    "Проектный менеджмент", "Бизнес-планирование", "Экономика",
    "Психология управления"
  ]
  const CommonBlock: seq<string> := [
    "Английский язык", "Физическая культура", "Философия", "История", "Экология"
  ]

  const SeededCourseNames: seq<string> :=
    SoftwareBlock + InfoSystemsBlock + EconomicsBlock + ManagementBlock + CommonBlock

  /** The seeded catalog: course i gets id firstId + i. */
  function SeededCourses(firstId: int): (cs: seq<Generator.Course>)
    ensures |cs| == |SeededCourseNames| == 36
    ensures forall i :: 0 <= i < |cs| ==> cs[i].id == firstId + i && cs[i].name == SeededCourseNames[i]
  {
    seq(|SeededCourseNames|, i requires 0 <= i < |SeededCourseNames| => Generator.Course(firstId + i, SeededCourseNames[i]))
  }

  /** The seeded groups with their specialty codes: group i gets id firstId + i. */
  function SeededGroups(firstId: int): (gs: seq<Generator.Group>)
    ensures |gs| == 10
    ensures forall i :: 0 <= i < |gs| ==> gs[i].id == firstId + i
  {
    [ Generator.Group(firstId, "ПКС-21", Specialty.SoftwareCode),
      Generator.Group(firstId + 1, "ПКС-22", Specialty.SoftwareCode),
      Generator.Group(firstId + 2, "ПКС-31", Specialty.SoftwareCode),
      Generator.Group(firstId + 3, "ИС-21", Specialty.InfoSystemsCode),
      Generator.Group(firstId + 4, "ИС-22", Specialty.InfoSystemsCode),
      Generator.Group(firstId + 5, "ИС-31", Specialty.InfoSystemsCode),
      Generator.Group(firstId + 6, "ЭК-21", Specialty.EconomicsCode),
      Generator.Group(firstId + 7, "ЭК-31", Specialty.EconomicsCode),
      Generator.Group(firstId + 8, "МН-21", Specialty.ManagementCode),
      Generator.Group(firstId + 9, "МН-31", Specialty.ManagementCode) ]
  }

  /** The seeded catalog and groups meet the generator's key requirements. */
  lemma SeededKeysAreUnique(firstCourseId: int, firstGroupId: int)
    ensures Generator.DistinctIds(SeededCourses(firstCourseId))
    ensures Generator.UniqueGroupIds(SeededGroups(firstGroupId))
  {
  }

  /** Every name of every bucket, the default included, is a seeded course name. */
  lemma BucketNamesAreSeeded(specialty: string)
    ensures forall n :: n in Specialty.CoursesForSpecialty(specialty) ==> n in SeededCourseNames
  {
  }

  /** The ids of the catalog courses at increasing positions `ps`. */
  function IdsAt(ps: seq<int>, firstId: int): (ids: set<int>)
    requires forall i, j :: 0 <= i < j < |ps| ==> ps[i] < ps[j]
    ensures |ids| == |ps|
    ensures forall id :: id in ids ==> exists i :: 0 <= i < |ps| && id == firstId + ps[i]
    ensures forall id :: id in ids ==> firstId + ps[0] <= id
  {
    if ps == [] then {} else {firstId + ps[0]} + IdsAt(ps[1..], firstId)
  }

  /**
   * If the catalog names at increasing positions `ps` are all in `names`, the
   * group gets at least |ps| courses.
   */
  lemma CoveredBy(firstId: int, names: seq<string>, ps: seq<int>)
    requires forall i, j :: 0 <= i < j < |ps| ==> ps[i] < ps[j]
    requires forall i :: 0 <= i < |ps| ==> 0 <= ps[i] < |SeededCourseNames| && SeededCourseNames[ps[i]] in names
    ensures |Generator.GroupCourses(SeededCourses(firstId), names)| >= |ps|
  {
    var cs := SeededCourses(firstId);
    var ids := IdsAt(ps, firstId);
    forall id | id in ids ensures exists c :: c in cs && c.id == id && c.name in names {
      var i :| 0 <= i < |ps| && id == firstId + ps[i];
      assert cs[ps[i]] in cs;
    }
    Generator.GroupCoursesLowerBound(cs, names, ids);
  }

  // Each of the four specialty codes gets at least ten seeded courses: the
  // lists below are the catalog positions of names in its bucket.

  lemma SoftwareBucketIsLarge(firstCourseId: int)
    ensures |Generator.GroupCourses(SeededCourses(firstCourseId), Specialty.SoftwareCourses)| >= 10
  {
    var ps := [0, 1, 2, 3, 4, 5, 6, 7, 31, 32];
    CoveredBy(firstCourseId, Specialty.SoftwareCourses, ps);
  }

  lemma InfoSystemsBucketIsLarge(firstCourseId: int)
    ensures |Generator.GroupCourses(SeededCourses(firstCourseId), Specialty.InfoSystemsCourses)| >= 10
  {
    var ps := [1, 8, 9, 10, 11, 12, 13, 14, 31, 32];
    CoveredBy(firstCourseId, Specialty.InfoSystemsCourses, ps);
  }

  lemma EconomicsBucketIsLarge(firstCourseId: int)
    ensures |Generator.GroupCourses(SeededCourses(firstCourseId), Specialty.EconomicsCourses)| >= 11
  {
    var ps := [15, 16, 17, 18, 19, 20, 21, 22, 23, 31, 32];
    CoveredBy(firstCourseId, Specialty.EconomicsCourses, ps);
  }

  lemma ManagementBucketIsLarge(firstCourseId: int)
    ensures |Generator.GroupCourses(SeededCourses(firstCourseId), Specialty.ManagementCourses)| >= 11
  {
    var ps := [18, 19, 24, 25, 26, 27, 28, 29, 30, 31, 32];
    CoveredBy(firstCourseId, Specialty.ManagementCourses, ps);
  }

  /** The seeded group at position `i` gets at least ten courses. */
  lemma SeededGroupIsScheduled(firstCourseId: int, firstGroupId: int, i: int)
    requires 0 <= i < 10
    ensures |Generator.CoursesOfGroup(SeededCourses(firstCourseId), SeededGroups(firstGroupId)[i])| >= 10
  {
    var g := SeededGroups(firstGroupId)[i];
    Specialty.SeededCodesSelectTheirBuckets();
    if i < 3 {
      assert g.specialty == Specialty.SoftwareCode;
      SoftwareBucketIsLarge(firstCourseId);
    } else if i < 6 {
      assert g.specialty == Specialty.InfoSystemsCode;
      InfoSystemsBucketIsLarge(firstCourseId);
    } else if i < 8 {
      assert g.specialty == Specialty.EconomicsCode;
      EconomicsBucketIsLarge(firstCourseId);
    } else {
      assert g.specialty == Specialty.ManagementCode;
      ManagementBucketIsLarge(firstCourseId);
    }
  }

  /**
   * Every seeded group gets at least ten courses, so none is skipped and
   * every day's sample has exactly as many courses as slots were drawn.
   */
  lemma SeededGroupsAreScheduled(firstCourseId: int, firstGroupId: int)
    ensures forall g :: g in SeededGroups(firstGroupId) ==>
      |Generator.CoursesOfGroup(SeededCourses(firstCourseId), g)| >= 10
    ensures forall g, d :: (g in SeededGroups(firstGroupId)
      && Generator.ValidDraw(d, Generator.CoursesOfGroup(SeededCourses(firstCourseId), g))) ==> |d.picked| == d.numSlots
  {
    var gs := SeededGroups(firstGroupId);
    forall g | g in gs ensures |Generator.CoursesOfGroup(SeededCourses(firstCourseId), g)| >= 10 {
      var i :| 0 <= i < |gs| && gs[i] == g;
      SeededGroupIsScheduled(firstCourseId, firstGroupId, i);
    }
  }
}
