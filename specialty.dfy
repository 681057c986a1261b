/**
 * The fixed mapping from a group's specialty code to the names of the courses
 * that group is taught (create_new_data.py, get_courses_for_specialty).
 */
module Specialty {

  /** Python's `sub in s` on strings: `sub` is a prefix of some suffix of `s`. */
  predicate Occurs(sub: string, s: string)
    decreases |s|
  {
    sub <= s || (|s| > 0 && Occurs(sub, s[1..]))
  }

  /** `sub` is the slice of `s` that starts at `i`. */
  ghost predicate OccursAt(sub: string, s: string, i: int) {
    0 <= i && i + |sub| <= |s| && s[i..i + |sub|] == sub
  }

  /** Occurs is substring search: `sub` occurs in `s` iff it is the slice of `s` at some position. */
  lemma {:induction false} OccursIsSubstring(sub: string, s: string)
    ensures Occurs(sub, s) <==> exists i :: OccursAt(sub, s, i)
    decreases |s|
  {
    if sub <= s {
      assert OccursAt(sub, s, 0);
    } else if |s| > 0 {
      OccursIsSubstring(sub, s[1..]);
      forall i | OccursAt(sub, s, i) ensures OccursAt(sub, s[1..], i - 1) {
        assert i != 0;
        assert s[1..][i - 1..i - 1 + |sub|] == s[i..i + |sub|];
      }
      forall j | OccursAt(sub, s[1..], j) ensures OccursAt(sub, s, j + 1) {
        assert s[1..][j..j + |sub|] == s[j + 1..j + 1 + |sub|];
      }
    }
  }

  // The four specialty codes, in the order the lookup tests them.
  const SoftwareCode := "ПКС"
  const InfoSystemsCode := "ИС"
  const EconomicsCode := "ЭК"
  const ManagementCode := "МН"

  // Two courses every bucket shares.
  const English := "Английский язык"
  const PhysicalEducation := "Физическая культура"

  const SoftwareCourses: seq<string> := [
    "Программирование на Python", "Базы данных", "Веб-разработка",
    "Алгоритмы и структуры данных", "Архитектура программного обеспечения",
    "Тестирование программного обеспечения", "Математический анализ",
    "Дискретная математика", English, PhysicalEducation
  ]

  const InfoSystemsCourses: seq<string> := [
    "Информационные технологии", "Базы данных", "Сетевые технологии",
    "Системный анализ", "Проектирование ИС", "Математическая логика",
    "Теория вероятностей", English, PhysicalEducation,
    "Экономика информационных систем"
  ]

  const EconomicsCourses: seq<string> := [
    "Микроэкономика", "Макроэкономика", "Бухгалтерский учет",
    "Финансовый менеджмент", "Маркетинг", "Статистика",
    "Эконометрика", English, PhysicalEducation,
    "Право", "Информационные технологии в экономике"
  ]

  const ManagementCourses: seq<string> := [
    "Основы менеджмента", "Управление персоналом", "Стратегический менеджмент",
    "Маркетинг", "Финансовый менеджмент", "Проектный менеджмент",
    "Бизнес-планирование", English, PhysicalEducation,
    "Экономика", "Психология управления"
  ]

  /** The bucket for a specialty that contains none of the four codes. */
  const DefaultCourses: seq<string> := [
    English, PhysicalEducation, "Философия", "История", "Экология"
  ]

  /**
   * The course names for `specialty`: the codes are tested by substring
   * containment in a fixed order and the first that occurs wins.
   * Every bucket, the default included, names English and physical education.
   */
  function CoursesForSpecialty(specialty: string): (names: seq<string>)
    ensures English in names && PhysicalEducation in names
    ensures 5 <= |names| <= 11
  {
    if Occurs(SoftwareCode, specialty) then SoftwareCourses
    else if Occurs(InfoSystemsCode, specialty) then InfoSystemsCourses
    else if Occurs(EconomicsCode, specialty) then EconomicsCourses
    else if Occurs(ManagementCode, specialty) then ManagementCourses
    else DefaultCourses
  }

  /**
   * The bucket returned identifies the code that was matched: each bucket is
   * returned exactly when its code is the first of the four to occur, and the
   * default exactly when none occurs.
   */
  lemma BucketIdentifiesCode(specialty: string)
    ensures CoursesForSpecialty(specialty) == SoftwareCourses
        <==> Occurs(SoftwareCode, specialty)
    ensures CoursesForSpecialty(specialty) == InfoSystemsCourses
        <==> !Occurs(SoftwareCode, specialty) && Occurs(InfoSystemsCode, specialty)
    ensures CoursesForSpecialty(specialty) == EconomicsCourses
        <==> !Occurs(SoftwareCode, specialty) && !Occurs(InfoSystemsCode, specialty)
             && Occurs(EconomicsCode, specialty)
    ensures CoursesForSpecialty(specialty) == ManagementCourses
        <==> !Occurs(SoftwareCode, specialty) && !Occurs(InfoSystemsCode, specialty)
             && !Occurs(EconomicsCode, specialty) && Occurs(ManagementCode, specialty)
    ensures CoursesForSpecialty(specialty) == DefaultCourses
        <==> !Occurs(SoftwareCode, specialty) && !Occurs(InfoSystemsCode, specialty)
             && !Occurs(EconomicsCode, specialty) && !Occurs(ManagementCode, specialty)
  {
    // The five buckets are pairwise different: compare their lengths or first names.
    assert SoftwareCourses[0] != InfoSystemsCourses[0];
    assert EconomicsCourses[0] != ManagementCourses[0];
  }

  /**
   * No seeded code contains a code tested before it, so each seeded code
   * selects its own bucket.
   */
  lemma SeededCodesSelectTheirBuckets()
    ensures !Occurs(SoftwareCode, InfoSystemsCode)
    ensures !Occurs(SoftwareCode, EconomicsCode) && !Occurs(InfoSystemsCode, EconomicsCode)
    ensures !Occurs(SoftwareCode, ManagementCode) && !Occurs(InfoSystemsCode, ManagementCode)
        && !Occurs(EconomicsCode, ManagementCode)
    ensures CoursesForSpecialty(SoftwareCode) == SoftwareCourses
    ensures CoursesForSpecialty(InfoSystemsCode) == InfoSystemsCourses
    ensures CoursesForSpecialty(EconomicsCode) == EconomicsCourses
    ensures CoursesForSpecialty(ManagementCode) == ManagementCourses
  {
    assert InfoSystemsCode[0] != EconomicsCode[0];
    assert !Occurs(InfoSystemsCode, EconomicsCode[1..]);
    assert !Occurs(InfoSystemsCode, ManagementCode[1..]);
    assert !Occurs(EconomicsCode, ManagementCode[1..]);
  }

  /**
   * An illustration of the test order (an instance of BucketIdentifiesCode):
   * a specialty carrying two codes gets the bucket of the one tested first.
   */
  lemma FirstCodeWins()
    ensures CoursesForSpecialty("ИС-ПКС") == SoftwareCourses
  {
    assert Occurs(SoftwareCode, "ИС-ПКС"[3..]);
  }
}
