/** The course catalogue shared by both back ends: the `courses` and
    `lessons` tables, the per-user `user_lessons` and `user_courses` tables
    keyed by (user, lesson) and (user, course), the left-join reads with their
    COALESCE defaults, and the row changes the lesson handlers make. */
module Catalog {
  import opened Wrappers

  datatype Course = Course(id: int, title: string, orderIndex: int)

  /** `orderIndex` is the `order_index` column, `position` the `position`
      column (the Node back end orders by the first, the PHP one by the second). */
  datatype Lesson = Lesson(id: int, courseId: int, title: string, orderIndex: int, position: int)

  /** A `user_lessons` row; None is SQL NULL. */
  datatype UserLesson = UserLesson(
    isFavorite: bool, isLiked: bool, isCompleted: bool,
    completedAt: Option<int>, lastPosition: Option<int>)

  /** A `user_courses` row. */
  datatype UserCourse = UserCourse(progress: real, isFavorite: bool)

  /** (user id, lesson id) or (user id, course id). */
  type Key = (int, int)

  type UserLessons = map<Key, UserLesson>
  type UserCourses = map<Key, UserCourse>

  /** The columns an INSERT does not name: false flags and NULL timestamps. */
  const NewLessonRow := UserLesson(false, false, false, None, None)
  const NewCourseRow := UserCourse(0.0, false)

  /** A lesson as the reads report it for one user. */
  datatype LessonView = LessonView(lesson: Lesson, isCompleted: bool, isFavorite: bool, isLiked: bool, lastPosition: int)

  /** A course as the reads report it for one user. */
  datatype CourseView = CourseView(course: Course, progress: real, isFavorite: bool)

  /** `LEFT JOIN user_lessons ... COALESCE(..., FALSE/0)`: the user's row for
      the lesson, or false and 0 when there is none. */
  function LessonViewOf(t: UserLessons, user: int, l: Lesson): LessonView {
    var row := RowOf(t, (user, l.id));
    LessonView(l, row.isCompleted, row.isFavorite, row.isLiked, row.lastPosition.GetOr(0))
  }

  /** `LEFT JOIN user_courses ... COALESCE(..., 0/FALSE)`. */
  function CourseViewOf(t: UserCourses, user: int, c: Course): CourseView {
    if (user, c.id) in t then CourseView(c, t[(user, c.id)].progress, t[(user, c.id)].isFavorite)
    else CourseView(c, 0.0, false)
  }

  /** A course and its lessons, as `getCourseById` reports them. */
  datatype CourseDetail = CourseDetail(course: CourseView, lessons: seq<LessonView>)

  /** The views of a list of courses, one per course and in the same order. */
  function CourseViews(t: UserCourses, user: int, cs: seq<Course>): (vs: seq<CourseView>)
    ensures |vs| == |cs|
    ensures forall i :: 0 <= i < |cs| ==> vs[i] == CourseViewOf(t, user, cs[i])
  {
    seq(|cs|, i requires 0 <= i < |cs| => CourseViewOf(t, user, cs[i]))
  }

  /** The views of a list of lessons, one per lesson and in the same order. */
  function LessonViews(t: UserLessons, user: int, ls: seq<Lesson>): (vs: seq<LessonView>)
    ensures |vs| == |ls|
    ensures forall i :: 0 <= i < |ls| ==> vs[i] == LessonViewOf(t, user, ls[i])
  {
    seq(|ls|, i requires 0 <= i < |ls| => LessonViewOf(t, user, ls[i]))
  }

  /** The courses a list of views is about. */
  function CoursesIn(vs: seq<CourseView>): (cs: seq<Course>)
    ensures |cs| == |vs| && forall i :: 0 <= i < |vs| ==> cs[i] == vs[i].course
  {
    seq(|vs|, i requires 0 <= i < |vs| => vs[i].course)
  }

  /** The lessons a list of views is about. */
  function LessonsIn(vs: seq<LessonView>): (ls: seq<Lesson>)
    ensures |ls| == |vs| && forall i :: 0 <= i < |vs| ==> ls[i] == vs[i].lesson
  {
    seq(|vs|, i requires 0 <= i < |vs| => vs[i].lesson)
  }

  /** Viewing courses and forgetting the user's columns gives the courses back. */
  lemma CoursesOfViews(t: UserCourses, user: int, cs: seq<Course>)
    ensures CoursesIn(CourseViews(t, user, cs)) == cs
  {
  }

  /** Viewing lessons and forgetting the user's columns gives the lessons back. */
  lemma LessonsOfViews(t: UserLessons, user: int, ls: seq<Lesson>)
    ensures LessonsIn(LessonViews(t, user, ls)) == ls
  {
  }

  /** The row an upsert starts from: the existing one, or the defaults. */
  function RowOf(t: UserLessons, k: Key): UserLesson {
    if k in t then t[k] else NewLessonRow
  }

  /** What a lesson handler does to the user's row. */
  datatype Change =
    | FlipFavorite               // toggleLessonFavorite
    | FlipLike                   // toggleLessonLike
    | FlipCompleted              // PHP markLessonComplete
    | FlipCompletedAt(now: int)  // Node markLessonComplete, stamped with the time
    | SetPosition(seconds: int)  // updateVideoPosition

  /** The new row. Applied to the defaults, it is the row the INSERT branch
      writes (`is_favorite = TRUE`, `is_completed = TRUE, completed_at = NOW()`, ...). */
  function Apply(c: Change, row: UserLesson): UserLesson {
    match c
    case FlipFavorite => row.(isFavorite := !row.isFavorite)
    case FlipLike => row.(isLiked := !row.isLiked)
    case FlipCompleted => row.(isCompleted := !row.isCompleted)
    case FlipCompletedAt(now) =>
      row.(isCompleted := !row.isCompleted, completedAt := if row.isCompleted then None else Some(now))
    case SetPosition(seconds) => row.(lastPosition := Some(seconds))
  }

  /** SELECT, then UPDATE the row if there is one and INSERT one otherwise. */
  function Upsert(t: UserLessons, k: Key, c: Change): (t': UserLessons)
    ensures t'.Keys == t.Keys + {k}
    ensures forall k' :: k' in t && k' != k ==> t'[k'] == t[k']
    ensures k in t ==> t'[k] == Apply(c, t[k])
    ensures k !in t ==> t'[k] == Apply(c, NewLessonRow)
  {
    t[k := Apply(c, RowOf(t, k))]
  }

  /** Toggling a flag twice gives back the row every read sees (a missing row
      reads exactly like the default one the first toggle inserts). */
  lemma ToggleTwice(t: UserLessons, k: Key, c: Change)
    requires c.FlipFavorite? || c.FlipLike?
    ensures RowOf(Upsert(Upsert(t, k, c), k, c), k) == RowOf(t, k)
    ensures forall l: Lesson :: (k.0, l.id) == k ==>
      LessonViewOf(Upsert(Upsert(t, k, c), k, c), k.0, l) == LessonViewOf(t, k.0, l)
  {
    var t2 := Upsert(Upsert(t, k, c), k, c);
    forall l: Lesson | (k.0, l.id) == k ensures LessonViewOf(t2, k.0, l) == LessonViewOf(t, k.0, l) {
      assert RowOf(t2, (k.0, l.id)) == RowOf(t, (k.0, l.id));
    }
  }

  /** Setting the same position twice is the same as setting it once. */
  lemma SetPositionIdempotent(t: UserLessons, k: Key, seconds: int)
    ensures Upsert(Upsert(t, k, SetPosition(seconds)), k, SetPosition(seconds)) == Upsert(t, k, SetPosition(seconds))
  {
  }

  /** After a position update the reads report that position, whether or not
      a row existed before. */
  lemma SetPositionReads(t: UserLessons, user: int, l: Lesson, seconds: int)
    ensures LessonViewOf(Upsert(t, (user, l.id), SetPosition(seconds)), user, l).lastPosition == seconds
  {
  }

  /** `completed_at` is set exactly on the completed rows. */
  ghost predicate Stamped(t: UserLessons) {
    forall k :: k in t ==> (t[k].completedAt.Some? <==> t[k].isCompleted)
  }

  /** Every change the Node handlers make keeps `completed_at` in step with
      `is_completed`. */
  lemma NodeChangesKeepStamps(t: UserLessons, k: Key, c: Change)
    requires Stamped(t)
    requires !c.FlipCompleted?
    ensures Stamped(Upsert(t, k, c))
  {
    var t' := Upsert(t, k, c);
    forall k' | k' in t' ensures (t'[k'].completedAt.Some? <==> t'[k'].isCompleted) {
      if k' != k {
        assert t'[k'] == t[k'];
      }
    }
  }

  /** The PHP completion sets no timestamp: completing a lesson without a row
      leaves a completed row whose `completed_at` is NULL. */
  lemma PhpCompletionLeavesNoStamp(t: UserLessons, k: Key)
    requires k !in t
    ensures Upsert(t, k, FlipCompleted)[k].isCompleted
    ensures Upsert(t, k, FlipCompleted)[k].completedAt.None?
    ensures !Stamped(Upsert(t, k, FlipCompleted))
  {
    var t' := Upsert(t, k, FlipCompleted);
    assert k in t';
  }

  /** A flag a toggle reports: the negation of what the reads showed before. */
  lemma ToggleReportsNegation(t: UserLessons, user: int, l: Lesson)
    ensures LessonViewOf(Upsert(t, (user, l.id), FlipFavorite), user, l).isFavorite == !LessonViewOf(t, user, l).isFavorite
    ensures LessonViewOf(Upsert(t, (user, l.id), FlipLike), user, l).isLiked == !LessonViewOf(t, user, l).isLiked
    ensures LessonViewOf(Upsert(t, (user, l.id), FlipFavorite), user, l).isLiked == LessonViewOf(t, user, l).isLiked
    ensures LessonViewOf(Upsert(t, (user, l.id), FlipLike), user, l).isFavorite == LessonViewOf(t, user, l).isFavorite
  {
  }

  // ---------------------------------------------------------------- lookups

  /** `SELECT ... FROM courses WHERE id = ?` and its first row. */
  function FindCourse(courses: seq<Course>, id: int): (r: Option<Course>)
    ensures r.None? <==> forall i :: 0 <= i < |courses| ==> courses[i].id != id
    ensures r.Some? ==> r.value in courses && r.value.id == id
  {
    if |courses| == 0 then None
    else if courses[0].id == id then Some(courses[0])
    else FindCourse(courses[1..], id)
  }

  /** `SELECT ... FROM lessons WHERE id = ?` and its first row. */
  function FindLesson(lessons: seq<Lesson>, id: int): (r: Option<Lesson>)
    ensures r.None? <==> forall i :: 0 <= i < |lessons| ==> lessons[i].id != id
    ensures r.Some? ==> r.value in lessons && r.value.id == id
  {
    if |lessons| == 0 then None
    else if lessons[0].id == id then Some(lessons[0])
    else FindLesson(lessons[1..], id)
  }

  /** `WHERE l.course_id = ?`: the lessons of one course, in storage order. */
  function LessonsOf(lessons: seq<Lesson>, courseId: int): (r: seq<Lesson>)
    ensures forall l :: multiset(r)[l] == if l.courseId == courseId then multiset(lessons)[l] else 0
  {
    if |lessons| == 0 then []
    else
      assert lessons == [lessons[0]] + lessons[1..];
      (if lessons[0].courseId == courseId then [lessons[0]] else []) + LessonsOf(lessons[1..], courseId)
  }

  // ---------------------------------------------------------------- ORDER BY

  /** `s` is in ascending order of `key`. */
  predicate SortedBy<T>(s: seq<T>, key: T -> int) {
    forall i, j :: 0 <= i < j < |s| ==> key(s[i]) <= key(s[j])
  }

  /** Insert `x` into an ascending `s` before the first element whose key is not smaller. */
  function InsertBy<T>(x: T, s: seq<T>, key: T -> int): (r: seq<T>)
    requires SortedBy(s, key)
    ensures SortedBy(r, key)
    ensures multiset(r) == multiset(s) + multiset{x}
    ensures |r| == |s| + 1
    ensures r[0] == x || (|s| > 0 && r[0] == s[0])
  {
    if |s| == 0 then [x]
    else if key(x) <= key(s[0]) then [x] + s
    else
      var rest := InsertBy(x, s[1..], key);
      assert s == [s[0]] + s[1..];
      assert key(s[0]) <= key(rest[0]);
      [s[0]] + rest
  }

  /** `ORDER BY key ASC`: a permutation of `s` in ascending key order. */
  function SortBy<T>(s: seq<T>, key: T -> int): (r: seq<T>)
    ensures SortedBy(r, key)
    ensures multiset(r) == multiset(s)
    ensures |r| == |s|
  {
    if |s| == 0 then []
    else
      assert s == [s[0]] + s[1..];
      InsertBy(s[0], SortBy(s[1..], key), key)
  }

  /** Rows whose keys are all equal keep their storage order. */
  lemma {:induction false} SortByEqualKeys<T>(s: seq<T>, key: T -> int)
    requires forall i, j :: 0 <= i < |s| && 0 <= j < |s| ==> key(s[i]) == key(s[j])
    ensures SortBy(s, key) == s
  {
    if |s| > 0 {
      var tail := s[1..];
      assert forall i, j :: 0 <= i < |tail| && 0 <= j < |tail| ==> key(tail[i]) == key(tail[j]) by {
        forall i, j | 0 <= i < |tail| && 0 <= j < |tail| ensures key(tail[i]) == key(tail[j]) {
          assert tail[i] == s[i + 1] && tail[j] == s[j + 1];
        }
      }
      SortByEqualKeys(tail, key);
      if |tail| > 0 {
        assert key(s[0]) <= key(tail[0]) by { assert tail[0] == s[1]; }
      }
      assert [s[0]] + tail == s;
    }
  }

  // ---------------------------------------------------------------- reads by id

  /** The lessons of a course, by ascending `order`, with the user's columns. */
  function CourseLessons(lessons: seq<Lesson>, ul: UserLessons, user: int, courseId: int, order: Lesson -> int): (r: seq<LessonView>)
    ensures forall i :: 0 <= i < |r| ==> r[i].lesson.courseId == courseId
    ensures forall l: Lesson :: l.courseId == courseId ==> multiset(LessonsIn(r))[l] == multiset(lessons)[l]
    ensures multiset(LessonsIn(r)) == multiset(LessonsOf(lessons, courseId))
    ensures SortedBy(LessonsIn(r), order)
    ensures forall i :: 0 <= i < |r| ==> r[i] == LessonViewOf(ul, user, r[i].lesson)
  {
    var sorted := SortBy(LessonsOf(lessons, courseId), order);
    LessonsOfViews(ul, user, sorted);
    var r := LessonViews(ul, user, sorted);
    forall i | 0 <= i < |r| ensures r[i].lesson.courseId == courseId {
      assert r[i].lesson == sorted[i];
      assert sorted[i] in multiset(LessonsOf(lessons, courseId));
    }
    r
  }

  /** The course with the id, with the user's columns and its lessons by
      ascending `order`; None when no course has the id. */
  function CourseDetailById(courses: seq<Course>, lessons: seq<Lesson>, uc: UserCourses, ul: UserLessons,
                            user: int, courseId: int, order: Lesson -> int): (r: Option<CourseDetail>)
    ensures r.None? <==> forall i :: 0 <= i < |courses| ==> courses[i].id != courseId
    ensures r.Some? ==>
      && r.value.course.course in courses && r.value.course.course.id == courseId
      && r.value.course == CourseViewOf(uc, user, r.value.course.course)
      && r.value.lessons == CourseLessons(lessons, ul, user, courseId, order)
  {
    match FindCourse(courses, courseId)
    case None => None
    case Some(c) => Some(CourseDetail(CourseViewOf(uc, user, c), CourseLessons(lessons, ul, user, courseId, order)))
  }

  /** The lesson with the id, with the user's columns; None when no lesson has it. */
  function LessonViewById(lessons: seq<Lesson>, ul: UserLessons, user: int, lessonId: int): (r: Option<LessonView>)
    ensures r.None? <==> forall i :: 0 <= i < |lessons| ==> lessons[i].id != lessonId
    ensures r.Some? ==>
      && r.value.lesson in lessons && r.value.lesson.id == lessonId
      && r.value == LessonViewOf(ul, user, r.value.lesson)
  {
    match FindLesson(lessons, lessonId)
    case None => None
    case Some(l) => Some(LessonViewOf(ul, user, l))
  }

  // ---------------------------------------------------------------- progress

  /** The user has completed the lesson with this id. */
  predicate Done(t: UserLessons, user: int, lessonId: int) {
    (user, lessonId) in t && t[(user, lessonId)].isCompleted
  }

  /** `SELECT COUNT(*) FROM lessons WHERE course_id = ?`. */
  function TotalLessons(lessons: seq<Lesson>, courseId: int): (n: nat)
    ensures n <= |lessons|
  {
    if |lessons| == 0 then 0
    else (if lessons[0].courseId == courseId then 1 else 0) + TotalLessons(lessons[1..], courseId)
  }

  /** The count is the number of rows `WHERE course_id = ?` selects. */
  lemma {:induction false} TotalLessonsCounts(lessons: seq<Lesson>, courseId: int)
    ensures TotalLessons(lessons, courseId) == |LessonsOf(lessons, courseId)|
  {
    if |lessons| > 0 {
      TotalLessonsCounts(lessons[1..], courseId);
    }
  }

  /** `SELECT COUNT(*) FROM user_lessons ul JOIN lessons l ON ul.lesson_id = l.id
      WHERE ul.user_id = ? AND l.course_id = ? AND ul.is_completed`: one joined
      row per lesson of the course that has a completed row of the user. */
  function CompletedLessons(t: UserLessons, lessons: seq<Lesson>, user: int, courseId: int): (n: nat)
    ensures n <= TotalLessons(lessons, courseId)
  {
    if |lessons| == 0 then 0
    else
      (if lessons[0].courseId == courseId && Done(t, user, lessons[0].id) then 1 else 0)
      + CompletedLessons(t, lessons[1..], user, courseId)
  }

  /** A list of lessons all of one course counts in full. */
  lemma {:induction false} AllOfCourse(lessons: seq<Lesson>, courseId: int)
    requires forall l :: l in lessons ==> l.courseId == courseId
    ensures TotalLessons(lessons, courseId) == |lessons|
  {
    if |lessons| > 0 {
      assert lessons[0] in lessons;
      AllOfCourse(lessons[1..], courseId);
    }
  }

  /** With no lesson completed the count is zero. */
  lemma {:induction false} NoneCompleted(t: UserLessons, lessons: seq<Lesson>, user: int, courseId: int)
    requires forall l :: l in lessons ==> !Done(t, user, l.id)
    ensures CompletedLessons(t, lessons, user, courseId) == 0
  {
    if |lessons| > 0 {
      assert lessons[0] in lessons;
      NoneCompleted(t, lessons[1..], user, courseId);
    }
  }

  /** A course that has the given lesson has at least one lesson. */
  lemma {:induction false} TotalOfMember(lessons: seq<Lesson>, l: Lesson)
    requires l in lessons
    ensures TotalLessons(lessons, l.courseId) >= 1
  {
    if lessons[0] != l {
      TotalOfMember(lessons[1..], l);
    }
  }

  /** `(completed / total) * 100`. */
  function Percentage(completed: nat, total: nat): (p: real)
    requires completed <= total && total > 0
    ensures 0.0 <= p <= 100.0
    ensures p == 100.0 <==> completed == total
    ensures p == 0.0 <==> completed == 0
  {
    (completed as real / total as real) * 100.0
  }

  /** What `updateCourseProgress(userId, lessonId)` leaves in `user_courses`:
      nothing changes for an unknown lesson; otherwise the row of the lesson's
      course gets the percentage of its lessons the user has completed. */
  function ProgressUpdated(uc: UserCourses, t: UserLessons, lessons: seq<Lesson>, user: int, lessonId: int): (uc': UserCourses)
    ensures FindLesson(lessons, lessonId).None? ==> uc' == uc
    ensures FindLesson(lessons, lessonId).Some? ==>
      var c := FindLesson(lessons, lessonId).value.courseId;
      && uc'.Keys == uc.Keys + {(user, c)}
      && (forall k :: k in uc && k != (user, c) ==> uc'[k] == uc[k])
      && uc'[(user, c)].isFavorite == ((user, c) in uc && uc[(user, c)].isFavorite)
      && TotalLessons(lessons, c) >= 1
      && uc'[(user, c)].progress == Percentage(CompletedLessons(t, lessons, user, c), TotalLessons(lessons, c))
  {
    match FindLesson(lessons, lessonId)
    case None => uc
    case Some(l) =>
      var c := l.courseId;
      TotalOfMember(lessons, l);
      var p := Percentage(CompletedLessons(t, lessons, user, c), TotalLessons(lessons, c));
      var row := if (user, c) in uc then uc[(user, c)] else NewCourseRow;
      uc[(user, c) := row.(progress := p)]
  }

  /** Every stored progress lies in [0, 100]. */
  ghost predicate ProgressBounded(uc: UserCourses) {
    forall k :: k in uc ==> 0.0 <= uc[k].progress <= 100.0
  }

  /** The recompute keeps every progress in [0, 100]. */
  lemma ProgressStaysBounded(uc: UserCourses, t: UserLessons, lessons: seq<Lesson>, user: int, lessonId: int)
    requires ProgressBounded(uc)
    ensures ProgressBounded(ProgressUpdated(uc, t, lessons, user, lessonId))
  {
    var uc' := ProgressUpdated(uc, t, lessons, user, lessonId);
    if FindLesson(lessons, lessonId).Some? {
      var c := FindLesson(lessons, lessonId).value.courseId;
      forall k | k in uc' ensures 0.0 <= uc'[k].progress <= 100.0 {
        if k != (user, c) {
          assert uc'[k] == uc[k];
        }
      }
    }
  }

  /** No lesson of `lessons` has the id `lessonId`. */
  predicate Absent(lessons: seq<Lesson>, lessonId: int) {
    forall i :: 0 <= i < |lessons| ==> lessons[i].id != lessonId
  }

  /** Changing a row of a lesson outside `lessons` does not move the count. */
  lemma {:induction false} CountIgnoresOthers(t: UserLessons, t': UserLessons, lessons: seq<Lesson>, user: int, lessonId: int, courseId: int)
    requires forall id :: id != lessonId ==> (Done(t, user, id) <==> Done(t', user, id))
    requires Absent(lessons, lessonId)
    ensures CompletedLessons(t', lessons, user, courseId) == CompletedLessons(t, lessons, user, courseId)
  {
    if |lessons| > 0 {
      CountIgnoresOthers(t, t', lessons[1..], user, lessonId, courseId);
    }
  }

  /** The lesson ids are distinct, as the primary key makes them. */
  predicate DistinctIds(lessons: seq<Lesson>) {
    forall i, j :: 0 <= i < j < |lessons| ==> lessons[i].id != lessons[j].id
  }

  /** Changing whether one lesson of the course is completed moves the
      completed count by exactly one in that direction. */
  lemma {:induction false} CountMovesByOne(t: UserLessons, t': UserLessons, lessons: seq<Lesson>, user: int, l: Lesson)
    requires DistinctIds(lessons) && l in lessons
    requires forall id :: id != l.id ==> (Done(t, user, id) <==> Done(t', user, id))
    ensures CompletedLessons(t', lessons, user, l.courseId)
         == CompletedLessons(t, lessons, user, l.courseId)
            + (if Done(t', user, l.id) then 1 else 0) - (if Done(t, user, l.id) then 1 else 0)
  {
    if lessons[0] == l {
      assert Absent(lessons[1..], l.id) by {
        forall i | 0 <= i < |lessons[1..]| ensures lessons[1..][i].id != l.id {
          assert lessons[1..][i] == lessons[i + 1];
        }
      }
      CountIgnoresOthers(t, t', lessons[1..], user, l.id, l.courseId);
    } else {
      assert l in lessons[1..];
      var i :| 0 < i < |lessons| && lessons[i] == l;
      assert lessons[0].id != l.id;
      assert DistinctIds(lessons[1..]) by {
        forall i, j | 0 <= i < j < |lessons[1..]| ensures lessons[1..][i].id != lessons[1..][j].id {
          assert lessons[1..][i] == lessons[i + 1] && lessons[1..][j] == lessons[j + 1];
        }
      }
      CountMovesByOne(t, t', lessons[1..], user, l);
    }
  }

  /** Marking a lesson complete (or not) in the Node back end moves its
      course's completed count up or down by one. */
  lemma CompletionMovesCount(t: UserLessons, lessons: seq<Lesson>, user: int, l: Lesson, now: int)
    requires DistinctIds(lessons) && l in lessons
    ensures var t' := Upsert(t, (user, l.id), FlipCompletedAt(now));
      CompletedLessons(t', lessons, user, l.courseId)
        == CompletedLessons(t, lessons, user, l.courseId) + (if Done(t, user, l.id) then -1 else 1)
  {
    var t' := Upsert(t, (user, l.id), FlipCompletedAt(now));
    forall id | id != l.id ensures Done(t, user, id) <==> Done(t', user, id) {
      assert (user, id) != (user, l.id);
    }
    CountMovesByOne(t, t', lessons, user, l);
  }

  // ---------------------------------------------------------------- tables

  /** The database the handlers share: the catalogue is read-only, the two
      per-user tables are updated in place. */
  class Database {
    const courses: seq<Course>
    const lessons: seq<Lesson>
    var userLessons: UserLessons
    var userCourses: UserCourses

    /** A database with the given catalogue and no user activity yet. */
    constructor (courses: seq<Course>, lessons: seq<Lesson>)
      ensures this.courses == courses && this.lessons == lessons
      ensures userLessons == map[] && userCourses == map[]
      ensures Stamped(userLessons) && ProgressBounded(userCourses)
    {
      this.courses := courses;
      this.lessons := lessons;
      userLessons := map[];
      userCourses := map[];
    }

    /** SELECT the user's row for the lesson, then UPDATE it or INSERT one. */
    method UpsertLesson(k: Key, c: Change)
      modifies this`userLessons
      ensures userLessons == Upsert(old(userLessons), k, c)
    {
      if k in userLessons {
        userLessons := userLessons[k := Apply(c, userLessons[k])];
      } else {
        var row := match c
          case FlipFavorite => NewLessonRow.(isFavorite := true)
          case FlipLike => NewLessonRow.(isLiked := true)
          case FlipCompleted => NewLessonRow.(isCompleted := true)
          case FlipCompletedAt(now) => NewLessonRow.(isCompleted := true, completedAt := Some(now))
          case SetPosition(seconds) => NewLessonRow.(lastPosition := Some(seconds));
        userLessons := userLessons[k := row];
      }
    }
  }
}
