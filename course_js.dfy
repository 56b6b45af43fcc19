/** The lesson and course handlers of the Node back end
    (server/controllers/courseController.js). The reads are functions of the
    tables; the handlers that write are methods on the shared database. */
module CourseJs {
  import opened Wrappers
  import opened Http
  import opened Catalog

  const CourseNotFound := "Curso não encontrado"
  const LessonNotFound := "Aula não encontrada"

  /** `ORDER BY c.order_index ASC`. */
  function CourseOrder(c: Course): int { c.orderIndex }

  /** `ORDER BY l.order_index ASC`. */
  function LessonOrder(l: Lesson): int { l.orderIndex }

  /** `getAllCourses`: every course once, by ascending `order_index`, with the
      user's progress and favourite flag or 0 and false. */
  function GetAllCourses(courses: seq<Course>, uc: UserCourses, user: int): (r: seq<CourseView>)
    ensures |r| == |courses|
    ensures multiset(CoursesIn(r)) == multiset(courses)
    ensures SortedBy(CoursesIn(r), CourseOrder)
    ensures forall i :: 0 <= i < |r| ==> r[i] == CourseViewOf(uc, user, r[i].course)
  {
    var sorted := SortBy(courses, CourseOrder);
    CoursesOfViews(uc, user, sorted);
    CourseViews(uc, user, sorted)
  }

  /** `getCourseById`: 404 when no course has the id, otherwise the course
      with the user's columns and its lessons by ascending `order_index`. */
  function GetCourseById(courses: seq<Course>, lessons: seq<Lesson>, uc: UserCourses, ul: UserLessons,
                         user: int, courseId: int): (r: Response<CourseDetail>)
    ensures r.Failure? <==> forall i :: 0 <= i < |courses| ==> courses[i].id != courseId
    ensures r.Failure? ==> r == Failure(404, CourseNotFound)
    ensures r.Success? ==>
      && r.status == 200
      && r.data.course.course in courses && r.data.course.course.id == courseId
      && r.data.course == CourseViewOf(uc, user, r.data.course.course)
      && multiset(LessonsIn(r.data.lessons)) == multiset(LessonsOf(lessons, courseId))
      && SortedBy(LessonsIn(r.data.lessons), LessonOrder)
  {
    match CourseDetailById(courses, lessons, uc, ul, user, courseId, LessonOrder)
    case None => Failure(404, CourseNotFound)
    case Some(d) => Success(200, d)
  }

  /** `getLessonById`: 404 when no lesson has the id, otherwise the lesson
      with the user's columns. */
  function GetLessonById(lessons: seq<Lesson>, ul: UserLessons, user: int, lessonId: int): (r: Response<LessonView>)
    ensures r.Failure? <==> forall i :: 0 <= i < |lessons| ==> lessons[i].id != lessonId
    ensures r.Failure? ==> r == Failure(404, LessonNotFound)
    ensures r.Success? ==>
      && r.status == 200
      && r.data.lesson in lessons && r.data.lesson.id == lessonId
      && r.data == LessonViewOf(ul, user, r.data.lesson)
  {
    match LessonViewById(lessons, ul, user, lessonId)
    case None => Failure(404, LessonNotFound)
    case Some(v) => Success(200, v)
  }

  /** `toggleLessonFavorite`: the flag is negated (a missing row is inserted
      with it true) and the new value is returned. */
  method ToggleLessonFavorite(db: Database, user: int, lessonId: int) returns (r: Response<bool>)
    modifies db`userLessons
    ensures db.userLessons == Upsert(old(db.userLessons), (user, lessonId), FlipFavorite)
    ensures r == Success(200, !RowOf(old(db.userLessons), (user, lessonId)).isFavorite)
    ensures Stamped(old(db.userLessons)) ==> Stamped(db.userLessons)
  {
    db.UpsertLesson((user, lessonId), FlipFavorite);
    if Stamped(old(db.userLessons)) {
      NodeChangesKeepStamps(old(db.userLessons), (user, lessonId), FlipFavorite);
    }
    r := Success(200, db.userLessons[(user, lessonId)].isFavorite);
  }

  /** `toggleLessonLike`: as the favourite toggle, on `is_liked`. */
  method ToggleLessonLike(db: Database, user: int, lessonId: int) returns (r: Response<bool>)
    modifies db`userLessons
    ensures db.userLessons == Upsert(old(db.userLessons), (user, lessonId), FlipLike)
    ensures r == Success(200, !RowOf(old(db.userLessons), (user, lessonId)).isLiked)
    ensures Stamped(old(db.userLessons)) ==> Stamped(db.userLessons)
  {
    db.UpsertLesson((user, lessonId), FlipLike);
    if Stamped(old(db.userLessons)) {
      NodeChangesKeepStamps(old(db.userLessons), (user, lessonId), FlipLike);
    }
    r := Success(200, db.userLessons[(user, lessonId)].isLiked);
  }

  /** `markLessonComplete` at time `now`: flips `is_completed`, stamps or
      clears `completed_at`, responds with the new value and then recomputes
      the course progress. */
  method MarkLessonComplete(db: Database, user: int, lessonId: int, now: int) returns (r: Response<bool>)
    modifies db
    ensures db.userLessons == Upsert(old(db.userLessons), (user, lessonId), FlipCompletedAt(now))
    ensures db.userCourses == ProgressUpdated(old(db.userCourses), db.userLessons, db.lessons, user, lessonId)
    ensures r == Success(200, !RowOf(old(db.userLessons), (user, lessonId)).isCompleted)
    ensures Stamped(old(db.userLessons)) ==> Stamped(db.userLessons)
    ensures ProgressBounded(old(db.userCourses)) ==> ProgressBounded(db.userCourses)
  {
    db.UpsertLesson((user, lessonId), FlipCompletedAt(now));
    if Stamped(old(db.userLessons)) {
      NodeChangesKeepStamps(old(db.userLessons), (user, lessonId), FlipCompletedAt(now));
    }
    r := Success(200, db.userLessons[(user, lessonId)].isCompleted);
    UpdateCourseProgress(db, user, lessonId);
    if ProgressBounded(old(db.userCourses)) {
      ProgressStaysBounded(old(db.userCourses), db.userLessons, db.lessons, user, lessonId);
    }
  }

  /** `updateVideoPosition`: stores the position, with or without a previous
      row, and echoes it. */
  method UpdateVideoPosition(db: Database, user: int, lessonId: int, seconds: int) returns (r: Response<int>)
    modifies db`userLessons
    ensures db.userLessons == Upsert(old(db.userLessons), (user, lessonId), SetPosition(seconds))
    ensures r == Success(200, seconds)
    ensures Stamped(old(db.userLessons)) ==> Stamped(db.userLessons)
  {
    db.UpsertLesson((user, lessonId), SetPosition(seconds));
    if Stamped(old(db.userLessons)) {
      NodeChangesKeepStamps(old(db.userLessons), (user, lessonId), SetPosition(seconds));
    }
    r := Success(200, seconds);
  }

  /** `updateCourseProgress(userId, lessonId)`: look the lesson up, count the
      lessons of its course and the completed ones, and UPDATE or INSERT the
      user's course row with the percentage. */
  method UpdateCourseProgress(db: Database, user: int, lessonId: int)
    modifies db`userCourses
    ensures db.userCourses == ProgressUpdated(old(db.userCourses), db.userLessons, db.lessons, user, lessonId)
  {
    var found := FindLesson(db.lessons, lessonId);
    if found.None? {
      return;
    }
    var courseId := found.value.courseId;
    TotalOfMember(db.lessons, found.value);
    var total := TotalLessons(db.lessons, courseId);
    var completed := CompletedLessons(db.userLessons, db.lessons, user, courseId);
    var progress := Percentage(completed, total);
    if (user, courseId) in db.userCourses {
      db.userCourses := db.userCourses[(user, courseId) := db.userCourses[(user, courseId)].(progress := progress)];
    } else {
      db.userCourses := db.userCourses[(user, courseId) := NewCourseRow.(progress := progress)];
    }
  }

  /** One lesson of four completed gives 25, two give 50, and un-completing
      one brings it back to 25. */
  lemma QuarterSteps(t: UserLessons, user: int, a: Lesson, b: Lesson, c: Lesson, d: Lesson, now: int)
    requires a.courseId == b.courseId == c.courseId == d.courseId
    requires DistinctIds([a, b, c, d])
    requires forall l :: l in [a, b, c, d] ==> !Done(t, user, l.id)
    ensures var ls := [a, b, c, d];
      var t1 := Upsert(t, (user, a.id), FlipCompletedAt(now));
      var t2 := Upsert(t1, (user, b.id), FlipCompletedAt(now));
      var t3 := Upsert(t2, (user, a.id), FlipCompletedAt(now));
      && TotalLessons(ls, a.courseId) == 4
      && Percentage(CompletedLessons(t1, ls, user, a.courseId), 4) == 25.0
      && Percentage(CompletedLessons(t2, ls, user, a.courseId), 4) == 50.0
      && Percentage(CompletedLessons(t3, ls, user, a.courseId), 4) == 25.0
  {
    var ls := [a, b, c, d];
    assert ls[0].id != ls[1].id && ls[0].id != ls[2].id && ls[0].id != ls[3].id;
    assert ls[1].id != ls[2].id && ls[1].id != ls[3].id;
    var t1 := Upsert(t, (user, a.id), FlipCompletedAt(now));
    var t2 := Upsert(t1, (user, b.id), FlipCompletedAt(now));
    var t3 := Upsert(t2, (user, a.id), FlipCompletedAt(now));
    AllOfCourse(ls, a.courseId);
    NoneCompleted(t, ls, user, a.courseId);
    CompletionMovesCount(t, ls, user, a, now);
    assert !Done(t1, user, b.id);
    CompletionMovesCount(t1, ls, user, b, now);
    assert Done(t2, user, a.id);
    CompletionMovesCount(t2, ls, user, a, now);
  }
}
