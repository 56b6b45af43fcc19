/** The lesson and course handlers of the PHP back end
    (server_php/controllers/CourseController.php). The reads are functions of
    the tables; the handlers that write go through the controller's `db`. */
module CoursePhp {
  import opened Wrappers
  import opened Http
  import opened Catalog

  const CourseNotFound := "Curso não encontrado"
  const LessonNotFound := "Aula não encontrada"
  const PositionRequired := "Posição é obrigatória"

  /** `ORDER BY c.id DESC`, as an ascending key. */
  function NewestFirst(c: Course): int { -c.id }

  /** `ORDER BY l.position ASC`. */
  function PositionOrder(l: Lesson): int { l.position }

  /** `getAllCourses`: every course once, newest id first, with the user's
      progress and favourite flag or 0 and 0. */
  function GetAllCourses(courses: seq<Course>, uc: UserCourses, user: int): (r: seq<CourseView>)
    ensures |r| == |courses|
    ensures multiset(CoursesIn(r)) == multiset(courses)
    ensures forall i, j :: 0 <= i < j < |r| ==> r[i].course.id >= r[j].course.id
    ensures forall i :: 0 <= i < |r| ==> r[i] == CourseViewOf(uc, user, r[i].course)
  {
    var sorted := SortBy(courses, NewestFirst);
    CoursesOfViews(uc, user, sorted);
    var r := CourseViews(uc, user, sorted);
    assert forall i, j :: 0 <= i < j < |r| ==> NewestFirst(sorted[i]) <= NewestFirst(sorted[j]);
    r
  }

  /** `getCourseById($id)`: 404 when `fetch()` finds no course, otherwise the
      course with the user's columns and its lessons by ascending `position`. */
  function GetCourseById(courses: seq<Course>, lessons: seq<Lesson>, uc: UserCourses, ul: UserLessons,
                         user: int, courseId: int): (r: Response<CourseDetail>)
    ensures r.Failure? <==> forall i :: 0 <= i < |courses| ==> courses[i].id != courseId
    ensures r.Failure? ==> r == Failure(404, CourseNotFound)
    ensures r.Success? ==>
      && r.status == 200
      && r.data.course.course in courses && r.data.course.course.id == courseId
      && r.data.course == CourseViewOf(uc, user, r.data.course.course)
      && multiset(LessonsIn(r.data.lessons)) == multiset(LessonsOf(lessons, courseId))
      && SortedBy(LessonsIn(r.data.lessons), PositionOrder)
  {
    match CourseDetailById(courses, lessons, uc, ul, user, courseId, PositionOrder)
    case None => Failure(404, CourseNotFound)
    case Some(d) => Success(200, d)
  }

  /** `getLessonById($id)`: 404 when no lesson has the id, otherwise the
      lesson with the user's columns. */
  function GetLessonById(lessons: seq<Lesson>, ul: UserLessons, user: int, lessonId: int): (r: Response<LessonView>)
    ensures r.Failure? <==> forall i :: 0 <= i < |lessons| ==> lessons[i].id != lessonId
    ensures r.Failure? ==> r == Failure(404, LessonNotFound)
    ensures r.Success? ==>
      && r.status == 200
      && r.data.lesson in lessons && r.data.lesson.id == lessonId
      && r.data == LessonViewOf(ul, user, r.data.lesson)
  {
    match LessonViewById(lessons, ul, user, lessonId)
    case None => Failure(404, LessonNotFound)
    case Some(v) => Success(200, v)
  }

  /** `CourseController`: its `$this->db` connection. */
  class CourseController {
    const db: Database

    constructor (db: Database)
      ensures this.db == db
    {
      this.db := db;
    }

    /** `toggleLessonFavorite($id)`: negate the flag of an existing row, or
        insert one with it set; respond with the new value. */
    method ToggleLessonFavorite(user: int, lessonId: int) returns (r: Response<bool>)
      modifies db`userLessons
      ensures db.userLessons == Upsert(old(db.userLessons), (user, lessonId), FlipFavorite)
      ensures r == Success(200, !RowOf(old(db.userLessons), (user, lessonId)).isFavorite)
    {
      db.UpsertLesson((user, lessonId), FlipFavorite);
      r := Success(200, db.userLessons[(user, lessonId)].isFavorite);
    }

    /** `toggleLessonLike($id)`: as the favourite toggle, on `is_liked`. */
    method ToggleLessonLike(user: int, lessonId: int) returns (r: Response<bool>)
      modifies db`userLessons
      ensures db.userLessons == Upsert(old(db.userLessons), (user, lessonId), FlipLike)
      ensures r == Success(200, !RowOf(old(db.userLessons), (user, lessonId)).isLiked)
    {
      db.UpsertLesson((user, lessonId), FlipLike);
      r := Success(200, db.userLessons[(user, lessonId)].isLiked);
    }

    /** `markLessonComplete($id)`: flips `is_completed` only; no timestamp is
        written and the course progress is not recomputed. */
    method MarkLessonComplete(user: int, lessonId: int) returns (r: Response<bool>)
      modifies db`userLessons
      ensures db.userLessons == Upsert(old(db.userLessons), (user, lessonId), FlipCompleted)
      ensures db.userLessons[(user, lessonId)].completedAt == RowOf(old(db.userLessons), (user, lessonId)).completedAt
      ensures r == Success(200, !RowOf(old(db.userLessons), (user, lessonId)).isCompleted)
    {
      db.UpsertLesson((user, lessonId), FlipCompleted);
      r := Success(200, db.userLessons[(user, lessonId)].isCompleted);
    }

    /** `updateVideoPosition($id)` with the body's `position` (None when it is
        absent or null): 400 before any table access, otherwise store it and
        echo it. */
    method UpdateVideoPosition(user: int, lessonId: int, position: Option<int>) returns (r: Response<int>)
      modifies db`userLessons
      ensures position.None? ==> r == Failure(400, PositionRequired) && db.userLessons == old(db.userLessons)
      ensures position.Some? ==>
        && db.userLessons == Upsert(old(db.userLessons), (user, lessonId), SetPosition(position.value))
        && r == Success(200, position.value)
    {
      if position.None? {
        return Failure(400, PositionRequired);
      }
      db.UpsertLesson((user, lessonId), SetPosition(position.value));
      r := Success(200, position.value);
    }
  }
}
