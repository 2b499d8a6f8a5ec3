/**
 * The course table and its queries: `get_courses_by_id` and the
 * category and sub-category filters (`filter_by(...).all()`), which keep the
 * matching rows in table order. Matching is exact string equality.
 */
module Catalog {
  import opened Wrappers

  /** A row of the `Course` table (the last-updated date is not modelled). */
  datatype Course = Course(
    id: int,
    instructorId: int,
    title: string,
    description: string,
    videoPath: string,
    thumbnailPath: string,
    category: string,
    subCategory: string,
    price: int)

  /** The rows satisfying `keep`, in table order. */
  function Select(courses: seq<Course>, keep: Course -> bool): (r: seq<Course>)
    ensures |r| <= |courses|
    ensures forall c :: c in r <==> c in courses && keep(c)
  {
    if courses == [] then []
    else
      assert courses == [courses[0]] + courses[1..];
      (if keep(courses[0]) then [courses[0]] else []) + Select(courses[1..], keep)
  }

  /** Filtering distributes over concatenation: the result keeps table order. */
  lemma {:induction false} SelectAppend(a: seq<Course>, b: seq<Course>, keep: Course -> bool)
    ensures Select(a + b, keep) == Select(a, keep) + Select(b, keep)
  {
    if a == [] {
      assert a + b == b;
    } else {
      assert (a + b)[1..] == a[1..] + b;
      SelectAppend(a[1..], b, keep);
    }
  }

  /** A table of one row: the row is kept exactly when it matches. */
  lemma SelectSingle(c: Course, keep: Course -> bool)
    ensures Select([c], keep) == if keep(c) then [c] else []
  {
    assert [c][1..] == [];
  }

  /** The filters of the three queries, each an exact match on one column. */
  function TaughtBy(id: int): Course -> bool {
    (c: Course) => c.instructorId == id
  }

  function InCategory(category: string): Course -> bool {
    (c: Course) => c.category == category
  }

  function InSubCategory(subCategory: string): Course -> bool {
    (c: Course) => c.subCategory == subCategory
  }

  /**
   * `get_courses_by_id`: for a falsy (zero) id, `None` and not all courses;
   * otherwise the courses taught by that instructor.
   */
  function CoursesByInstructor(courses: seq<Course>, id: int): (r: Option<seq<Course>>)
    ensures r.None? <==> id == 0
    ensures r.Some? ==> forall c :: c in r.value <==> c in courses && c.instructorId == id
  {
    if id == 0 then None else Some(Select(courses, TaughtBy(id)))
  }

  /** Rows of `get_courses_by_category`: exactly the courses whose category is `category`. */
  function ByCategory(courses: seq<Course>, category: string): (r: seq<Course>)
    ensures forall c :: c in r <==> c in courses && c.category == category
  {
    Select(courses, InCategory(category))
  }

  /** Rows of `get_courses_by_sub_category`: exactly the courses whose sub-category is `subCategory`. */
  function BySubCategory(courses: seq<Course>, subCategory: string): (r: seq<Course>)
    ensures forall c :: c in r <==> c in courses && c.subCategory == subCategory
  {
    Select(courses, InSubCategory(subCategory))
  }

  /** A new course row shows up at the end of its instructor's list, and nobody else's list changes. */
  lemma InstructorListAfterAppend(courses: seq<Course>, c: Course, id: int)
    requires id != 0
    ensures CoursesByInstructor(courses + [c], id).value ==
      CoursesByInstructor(courses, id).value + (if c.instructorId == id then [c] else [])
  {
    var keep := TaughtBy(id);
    SelectAppend(courses, [c], keep);
    SelectSingle(c, keep);
  }

  /** The same for the category filter: an appended row is listed last under its own category only. */
  lemma CategoryAfterAppend(courses: seq<Course>, c: Course, category: string)
    ensures ByCategory(courses + [c], category) ==
      ByCategory(courses, category) + (if c.category == category then [c] else [])
  {
    var keep := InCategory(category);
    SelectAppend(courses, [c], keep);
    SelectSingle(c, keep);
  }
}
