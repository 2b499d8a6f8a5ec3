/** The authorisation grades a user can hold (the `AuthGrade` enumeration of app.py). */
module Grades {
  import opened Wrappers

  /** NONE = 0, then STUDENT, INSTRUCTOR and ADMIN take the next values by `auto()`. */
  datatype AuthGrade = NoGrade | Student | Instructor | Admin {

    /** The integer code stored in the `auth_grade` column. */
    function Value(): (v: int)
      ensures 0 <= v <= 3
    {
      match this
      case NoGrade => 0
      case Student => 1
      case Instructor => 2
      case Admin => 3
    }

    /** The grade ordering: this grade is at least as high as `other`. */
    predicate AtLeast(other: AuthGrade) {
      Value() >= other.Value()
    }
  }

  /** The code the grade table uses when a lookup finds no user. */
  const NoGradeCode: int := 0

  /** Decodes a stored integer back into a grade; codes outside 0..3 name no grade. */
  function FromValue(n: int): (g: Option<AuthGrade>)
    ensures g.Some? <==> 0 <= n <= 3
    ensures g.Some? ==> g.value.Value() == n
  {
    if n == 0 then Some(NoGrade)
    else if n == 1 then Some(Student)
    else if n == 2 then Some(Instructor)
    else if n == 3 then Some(Admin)
    else None
  }

  /** Encoding then decoding is the identity: distinct grades have distinct codes. */
  lemma FromValueOfValue(g: AuthGrade)
    ensures FromValue(g.Value()) == Some(g)
  {
    match g
    case NoGrade =>
    case Student =>
    case Instructor =>
    case Admin =>
  }

  /** The grades form a chain NONE < STUDENT < INSTRUCTOR < ADMIN, with NONE the least. */
  lemma GradeChain()
    ensures Student.Value() == NoGrade.Value() + 1
    ensures Instructor.Value() == Student.Value() + 1
    ensures Admin.Value() == Instructor.Value() + 1
    ensures NoGrade.Value() == NoGradeCode
    ensures forall g: AuthGrade :: g.AtLeast(NoGrade) && Admin.AtLeast(g)
  {
  }

  /** AtLeast is a total order on grades: reflexive, antisymmetric, transitive and total. */
  lemma AtLeastIsTotalOrder(a: AuthGrade, b: AuthGrade, c: AuthGrade)
    ensures a.AtLeast(a)
    ensures a.AtLeast(b) && b.AtLeast(a) ==> a == b
    ensures a.AtLeast(b) && b.AtLeast(c) ==> a.AtLeast(c)
    ensures a.AtLeast(b) || b.AtLeast(a)
  {
    FromValueOfValue(a);
    FromValueOfValue(b);
  }
}
