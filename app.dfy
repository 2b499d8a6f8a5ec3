/**
 * The application's database and upload folder as one object: the `User`
 * and `Course` tables and the names written to the upload folder, with the
 * two routes that change them, `register` and `create`.
 */
module App {
  import opened Wrappers
  import opened FileExt
  import opened Uploads
  import opened Users
  import opened Catalog
  import opened Pagination
  import Grades

  /** How `register` ends. */
  datatype RegisterOutcome =
    | Registered     // row committed, redirect to the login page
    | EmailTaken     // "This email already exists."
    | CommitFailed   // the commit raised; "There was an issue with registration."
    | EmptyPassword  // `generate_password_hash("")` raised ValueError: a server error

  /** How a POST to `create` ends. */
  datatype CreateOutcome =
    | CourseCreated(course: Course)
    | NoFilePart                                 // 'video' or 'thumbnail' missing
    | FileRejected(index: nat, reason: Rejection) // the loop stopped at this file
    | PriceNotInteger                            // `int(request.values['price'])` raised

  /**
   * What `create` decides for the current course table: the new row, or why
   * there is none. `price` is the parsed price, `None` when it does not parse.
   */
  function CreateDecision(
    courses: seq<Course>, currentUserId: int, title: string, description: string,
    files: seq<FileField>, sanitize: string -> string, price: Option<int>): (r: CreateOutcome)
    ensures r.CourseCreated? <==>
      HasField(files, "video") && HasField(files, "thumbnail") &&
      (forall i :: 0 <= i < |files| ==> CheckFile(files[i], sanitize).Ok?) &&
      price.Some?
    ensures r.NoFilePart? <==> !HasField(files, "video") || !HasField(files, "thumbnail")
    ensures r.FileRejected? <==>
      HasField(files, "video") && HasField(files, "thumbnail") && ScanFiles(files, sanitize).RejectedAt?
    ensures r.PriceNotInteger? <==>
      HasField(files, "video") && HasField(files, "thumbnail") &&
      (forall i :: 0 <= i < |files| ==> CheckFile(files[i], sanitize).Ok?) &&
      price.None?
    ensures r.FileRejected? ==>
      r.index < |files| && CheckFile(files[r.index], sanitize) == Err(r.reason) &&
      forall j :: 0 <= j < r.index ==> CheckFile(files[j], sanitize).Ok?
    ensures r.CourseCreated? ==>
      && r.course.id == |courses| + 1
      && r.course.instructorId == currentUserId
      && r.course.title == title && r.course.description == description
      && r.course.videoPath == FilenameOf(files, "video")
      && r.course.thumbnailPath == FilenameOf(files, "thumbnail")
      && r.course.category == "web" && r.course.subCategory == "python"
      && r.course.price == price.value
  {
    if !HasField(files, "video") || !HasField(files, "thumbnail") then NoFilePart
    else match ScanFiles(files, sanitize)
      case RejectedAt(k, reason) => FileRejected(k, reason)
      case AllAccepted =>
        match price
        case None => PriceNotInteger
        case Some(p) =>
          CourseCreated(Course(|courses| + 1, currentUserId, title, description,
                               FilenameOf(files, "video"), FilenameOf(files, "thumbnail"),
                               "web", "python", p))
  }

  /**
   * The body of `create`'s loop for one file, up to the save: reject an
   * empty name, sanitise it, and reject it when it has no extension or one
   * outside the allowed set; otherwise the name to save it under.
   */
  method CheckUpload(f: FileField, sanitize: string -> string) returns (r: Result<string, Rejection>)
    ensures r == Err(EmptyFilename) <==> f.filename == ""
    ensures r == Err(NoExtension) <==> f.filename != "" && '.' !in sanitize(f.filename)
    ensures r.Ok? <==>
      f.filename != "" && GetFileExt(sanitize(f.filename)).Some? &&
      GetFileExt(sanitize(f.filename)).value in AllowedExtensions
    ensures r.Ok? ==> r.value == sanitize(f.filename)
  {
    if f.filename == "" {
      return Err(EmptyFilename);
    }
    var name := sanitize(f.filename);
    var ext := GetFileExt(name);
    if ext.None? {
      return Err(NoExtension);
    }
    if ext.value !in AllowedExtensions {
      return Err(DisallowedExtension);
    }
    r := Ok(name);
  }

  /**
   * The four facts `CheckUpload` promises leave only one verdict: the one
   * `CheckFile` gives.
   */
  lemma SameVerdict(f: FileField, sanitize: string -> string, r: Result<string, Rejection>)
    requires r == Err(EmptyFilename) <==> f.filename == ""
    requires r == Err(NoExtension) <==> f.filename != "" && '.' !in sanitize(f.filename)
    requires r.Ok? <==>
      f.filename != "" && GetFileExt(sanitize(f.filename)).Some? &&
      GetFileExt(sanitize(f.filename)).value in AllowedExtensions
    requires r.Ok? ==> r.value == sanitize(f.filename)
    ensures r == CheckFile(f, sanitize)
  {
    CheckFileMeaning(f, sanitize);
    var c := CheckFile(f, sanitize);
    if r.Err? && c.Err? {
      assert r.error == c.error by {
        if r.error == DisallowedExtension {
          assert c.error != EmptyFilename && c.error != NoExtension;
        }
      }
    }
  }

  class Store {
    var users: seq<User>
    var courses: seq<Course>
    /** Names written to the upload folder, in order (a name may repeat: a later save overwrites). */
    var uploads: seq<string>

    /**
     * Emails are pairwise distinct, and the database has numbered the rows
     * of each table 1, 2, ... (rows are never deleted).
     */
    ghost predicate Valid()
      reads this
    {
      UniqueEmails(users) &&
      (forall i :: 0 <= i < |users| ==> users[i].id == i + 1) &&
      (forall i :: 0 <= i < |courses| ==> courses[i].id == i + 1)
    }

    /** `db.create_all()` on a fresh database. */
    constructor ()
      ensures Valid()
      ensures users == [] && courses == [] && uploads == []
    {
      users, courses, uploads := [], [], [];
    }

    /** `get_all_courses`: the whole course table in table order. */
    function AllCourses(): (r: seq<Course>)
      reads this
      ensures |r| == |courses|
      ensures forall c :: c in r <==> c in courses
    {
      courses
    }

    /**
     * `register`: hash the password first, which fails for an empty one;
     * then refuse a taken email; otherwise insert a row with the given name,
     * email and grade and the hash of the password, unless the commit fails.
     * `hash` stands for bcrypt's `generate_password_hash` on a non-empty
     * password.
     */
    method Register(fullName: string, email: string, password: string, authGrade: int,
                    hash: string -> string, commitSucceeds: bool) returns (outcome: RegisterOutcome)
      requires Valid()
      modifies this
      ensures Valid()
      ensures outcome == EmptyPassword <==> password == ""
      ensures outcome == EmailTaken <==> password != "" && !ValidateEmail(old(users), email)
      ensures outcome == CommitFailed <==> password != "" && ValidateEmail(old(users), email) && !commitSucceeds
      ensures users == if outcome == Registered
                       then old(users) + [User(|old(users)| + 1, fullName, hash(password), email, authGrade)]
                       else old(users)
      ensures courses == old(courses) && uploads == old(uploads)
    {
      if password == "" {
        return EmptyPassword;
      }
      var hashed := hash(password);
      if !ValidateEmail(users, email) {
        return EmailTaken;
      }
      var user := User(|users| + 1, fullName, hashed, email, authGrade);
      if !commitSucceeds {
        return CommitFailed;
      }
      AppendKeepsUnique(users, user);
      users := users + [user];
      outcome := Registered;
    }

    /**
     * The loop of `create`: check each uploaded file in turn and save it to
     * the upload folder under its sanitised name, stopping at the first file
     * that fails. Files saved before that one stay saved.
     */
    method SaveUploads(files: seq<FileField>, sanitize: string -> string) returns (scan: Scan)
      modifies this`uploads
      ensures scan == ScanFiles(files, sanitize)
      ensures uploads == old(uploads) + SavedNames(files[..SavedCount(files, sanitize)], sanitize)
    {
      var i := 0;
      while i < |files|
        invariant 0 <= i <= |files|
        invariant forall j {:trigger CheckFile(files[j], sanitize)} :: 0 <= j < i ==> CheckFile(files[j], sanitize).Ok?
        invariant uploads == old(uploads) + SavedNames(files[..i], sanitize)
      {
        var check := CheckUpload(files[i], sanitize);
        SameVerdict(files[i], sanitize, check);
        if check.Err? {
          ScanStopsAt(files, sanitize, i);
          return RejectedAt(i, check.error);
        }
        SavedNamesSnoc(files, sanitize, i);
        uploads := uploads + [check.value];
        i := i + 1;
      }
      assert files[..i] == files;
      scan := AllAccepted;
    }

    /**
     * A POST to `create` by the user `currentUserId`: check that both file
     * fields are present, then check and save each uploaded file in turn,
     * stopping at the first bad one, and insert the course row only when
     * every file passed. A file saved before the loop stops stays saved.
     */
    method Create(currentUserId: int, title: string, description: string,
                  files: seq<FileField>, sanitize: string -> string, price: Option<int>)
      returns (outcome: CreateOutcome)
      requires Valid()
      modifies this`courses, this`uploads
      ensures Valid()
      ensures outcome == CreateDecision(old(courses), currentUserId, title, description, files, sanitize, price)
      ensures courses == if outcome.CourseCreated? then old(courses) + [outcome.course] else old(courses)
      ensures uploads == if outcome.NoFilePart? then old(uploads)
                         else old(uploads) + SavedNames(files[..SavedCount(files, sanitize)], sanitize)
      ensures users == old(users)
    {
      if !HasField(files, "video") || !HasField(files, "thumbnail") {
        return NoFilePart;
      }
      var scan := SaveUploads(files, sanitize);
      if scan.RejectedAt? {
        return FileRejected(scan.index, scan.reason);
      }
      if price.None? {
        return PriceNotInteger;
      }
      var course := Course(|courses| + 1, currentUserId, title, description,
                           FilenameOf(files, "video"), FilenameOf(files, "thumbnail"),
                           "web", "python", price.value);
      courses := courses + [course];
      outcome := CourseCreated(course);
    }
  }

  /**
   * Every registered user has a non-zero id, so the managed-courses page of
   * a logged-in user never meets the falsy-id guard of `get_courses_by_id`.
   */
  lemma RegisteredUsersHaveCourseLists(store: Store, u: User)
    requires store.Valid() && u in store.users
    ensures u.id > 0
    ensures CoursesByInstructor(store.courses, u.id).Some?
  {
    var i :| 0 <= i < |store.users| && store.users[i] == u;
  }

  /** "intro.mp4" and "cover.png" carry allowed extensions. */
  lemma SampleFilesAllowed()
    ensures GetFileExt("intro.mp4") == Some("mp4") && GetFileExt("cover.png") == Some("png")
  {
    assert "intro.mp4" == "intro" + "." + "mp4";
    assert "cover.png" == "cover" + "." + "png";
    assert '.' !in "mp4" && '.' !in "png";
    ExtOfJoin("intro", "mp4");
    ExtOfJoin("cover", "png");
    LowerOfLowerCase("mp4");
    LowerOfLowerCase("png");
  }

  /**
   * Two registrations with the same email: the second is refused and the
   * user table keeps one row.
   */
  method DuplicateEmailScenario(hash: string -> string) returns (first: RegisterOutcome, second: RegisterOutcome, userCount: nat)
    ensures first == Registered && second == EmailTaken && userCount == 1
  {
    var store := new Store();
    first := store.Register("Ada", "ada@example.com", "secret", Grades.AuthGrade.Instructor.Value(), hash, true);
    second := store.Register("Ada again", "ada@example.com", "other", Grades.AuthGrade.Student.Value(), hash, true);
    userCount := |store.users|;
  }

  /**
   * A user registers on a fresh database with a non-empty password and then
   * logs in with the same email and password: the session is that user. `hash` and `check` stand
   * for bcrypt, which accepts a password against its own hash.
   */
  method LoginScenario(email: string, password: string,
                       hash: string -> string, check: (string, string) -> bool)
    returns (registered: RegisterOutcome, session: Option<User>)
    requires password != "" && check(hash(password), password)
    ensures registered == Registered
    ensures session == Some(User(1, "Ada", hash(password), email, Grades.AuthGrade.Instructor.Value()))
  {
    var store := new Store();
    registered := store.Register("Ada", email, password, Grades.AuthGrade.Instructor.Value(), hash, true);
    var ada := store.users[0];
    LoginAfterRegister([], ada, password, check);
    assert [] + [ada] == store.users;
    session := Login(store.users, email, password, check);
  }

  /**
   * A registered instructor publishes a course whose uploads all pass: the
   * course is row 1 and theirs, page 1 of the home page shows it, and the
   * instructor's managed list is exactly that course.
   */
  method PublishScenario(email: string, password: string, files: seq<FileField>,
                         hash: string -> string, sanitize: string -> string)
    returns (created: CreateOutcome, home: seq<Course>, mine: Option<seq<Course>>)
    requires password != ""
    requires HasField(files, "video") && HasField(files, "thumbnail")
    requires ScanFiles(files, sanitize).AllAccepted?
    ensures created.CourseCreated? && created.course.id == 1 && created.course.instructorId == 1
    ensures home == [created.course] && mine == Some([created.course])
  {
    var store := new Store();
    var registered := store.Register("Ada", email, password, Grades.AuthGrade.Instructor.Value(), hash, true);
    var ada := store.users[0];
    created := store.Create(ada.id, "Python basics", "<p>First steps</p>", files, sanitize, Some(10));
    var course := created.course;
    var table := store.AllCourses();
    assert table == [course];
    LoneCourseListings(course);
    home := Paginate(table, RequestedPage(None)).0;
    mine := CoursesByInstructor(table, ada.id);
  }

  /**
   * With one course in the table, page 1 of the home page is that course and
   * so is its instructor's managed list.
   */
  lemma LoneCourseListings(course: Course)
    requires course.instructorId != 0
    ensures Paginate([course], RequestedPage(None)).0 == [course]
    ensures CoursesByInstructor([course], course.instructorId) == Some([course])
  {
    ShortListIsFirstPage([course]);
    InstructorListAfterAppend([], course, course.instructorId);
    assert [] + [course] == [course];
  }

  /** A video "intro.mp4" and a thumbnail "cover.png" that sanitising leaves alone pass every check. */
  lemma SampleUploadAccepted(sanitize: string -> string)
    requires sanitize("intro.mp4") == "intro.mp4" && sanitize("cover.png") == "cover.png"
    ensures var files := [FileField("video", "intro.mp4"), FileField("thumbnail", "cover.png")];
            HasField(files, "video") && HasField(files, "thumbnail") && ScanFiles(files, sanitize).AllAccepted?
  {
    var files := [FileField("video", "intro.mp4"), FileField("thumbnail", "cover.png")];
    SampleFilesAllowed();
    assert CheckFile(files[0], sanitize).Ok? && CheckFile(files[1], sanitize).Ok?;
    assert files[0].key == "video" && files[1].key == "thumbnail";
  }
}
