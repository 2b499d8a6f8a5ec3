# Course marketplace: a Dafny model of its core logic

This project models the logic of a small Flask course marketplace. Users register and log in. Instructors upload video courses. Everyone browses the catalog one page at a time. The database is modelled as in-memory tables: a `User` table and a `Course` table, both in insertion order. Bcrypt hashing, `secure_filename` and the request parsing are parameters of the operations.

Modules, following the program's parts:

- `Wrappers` (`wrappers.dfy`): `Option` and `Result`.
- `Grades` (`grades.dfy`): the `AuthGrade` enumeration. NONE = 0 (named `NoGrade` here), STUDENT = 1, INSTRUCTOR = 2, ADMIN = 3. It has the `AtLeast` order.
- `FileExt` (`file_ext.dfy`): `get_file_ext` from utils.py. It lower-cases the text after the last dot. A name without a dot has no extension (`None`); in Python that is the `IndexError` of `[1]`.
- `Uploads` (`uploads.dfy`): `ALLOWED_EXTENSIONS`, the per-file check in `create`'s loop (`CheckFile`), and the loop's verdict (`ScanFiles`). Also the names the loop saves to the upload folder, and `request.files[key].filename`.
- `Users` (`users.dfy`): the `User` row, `filter_by(email=...).first()`, `validate_email`, `get_auth_grade` and the login decision. Also the email-uniqueness invariant.
- `Catalog` (`catalog.dfy`): the `Course` row, `get_courses_by_id` with its falsy-id guard, and the category and sub-category filters. These filters are exact and keep table order.
- `Pagination` (`pagination.dfy`): `get_pagination`. It has six items per page and `ceil(n / 6)` pages, and it cuts the page with Python's slice `items[(page-1)*6 : page*6]`. That slice is modelled for every integer page, including negative ones.
- `App` (`app.dfy`): class `Store`. It holds the two tables and the list of names written to the upload folder. Its methods are `Register` and `Create`; `Create` runs its upload loop through `SaveUploads`. There are also three end-to-end scenarios:
  - two registrations with the same email;
  - register, then log in;
  - register, publish a course, then see it on the home page and in "manage courses".

`get_all_courses` is `Store.AllCourses`: the whole course table. The `page` query argument (`request.args.get('page', 1, type=int)`) is `Pagination.RequestedPage`. It is 1 when the argument is missing or is not an integer.

### Behaviour of the code that the model keeps

- A negative page number is not always empty. Python counts negative slice bounds from the end, so on twelve courses page -1 is the first six (`NegativePageWrapsAround`). Page 0 is always empty, and so is any page after the last one.
- `create` saves each file as soon as that file passes its check. A rejection later in the loop leaves the earlier files in the upload folder. Only the course row is all-or-nothing (`Store.Create`, `Store.SaveUploads`).
- The loop checks every uploaded file field, not only `video` and `thumbnail`.
- The course row stores the client's file names (`request.files['video'].filename`). The upload folder holds the sanitised names.
- `create` is gated only by being logged in. No grade is checked.
- `register` stores whatever integer the form sends as the grade. `User.authGrade` is therefore an `int`; `Grades.FromValue` says which codes name a grade.
- Login tries only the first row with the email. With unique emails, which `register` maintains, that row is the only one (`LoginIffCredentialsMatch`).
- Row ids are modelled as the row count plus one. SQLite assigns `max(rowid) + 1`, and no route deletes rows. `Store.Valid` keeps ids equal to position + 1.

## Model

| member | source | states |
|---|---|---|
| `Grades.AuthGrade.Value` | app.py:26-30 | each grade's stored code is in 0..3 |
| `Grades.FromValue` | app.py:26-30 | a stored integer names a grade exactly when it is 0..3, and then the grade whose code it is |
| `Grades.FromValueOfValue` | app.py:26-30 | decoding a grade's code gives back that grade |
| `Grades.GradeChain` | app.py:26-30 | NONE = 0, and each later grade's code is one more than the previous one; NONE is the least and ADMIN the greatest grade |
| `Grades.AtLeastIsTotalOrder` | app.py:26-30 | the grade order is reflexive, antisymmetric, transitive and total |
| `FileExt.LastDot` | utils.py:20 | the split point of `rsplit('.', 1)` is absent exactly when the name has no '.'; otherwise it is a '.' with no '.' after it |
| `FileExt.GetFileExt` | utils.py:20 | there is no extension (the `IndexError`) exactly when the name has no '.' |
| `FileExt.ExtAfterLastDot` | utils.py:20 | for a name with a last '.', the extension is the lower-cased text after it |
| `FileExt.ExtOfJoin` | utils.py:20 | only the final dot splits: `base + "." + ext` has extension `lower(ext)` for any dot-free `ext`, whatever dots `base` holds |
| `FileExt.DoubleExtensionExample` | utils.py:20 | "a.tar.MP4" has extension "mp4" |
| `FileExt.TrailingDotGivesEmpty` | utils.py:20 | a name ending in '.' has the empty extension |
| `FileExt.ExtHasNoDot` | utils.py:20 | the extension never contains '.' |
| `FileExt.ExtIsLowerCase` | utils.py:20 | the extension has no upper-case letter, so lower-casing it again is a no-op |
| `Uploads.CheckFile` | app.py:223-231 | the empty-name rejection happens exactly for an empty name; a passing file is saved under its sanitised name |
| `Uploads.CheckFileMeaning` | app.py:223-231 | a file passes exactly when its name is non-empty and the extension of its sanitised name is allowed; the no-extension rejection happens exactly when the sanitised name has no '.' |
| `Uploads.ScanFiles` | app.py:221-235 | the loop accepts exactly when every file passes; otherwise it stops at a failing file, with that file's reason, after files that all passed |
| `Uploads.ScanStopsAt` | app.py:221-235 | the loop stops at the first failing file, and exactly the files before it were saved |
| `Uploads.SavedNamesAt` | app.py:227-233 | one saved name per file, in loop order, each the sanitised client name |
| `Uploads.SavedNamesSnoc` | app.py:227-233 | saving one more file appends exactly its sanitised name to the folder's list |
| `Uploads.SavedCount` | app.py:221-235 | the loop saves a prefix of the files: every counted file passed its check, and the file right after the counted ones, when there is one, failed it |
| `Uploads.HasFieldIffKeyPresent` | app.py:217 | `HasField` (`'video' in request.files`) holds exactly when the field name is one of the upload's keys |
| `Uploads.FilenameOf` | app.py:240-241 | `request.files[key].filename` is the name of the first entry for that field |
| `Uploads.AcceptedIffAllFilesAllowed` | app.py:221-231 | the upload is accepted exactly when every file, not only the video and the thumbnail, has a non-empty name with an allowed extension |
| `Uploads.TrailingDotRejected` | app.py:228-229 | a file whose sanitised name ends in '.' gets the empty extension, which is not allowed, so it is refused |
| `Users.FirstWithEmail` | app.py:145 | `filter_by(email=e).first()` finds nothing exactly when no row has email `e`; otherwise it finds the first row with it |
| `Users.ValidateEmail` | app.py:151-157 | `validate_email(e)` is true exactly when no user has email `e` |
| `Users.GetAuthGrade` | app.py:142-148 | the grade of the first user with the email, or NONE's code 0 when there is none |
| `Users.Login` | app.py:187-194 | a session is opened only for the first row with that exact email, and only when its stored hash passes the check. No session exactly when no row has the email, or the first such row fails the check |
| `Users.DuplicateEmailLogsInFirstRow` | app.py:187-191 | when two rows share an email, login opens a session for the earlier row |
| `Users.AppendKeepsUnique` | app.py:281-288 | appending a user keeps emails pairwise distinct exactly when `validate_email` accepts its email |
| `Users.GradeOfRegisteredUser` | app.py:142-148 | with unique emails, `get_auth_grade` returns the grade of the one user with that email |
| `Users.LoginIffCredentialsMatch` | app.py:187-194 | with unique emails, login succeeds exactly when some user has the email and the hash check of that user's stored hash against the password passes |
| `Users.LoginAfterRegister` | app.py:285-289 | a user appended under a free email can then log in with any password the check accepts against the stored hash |
| `Catalog.Select` | app.py:166 | a filter result keeps exactly the rows that match, and is no longer than the table |
| `Catalog.SelectAppend` | app.py:166 | filtering distributes over concatenation, so results are in table order |
| `Catalog.CoursesByInstructor` | app.py:160-168 | `get_courses_by_id` returns `None` exactly for the falsy id 0; otherwise it returns exactly the courses with that `instructor_id` |
| `Catalog.ByCategory` | app.py:324-326 | exactly the courses whose category equals the given string |
| `Catalog.BySubCategory` | app.py:317-319 | exactly the courses whose sub-category equals the given string |
| `Catalog.InstructorListAfterAppend` | app.py:160-168 | a new course appears last in its own instructor's list, and no other list changes |
| `Catalog.CategoryAfterAppend` | app.py:324-326 | a new course appears last under its own category, and no other category changes |
| `Pagination.RequestedPage` | app.py:307 | the page is 1 when the `page` argument is missing or not an integer, and otherwise the given integer |
| `Pagination.MissingPageArgIsFirstPage` | app.py:307-314 | without a `page` argument, the page shown is the first six items (all of them when there are fewer), and the reported page is 1 |
| `Pagination.TotalPages` | app.py:304-310 | the page count is the ceiling of n / 6: the least count whose six-item pages hold n items |
| `Pagination.Paginate` | app.py:301-314 | the metadata echoes the requested page and the computed page count unchanged |
| `Pagination.NoPagesIffEmpty` | app.py:310 | there are 0 pages exactly for an empty list |
| `Pagination.PageWindow` | app.py:313 | for page >= 1 the subset is `items[min((page-1)*6, n) .. min(page*6, n)]` |
| `Pagination.PageSizeBound` | app.py:313 | a page holds at most six items |
| `Pagination.PageEmptyIffPastLast` | app.py:310-313 | for page >= 1 the subset is empty exactly when the page is past the last one, hence always on an empty list |
| `Pagination.ShortListIsFirstPage` | app.py:313 | a list of at most six items is all on page 1 |
| `Pagination.PageZeroEmpty` | app.py:313 | page 0 is empty |
| `Pagination.NegativePageWrapsAround` | app.py:313 | on twelve items page -1 is the first six, because Python slices count negative bounds from the end |
| `Pagination.PagesUpToIsPrefix` | app.py:313 | pages 1..k together are the first min(6k, n) items |
| `Pagination.PagesCoverAll` | app.py:310-313 | concatenating pages 1..total_pages gives back the whole list |
| `Pagination.ItemOnItsPage` | app.py:313 | item i is on page i / 6 + 1, at position i % 6 |
| `App.CreateDecision` | app.py:215-247 | a course is created exactly when both file fields are present, every file passes and the price parses. A missing field is reported first. Failing that, a failing file is reported exactly when the loop rejects, with the first failing file and its reason, before the price is looked at. The price error is reported exactly when every file passes and the price does not parse. The new row gets the next id, the current user as instructor, the client file names, category 'web' and sub-category 'python' |
| `App.CheckUpload` | app.py:223-231 | the loop body refuses an empty name exactly when the name is empty, and refuses a missing extension exactly when the sanitised name has no '.'. It accepts exactly when the name is non-empty and the sanitised name's extension is allowed, and then it returns the sanitised name |
| `App.SameVerdict` | app.py:223-231 | any verdict with the loop body's four properties is the `CheckFile` verdict, so the method and the function agree |
| `App.Store.constructor` | app.py:365-366 | a fresh database has empty tables and an empty upload folder, and satisfies the invariant |
| `App.Store.AllCourses` | app.py:171-176 | `get_all_courses` returns every course in the table |
| `App.Store.Register` | app.py:275-292 | an empty password fails in the hash call before anything else, and leaves the user table unchanged. Otherwise a taken email leaves the table unchanged, and so does a failed commit. Otherwise exactly one row is appended, with the name, email, grade and `hash(password)`. Emails stay pairwise distinct and the course table is untouched |
| `App.Store.SaveUploads` | app.py:221-235 | the loop's verdict is `ScanFiles`, and the upload folder gains exactly the sanitised names of the files before the first failing file, in order; the tables are untouched |
| `App.Store.Create` | app.py:215-252 | the outcome is `CreateDecision` for the old table. The course table gains the new row only on success and is unchanged on every rejection. Files saved before a rejection stay saved. The user table is unchanged and the invariant is kept |
| `App.RegisteredUsersHaveCourseLists` | app.py:340-343 | a registered user's id is non-zero, so their managed-courses list never meets the falsy-id guard |
| `App.DuplicateEmailScenario` | app.py:281-283 | registering the same email twice: the first succeeds, the second is refused, and one user remains |
| `App.LoginScenario` | app.py:182-194 | after registering on a fresh database with a non-empty password, logging in with the same email and password opens a session for exactly the new row |
| `App.PublishScenario` | app.py:215-343 | an instructor registered with a non-empty password and publishing a course whose uploads all pass gets row 1 with their id as instructor. Page 1 of the home page shows exactly that course, and so does the instructor's managed list |
| `App.LoneCourseListings` | app.py:160-168 | with one course in the table, page 1 of the home page and the instructor's managed list are both exactly that course |
| `App.SampleUploadAccepted` | app.py:217-235 | a video "intro.mp4" and a thumbnail "cover.png" pass every check of the upload loop |

## Left out

- Flask routing, request and response handling, `render_template`, `redirect`/`url_for`, `send_from_directory` (`display_attachment`), and the static `contact` and `about` pages: framework I/O.
- The course detail route (`/course/<id>`, a lookup by primary key feeding a template): it is not part of the modelled core.
- The flask_login machinery: `login_user`, `logout_user`, `current_user`, `@login_required`, `load_user`, `is_logged` and the `logout` route. The login decision is `Users.Login`, and the current user's id is an input to `Store.Create`.
- Bcrypt: `generate_password_hash` is the parameter `hash`, and `check_password_hash` is the parameter `check`. The random salt is folded into the choice of `hash`. The `ValueError` that `generate_password_hash` raises for an empty password is the outcome `EmptyPassword`: the request ends before the email check, and nothing is stored.
- `secure_filename`: a werkzeug call, the parameter `sanitize`.
- SQLAlchemy sessions. `register`'s `except BaseException` around the commit is the flag `commitSucceeds`: on failure the table is unchanged. A failing commit in `create` is not caught by the code and is not modelled.
- `file.save`: only the name written to the upload folder is kept, as a list in write order. File contents, and overwriting a file of the same name, are not modelled.
- `int(request.values['price'])`: the parsed price is an input, `None` when `int` raises. The price is stored as that integer; the `Float` column is not modelled.
- `int(request.form['checkbox_auth'])`: the parsed grade is an input. The `ValueError` it may raise, before any check and with nothing stored, is not modelled. Neither is a `KeyError` from a missing form field such as `title`.
- `datetime.utcnow` defaults (`date_joined`, `last_updated`): clocks. Also `MAX_CONTENT_LENGTH`, the CKEditor and WTForms objects, and the template data `{i.name: i.value for i in AuthGrade}`.
- `print` and `print_error` debug output (utils.py): I/O.
- Races between concurrent requests, such as check-then-insert on emails: concurrency.
- `FileExt.GetFileExt`: only ASCII letters are lower-cased, not Python's full Unicode `str.lower`.
- `Uploads.CheckFile`: a `None` file name is treated like the empty name; both are falsy.
- `Uploads.ScanFiles`: the list of files stands for `request.files.items()`, one entry per form field. A second file under the same field name is not modelled.
- `Uploads.CheckFile`: a sanitised name without '.' makes `get_file_ext` raise `IndexError`, and the request ends with a server error. The model reports this as the rejection `NoExtension`; in both, no row is inserted and earlier files stay saved.
- `Pagination.TotalPages`: `math.ceil(len / 6)` is computed exactly, without float rounding for lists beyond 2^53 items.
