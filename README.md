# Course-catalog helpers of the course recommender, in Dafny

The recommendation service uses two helpers to handle the course catalog
before it builds a semester plan. This project models both and proves
properties about them. The helpers live in `web-app/api/course_filtering.py`:

- **`filter_completed_courses`** takes the catalog (a list of course
  documents) and the codes of the courses the student has completed. It
  returns the catalog without the completed courses, in catalog order. The
  completed codes are turned into a set first.
- **`get_course_by_code`** searches the catalog for the first course whose
  `course_code` equals the requested code and returns it. If no catalog
  course has that code, it asks the math-course source
  (`get_math_course_info`). A record found there is normalized on a copy:
  `name` is moved to `title`, and `prerequisites`, `semester_offered`,
  `credits`, `difficulty` and `description` are filled in with `setdefault`
  where they are missing (`[]`, `[]`, `4`, `0`, `""`). If neither source has
  the code, the result is `None`.

Files:

- `records.dfy` (module `Records`):
  - A course document is a `map<string, Value>`. `Value` is a loosely typed
    field value: null, bool, int, string, list or nested dictionary. A nested
    dictionary can hold, for example, a structured prerequisite
    `{logic, courses}`.
  - The module also holds the Python dictionary operations the helpers use:
    `get`, `pop` with a default, and `setdefault`.
  - It states Python truthiness of an optional dictionary. `if math_course:`
    is false for `None` and also for an empty dictionary.
  - It says which values Python can hash (not lists, not dictionaries). It
    also gives a `Result` type for the `TypeError` the filter can raise.
- `course_filtering.dfy` (module `CourseFiltering`):
  - `filter_completed_courses` is modelled as a function that returns a
    `Result`. Its success value is a recursive function for the list
    comprehension. Lemmas are proved about both.
  - `get_course_by_code` is modelled as a method, `GetCourseByCode`. It has a
    `while` loop over the catalog and does the normalization one dictionary
    operation at a time, in `NormalizeMathCourse`.
  - The method is proved equal to a reference function, `Resolve`. `Resolve`
    is defined through `IndexOfCode` (the first matching position) and
    `Normalized`. `Normalized` is a declarative merge of the renamed record
    with the table of defaults.
  - Lemmas about `Resolve` and `Normalized` state what the source promises.

Modelling decisions:

- The catalog is an in-memory sequence of records. The math-course source is
  a parameter of type `string -> Option<Record>`. Its implementation is not
  part of this model.
- `course.get("course_code")` can be missing or can hold a value that is not
  a string. Such a value never equals a string code, so the course never
  matches in the lookup.
- In the filter, the test `course.get("course_code") not in completed_set`
  hashes the value first. A missing code (None), a number, a boolean or null
  is hashable and is never among the string codes, so that course is kept. A
  list or dictionary code is unhashable. Python then raises `TypeError`, and
  the model returns `Failure(UnhashableType)` for the whole call.
- Records are values. The source normalizes a `.copy()` of the math-source
  record, so that record is never modified. Value semantics gives this
  directly: `GetCourseByCode` has no `modifies` clause and cannot change
  anything.
- The module docstring (web-app/api/course_filtering.py:4-5) mentions
  prerequisites and semester availability. The functions for them are not
  in this file.

## Model

| member | source | states |
|---|---|---|
| `CourseFiltering.FilterCompletedCourses` | web-app/api/course_filtering.py:35-53 | the call of `filter_completed_courses`: `Failure(UnhashableType)` when some catalog `course_code` is a list or dictionary, otherwise the catalog's courses that are not completed, in order; the lemmas below state its properties |
| `CourseFiltering.Comprehension` | web-app/api/course_filtering.py:49-53 | the list comprehension run course by course: a list or dictionary code raises at that course and ends the evaluation; otherwise the course is kept or skipped and the rest is evaluated |
| `CourseFiltering.ComprehensionIsFilter` | web-app/api/course_filtering.py:48-53 | for every catalog and every completed list, the course-by-course evaluation has the same outcome as `FilterCompletedCourses` (raises for any unhashable code, wherever it stands, else the same list) |
| `CourseFiltering.FilterListCodeRaises` | web-app/api/course_filtering.py:52 | example: a one-course catalog whose `course_code` is a list makes the call raise `TypeError` instead of keeping the course |
| `CourseFiltering.FilterMembership` | web-app/api/course_filtering.py:48-53 | when the call returns, a course is in the filtered list exactly when it is in the catalog and its `course_code` is not one of the completed codes (both directions: exclusion and completeness) |
| `CourseFiltering.FilterExcludesCompleted` | web-app/api/course_filtering.py:48-53 | when the call returns, no course of the filtered list carries any of the completed codes |
| `CourseFiltering.FilterCounts` | web-app/api/course_filtering.py:49-53 | when the call returns, each course that is not completed occurs in the result exactly as often as in the catalog; a completed one occurs zero times |
| `CourseFiltering.FilterIsSubsequence` | web-app/api/course_filtering.py:49-53 | when the call returns, the filtered list is a subsequence of the catalog, so catalog order is preserved |
| `CourseFiltering.FilterIdempotent` | web-app/api/course_filtering.py:48-53 | when the call returns, filtering its result again with the same completed codes returns that same result (it does not raise) |
| `CourseFiltering.FilterNothingCompleted` | web-app/api/course_filtering.py:48-53 | with an empty completed list the catalog is returned unchanged, unless some code is unhashable, in which case the call still raises |
| `CourseFiltering.FilterDuplicatesIrrelevant` | web-app/api/course_filtering.py:48 | two completed lists with the same members (in any order, with any number of repeats) give the same outcome |
| `CourseFiltering.FilterAppend` | web-app/api/course_filtering.py:49-53 | filtering a concatenated catalog equals concatenating the filtered parts, and it raises exactly when either part raises |
| `CourseFiltering.FilterLength` | web-app/api/course_filtering.py:49-53 | when the call returns, the result is never longer than the catalog, and is exactly as long if and only if no catalog course is completed |
| `CourseFiltering.IndexOfCode` | web-app/api/course_filtering.py:69-71 | the search result is the position of a course with exactly the requested code, with no matching course before it; None means no course in the catalog has the code |
| `CourseFiltering.Resolve` | web-app/api/course_filtering.py:56-88 | reference definition of the lookup: the first catalog course with the code, else the normalized math-source record when it is truthy, else None; its properties are the `Resolve*` lemmas |
| `CourseFiltering.GetCourseByCode` | web-app/api/course_filtering.py:56-88 | the loop over the catalog, with early return and the math-course fallback, returns exactly `Resolve(code, catalog, source)` |
| `Records.Pop` | web-app/api/course_filtering.py:79 | `pop("name", "")`: the value under the key, or the default when it is absent, and the record without the key |
| `Records.SetDefault` | web-app/api/course_filtering.py:81-85 | `setdefault`: the key ends up present, with its old value when it had one and with the default otherwise; every other key keeps its value |
| `Records.Truthy` | web-app/api/course_filtering.py:75 | `if math_course:` holds for a record that is present and non-empty |
| `Records.Hashable` | web-app/api/course_filtering.py:52 | the `in completed_set` test hashes the code, which Python refuses for lists and dictionaries |
| `CourseFiltering.NormalizeMathCourse` | web-app/api/course_filtering.py:78-85 | the `pop("name", "")` into `title` followed by the five `setdefault` calls produces `Normalized` of the math-source record |
| `CourseFiltering.NormalizedFields` | web-app/api/course_filtering.py:78-85 | `title` is the old `name` or `""`, even over an existing `title`; `name` is removed; each of `prerequisites`, `semester_offered`, `credits`, `difficulty`, `description` keeps its value or takes `[]`, `[]`, `4`, `0`, `""`; all other fields are copied; no other key is added |
| `CourseFiltering.ResolveFirstMatch` | web-app/api/course_filtering.py:69-71 | when catalog position `i` is the first with the code, the catalog record at `i` is the result |
| `CourseFiltering.ResolveCatalogPrecedence` | web-app/api/course_filtering.py:68-74 | once the catalog has the code, the result is a catalog record with that code, and it is the same whatever the math-course source returns |
| `CourseFiltering.ResolveFallback` | web-app/api/course_filtering.py:73-88 | when the catalog lacks the code, the result is the normalized math-source record if that record is non-empty, else None; a fallback result has `title` and every default field, and no `name` |
| `CourseFiltering.ResolveNotFound` | web-app/api/course_filtering.py:74-88 | the result is None exactly when no catalog course has the code and the math-course source gives nothing (None or an empty record) |

## Left out

- `get_all_courses_from_db` and the module-level MongoDB client and database handles (web-app/api/course_filtering.py:16-32): these are database I/O. The catalog is passed in as a sequence instead.
- `get_math_course_info`: its implementation is not part of this model. It is the parameter `mathCourseInfo` and is left uninterpreted.
- Object identity: the source returns the catalog's own dictionary object, not a copy. Records are values here, so aliasing between the returned record and the catalog is not modelled.
- Prerequisite evaluation, semester-availability filtering, `get_available_courses_for_semester` and the major-requirement progress functions: the request handler calls them, but their code is not part of this model.
- The HTTP routes, JWT checks, LLM client, browser script, tests and seeding scripts: these are transport, authentication, UI and setup code outside the catalog helpers.
- Floating-point field values (for example a fractional `difficulty`), MongoDB ObjectIds (every document from `db.courses.find({})` carries one under `_id`) and dates are not modelled: `Value` has no case for them. So Python's `==` across numeric types (`1 == 1.0`) is not modelled either. This does not change any course-code comparison, because only a string equals the requested string code.
- Dictionary insertion order is not modelled: a record is a map, so the model does not say that `title` and the filled-in defaults end up last in the normalized record (lines 79-85).
- The `TypeError` is one error value, `UnhashableType`. Its message, which names the unhashable type, is not modelled.
