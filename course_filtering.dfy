/**
 * The course-catalog helpers of the recommendation service: removing the
 * courses a student has completed from a catalog, and resolving a course
 * code against the catalog with a fallback to the math-course source.
 */
module CourseFiltering {
  import opened Records

  // ---------------------------------------------------------------------
  // Course codes
  // ---------------------------------------------------------------------

  /** `course.get("course_code") == code`: the course carries exactly this code. */
  predicate HasCode(course: Record, code: string) {
    Get(course, "course_code") == Some(Str(code))
  }

  /**
   * `course.get("course_code") in completed_set`, for a code that can be
   * hashed: the course's code is one of the given completed codes. A course
   * without a code, or whose code is a number, a boolean or null, is never
   * among string codes.
   */
  predicate IsCompleted(course: Record, completed: set<string>) {
    "course_code" in course && course["course_code"].Str? && course["course_code"].s in completed
  }

  /** The same test against the completed codes as the caller lists them. */
  predicate CompletedIn(course: Record, completedCodes: seq<string>) {
    exists k :: 0 <= k < |completedCodes| && HasCode(course, completedCodes[k])
  }

  // ---------------------------------------------------------------------
  // filter_completed_courses
  // ---------------------------------------------------------------------

  /** `set(completed_codes)`. */
  function CodeSet(codes: seq<string>): set<string> {
    set c | c in codes
  }

  /** The list comprehension: keep, in order, the courses not in `completed`. */
  function KeepNotCompleted(courses: seq<Record>, completed: set<string>): seq<Record> {
    if courses == [] then []
    else if IsCompleted(courses[0], completed) then KeepNotCompleted(courses[1..], completed)
    else [courses[0]] + KeepNotCompleted(courses[1..], completed)
  }

  /**
   * The membership test can be evaluated for this course: `course.get("course_code")`
   * is absent (None) or a hashable value.
   */
  predicate HasHashableCode(course: Record) {
    "course_code" in course ==> Hashable(course["course_code"])
  }

  /** Every course of the catalog passes the membership test without raising. */
  predicate AllCodesHashable(courses: seq<Record>) {
    forall i :: 0 <= i < |courses| ==> HasHashableCode(courses[i])
  }

  /**
   * Remove the courses the student has already completed. A catalog course
   * whose code is a list or a dictionary makes the membership test raise
   * `TypeError`, and then nothing is returned.
   */
  function FilterCompletedCourses(courses: seq<Record>, completedCodes: seq<string>): Result<seq<Record>> {
    if AllCodesHashable(courses) then Success(KeepNotCompleted(courses, CodeSet(completedCodes)))
    else Failure(UnhashableType)
  }

  /**
   * The comprehension as Python evaluates it, one course at a time: the
   * membership test on a course's code raises `TypeError` when the code is
   * a list or a dictionary, and that ends the whole comprehension; otherwise
   * the course is kept or skipped and evaluation goes on with the rest.
   */
  function Comprehension(courses: seq<Record>, completed: set<string>): Result<seq<Record>>
    decreases |courses|
  {
    if courses == [] then Success([])
    else if !HasHashableCode(courses[0]) then Failure(UnhashableType)
    else match Comprehension(courses[1..], completed)
      case Failure(e) => Failure(e)
      case Success(rest) =>
        Success(if IsCompleted(courses[0], completed) then rest else [courses[0]] + rest)
  }

  /**
   * Evaluating the comprehension course by course gives exactly the outcome
   * of `FilterCompletedCourses`: it raises when some catalog code is
   * unhashable, wherever that course stands, and otherwise returns the
   * courses that are not completed.
   */
  lemma {:induction false} ComprehensionIsFilter(courses: seq<Record>, completedCodes: seq<string>)
    ensures Comprehension(courses, CodeSet(completedCodes)) == FilterCompletedCourses(courses, completedCodes)
    decreases |courses|
  {
    if courses != [] {
      var tail := courses[1..];
      ComprehensionIsFilter(tail, completedCodes);
      assert AllCodesHashable(courses) <==> HasHashableCode(courses[0]) && AllCodesHashable(tail) by {
        if HasHashableCode(courses[0]) && AllCodesHashable(tail) {
          forall i | 0 <= i < |courses| ensures HasHashableCode(courses[i]) {
            if i > 0 { assert courses[i] == tail[i - 1]; }
          }
        }
        if AllCodesHashable(courses) {
          forall i | 0 <= i < |tail| ensures HasHashableCode(tail[i]) {
            assert tail[i] == courses[i + 1];
          }
        }
      }
    }
  }

  /** `sub` is `s` with some elements left out, the rest in their original order. */
  predicate IsSubsequence<T(==)>(sub: seq<T>, s: seq<T>)
    decreases |s|
  {
    if sub == [] then true
    else if s == [] then false
    else if sub[0] == s[0] then IsSubsequence(sub[1..], s[1..])
    else IsSubsequence(sub, s[1..])
  }

  /** Example: a catalog course whose code is a list makes the call raise. */
  lemma FilterListCodeRaises()
    ensures FilterCompletedCourses([map["course_code" := List([])]], ["x"]) == Failure(UnhashableType)
  {
  }

  lemma CompletedInSet(course: Record, completedCodes: seq<string>)
    ensures IsCompleted(course, CodeSet(completedCodes)) <==> CompletedIn(course, completedCodes)
  {
  }

  lemma {:induction false} KeepMembership(courses: seq<Record>, completed: set<string>, x: Record)
    ensures x in KeepNotCompleted(courses, completed) <==> x in courses && !IsCompleted(x, completed)
    decreases |courses|
  {
    if courses != [] {
      KeepMembership(courses[1..], completed, x);
      assert courses == [courses[0]] + courses[1..];
    }
  }

  /**
   * Exclusion and completeness: a course is in the result exactly when it is
   * in the catalog and its code is not among the completed codes.
   */
  lemma FilterMembership(courses: seq<Record>, completedCodes: seq<string>, x: Record)
    requires FilterCompletedCourses(courses, completedCodes).Success?
    ensures x in FilterCompletedCourses(courses, completedCodes).value
        <==> x in courses && !CompletedIn(x, completedCodes)
  {
    KeepMembership(courses, CodeSet(completedCodes), x);
    CompletedInSet(x, completedCodes);
  }

  /** No course of the result carries a completed code. */
  lemma FilterExcludesCompleted(courses: seq<Record>, completedCodes: seq<string>, i: nat, k: nat)
    requires FilterCompletedCourses(courses, completedCodes).Success?
    requires i < |FilterCompletedCourses(courses, completedCodes).value| && k < |completedCodes|
    ensures !HasCode(FilterCompletedCourses(courses, completedCodes).value[i], completedCodes[k])
  {
    var r := FilterCompletedCourses(courses, completedCodes).value;
    FilterMembership(courses, completedCodes, r[i]);
  }

  lemma {:induction false} KeepCounts(courses: seq<Record>, completed: set<string>, x: Record)
    ensures multiset(KeepNotCompleted(courses, completed))[x]
         == if IsCompleted(x, completed) then 0 else multiset(courses)[x]
    decreases |courses|
  {
    if courses != [] {
      KeepCounts(courses[1..], completed, x);
      assert courses == [courses[0]] + courses[1..];
    }
  }

  /**
   * Every occurrence of a course that is not completed survives, and no
   * other course does: the result holds each kept course exactly as often
   * as the catalog does.
   */
  lemma FilterCounts(courses: seq<Record>, completedCodes: seq<string>, x: Record)
    requires FilterCompletedCourses(courses, completedCodes).Success?
    ensures multiset(FilterCompletedCourses(courses, completedCodes).value)[x]
         == if CompletedIn(x, completedCodes) then 0 else multiset(courses)[x]
  {
    KeepCounts(courses, CodeSet(completedCodes), x);
    CompletedInSet(x, completedCodes);
  }

  lemma {:induction false} KeepIsSubsequence(courses: seq<Record>, completed: set<string>)
    ensures IsSubsequence(KeepNotCompleted(courses, completed), courses)
    decreases |courses|
  {
    if courses != [] {
      KeepIsSubsequence(courses[1..], completed);
      var rest := KeepNotCompleted(courses[1..], completed);
      if IsCompleted(courses[0], completed) {
        SubsequenceOfTail(rest, courses);
      }
    }
  }

  lemma {:induction false} SubsequenceOfTail<T>(sub: seq<T>, s: seq<T>)
    requires s != [] && IsSubsequence(sub, s[1..])
    ensures IsSubsequence(sub, s)
    decreases |s|, |sub|
  {
    if sub != [] && sub[0] == s[0] {
      SubsequenceDropHead(sub, s[1..]);
    }
  }

  lemma {:induction false} SubsequenceDropHead<T>(sub: seq<T>, s: seq<T>)
    requires sub != [] && IsSubsequence(sub, s)
    ensures IsSubsequence(sub[1..], s)
    decreases |s|, |sub|
  {
    if s == [] {
    } else if sub[0] == s[0] {
      SubsequenceOfTail(sub[1..], s);
    } else {
      SubsequenceDropHead(sub, s[1..]);
      SubsequenceOfTail(sub[1..], s);
    }
  }

  /** Order preservation: the result is a subsequence of the catalog. */
  lemma FilterIsSubsequence(courses: seq<Record>, completedCodes: seq<string>)
    requires FilterCompletedCourses(courses, completedCodes).Success?
    ensures IsSubsequence(FilterCompletedCourses(courses, completedCodes).value, courses)
  {
    KeepIsSubsequence(courses, CodeSet(completedCodes));
  }

  lemma {:induction false} KeepAppend(a: seq<Record>, b: seq<Record>, completed: set<string>)
    ensures KeepNotCompleted(a + b, completed)
         == KeepNotCompleted(a, completed) + KeepNotCompleted(b, completed)
    decreases |a|
  {
    if a != [] {
      KeepAppend(a[1..], b, completed);
      assert (a + b)[0] == a[0];
      assert (a + b)[1..] == a[1..] + b;
    } else {
      assert a + b == b;
    }
  }

  /**
   * Filtering a concatenated catalog filters each part separately, and
   * raises when either part does.
   */
  lemma FilterAppend(a: seq<Record>, b: seq<Record>, completedCodes: seq<string>)
    ensures var ra, rb := FilterCompletedCourses(a, completedCodes), FilterCompletedCourses(b, completedCodes);
      FilterCompletedCourses(a + b, completedCodes)
      == if ra.Success? && rb.Success? then Success(ra.value + rb.value) else Failure(UnhashableType)
  {
    KeepAppend(a, b, CodeSet(completedCodes));
    if AllCodesHashable(a) && AllCodesHashable(b) {
      forall i | 0 <= i < |a + b| ensures HasHashableCode((a + b)[i]) {
        if i >= |a| {
          assert (a + b)[i] == b[i - |a|];
        }
      }
    } else if !AllCodesHashable(a) {
      var i :| 0 <= i < |a| && !HasHashableCode(a[i]);
      assert (a + b)[i] == a[i];
    } else {
      var i :| 0 <= i < |b| && !HasHashableCode(b[i]);
      assert (a + b)[|a| + i] == b[i];
    }
  }

  lemma {:induction false} KeepUnchanged(courses: seq<Record>, completed: set<string>)
    requires forall i :: 0 <= i < |courses| ==> !IsCompleted(courses[i], completed)
    ensures KeepNotCompleted(courses, completed) == courses
    decreases |courses|
  {
    if courses != [] {
      KeepUnchanged(courses[1..], completed);
    }
  }

  /**
   * With nothing completed the catalog comes back unchanged (the membership
   * test still raises on a list or dictionary code).
   */
  lemma FilterNothingCompleted(courses: seq<Record>)
    ensures FilterCompletedCourses(courses, [])
         == if AllCodesHashable(courses) then Success(courses) else Failure(UnhashableType)
  {
    KeepUnchanged(courses, CodeSet([]));
  }

  lemma {:induction false} KeepIdempotent(courses: seq<Record>, completed: set<string>)
    ensures KeepNotCompleted(KeepNotCompleted(courses, completed), completed)
         == KeepNotCompleted(courses, completed)
    decreases |courses|
  {
    if courses != [] {
      KeepIdempotent(courses[1..], completed);
    }
  }

  /** Filtering twice with the same completed codes is filtering once. */
  lemma FilterIdempotent(courses: seq<Record>, completedCodes: seq<string>)
    requires FilterCompletedCourses(courses, completedCodes).Success?
    ensures FilterCompletedCourses(FilterCompletedCourses(courses, completedCodes).value, completedCodes)
         == FilterCompletedCourses(courses, completedCodes)
  {
    var completedSet := CodeSet(completedCodes);
    var r := KeepNotCompleted(courses, completedSet);
    KeepIdempotent(courses, completedSet);
    forall i | 0 <= i < |r| ensures HasHashableCode(r[i]) {
      KeepMembership(courses, completedSet, r[i]);
    }
  }

  /**
   * Only which codes are completed matters, not their order or how often
   * they are listed.
   */
  lemma FilterDuplicatesIrrelevant(courses: seq<Record>, codes1: seq<string>, codes2: seq<string>)
    requires forall c :: c in codes1 <==> c in codes2
    ensures FilterCompletedCourses(courses, codes1) == FilterCompletedCourses(courses, codes2)
  {
    assert CodeSet(codes1) == CodeSet(codes2);
  }

  lemma {:induction false} KeepLength(courses: seq<Record>, completed: set<string>)
    ensures |KeepNotCompleted(courses, completed)| <= |courses|
    ensures |KeepNotCompleted(courses, completed)| == |courses|
        <==> forall i :: 0 <= i < |courses| ==> !IsCompleted(courses[i], completed)
    decreases |courses|
  {
    if courses != [] {
      KeepLength(courses[1..], completed);
      if forall i :: 0 <= i < |courses| ==> !IsCompleted(courses[i], completed) {
        assert forall i :: 0 <= i < |courses[1..]| ==> !IsCompleted(courses[1..][i], completed) by {
          forall i | 0 <= i < |courses[1..]| ensures !IsCompleted(courses[1..][i], completed) {
            assert courses[1..][i] == courses[i + 1];
          }
        }
      } else if !IsCompleted(courses[0], completed) {
        var i :| 0 <= i < |courses| && IsCompleted(courses[i], completed);
        assert courses[1..][i - 1] == courses[i];
      }
    }
  }

  /**
   * The result is never longer than the catalog, and is exactly as long
   * when no catalog course is completed.
   */
  lemma FilterLength(courses: seq<Record>, completedCodes: seq<string>)
    requires FilterCompletedCourses(courses, completedCodes).Success?
    ensures |FilterCompletedCourses(courses, completedCodes).value| <= |courses|
    ensures |FilterCompletedCourses(courses, completedCodes).value| == |courses|
        <==> forall i :: 0 <= i < |courses| ==> !CompletedIn(courses[i], completedCodes)
  {
    var completedSet := CodeSet(completedCodes);
    KeepLength(courses, completedSet);
    forall i | 0 <= i < |courses|
      ensures IsCompleted(courses[i], completedSet) <==> CompletedIn(courses[i], completedCodes)
    {
      CompletedInSet(courses[i], completedCodes);
    }
  }

  // ---------------------------------------------------------------------
  // get_course_by_code
  // ---------------------------------------------------------------------

  /** The position of the first catalog course with exactly this code. */
  function IndexOfCode(code: string, courses: seq<Record>): (r: Option<nat>)
    ensures r.Some? ==> r.value < |courses| && HasCode(courses[r.value], code)
    ensures r.Some? ==> forall j :: 0 <= j < r.value ==> !HasCode(courses[j], code)
    ensures r.None? ==> forall j :: 0 <= j < |courses| ==> !HasCode(courses[j], code)
    decreases |courses|
  {
    if courses == [] then None
    else if HasCode(courses[0], code) then Some(0)
    else match IndexOfCode(code, courses[1..])
      case None => None
      case Some(i) => Some(i + 1)
  }

  /** The fields every resolved course has, and the defaults the fallback fills in. */
  const DefaultFields: map<string, Value> := map[
    "prerequisites" := List([]),
    "semester_offered" := List([]),
    "credits" := Int(4),
    "difficulty" := Int(0),
    "description" := Str("")
  ]

  /** `d` with every field of `defaults` it lacks added, as successive `setdefault` calls leave it. */
  function WithDefaults(d: Record, defaults: Record): Record {
    map k | k in d.Keys + defaults.Keys :: if k in d then d[k] else defaults[k]
  }

  /** A math-source course with its "name" moved to "title" ("" when it has none). */
  function Renamed(m: Record): Record {
    (m - {"name"})["title" := if "name" in m then m["name"] else Str("")]
  }

  /** The uniform shape a math-source course is given before it is returned. */
  function Normalized(m: Record): Record {
    WithDefaults(Renamed(m), DefaultFields)
  }

  /**
   * The shape of a normalized course, field by field: "title" holds the old
   * "name" (or ""), even when the record had a "title"; "name" is gone; each
   * default field keeps the value it had or takes its default; every other
   * field is copied, and nothing else is added.
   */
  lemma NormalizedFields(m: Record)
    ensures "title" in Normalized(m) && Normalized(m)["title"] == (if "name" in m then m["name"] else Str(""))
    ensures "name" !in Normalized(m)
    ensures "prerequisites" in Normalized(m)
         && Normalized(m)["prerequisites"] == (if "prerequisites" in m then m["prerequisites"] else List([]))
    ensures "semester_offered" in Normalized(m)
         && Normalized(m)["semester_offered"] == (if "semester_offered" in m then m["semester_offered"] else List([]))
    ensures "credits" in Normalized(m)
         && Normalized(m)["credits"] == (if "credits" in m then m["credits"] else Int(4))
    ensures "difficulty" in Normalized(m)
         && Normalized(m)["difficulty"] == (if "difficulty" in m then m["difficulty"] else Int(0))
    ensures "description" in Normalized(m)
         && Normalized(m)["description"] == (if "description" in m then m["description"] else Str(""))
    ensures forall k :: k in m && k != "name" && k != "title" ==> k in Normalized(m) && Normalized(m)[k] == m[k]
    ensures Normalized(m).Keys == (m.Keys - {"name"}) + {"title"} + DefaultFields.Keys
  {
  }

  /** Course resolution: the catalog first, then the math-course source. */
  function Resolve(code: string, courses: seq<Record>, mathCourseInfo: string -> Option<Record>): Option<Record> {
    match IndexOfCode(code, courses)
    case Some(i) => Some(courses[i])
    case None =>
      var math := mathCourseInfo(code);
      if Truthy(math) then Some(Normalized(math.value)) else None
  }

  /**
   * Find a course by its code: the first catalog course with that code, or
   * else the math-course source's record, normalized on a copy, or else None.
   */
  method GetCourseByCode(code: string, allCourses: seq<Record>, mathCourseInfo: string -> Option<Record>)
    returns (r: Option<Record>)
    ensures r == Resolve(code, allCourses, mathCourseInfo)
  {
    var i := 0;
    while i < |allCourses|
      invariant 0 <= i <= |allCourses|
      invariant forall j :: 0 <= j < i ==> !HasCode(allCourses[j], code)
    {
      if Get(allCourses[i], "course_code") == Some(Str(code)) {
        return Some(allCourses[i]);
      }
      i := i + 1;
    }
    assert IndexOfCode(code, allCourses) == None;

    var mathCourse := mathCourseInfo(code);
    if Truthy(mathCourse) {
      var normalized := NormalizeMathCourse(mathCourse.value);
      return Some(normalized);
    }
    return None;
  }

  /**
   * The normalization of a math-source course, one dictionary operation at a
   * time on a copy of the record.
   */
  method NormalizeMathCourse(mathCourse: Record) returns (normalized: Record)
    ensures normalized == Normalized(mathCourse)
  {
    normalized := mathCourse;
    var (title, rest) := Pop(normalized, "name", Str(""));
    normalized := rest["title" := title];
    ghost var renamed := normalized;
    ghost var defaults: Record := map[];
    assert normalized == WithDefaults(renamed, defaults);
    SetDefaultAddsDefault(renamed, defaults, "prerequisites", List([]));
    normalized := SetDefault(normalized, "prerequisites", List([]));
    defaults := defaults["prerequisites" := List([])];
    SetDefaultAddsDefault(renamed, defaults, "semester_offered", List([]));
    normalized := SetDefault(normalized, "semester_offered", List([]));
    defaults := defaults["semester_offered" := List([])];
    SetDefaultAddsDefault(renamed, defaults, "credits", Int(4));
    normalized := SetDefault(normalized, "credits", Int(4));
    defaults := defaults["credits" := Int(4)];
    SetDefaultAddsDefault(renamed, defaults, "difficulty", Int(0));
    normalized := SetDefault(normalized, "difficulty", Int(0));
    defaults := defaults["difficulty" := Int(0)];
    SetDefaultAddsDefault(renamed, defaults, "description", Str(""));
    normalized := SetDefault(normalized, "description", Str(""));
    defaults := defaults["description" := Str("")];
    assert defaults == DefaultFields;
    assert renamed == Renamed(mathCourse);
  }

  /** One more `setdefault` call extends the defaults already filled in. */
  lemma SetDefaultAddsDefault(d: Record, defaults: Record, k: string, v: Value)
    requires k !in defaults
    ensures SetDefault(WithDefaults(d, defaults), k, v) == WithDefaults(d, defaults[k := v])
  {
  }

  /** When some catalog course has the code, the first such course is the result. */
  lemma ResolveFirstMatch(code: string, courses: seq<Record>, mathCourseInfo: string -> Option<Record>, i: nat)
    requires i < |courses| && HasCode(courses[i], code)
    requires forall j :: 0 <= j < i ==> !HasCode(courses[j], code)
    ensures Resolve(code, courses, mathCourseInfo) == Some(courses[i])
  {
  }

  /**
   * Catalog records take precedence: once the catalog has the code, the
   * result is a catalog record and does not depend on the math-course source.
   */
  lemma ResolveCatalogPrecedence(code: string, courses: seq<Record>,
                                 source1: string -> Option<Record>, source2: string -> Option<Record>, i: nat)
    requires i < |courses| && HasCode(courses[i], code)
    ensures Resolve(code, courses, source1) == Resolve(code, courses, source2)
    ensures Resolve(code, courses, source1).Some? && Resolve(code, courses, source1).value in courses
    ensures HasCode(Resolve(code, courses, source1).value, code)
  {
  }

  /**
   * When the catalog lacks the code, a non-empty math-source record is
   * returned normalized, with "title" and every default field present and
   * no "name" left; otherwise the result is None.
   */
  lemma ResolveFallback(code: string, courses: seq<Record>, mathCourseInfo: string -> Option<Record>)
    requires forall j :: 0 <= j < |courses| ==> !HasCode(courses[j], code)
    ensures Resolve(code, courses, mathCourseInfo)
         == if Truthy(mathCourseInfo(code)) then Some(Normalized(mathCourseInfo(code).value)) else None
    ensures Resolve(code, courses, mathCourseInfo).Some? ==>
              var r := Resolve(code, courses, mathCourseInfo).value;
              "title" in r && "name" !in r && DefaultFields.Keys <= r.Keys
  {
  }

  /** The result is None exactly when neither the catalog nor the math-course source has the code. */
  lemma ResolveNotFound(code: string, courses: seq<Record>, mathCourseInfo: string -> Option<Record>)
    ensures Resolve(code, courses, mathCourseInfo) == None
        <==> (forall j :: 0 <= j < |courses| ==> !HasCode(courses[j], code)) && !Truthy(mathCourseInfo(code))
  {
  }
}
