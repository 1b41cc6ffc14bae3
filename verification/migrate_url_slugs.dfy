/**
 * The `migrate_url_slugs` management command: for the non-draft courses
 * named by uuid, move the active URL slug under the learn page of the
 * course's primary subject, prefixed by its primary organization.
 */
module MigrateUrlSlugs {
  import opened Common
  import opened Strings
  import opened Constants

  /**
   * The parts of a course record the command reads. The subfolder and
   * external flags are computed by the course model, which is not part of
   * this model; they are taken as given.
   */
  datatype Course = Course(
    key: string,
    uuid: string,
    draft: bool,
    activeUrlSlug: string,
    activeUrlSlugHasSubfolder: bool,
    isExternalCourse: bool,
    subjects: seq<string>,               // subject slugs, primary first
    authoringOrganizations: seq<string>  // organization keys, primary first
  )

  /** How `get_slug_for_course` ends for one course. */
  datatype SlugDecision =
    | External                          // external courses are never migrated
    | NoSubjects                        // warned: no subjects
    | UnmappedSubject(subject: string)  // warned: primary subject has no learn page
    | NoOrganizations                   // warned: no authoring organizations
    | NewSlug(slug: string)

  /**
   * `SUBJECT_SLUG_TO_LEARN_PAGE_MAP.get(subject)`: the learn pages listed for
   * the subject in the table, or nothing when the table does not list it.
   */
  function LearnSlugsFor(subject: string): (r: Option<LearnSlugs>)
    ensures r.Some? <==> exists i :: ListsSubject(i, subject)
    ensures forall i :: ListsSubject(i, subject) ==> r == Some(Entries[i].1)
    ensures r.Some? <==> subject in SubjectSlugToLearnPageMap
    ensures r.Some? ==> r.value == SubjectSlugToLearnPageMap[subject]
  {
    LearnPageMapLookup(subject);
    if subject in SubjectSlugToLearnPageMap then Some(SubjectSlugToLearnPageMap[subject]) else None
  }

  /** The new slug: `learn/<learn page>/<organization>-<end of the old slug>`. */
  function AssembleSlug(learnSlug: string, organization: string, endOfSlug: string): (r: string)
    ensures |r| == 8 + |learnSlug| + |organization| + |endOfSlug|
    ensures r[..6] == "learn/"
  {
    "learn" + "/" + learnSlug + "/" + organization + "-" + endOfSlug
  }

  /** The cascade of `get_slug_for_course`, with the reason when no slug results. */
  function DecideSlug(c: Course): (d: SlugDecision)
    ensures d.External? <==> c.isExternalCourse
    ensures d.NoSubjects? <==> !c.isExternalCourse && |c.subjects| == 0
    ensures d.UnmappedSubject? <==>
      !c.isExternalCourse && |c.subjects| > 0 && c.subjects[0] !in SubjectSlugToLearnPageMap
    ensures d.UnmappedSubject? ==> d.subject == c.subjects[0]
    ensures d.NoOrganizations? <==>
      && !c.isExternalCourse && |c.subjects| > 0 && c.subjects[0] in SubjectSlugToLearnPageMap
      && |c.authoringOrganizations| == 0
    ensures d.NewSlug? ==> |d.slug| >= 8 && d.slug[..6] == "learn/"
  {
    if c.isExternalCourse then External
    else if |c.subjects| < 1 then NoSubjects
    else
      var primarySubject := c.subjects[0];
      match LearnSlugsFor(primarySubject)
      case None => UnmappedSubject(primarySubject)
      case Some(learnSlugs) =>
        if |c.authoringOrganizations| < 1 then NoOrganizations
        else
          var organization := Lower(c.authoringOrganizations[0]);
          var endOfSlug := LastPiece(c.activeUrlSlug, '/');
          NewSlug(AssembleSlug(learnSlugs.en, organization, endOfSlug))
  }

  /** `get_slug_for_course`: the new slug, or `None`. */
  function GetSlugForCourse(c: Course): (r: Option<string>)
    ensures r.Some? <==>
      && !c.isExternalCourse
      && |c.subjects| > 0 && c.subjects[0] in SubjectSlugToLearnPageMap
      && |c.authoringOrganizations| > 0
    ensures c.isExternalCourse ==> r == None
  {
    match DecideSlug(c)
    case NewSlug(slug) => Some(slug)
    case _ => None
  }

  /**
   * On success the slug is the learn page of the first subject, then the
   * lower-cased key of the first organization, a dash and the last segment of
   * the current slug.
   */
  lemma SlugOnSuccess(c: Course)
    requires GetSlugForCourse(c).Some?
    ensures |c.subjects| > 0 && c.subjects[0] in SubjectSlugToLearnPageMap && |c.authoringOrganizations| > 0
    ensures GetSlugForCourse(c).value == AssembleSlug(
      SubjectSlugToLearnPageMap[c.subjects[0]].en,
      Lower(c.authoringOrganizations[0]),
      LastPiece(c.activeUrlSlug, '/'))
  {
  }

  /**
   * The assembled slug has the learn page as its own path segment, and when
   * neither the organization nor the old slug's end holds a slash the slug
   * has exactly three segments.
   */
  lemma AssembledSlugSegments(learnSlug: string, organization: string, endOfSlug: string)
    requires IsLearnSegment(learnSlug)
    ensures Split(AssembleSlug(learnSlug, organization, endOfSlug), '/') ==
      ["learn", learnSlug] + Split(organization + "-" + endOfSlug, '/')
    ensures '/' !in organization && '/' !in endOfSlug ==>
      && Split(AssembleSlug(learnSlug, organization, endOfSlug), '/') ==
        ["learn", learnSlug, organization + "-" + endOfSlug]
      && LastPiece(AssembleSlug(learnSlug, organization, endOfSlug), '/') == organization + "-" + endOfSlug
  {
    var rest := organization + "-" + endOfSlug;
    assert AssembleSlug(learnSlug, organization, endOfSlug) == "learn" + "/" + learnSlug + "/" + rest;
    LearnSegmentIsOnePathSegment(learnSlug);
    SplitTwoPiecesThen("learn", learnSlug, rest, '/');
    if '/' !in organization && '/' !in endOfSlug {
      assert '/' !in rest;
      SplitWithoutSeparator(rest, '/');
    }
  }

  /**
   * A new slug always has a subfolder, and its learn page is a single path
   * segment right after `learn/`.
   */
  lemma NewSlugSegments(c: Course)
    requires GetSlugForCourse(c).Some?
    ensures var slug := GetSlugForCourse(c).value;
      var learnSlug := SubjectSlugToLearnPageMap[c.subjects[0]].en;
      && '/' in slug
      && |Split(slug, '/')| >= 2 && Split(slug, '/')[..2] == ["learn", learnSlug]
      && IsLearnSegment(learnSlug)
    ensures '/' !in c.authoringOrganizations[0] ==>
      LastPiece(GetSlugForCourse(c).value, '/') ==
        Lower(c.authoringOrganizations[0]) + "-" + LastPiece(c.activeUrlSlug, '/')
  {
    LearnPageMapWellFormed();
    var learnSlug := SubjectSlugToLearnPageMap[c.subjects[0]].en;
    var organization := Lower(c.authoringOrganizations[0]);
    var endOfSlug := LastPiece(c.activeUrlSlug, '/');
    assert GetSlugForCourse(c).value == AssembleSlug(learnSlug, organization, endOfSlug);
    AssembledSlugSegments(learnSlug, organization, endOfSlug);
    SplitSingleIffAbsent(GetSlugForCourse(c).value, '/');
    LastPieceIsMaximalSuffix(c.activeUrlSlug, '/');
    LowerKeepsSeparator(c.authoringOrganizations[0], '/');
  }

  /**
   * Only the first subject and the first organization count: two courses
   * that agree on them, on the external flag and on the current slug get the
   * same result, whatever follows in either list.
   */
  lemma OnlyFirstSubjectAndOrganizationCount(c: Course, d: Course)
    requires c.isExternalCourse == d.isExternalCourse && c.activeUrlSlug == d.activeUrlSlug
    requires |c.subjects| > 0 && |d.subjects| > 0 && c.subjects[0] == d.subjects[0]
    requires |c.authoringOrganizations| > 0 && |d.authoringOrganizations| > 0
    requires c.authoringOrganizations[0] == d.authoringOrganizations[0]
    ensures GetSlugForCourse(c) == GetSlugForCourse(d)
  {
  }

  /** An unmapped first subject yields no slug, even when a later subject has a learn page. */
  lemma UnmappedFirstSubjectHasNoSlug(c: Course)
    requires |c.subjects| > 0 && c.subjects[0] !in SubjectSlugToLearnPageMap
    ensures GetSlugForCourse(c) == None
    ensures !c.isExternalCourse ==> DecideSlug(c) == UnmappedSubject(c.subjects[0])
  {
  }

  // ----- The command: selection, the migration loop and `handle` -----

  /** The filter `uuid__in=courses, draft=False`. */
  predicate Selected(c: Course, uuids: seq<string>) {
    c.uuid in uuids && !c.draft
  }

  predicate StrictlyIncreasing(q: seq<nat>) {
    forall k, l :: 0 <= k < l < |q| ==> q[k] < q[l]
  }

  /** The queryset: positions of the selected courses, in table order. */
  function SelectCourses(table: seq<Course>, uuids: seq<string>): (r: seq<nat>)
    ensures forall k :: 0 <= k < |r| ==> r[k] < |table| && Selected(table[r[k]], uuids)
    ensures forall i :: 0 <= i < |table| ==> (i in r <==> Selected(table[i], uuids))
    ensures StrictlyIncreasing(r)
    decreases |table|
  {
    if |table| == 0 then []
    else
      var n := |table| - 1;
      SelectCourses(table[..n], uuids) + (if Selected(table[n], uuids) then [n] else [])
  }

  /** One saved slug change: the course's position and its new slug. */
  datatype SlugWrite = SlugWrite(course: nat, slug: string)

  /** The course table after the run and the slug changes saved, in order. */
  datatype Run = Run(courses: seq<Course>, writes: seq<SlugWrite>)

  /**
   * `set_active_url_slug`, as far as this command observes it: the active
   * slug becomes the new one.
   */
  function SetActiveUrlSlug(c: Course, slug: string): (r: Course)
    ensures r.activeUrlSlug == slug
    ensures r.(activeUrlSlug := c.activeUrlSlug) == c
  {
    c.(activeUrlSlug := slug)
  }

  /**
   * The loop below is stated for any slug rule; the command uses
   * `GetSlugForCourse`.
   */
  type SlugRule = Course -> Option<string>

  /** A course the loop changes: not yet under a subfolder, and a slug results. */
  predicate Eligible(slugFor: SlugRule, c: Course) {
    !c.activeUrlSlugHasSubfolder && slugFor(c).Some?
  }

  /** The course as the loop leaves it. */
  function Migrated(slugFor: SlugRule, c: Course): (r: Course)
    ensures Eligible(slugFor, c) ==> r.activeUrlSlug == slugFor(c).value
    ensures !Eligible(slugFor, c) ==> r == c
    ensures r.(activeUrlSlug := c.activeUrlSlug) == c
  {
    if Eligible(slugFor, c) then SetActiveUrlSlug(c, slugFor(c).value) else c
  }

  /** One iteration of the loop in `migrate_courses`, on the course at position `i`. */
  function MigrateCourse(slugFor: SlugRule, run: Run, i: nat): (r: Run)
    requires i < |run.courses|
    ensures |r.courses| == |run.courses|
    ensures r.courses[i] == Migrated(slugFor, run.courses[i])
    ensures forall k :: 0 <= k < |run.courses| && k != i ==> r.courses[k] == run.courses[k]
    ensures Eligible(slugFor, run.courses[i]) ==>
      r.writes == run.writes + [SlugWrite(i, slugFor(run.courses[i]).value)]
    ensures !Eligible(slugFor, run.courses[i]) ==> r.writes == run.writes
  {
    var c := run.courses[i];
    if c.activeUrlSlugHasSubfolder then run
    else
      match slugFor(c)
      case None => run
      case Some(slug) =>
        Run(run.courses[i := SetActiveUrlSlug(c, slug)], run.writes + [SlugWrite(i, slug)])
  }

  /** The loop over the queryset. */
  function MigrateLoop(slugFor: SlugRule, run: Run, queue: seq<nat>): (r: Run)
    requires forall k :: 0 <= k < |queue| ==> queue[k] < |run.courses|
    ensures |r.courses| == |run.courses|
    ensures forall k :: 0 <= k < |run.courses| && k !in queue ==> r.courses[k] == run.courses[k]
    ensures |run.writes| <= |r.writes| && r.writes[..|run.writes|] == run.writes
    decreases |queue|
  {
    if |queue| == 0 then run
    else MigrateLoop(slugFor, MigrateCourse(slugFor, run, queue[0]), queue[1..])
  }

  /** `migrate_courses`: the loop over the selected courses, starting from no writes. */
  function MigrateCourses(table: seq<Course>, uuids: seq<string>): (r: Run)
    ensures |r.courses| == |table|
    ensures forall k :: 0 <= k < |table| && !Selected(table[k], uuids) ==> r.courses[k] == table[k]
  {
    MigrateLoop(GetSlugForCourse, Run(table, []), SelectCourses(table, uuids))
  }

  /** Reference definition of the writes the loop makes for the courses in `queue`. */
  function WritesFor(slugFor: SlugRule, courses: seq<Course>, queue: seq<nat>): seq<SlugWrite>
    requires forall k :: 0 <= k < |queue| ==> queue[k] < |courses|
    decreases |queue|
  {
    if |queue| == 0 then []
    else
      var c := courses[queue[0]];
      (if Eligible(slugFor, c) then [SlugWrite(queue[0], slugFor(c).value)] else [])
        + WritesFor(slugFor, courses, queue[1..])
  }

  /** The writes for a queue depend only on the courses the queue names. */
  lemma {:induction false} WritesForFrame(slugFor: SlugRule, a: seq<Course>, b: seq<Course>, queue: seq<nat>)
    requires forall k :: 0 <= k < |queue| ==> queue[k] < |a| && queue[k] < |b|
    requires forall k :: 0 <= k < |queue| ==> a[queue[k]] == b[queue[k]]
    ensures WritesFor(slugFor, a, queue) == WritesFor(slugFor, b, queue)
    decreases |queue|
  {
    if |queue| > 0 {
      WritesForFrame(slugFor, a, b, queue[1..]);
    }
  }

  /** The tail of a strictly increasing queue is strictly increasing and lies above its head. */
  lemma QueueTail(queue: seq<nat>)
    requires |queue| > 0 && StrictlyIncreasing(queue)
    ensures StrictlyIncreasing(queue[1..])
    ensures forall x :: x in queue[1..] ==> queue[0] < x
    ensures forall x :: x in queue <==> x == queue[0] || x in queue[1..]
  {
    assert forall k :: 0 <= k < |queue[1..]| ==> queue[1..][k] == queue[k + 1];
  }

  /** One iteration leaves the courses later in a strictly increasing queue as they were. */
  lemma StepLeavesRestOfQueue(slugFor: SlugRule, run: Run, queue: seq<nat>)
    requires |queue| > 0 && StrictlyIncreasing(queue)
    requires forall k :: 0 <= k < |queue| ==> queue[k] < |run.courses|
    ensures var next := MigrateCourse(slugFor, run, queue[0]);
      forall m :: 0 <= m < |queue[1..]| ==>
        queue[1..][m] == queue[m + 1] && next.courses[queue[m + 1]] == run.courses[queue[m + 1]]
  {
  }

  /** What the loop does to the table, course by course. */
  lemma {:induction false} MigrateLoopCourses(slugFor: SlugRule, run: Run, queue: seq<nat>)
    requires forall k :: 0 <= k < |queue| ==> queue[k] < |run.courses|
    requires StrictlyIncreasing(queue)
    ensures var r := MigrateLoop(slugFor, run, queue);
      && |r.courses| == |run.courses|
      && (forall i :: 0 <= i < |run.courses| ==>
            r.courses[i] == (if i in queue then Migrated(slugFor, run.courses[i]) else run.courses[i]))
    decreases |queue|
  {
    if |queue| > 0 {
      QueueTail(queue);
      MigrateLoopCourses(slugFor, MigrateCourse(slugFor, run, queue[0]), queue[1..]);
    }
  }

  /** The writes the loop makes are those of the reference definition, appended in queue order. */
  lemma {:induction false} MigrateLoopWrites(slugFor: SlugRule, run: Run, queue: seq<nat>)
    requires forall k :: 0 <= k < |queue| ==> queue[k] < |run.courses|
    requires StrictlyIncreasing(queue)
    ensures MigrateLoop(slugFor, run, queue).writes == run.writes + WritesFor(slugFor, run.courses, queue)
    decreases |queue|
  {
    if |queue| > 0 {
      var next := MigrateCourse(slugFor, run, queue[0]);
      var tail := queue[1..];
      QueueTail(queue);
      MigrateLoopWrites(slugFor, next, tail);
      WritesForUnfold(slugFor, run.courses, queue);
      assert forall k :: 0 <= k < |tail| ==> tail[k] in tail;
      WritesForFrame(slugFor, run.courses, next.courses, tail);
    }
  }

  /** The writes for a non-empty queue: the head's write, if any, then the tail's. */
  lemma WritesForUnfold(slugFor: SlugRule, courses: seq<Course>, queue: seq<nat>)
    requires |queue| > 0
    requires forall k :: 0 <= k < |queue| ==> queue[k] < |courses|
    ensures var c := courses[queue[0]];
      var rest := WritesFor(slugFor, courses, queue[1..]);
      && (Eligible(slugFor, c) ==>
            WritesFor(slugFor, courses, queue) == [SlugWrite(queue[0], slugFor(c).value)] + rest)
      && (!Eligible(slugFor, c) ==> WritesFor(slugFor, courses, queue) == rest)
    ensures forall x :: x in queue <==> x == queue[0] || x in queue[1..]
  {
    assert queue == [queue[0]] + queue[1..];
  }

  /** Every write names a course of the queue that is eligible, with that course's slug. */
  lemma {:induction false} WritesForCourses(slugFor: SlugRule, courses: seq<Course>, queue: seq<nat>)
    requires forall k :: 0 <= k < |queue| ==> queue[k] < |courses|
    ensures var w := WritesFor(slugFor, courses, queue);
      forall k :: 0 <= k < |w| ==>
        && w[k].course in queue
        && Eligible(slugFor, courses[w[k].course])
        && w[k].slug == slugFor(courses[w[k].course]).value
    decreases |queue|
  {
    if |queue| > 0 {
      WritesForUnfold(slugFor, courses, queue);
      WritesForCourses(slugFor, courses, queue[1..]);
    }
  }

  /** For a strictly increasing queue the writes are in strictly increasing course order. */
  lemma {:induction false} WritesForOrdered(slugFor: SlugRule, courses: seq<Course>, queue: seq<nat>)
    requires forall k :: 0 <= k < |queue| ==> queue[k] < |courses|
    requires StrictlyIncreasing(queue)
    ensures var w := WritesFor(slugFor, courses, queue);
      forall k, l :: 0 <= k < l < |w| ==> w[k].course < w[l].course
    decreases |queue|
  {
    if |queue| > 0 {
      var tail := queue[1..];
      QueueTail(queue);
      WritesForUnfold(slugFor, courses, queue);
      WritesForOrdered(slugFor, courses, tail);
      WritesForCourses(slugFor, courses, tail);
      var rest := WritesFor(slugFor, courses, tail);
      assert forall k :: 0 <= k < |rest| ==> rest[k].course in tail;
    }
  }

  /** Every eligible course of the queue has a write. */
  lemma {:induction false} WritesForComplete(slugFor: SlugRule, courses: seq<Course>, queue: seq<nat>)
    requires forall k :: 0 <= k < |queue| ==> queue[k] < |courses|
    ensures var w := WritesFor(slugFor, courses, queue);
      forall i :: i in queue && Eligible(slugFor, courses[i]) ==> exists k :: 0 <= k < |w| && w[k].course == i
    decreases |queue|
  {
    if |queue| > 0 {
      var tail := queue[1..];
      WritesForUnfold(slugFor, courses, queue);
      WritesForComplete(slugFor, courses, tail);
      var rest := WritesFor(slugFor, courses, tail);
      var w := WritesFor(slugFor, courses, queue);
      assert w[|w| - |rest|..] == rest;
      forall i | i in queue && Eligible(slugFor, courses[i])
        ensures exists k :: 0 <= k < |w| && w[k].course == i
      {
        if i == queue[0] {
          assert w[0].course == i;
        } else {
          var k :| 0 <= k < |rest| && rest[k].course == i;
          assert w[|w| - |rest| + k].course == i;
        }
      }
    }
  }

  /** The course is changed by the command: selected, not yet under a subfolder, a slug results. */
  predicate Migrates(c: Course, uuids: seq<string>) {
    Selected(c, uuids) && Eligible(GetSlugForCourse, c)
  }

  /**
   * The effect of `migrate_courses`: exactly the selected, eligible courses
   * get the derived slug, every other course is untouched, and each changed
   * course is saved exactly once, in table order.
   */
  lemma MigrateCoursesEffect(table: seq<Course>, uuids: seq<string>)
    ensures var r := MigrateCourses(table, uuids);
      && |r.courses| == |table|
      && (forall i :: 0 <= i < |table| ==>
            r.courses[i] == (if Selected(table[i], uuids) then Migrated(GetSlugForCourse, table[i]) else table[i]))
      && (forall k :: 0 <= k < |r.writes| ==>
            && r.writes[k].course < |table|
            && Migrates(table[r.writes[k].course], uuids)
            && r.writes[k].slug == GetSlugForCourse(table[r.writes[k].course]).value)
      && (forall k, l :: 0 <= k < l < |r.writes| ==> r.writes[k].course < r.writes[l].course)
      && (forall i :: 0 <= i < |table| && Migrates(table[i], uuids) ==>
            exists k :: 0 <= k < |r.writes| && r.writes[k].course == i)
  {
    var queue := SelectCourses(table, uuids);
    MigrateLoopCourses(GetSlugForCourse, Run(table, []), queue);
    MigrateLoopWrites(GetSlugForCourse, Run(table, []), queue);
    WritesForCourses(GetSlugForCourse, table, queue);
    WritesForOrdered(GetSlugForCourse, table, queue);
    WritesForComplete(GetSlugForCourse, table, queue);
    assert MigrateCourses(table, uuids).writes == WritesFor(GetSlugForCourse, table, queue);
  }

  /** A course whose slug already has a subfolder is neither changed nor saved. */
  lemma AlreadyMigratedUntouched(table: seq<Course>, uuids: seq<string>, i: nat)
    requires i < |table| && table[i].activeUrlSlugHasSubfolder
    ensures |MigrateCourses(table, uuids).courses| == |table| && MigrateCourses(table, uuids).courses[i] == table[i]
    ensures forall k :: 0 <= k < |MigrateCourses(table, uuids).writes| ==>
      MigrateCourses(table, uuids).writes[k].course != i
  {
    MigrateCoursesEffect(table, uuids);
  }

  /** Each migrated course is saved exactly once. */
  lemma SavedExactlyOnce(table: seq<Course>, uuids: seq<string>, i: nat)
    requires i < |table| && Migrates(table[i], uuids)
    ensures var w := MigrateCourses(table, uuids).writes;
      exists k :: 0 <= k < |w| && w[k].course == i && forall l :: 0 <= l < |w| && w[l].course == i ==> l == k
  {
    MigrateCoursesEffect(table, uuids);
  }

  /** The error `handle` raises. */
  datatype CommandError = CommandError(message: string)

  /**
   * `handle`: a missing or empty list of course uuids is an error and nothing
   * is migrated; otherwise the selected courses are migrated.
   */
  function Handle(courses: Option<seq<string>>, table: seq<Course>): (r: Result<Run, CommandError>)
    ensures r.Err? <==> courses == None || courses == Some([])
    ensures r.Err? ==> r.error == CommandError("Missing required arguments")
    ensures r.Ok? ==> r.value == MigrateCourses(table, courses.value)
  {
    if courses.None? || |courses.value| == 0 then Err(CommandError("Missing required arguments"))
    else Ok(MigrateCourses(table, courses.value))
  }

  // ----- The warning branches as written -----

  /**
   * How `get_slug_for_course` ends as written: the three warning branches
   * call `logger`, a name the module never defines, so they raise
   * `NameError` instead of returning `None`.
   */
  datatype AsWrittenSlug = Returned(slug: Option<string>) | NameError

  function GetSlugForCourseAsWritten(c: Course): (r: AsWrittenSlug)
    ensures r.NameError? <==>
      && !c.isExternalCourse
      && (|c.subjects| == 0 || c.subjects[0] !in SubjectSlugToLearnPageMap || |c.authoringOrganizations| == 0)
    ensures r.Returned? ==> r.slug == GetSlugForCourse(c)
  {
    match DecideSlug(c)
    case External => Returned(None)
    case NewSlug(slug) => Returned(Some(slug))
    case _ => NameError
  }

  /** A run as written: it finishes, or the `NameError` escapes at a course, keeping the writes made before it. */
  datatype AsWrittenRun = Finished(run: Run) | Raised(run: Run, at: nat)

  function MigrateLoopAsWritten(run: Run, queue: seq<nat>): (r: AsWrittenRun)
    requires forall k :: 0 <= k < |queue| ==> queue[k] < |run.courses|
    ensures |r.run.courses| == |run.courses|
    ensures r.Raised? ==> r.at in queue && Warns(r.run.courses[r.at])
    decreases |queue|
  {
    if |queue| == 0 then Finished(run)
    else
      var c := run.courses[queue[0]];
      if Warns(c) then Raised(run, queue[0])
      else MigrateLoopAsWritten(MigrateCourse(GetSlugForCourse, run, queue[0]), queue[1..])
  }

  function MigrateCoursesAsWritten(table: seq<Course>, uuids: seq<string>): (r: AsWrittenRun)
    ensures |r.run.courses| == |table|
    ensures r.Raised? ==> r.at < |table| && Selected(table[r.at], uuids) && Warns(r.run.courses[r.at])
  {
    MigrateLoopAsWritten(Run(table, []), SelectCourses(table, uuids))
  }

  /** A course that would reach one of the warning branches. */
  predicate Warns(c: Course) {
    !c.activeUrlSlugHasSubfolder && GetSlugForCourseAsWritten(c).NameError?
  }

  /** When no queued course reaches a warning branch, the code as written and the model agree. */
  lemma {:induction false} AsWrittenAgreesWithoutWarnings(run: Run, queue: seq<nat>)
    requires forall k :: 0 <= k < |queue| ==> queue[k] < |run.courses| && !Warns(run.courses[queue[k]])
    requires StrictlyIncreasing(queue)
    ensures MigrateLoopAsWritten(run, queue) == Finished(MigrateLoop(GetSlugForCourse, run, queue))
    decreases |queue|
  {
    if |queue| > 0 {
      var next := MigrateCourse(GetSlugForCourse, run, queue[0]);
      QueueTail(queue);
      StepLeavesRestOfQueue(GetSlugForCourse, run, queue);
      AsWrittenAgreesWithoutWarnings(next, queue[1..]);
    }
  }

  /**
   * As written, the loop raises at the first queued course that reaches a
   * warning branch: the courses queued before it are migrated as usual, and
   * that course and every one after it are left as they were.
   */
  lemma {:induction false} AsWrittenStopsAtFirstWarning(run: Run, queue: seq<nat>, k: nat)
    requires forall m :: 0 <= m < |queue| ==> queue[m] < |run.courses|
    requires StrictlyIncreasing(queue)
    requires k < |queue| && Warns(run.courses[queue[k]])
    requires forall m :: 0 <= m < k ==> !Warns(run.courses[queue[m]])
    ensures MigrateLoopAsWritten(run, queue) == Raised(MigrateLoop(GetSlugForCourse, run, queue[..k]), queue[k])
    decreases k
  {
    if k == 0 {
      assert queue[..0] == [];
    } else {
      var next := MigrateCourse(GetSlugForCourse, run, queue[0]);
      QueueTail(queue);
      StepLeavesRestOfQueue(GetSlugForCourse, run, queue);
      AsWrittenStopsAtFirstWarning(next, queue[1..], k - 1);
      assert queue[..k][0] == queue[0] && queue[..k][1..] == queue[1..][..k - 1];
    }
  }

  /** `migrate_courses` as written, stopped by the first selected course that reaches a warning branch. */
  lemma FirstWarningStopsRun(table: seq<Course>, uuids: seq<string>, k: nat)
    requires k < |SelectCourses(table, uuids)| && Warns(table[SelectCourses(table, uuids)[k]])
    requires forall m :: 0 <= m < k ==> !Warns(table[SelectCourses(table, uuids)[m]])
    ensures var queue := SelectCourses(table, uuids);
      MigrateCoursesAsWritten(table, uuids) == Raised(MigrateLoop(GetSlugForCourse, Run(table, []), queue[..k]), queue[k])
  {
    AsWrittenStopsAtFirstWarning(Run(table, []), SelectCourses(table, uuids), k);
  }

  /**
   * The model skips a selected course that reaches a warning branch, with
   * nothing saved for it, and still migrates a selected course after it.
   */
  lemma ModelSkipsWarning(table: seq<Course>, uuids: seq<string>, i: nat, j: nat)
    requires i < j < |table| && Selected(table[i], uuids) && Selected(table[j], uuids)
    requires Warns(table[i]) && Eligible(GetSlugForCourse, table[j])
    ensures var r := MigrateCourses(table, uuids);
      && |r.courses| == |table|
      && r.courses[i] == table[i]
      && r.courses[j].activeUrlSlug == GetSlugForCourse(table[j]).value
      && (forall k :: 0 <= k < |r.writes| ==> r.writes[k].course != i)
      && (exists k :: 0 <= k < |r.writes| && r.writes[k].course == j)
  {
    MigrateCoursesEffect(table, uuids);
  }

  lemma MathIsMapped()
    ensures "math" in SubjectSlugToLearnPageMap
  {
    assert Entries[23].0 == "math";
  }

  /** A selected course without subjects, and a selected course with a mapped subject. */
  const CourseWithoutSubjects := Course("edX+NoSubject", "uuid-a", false, "no-subject", false, false, [], ["edX"])
  const MathCourse := Course("MITx+Calculus", "uuid-b", false, "calc", false, false, ["math"], ["MITx"])

  lemma ExampleCourses()
    ensures Warns(CourseWithoutSubjects)
    ensures Eligible(GetSlugForCourse, MathCourse)
    ensures GetSlugForCourse(MathCourse).value != MathCourse.activeUrlSlug
  {
    WithoutSubjectsWarns();
    MathMigrates();
  }

  lemma WithoutSubjectsWarns()
    ensures Warns(CourseWithoutSubjects)
  {
    assert DecideSlug(CourseWithoutSubjects) == NoSubjects;
  }

  lemma MathMigrates()
    ensures Eligible(GetSlugForCourse, MathCourse)
    ensures GetSlugForCourse(MathCourse).value != MathCourse.activeUrlSlug
  {
    MathIsMapped();
    assert DecideSlug(MathCourse).NewSlug?;
    assert |DecideSlug(MathCourse).slug| >= 8 && |MathCourse.activeUrlSlug| == 4;
  }

  /** Two selected courses are queued in table order. */
  lemma SelectBoth(table: seq<Course>, uuids: seq<string>)
    requires |table| == 2 && Selected(table[0], uuids) && Selected(table[1], uuids)
    ensures SelectCourses(table, uuids) == [0, 1]
  {
    assert |table[..1]| == 1 && table[..1][0] == table[0] && table[..1][..0] == [];
    assert SelectCourses(table[..1][..0], uuids) == [];
    assert SelectCourses(table[..1], uuids) == [0];
  }

  /**
   * The course without subjects ahead of the math course: as written the
   * run stops at the first course with nothing saved, while the model skips
   * it and migrates the second.
   */
  lemma MissingSubjectsAbortRun()
    ensures var table := [CourseWithoutSubjects, MathCourse];
      && MigrateCoursesAsWritten(table, ["uuid-a", "uuid-b"]) == Raised(Run(table, []), 0)
      && |MigrateCourses(table, ["uuid-a", "uuid-b"]).courses| == 2
      && MigrateCourses(table, ["uuid-a", "uuid-b"]).courses[0] == table[0]
      && MigrateCourses(table, ["uuid-a", "uuid-b"]).courses[1].activeUrlSlug != table[1].activeUrlSlug
  {
    var table := [CourseWithoutSubjects, MathCourse];
    var uuids := ["uuid-a", "uuid-b"];
    ExampleCourses();
    SelectBoth(table, uuids);
    FirstWarningStopsRun(table, uuids, 0);
    assert [0, 1][..0] == [];
    ModelSkipsWarning(table, uuids, 0, 1);
  }

  /**
   * The same two courses the other way round: as written the math course is
   * migrated and saved before the run stops at the course without subjects,
   * so the outcome as written depends on the order of the queryset.
   */
  lemma OrderDecidesAsWrittenRun()
    ensures var table := [MathCourse, CourseWithoutSubjects];
      var outcome := MigrateCoursesAsWritten(table, ["uuid-a", "uuid-b"]);
      && outcome.Raised? && outcome.at == 1
      && |outcome.run.courses| == 2 && |outcome.run.writes| == 1
      && outcome.run.courses[0].activeUrlSlug != table[0].activeUrlSlug
      && outcome.run.courses[1] == table[1]
  {
    ExampleCourses();
    TwoCoursesEligibleThenWarning([MathCourse, CourseWithoutSubjects], ["uuid-a", "uuid-b"]);
  }

  /**
   * As written, an eligible course queued ahead of the first warning course
   * is migrated and saved before the run raises; the warning course is left
   * as it was.
   */
  lemma EligibleThenWarning(table: seq<Course>, uuids: seq<string>, k: nat, m: nat)
    requires k < |SelectCourses(table, uuids)| && Warns(table[SelectCourses(table, uuids)[k]])
    requires forall l :: 0 <= l < k ==> !Warns(table[SelectCourses(table, uuids)[l]])
    requires m < k && Eligible(GetSlugForCourse, table[SelectCourses(table, uuids)[m]])
    ensures var queue := SelectCourses(table, uuids);
      var outcome := MigrateCoursesAsWritten(table, uuids);
      && outcome.Raised? && outcome.at == queue[k]
      && outcome.run.courses[queue[m]].activeUrlSlug == GetSlugForCourse(table[queue[m]]).value
      && outcome.run.courses[queue[k]] == table[queue[k]]
      && exists w :: 0 <= w < |outcome.run.writes| && outcome.run.writes[w].course == queue[m]
  {
    FirstWarningStopsRun(table, uuids, k);
    PrefixLoopEffect(GetSlugForCourse, table, SelectCourses(table, uuids), k, m);
  }

  /**
   * The loop over the first `k` queued courses migrates and saves each
   * eligible one among them and leaves the `k`-th course as it was.
   */
  lemma PrefixLoopEffect(slugFor: SlugRule, table: seq<Course>, queue: seq<nat>, k: nat, m: nat)
    requires forall l :: 0 <= l < |queue| ==> queue[l] < |table|
    requires StrictlyIncreasing(queue)
    requires m < k < |queue|
    ensures var r := MigrateLoop(slugFor, Run(table, []), queue[..k]);
      && |r.courses| == |table|
      && r.courses[queue[m]] == Migrated(slugFor, table[queue[m]])
      && r.courses[queue[k]] == table[queue[k]]
      && (Eligible(slugFor, table[queue[m]]) ==> exists w :: 0 <= w < |r.writes| && r.writes[w].course == queue[m])
  {
    var prefix := queue[..k];
    assert forall l :: 0 <= l < |prefix| ==> prefix[l] == queue[l];
    assert StrictlyIncreasing(prefix);
    MigrateLoopCourses(slugFor, Run(table, []), prefix);
    MigrateLoopWrites(slugFor, Run(table, []), prefix);
    WritesForComplete(slugFor, table, prefix);
    assert prefix[m] == queue[m];
    assert queue[k] !in prefix;
  }

  /** As written, in a table of two selected courses, an eligible first course is saved before the run raises at the second. */
  lemma TwoCoursesEligibleThenWarning(table: seq<Course>, uuids: seq<string>)
    requires |table| == 2 && Selected(table[0], uuids) && Selected(table[1], uuids)
    requires Eligible(GetSlugForCourse, table[0]) && Warns(table[1])
    ensures var outcome := MigrateCoursesAsWritten(table, uuids);
      && outcome.Raised? && outcome.at == 1
      && |outcome.run.courses| == 2 && |outcome.run.writes| == 1
      && outcome.run.courses[0].activeUrlSlug == GetSlugForCourse(table[0]).value
      && outcome.run.courses[1] == table[1]
  {
    SelectBoth(table, uuids);
    FirstWarningStopsRun(table, uuids, 1);
    assert [0, 1][..1] == [0];
    MigrateOneCourse(table, 0);
  }

  /** The loop over a queue of one course is one iteration. */
  lemma MigrateOneCourse(table: seq<Course>, i: nat)
    requires i < |table| && Eligible(GetSlugForCourse, table[i])
    ensures var r := MigrateLoop(GetSlugForCourse, Run(table, []), [i]);
      && |r.courses| == |table| && |r.writes| == 1
      && r.courses[i].activeUrlSlug == GetSlugForCourse(table[i]).value
      && forall k :: 0 <= k < |table| && k != i ==> r.courses[k] == table[k]
  {
    assert [i][1..] == [];
  }
}
