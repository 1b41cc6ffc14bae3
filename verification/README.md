# URL slug migration for course-discovery, in Dafny

This project models the `migrate_url_slugs` management command of the
course-discovery service, together with the static data it depends on.

For each non-draft course named by uuid, the command moves the course's
active URL slug under a "learn" page. The new slug is
`learn/<English learn page of the first subject>/<lower-cased key of the first
authoring organization>-<last path segment of the old slug>`. A course is
skipped when:

- its slug already has a subfolder,
- it is external.

The command is evidently meant to log a warning and skip the course in
three more cases:

- it has no subjects,
- its first subject has no learn page,
- it has no authoring organizations.

As written, these three cases raise `NameError` and end the whole run (see
Findings). The model of the command skips them. The code as written is
modelled alongside.

It also models the subject-to-learn-page table and the three id-shape
patterns (`COURSE_ID_REGEX`, `COURSE_RUN_ID_REGEX`, `COURSE_UUID_REGEX`)
from `constants.py`.

Files:

- `common.dfy`: `Option` and `Result`.
- `strings.dfy`: the Python string operations the command uses.
  - ASCII `str.lower()`
  - `str.split(sep)` and `sep.join`
  - `split(sep)[-1]`, as `LastPiece`
- `regex.dfy`: a small regular-expression syntax with full-match semantics.
  - character classes, negated or not
  - alternation, concatenation, `+`
- `constants.dfy`: the subject table and the id patterns.
  - `SUBJECT_SLUG_TO_LEARN_PAGE_MAP`, as the list of its 31 entries in source order, and the dict they build
  - the three id patterns, transcribed into that syntax
  - what a full match of each pattern means
  - scanning validators that decide each pattern
- `migrate_url_slugs.dfy`: the command itself.
  - `get_slug_for_course`, as a cascade with a named outcome per branch
  - the queryset filter
  - the loop of `migrate_courses`, as a fold over the queryset
  - `handle`
  - the warning branches as written (see Findings)

A course is a record. It holds:

- its key and uuid
- the draft flag
- the active slug
- the two flags computed by the course model: "has subfolder" and "is external"
- its subject slugs and organization keys, each in queryset order

A run returns the course table after the loop. It also returns the list of
slug writes (course position and new slug) in the order they happen.

## Model

| member | source | states |
|---|---|---|
| Strings.Lower | course_discovery/apps/course_metadata/management/commands/migrate_url_slugs.py:65 | `lower()` keeps the length, lower-cases each ASCII capital and leaves every other character alone; the result holds no capital |
| Strings.LowerKeepsSeparator | course_discovery/apps/course_metadata/management/commands/migrate_url_slugs.py:65 | lower-casing neither adds nor removes a non-letter such as `/`, so an organization key without `/` stays one path segment |
| Strings.Split | course_discovery/apps/course_metadata/management/commands/migrate_url_slugs.py:67 | `split(sep)` always yields at least one piece; `Strings.JoinSplit` and `Strings.SplitPiecesFree` state what the pieces are |
| Strings.JoinSplit | course_discovery/apps/course_metadata/management/commands/migrate_url_slugs.py:67 | joining the pieces of `split(sep)` with `sep` gives back the string |
| Strings.SplitPiecesFree | course_discovery/apps/course_metadata/management/commands/migrate_url_slugs.py:67 | no piece of `split(sep)` contains `sep` |
| Strings.SplitAround | course_discovery/apps/course_metadata/management/commands/migrate_url_slugs.py:67 | splitting `a + sep + b` is splitting `a`, then `b` |
| Strings.SplitSingleIffAbsent | course_discovery/apps/course_metadata/management/commands/migrate_url_slugs.py:67 | `split(sep)` yields one piece exactly when `sep` does not occur |
| Strings.LastPiece | course_discovery/apps/course_metadata/management/commands/migrate_url_slugs.py:67 | `split(sep)[-1]` holds no `sep`; `Strings.LastPieceIsMaximalSuffix` states which suffix of the string it is |
| Strings.LastPieceIsMaximalSuffix | course_discovery/apps/course_metadata/management/commands/migrate_url_slugs.py:67 | `split('/')[-1]` is a suffix of the slug without `/`, and it is either the whole slug or directly preceded by `/` |
| Strings.LastPieceWithoutSeparator | course_discovery/apps/course_metadata/management/commands/migrate_url_slugs.py:67 | a slug without `/` is its own last segment |
| Regex.FullMatch | course_discovery/apps/course_metadata/constants.py:3-8 | no pattern of this syntax fully matches the empty string, since every class consumes a character; `Regex.PlusOfClass` and the three `...RegexMeaning` lemmas state what each id pattern matches |
| Regex.PlusOfClass | course_discovery/apps/course_metadata/constants.py:3-8 | `[...]+` fully matches exactly the non-empty strings whose every character is in the class |
| Constants.DictOf | course_discovery/apps/course_metadata/constants.py:140-265 | a dict display has exactly the keys of its entries, and every key maps to the value of its last entry with that key |
| Constants.DictOfLookup | course_discovery/apps/course_metadata/constants.py:140-265 | with distinct keys, every entry is found under its own key |
| Constants.DictOfSize | course_discovery/apps/course_metadata/constants.py:140-265 | with distinct keys, the dict has one key per entry |
| Constants.SubjectsAToCKeys | course_discovery/apps/course_metadata/constants.py:141-168 | the subject keys `architecture` to `computer-science` are pairwise distinct and start with a to c |
| Constants.SubjectsDToEKeys | course_discovery/apps/course_metadata/constants.py:169-204 | the subject keys `data-science` to `ethics` are pairwise distinct and start with d or e |
| Constants.SubjectsFToLKeys | course_discovery/apps/course_metadata/constants.py:205-232 | the subject keys `food-nutrition` to `literature` are pairwise distinct and start with f to l |
| Constants.SubjectsMToZKeys | course_discovery/apps/course_metadata/constants.py:233-264 | the subject keys `math` to `social-sciences` are pairwise distinct and start with m to z |
| Constants.EntryValues0To7 | course_discovery/apps/course_metadata/constants.py:141-172 | the first eight entries have an English value that is a lower-case path segment and a non-empty Spanish value |
| Constants.EntryValues8To15 | course_discovery/apps/course_metadata/constants.py:173-204 | the same for entries nine to sixteen |
| Constants.EntryValues16To23 | course_discovery/apps/course_metadata/constants.py:205-236 | the same for entries seventeen to twenty-four |
| Constants.EntryValues24To30 | course_discovery/apps/course_metadata/constants.py:237-264 | the same for the last seven entries |
| Constants.EntriesHaveDistinctKeys | course_discovery/apps/course_metadata/constants.py:140-265 | the table has 31 entries and no subject key repeats, so no later entry silently overrides an earlier one |
| Constants.LearnPageMapKeys | course_discovery/apps/course_metadata/constants.py:140-265 | the map has exactly 31 keys, each entry is found under its key, and any other subject slug misses |
| Constants.LearnPageMapLookup | course_discovery/apps/course_metadata/constants.py:140-265 | a subject slug is a key of the map exactly when some entry of the table is for it, and then it maps to that entry's value |
| Constants.LearnPageMapWellFormed | course_discovery/apps/course_metadata/constants.py:140-265 | every key has an `en` value that is a non-empty, lower-case path segment without `/`, and a non-empty `es` value, so `['en']` never fails on a hit |
| Constants.LearnSegmentIsOnePathSegment | course_discovery/apps/course_metadata/constants.py:140-265 | a learn-page value holds no `/` and no capital letter |
| Constants.EnglishLearnSlugNotInjective | course_discovery/apps/course_metadata/constants.py:201-252 | `humanities` and `philanthropy` share the learn page `humanities`; `ethics` and `philosophy-ethics` share `ethics` |
| Constants.CourseIdRegexMeaning | course_discovery/apps/course_metadata/constants.py:3 | a full match of `Constants.CourseIdRegex`, the transcription of `COURSE_ID_REGEX`, is exactly two non-empty parts without `/` or `+`, joined by one `/` or `+` |
| Constants.CourseRunIdRegexSound | course_discovery/apps/course_metadata/constants.py:4 | a full match of `Constants.CourseRunIdRegex`, the transcription of `COURSE_RUN_ID_REGEX`, is a course key, a separator and a non-empty part without `/` |
| Constants.CourseRunIdRegexComplete | course_discovery/apps/course_metadata/constants.py:4 | every such string fully matches `COURSE_RUN_ID_REGEX` |
| Constants.CourseRunIdRegexMeaning | course_discovery/apps/course_metadata/constants.py:4 | both directions of the above |
| Constants.CourseRunIdExtendsCourseId | course_discovery/apps/course_metadata/constants.py:3-4 | a full match of `COURSE_RUN_ID_REGEX` has a prefix that fully matches `COURSE_ID_REGEX`, followed by a separator and a non-empty third part that may hold `+` but not `/` |
| Constants.CourseUuidRegexMeaning | course_discovery/apps/course_metadata/constants.py:8 | a full match of `Constants.CourseUuidRegex`, the transcription of `COURSE_UUID_REGEX`, is exactly a non-empty string of lower-case hex digits and `-` |
| Constants.ValidateCourseId | course_discovery/apps/course_metadata/constants.py:3 | the scan answers true exactly when the string fully matches `COURSE_ID_REGEX` |
| Constants.ValidateCourseRunId | course_discovery/apps/course_metadata/constants.py:4 | the scan answers true exactly when the string fully matches `COURSE_RUN_ID_REGEX` |
| Constants.ValidateCourseUuid | course_discovery/apps/course_metadata/constants.py:8 | the scan answers true exactly when the string fully matches `COURSE_UUID_REGEX` |
| MigrateUrlSlugs.LearnSlugsFor | course_discovery/apps/course_metadata/management/commands/migrate_url_slugs.py:55 | `SUBJECT_SLUG_TO_LEARN_PAGE_MAP.get` hits exactly for the subject slugs that the table in `constants.py` lists, and then returns the learn pages of that subject's entry |
| MigrateUrlSlugs.DecideSlug | course_discovery/apps/course_metadata/management/commands/migrate_url_slugs.py:45-69 | each outcome holds exactly under its branch condition, in cascade order: external first, then no subjects, then an unmapped first subject (named), then no organizations; a new slug starts with `learn/` |
| MigrateUrlSlugs.GetSlugForCourse | course_discovery/apps/course_metadata/management/commands/migrate_url_slugs.py:45-69 | a slug results exactly for a non-external course with a mapped first subject and an organization; an external course never gets one |
| MigrateUrlSlugs.SlugOnSuccess | course_discovery/apps/course_metadata/management/commands/migrate_url_slugs.py:59-69 | on success the slug is `learn/`, the first subject's English learn page, `/`, the lower-cased first organization key, `-` and the old slug's last segment |
| MigrateUrlSlugs.AssembleSlug | course_discovery/apps/course_metadata/management/commands/migrate_url_slugs.py:69 | the f-string is `learn/` followed by the three parts and two more separators; `MigrateUrlSlugs.AssembledSlugSegments` states its path segments |
| MigrateUrlSlugs.AssembledSlugSegments | course_discovery/apps/course_metadata/management/commands/migrate_url_slugs.py:69 | the assembled slug splits on `/` into `learn`, the learn page, then the organization part; with no `/` in that part it has exactly three segments, the last being that part |
| MigrateUrlSlugs.NewSlugSegments | course_discovery/apps/course_metadata/management/commands/migrate_url_slugs.py:59-69 | a new slug always has a subfolder, its first two segments are `learn` and the learn page, and for an organization key without `/` its last segment is the organization, `-` and the old last segment |
| MigrateUrlSlugs.OnlyFirstSubjectAndOrganizationCount | course_discovery/apps/course_metadata/management/commands/migrate_url_slugs.py:54-65 | courses that agree on the first subject, first organization, external flag and current slug get the same result |
| MigrateUrlSlugs.UnmappedFirstSubjectHasNoSlug | course_discovery/apps/course_metadata/management/commands/migrate_url_slugs.py:54-58 | an unmapped first subject yields no slug whatever the later subjects are |
| MigrateUrlSlugs.SelectCourses | course_discovery/apps/course_metadata/management/commands/migrate_url_slugs.py:28 | the queryset holds, in table order and once each, exactly the positions of non-draft courses whose uuid is listed |
| MigrateUrlSlugs.SetActiveUrlSlug | course_discovery/apps/course_metadata/management/commands/migrate_url_slugs.py:40 | the active slug becomes the new one and nothing else of the record changes |
| MigrateUrlSlugs.Migrated | course_discovery/apps/course_metadata/management/commands/migrate_url_slugs.py:36-42 | a course not yet under a subfolder with a derivable slug gets that slug; any other course is returned unchanged |
| MigrateUrlSlugs.MigrateCourse | course_discovery/apps/course_metadata/management/commands/migrate_url_slugs.py:36-42 | one iteration changes only its own course and appends one write exactly when that course is migrated |
| MigrateUrlSlugs.MigrateLoop | course_discovery/apps/course_metadata/management/commands/migrate_url_slugs.py:35-42 | the loop keeps the table's length, leaves every course outside the queue as it was, and only appends writes; `MigrateUrlSlugs.MigrateLoopCourses` and `MigrateUrlSlugs.MigrateLoopWrites` state what it changes |
| MigrateUrlSlugs.MigrateLoopCourses | course_discovery/apps/course_metadata/management/commands/migrate_url_slugs.py:35-42 | over a strictly increasing queue, the loop migrates exactly the queued courses and leaves every other course as it was |
| MigrateUrlSlugs.PrefixLoopEffect | course_discovery/apps/course_metadata/management/commands/migrate_url_slugs.py:35-42 | the loop over the first `k` queued courses migrates and saves each eligible one among them and leaves the `k`-th queued course as it was |
| MigrateUrlSlugs.MigrateLoopWrites | course_discovery/apps/course_metadata/management/commands/migrate_url_slugs.py:35-42 | the loop's writes are those of an independent per-queue definition, in queue order |
| MigrateUrlSlugs.WritesForCourses | course_discovery/apps/course_metadata/management/commands/migrate_url_slugs.py:36-40 | every write is for a queued course that is migrated, carrying that course's derived slug |
| MigrateUrlSlugs.WritesForOrdered | course_discovery/apps/course_metadata/management/commands/migrate_url_slugs.py:35-40 | writes come in strictly increasing course position, so no course is written twice |
| MigrateUrlSlugs.WritesForComplete | course_discovery/apps/course_metadata/management/commands/migrate_url_slugs.py:35-40 | every queued course that is migrated has a write |
| MigrateUrlSlugs.MigrateCourses | course_discovery/apps/course_metadata/management/commands/migrate_url_slugs.py:27-42 | only courses in the queryset can change; `MigrateUrlSlugs.MigrateCoursesEffect` states the whole effect |
| MigrateUrlSlugs.MigrateCoursesEffect | course_discovery/apps/course_metadata/management/commands/migrate_url_slugs.py:27-42 | after `migrate_courses`, exactly the selected, unmigrated courses with a derivable slug carry it; every other course is untouched; each changed course is written exactly once, in table order |
| MigrateUrlSlugs.AlreadyMigratedUntouched | course_discovery/apps/course_metadata/management/commands/migrate_url_slugs.py:36-42 | a course whose slug already has a subfolder is neither changed nor written |
| MigrateUrlSlugs.SavedExactlyOnce | course_discovery/apps/course_metadata/management/commands/migrate_url_slugs.py:35-40 | each migrated course is written exactly once in the run |
| MigrateUrlSlugs.Handle | course_discovery/apps/course_metadata/management/commands/migrate_url_slugs.py:22-25 | a missing or empty uuid list is the error "Missing required arguments" and produces no run; otherwise the run is `migrate_courses` on that list |
| MigrateUrlSlugs.GetSlugForCourseAsWritten | course_discovery/apps/course_metadata/management/commands/migrate_url_slugs.py:45-69 | as written, the three warning branches raise `NameError`; every other outcome agrees with the model |
| MigrateUrlSlugs.MigrateLoopAsWritten | course_discovery/apps/course_metadata/management/commands/migrate_url_slugs.py:35-64 | as written, the loop either finishes or raises at a queued course that reaches a warning branch, keeping the table's length |
| MigrateUrlSlugs.MigrateCoursesAsWritten | course_discovery/apps/course_metadata/management/commands/migrate_url_slugs.py:27-64 | as written, `migrate_courses` raises only at a selected course that reaches a warning branch |
| MigrateUrlSlugs.AsWrittenAgreesWithoutWarnings | course_discovery/apps/course_metadata/management/commands/migrate_url_slugs.py:35-64 | when no queued course reaches a warning branch, the loop as written finishes with the model's result |
| MigrateUrlSlugs.AsWrittenStopsAtFirstWarning | course_discovery/apps/course_metadata/management/commands/migrate_url_slugs.py:35-64 | as written, the loop raises at the first queued course that reaches a warning branch, after migrating exactly the courses queued before it; that course and all later ones are left as they were |
| MigrateUrlSlugs.FirstWarningStopsRun | course_discovery/apps/course_metadata/management/commands/migrate_url_slugs.py:27-64 | the same for `migrate_courses`: its outcome is the model's loop over the queryset up to the first warning course, then the raise at that course |
| MigrateUrlSlugs.ModelSkipsWarning | course_discovery/apps/course_metadata/management/commands/migrate_url_slugs.py:35-64 | the model skips a selected course that reaches a warning branch, with no write for it, and still migrates any eligible selected course after it |
| MigrateUrlSlugs.EligibleThenWarning | course_discovery/apps/course_metadata/management/commands/migrate_url_slugs.py:35-64 | as written, an eligible course queued ahead of the first course that reaches a warning branch is migrated to its derived slug and saved; the run then raises at that warning course, which is left as it was |
| MigrateUrlSlugs.TwoCoursesEligibleThenWarning | course_discovery/apps/course_metadata/management/commands/migrate_url_slugs.py:35-64 | in a table of exactly two selected courses, the first eligible and the second reaching a warning branch, the code as written saves exactly one write, for the first course, and raises at the second |
| MigrateUrlSlugs.MissingSubjectsAbortRun | course_discovery/apps/course_metadata/management/commands/migrate_url_slugs.py:50-53 | for a course without subjects queued before a math course, the code as written stops with nothing saved, while the model migrates the math course |
| MigrateUrlSlugs.OrderDecidesAsWrittenRun | course_discovery/apps/course_metadata/management/commands/migrate_url_slugs.py:35-64 | with the same two courses the other way round, the code as written saves the math course and then raises, so the outcome as written depends on the queryset's order |

## Left out

- The rest of `constants.py` and all of `choices.py`: the Snowflake SQL templates, the Google Drive link patterns, the API scope, the URL names, `IMAGE_TYPES`, `PathwayType` and the choice enumerations. The command does not read them.
- ORM plumbing: the query at `migrate_url_slugs.py:28-34`, `select_related` and `prefetch_related`. The course table is a sequence of records, and the filter keeps its order.
  - Uuids are compared as plain strings. If the course model stores them in a UUID field, `uuid__in` parses each argument instead: upper-case or unhyphenated forms would also match, and a malformed argument would raise before the loop. The course model is not part of this model.
  - The model fixes the queryset order to table order.
  - In the model of the command, each iteration touches only its own course, so the final table does not depend on that order. Only the order of the writes does.
  - As written, the order matters: courses queued before the first warning course are saved and the rest are not (`MigrateUrlSlugs.OrderDecidesAsWrittenRun`).
- The course model is not part of this model: `set_active_url_slug`, `active_url_slug_has_subfolder` and `is_external_course` are defined there. The two flags are record fields taken as given.
- MigrateUrlSlugs.SetActiveUrlSlug: only replaces the active slug. Slug history and the subfolder flag after the change are not modelled, so running the command twice is not stated.
- The `LOG.info` call for an already migrated course, and the argparse wiring in `add_arguments`. These have no effect on the data. The three `logger.warning` calls are not logging: they raise (see Findings).
- Strings.Lower: ASCII only. Python's `str.lower()` also folds non-ASCII letters, so a non-ASCII organization key may lower-case differently.
- Constants.LearnPageMapWellFormed: checks only that the Spanish values are non-empty, since the command never reads `es`.
- Constants.EntryValues0To7: checks only that the Spanish values are non-empty, for the same reason.
- Constants.EntryValues8To15: the same.
- Constants.EntryValues16To23: the same.
- Constants.EntryValues24To30: the same.
- The id patterns are modelled as full matches of the whole string. How callers anchor them (URL routing, `re.match`) is outside this model.
  - As with Python's `re`, a negated class also matches a newline.
- The warning branches: the model of the command follows the evidently intended `None`. The code as written is modelled alongside it (see Findings).

## Findings

| source | as written | input that shows it | evidently intended | confidence | as-written member | corrected member |
|---|---|---|---|---|---|---|
| course_discovery/apps/course_metadata/management/commands/migrate_url_slugs.py:52,57,63 | the warning branches call `logger.warning`, but the module only defines `LOG`, so they raise `NameError`. That ends `migrate_courses` at the first such course: the courses queued before it are already saved, and it and every later course are left unmigrated (`MigrateUrlSlugs.FirstWarningStopsRun`) | a selected, non-external course with no subjects whose slug has no subfolder yet, queued before a migratable course (`MigrateUrlSlugs.MissingSubjectsAbortRun`) | log the warning, return `None` and continue with the next course | high (not executed) | MigrateUrlSlugs.GetSlugForCourseAsWritten | MigrateUrlSlugs.GetSlugForCourse |
