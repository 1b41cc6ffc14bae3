/**
 * Static data of the course metadata app that the slug migration depends
 * on: the subject-to-learn-page table and the course id / course run id /
 * course uuid patterns.
 */
module Constants {
  import opened Regex

  /** The learn-page path segment of a subject, in English and Spanish. */
  datatype LearnSlugs = LearnSlugs(en: string, es: string)

  /**
   * The value of a Python dict display: entries are inserted left to right,
   * so a repeated key keeps its last value.
   */
  function DictOf<K(==), V>(entries: seq<(K, V)>): (m: map<K, V>)
    ensures m.Keys == set i | 0 <= i < |entries| :: entries[i].0
    ensures forall k :: k in m ==>
      exists i :: 0 <= i < |entries| && entries[i].0 == k && m[k] == entries[i].1 &&
        forall j :: i < j < |entries| ==> entries[j].0 != k
    decreases |entries|
  {
    if |entries| == 0 then map[]
    else
      var last := entries[|entries| - 1];
      DictOf(entries[..|entries| - 1])[last.0 := last.1]
  }

  /** No key occurs twice among the entries. */
  predicate DistinctKeys<K(==), V>(entries: seq<(K, V)>) {
    forall i, j :: 0 <= i < j < |entries| ==> entries[i].0 != entries[j].0
  }

  /** With distinct keys, every entry is found under its own key. */
  lemma {:induction false} DictOfLookup<K, V>(entries: seq<(K, V)>, i: int)
    requires DistinctKeys(entries)
    requires 0 <= i < |entries|
    ensures entries[i].0 in DictOf(entries)
    ensures DictOf(entries)[entries[i].0] == entries[i].1
    decreases |entries|
  {
    var n := |entries| - 1;
    if i < n {
      assert DistinctKeys(entries[..n]);
      DictOfLookup(entries[..n], i);
      assert entries[..n][i] == entries[i];
    }
  }

  /** Dropping the last entry keeps the keys distinct, and the last key is not among the rest. */
  lemma DistinctKeysPrefix<K, V>(entries: seq<(K, V)>)
    requires |entries| > 0 && DistinctKeys(entries)
    ensures DistinctKeys(entries[..|entries| - 1])
    ensures forall j :: 0 <= j < |entries| - 1 ==> entries[j].0 != entries[|entries| - 1].0
  {
  }

  /** With distinct keys, the dict has one key per entry. */
  lemma {:induction false} DictOfSize<K, V>(entries: seq<(K, V)>)
    requires DistinctKeys(entries)
    ensures |DictOf(entries)| == |entries|
    decreases |entries|
  {
    if |entries| > 0 {
      var n := |entries| - 1;
      var prefix := entries[..n];
      var k := entries[n].0;
      DistinctKeysPrefix(entries);
      DictOfSize(prefix);
      var m := DictOf(prefix);
      assert k !in m.Keys;
      assert DictOf(entries) == m[k := entries[n].1];
    }
  }

  /** `SUBJECT_SLUG_TO_LEARN_PAGE_MAP`, entry by entry, in the order written. */
  const Entries: seq<(string, LearnSlugs)> := [
    ("architecture", LearnSlugs("architecture", "arquitectura")),
    ("art-culture", LearnSlugs("art", "arte")),
    ("biology-life-sciences", LearnSlugs("biology", "biologia")),
    ("business-management", LearnSlugs("business-administration", "administracion-de-empresas")),
    ("chemistry", LearnSlugs("chemistry", "quimica")),
    ("communication", LearnSlugs("business-communications", "comunicacion")),
    ("computer-science", LearnSlugs("computer-programming", "programacion-informatica")),
    ("data-science", LearnSlugs("data-analysis", "analisis-de-datos")),
    ("design", LearnSlugs("design", "diseno")),
    ("economics-finance", LearnSlugs("economics", "economia")),
    ("education-teacher-training", LearnSlugs("education", "educacion")),
    ("electronics", LearnSlugs("electronics", "ingenieria-electrica")),
    ("energy-earth-sciences", LearnSlugs("energy", "energia")),
    ("engineering", LearnSlugs("engineering", "ingenieria")),
    ("environmental-studies", LearnSlugs("environmental-science", "medio-ambiente")),
    ("ethics", LearnSlugs("ethics", "desafios-eticos")),
    ("food-nutrition", LearnSlugs("nutrition", "nutricion")),
    ("health-safety", LearnSlugs("healthcare", "cuidado-de-la-salud")),
    ("history", LearnSlugs("history", "historia")),
    ("humanities", LearnSlugs("humanities", "humanidades")),
    ("language", LearnSlugs("language", "idiomas")),
    ("law", LearnSlugs("law", "leyes")),
    ("literature", LearnSlugs("literature", "literatura")),
    ("math", LearnSlugs("math", "matematicas")),
    ("medicine", LearnSlugs("medicine", "medicina")),
    ("music", LearnSlugs("music-arts", "musica")),
    ("philanthropy", LearnSlugs("humanities", "humanidades")),
    ("philosophy-ethics", LearnSlugs("ethics", "filosofia")),
    ("physics", LearnSlugs("physics", "fisica")),
    ("science", LearnSlugs("science", "ciencias-naturales")),
    ("social-sciences", LearnSlugs("social-science", "ciencias-sociales"))
  ]

  /** `SUBJECT_SLUG_TO_LEARN_PAGE_MAP` as a map. */
  const SubjectSlugToLearnPageMap: map<string, LearnSlugs> := DictOf(Entries)

  predicate IsSlugChar(c: char) {
    ('a' <= c <= 'z') || c == '-'
  }

  /** A single lower-case URL path segment: non-empty, letters `a`-`z` and `-` only. */
  predicate IsLearnSegment(s: string) {
    |s| > 0 && forall i :: 0 <= i < |s| ==> IsSlugChar(s[i])
  }

  /** A learn segment holds neither a slash nor an ASCII capital. */
  lemma LearnSegmentIsOnePathSegment(s: string)
    requires IsLearnSegment(s)
    ensures '/' !in s
    ensures forall i :: 0 <= i < |s| ==> !('A' <= s[i] <= 'Z')
  {
  }

  /*
   * The table is checked in slices (keys by the initial letter of the
   * subject slug, values eight entries at a time) so that each proof stays
   * small.
   */

  /** Entries 0 to 6: subject slugs starting with `a` to `c`, pairwise distinct. */
  lemma SubjectsAToCKeys()
    ensures forall i :: 0 <= i < 7 ==> |Entries[i].0| > 0 && 'a' <= Entries[i].0[0] <= 'c'
    ensures forall i, j :: 0 <= i < j < 7 ==> Entries[i].0 != Entries[j].0
  {
  }

  /** Entries 7 to 15: subject slugs starting with `d` to `e`, pairwise distinct. */
  lemma SubjectsDToEKeys()
    ensures forall i :: 7 <= i < 16 ==> |Entries[i].0| > 0 && 'd' <= Entries[i].0[0] <= 'e'
    ensures forall i, j :: 7 <= i < j < 16 ==> Entries[i].0 != Entries[j].0
  {
  }

  /** Entries 16 to 22: subject slugs starting with `f` to `l`, pairwise distinct. */
  lemma SubjectsFToLKeys()
    ensures forall i :: 16 <= i < 23 ==> |Entries[i].0| > 0 && 'f' <= Entries[i].0[0] <= 'l'
    ensures forall i, j :: 16 <= i < j < 23 ==> Entries[i].0 != Entries[j].0
  {
  }

  /** Entries 23 to 30: subject slugs starting with `m` to `z`, pairwise distinct. */
  lemma SubjectsMToZKeys()
    ensures forall i :: 23 <= i < 31 ==> |Entries[i].0| > 0 && 'm' <= Entries[i].0[0] <= 'z'
    ensures forall i, j :: 23 <= i < j < 31 ==> Entries[i].0 != Entries[j].0
  {
  }

  /*
   * The values, eight entries at a time: first the English values as
   * written, then the entries that carry them.
   */

  lemma EnglishValues0To7AreSegments()
    ensures forall s ::
      s in [
        "architecture", "art", "biology", "business-administration", "chemistry",
        "business-communications", "computer-programming", "data-analysis"
      ]
      ==> IsLearnSegment(s)
  {
  }

  lemma EntryValues0To7()
    ensures forall i :: 0 <= i < 8 ==> IsLearnSegment(Entries[i].1.en) && |Entries[i].1.es| > 0
  {
    EnglishValues0To7AreSegments();
    assert forall i :: 0 <= i < 8 ==> Entries[i].1.en in [
        "architecture", "art", "biology", "business-administration", "chemistry",
        "business-communications", "computer-programming", "data-analysis"
      ];
  }

  lemma EnglishValues8To15AreSegments()
    ensures forall s ::
      s in [
        "design", "economics", "education", "electronics", "energy", "engineering",
        "environmental-science", "ethics"
      ]
      ==> IsLearnSegment(s)
  {
  }

  lemma EntryValues8To15()
    ensures forall i :: 8 <= i < 16 ==> IsLearnSegment(Entries[i].1.en) && |Entries[i].1.es| > 0
  {
    EnglishValues8To15AreSegments();
    assert forall i :: 8 <= i < 16 ==> Entries[i].1.en in [
        "design", "economics", "education", "electronics", "energy", "engineering",
        "environmental-science", "ethics"
      ];
  }

  lemma EnglishValues16To23AreSegments()
    ensures forall s ::
      s in [
        "nutrition", "healthcare", "history", "humanities", "language", "law", "literature",
        "math"
      ]
      ==> IsLearnSegment(s)
  {
  }

  lemma EntryValues16To23()
    ensures forall i :: 16 <= i < 24 ==> IsLearnSegment(Entries[i].1.en) && |Entries[i].1.es| > 0
  {
    EnglishValues16To23AreSegments();
    assert forall i :: 16 <= i < 24 ==> Entries[i].1.en in [
        "nutrition", "healthcare", "history", "humanities", "language", "law", "literature",
        "math"
      ];
  }

  lemma EnglishValues24To30AreSegments()
    ensures forall s ::
      s in [
        "medicine", "music-arts", "humanities", "ethics", "physics", "science",
        "social-science"
      ]
      ==> IsLearnSegment(s)
  {
  }

  lemma EntryValues24To30()
    ensures forall i :: 24 <= i < 31 ==> IsLearnSegment(Entries[i].1.en) && |Entries[i].1.es| > 0
  {
    EnglishValues24To30AreSegments();
    assert forall i :: 24 <= i < 31 ==> Entries[i].1.en in [
        "medicine", "music-arts", "humanities", "ethics", "physics", "science", "social-science"
      ];
  }

  /** The 31 subject slugs of the table are pairwise distinct. */
  lemma EntriesHaveDistinctKeys()
    ensures |Entries| == 31
    ensures DistinctKeys(Entries)
  {
    SubjectsAToCKeys();
    SubjectsDToEKeys();
    SubjectsFToLKeys();
    SubjectsMToZKeys();
    forall i, j | 0 <= i < j < |Entries|
      ensures Entries[i].0 != Entries[j].0
    {
      if Entries[i].0[0] == Entries[j].0[0] {
        assert (i < 7) == (j < 7) && (i < 16) == (j < 16) && (i < 23) == (j < 23);
      }
    }
  }

  /**
   * The table has exactly 31 keys, each found under its entry; any subject
   * slug that is not one of them misses.
   */
  lemma LearnPageMapKeys()
    ensures |SubjectSlugToLearnPageMap| == 31
    ensures forall i :: 0 <= i < |Entries| ==>
      Entries[i].0 in SubjectSlugToLearnPageMap && SubjectSlugToLearnPageMap[Entries[i].0] == Entries[i].1
    ensures forall k :: (forall i :: 0 <= i < |Entries| ==> Entries[i].0 != k) ==> k !in SubjectSlugToLearnPageMap
  {
    EntriesHaveDistinctKeys();
    DictOfSize(Entries);
    forall i | 0 <= i < |Entries|
      ensures Entries[i].0 in SubjectSlugToLearnPageMap && SubjectSlugToLearnPageMap[Entries[i].0] == Entries[i].1
    {
      DictOfLookup(Entries, i);
    }
  }

  /** Entry `i` of the table is the one for `subject`. */
  predicate ListsSubject(i: int, subject: string) {
    0 <= i < |Entries| && Entries[i].0 == subject
  }

  /** A subject is a key of the map exactly when the table lists it, and then it maps to that entry's value. */
  lemma LearnPageMapLookup(subject: string)
    ensures subject in SubjectSlugToLearnPageMap <==> exists i :: ListsSubject(i, subject)
    ensures forall i :: ListsSubject(i, subject) ==>
      subject in SubjectSlugToLearnPageMap && SubjectSlugToLearnPageMap[subject] == Entries[i].1
  {
    LearnPageMapKeys();
    if subject in SubjectSlugToLearnPageMap {
      var i :| 0 <= i < |Entries| && Entries[i].0 == subject;
      assert ListsSubject(i, subject);
    }
  }

  /**
   * Every entry carries both an English and a Spanish value; the English one
   * is a single non-empty lower-case path segment without `/`.
   */
  lemma LearnPageMapWellFormed()
    ensures forall k :: k in SubjectSlugToLearnPageMap ==>
      IsLearnSegment(SubjectSlugToLearnPageMap[k].en) && |SubjectSlugToLearnPageMap[k].es| > 0
  {
    EntryValues0To7();
    EntryValues8To15();
    EntryValues16To23();
    EntryValues24To30();
  }

  /**
   * The English value does not determine the subject: `humanities` and
   * `philanthropy` share one, and so do `ethics` and `philosophy-ethics`.
   */
  lemma EnglishLearnSlugNotInjective()
    ensures "humanities" in SubjectSlugToLearnPageMap && "philanthropy" in SubjectSlugToLearnPageMap
    ensures SubjectSlugToLearnPageMap["humanities"].en == SubjectSlugToLearnPageMap["philanthropy"].en == "humanities"
    ensures "ethics" in SubjectSlugToLearnPageMap && "philosophy-ethics" in SubjectSlugToLearnPageMap
    ensures SubjectSlugToLearnPageMap["ethics"].en == SubjectSlugToLearnPageMap["philosophy-ethics"].en == "ethics"
  {
    EntriesHaveDistinctKeys();
    DictOfLookup(Entries, 15);
    DictOfLookup(Entries, 19);
    DictOfLookup(Entries, 26);
    DictOfLookup(Entries, 27);
  }

  /*
   * The id patterns. Each regex is transcribed literally into `Regex.Re`;
   * what a full match means is then stated as a plain predicate and proved
   * equivalent, and an executable validator is proved to decide it.
   */

  /** The two separators a course key may use between its parts. */
  const Separators: set<char> := {'/', '+'}

  predicate IsSeparator(c: char) {
    c in Separators
  }

  /** No character of `s` is in `stop`. */
  predicate Avoids(s: string, stop: set<char>) {
    forall k :: 0 <= k < |s| ==> s[k] !in stop
  }

  /** `[^/+]` */
  const NotSeparator: Re := Chars(true, Separators)

  /** `(/|\+)` */
  const Separator: Re := Alt(Chars(false, {'/'}), Chars(false, {'+'}))

  /** `[^/]` */
  const NotSlash: Re := Chars(true, {'/'})

  /** `COURSE_ID_REGEX`: `[^/+]+(/|\+)[^/+]+` */
  const CourseIdRegex: Re := Cat(Plus(NotSeparator), Cat(Separator, Plus(NotSeparator)))

  /** `COURSE_RUN_ID_REGEX`: `[^/+]+(/|\+)[^/+]+(/|\+)[^/]+` */
  const CourseRunIdRegex: Re :=
    Cat(Plus(NotSeparator), Cat(Separator, Cat(Plus(NotSeparator), Cat(Separator, Plus(NotSlash)))))

  /** The characters of `[0-9a-f-]`. */
  const UuidChars: set<char> := {
    '0', '1', '2', '3', '4', '5', '6', '7', '8', '9', 'a', 'b', 'c', 'd', 'e', 'f', '-'
  }

  /** `COURSE_UUID_REGEX`: `[0-9a-f-]+` */
  const CourseUuidRegex: Re := Plus(Chars(false, UuidChars))

  /** A course key: two non-empty separator-free parts joined by one separator at index `i`. */
  predicate IsCourseIdAt(s: string, i: int) {
    && 0 < i < |s| - 1
    && IsSeparator(s[i])
    && Avoids(s[..i], Separators)
    && Avoids(s[i + 1..], Separators)
  }

  predicate IsCourseId(s: string) {
    exists i :: 0 < i < |s| && IsCourseIdAt(s, i)
  }

  /**
   * A course run key: a course key, one separator, and a non-empty third part
   * that may hold `+` but not `/`.
   */
  predicate IsCourseRunIdAt(s: string, j: int) {
    && 0 < j < |s| - 1
    && IsCourseId(s[..j])
    && IsSeparator(s[j])
    && '/' !in s[j + 1..]
  }

  predicate IsCourseRunId(s: string) {
    exists j :: 0 < j < |s| && IsCourseRunIdAt(s, j)
  }

  /** A course uuid: non-empty, lower-case hex digits and `-` only. */
  predicate IsCourseUuid(s: string) {
    |s| > 0 && forall k :: 0 <= k < |s| ==> s[k] in UuidChars
  }

  /** `(/|\+)` matches exactly one separator character. */
  lemma SeparatorMatches(s: string)
    ensures FullMatch(Separator, s) <==> |s| == 1 && IsSeparator(s[0])
  {
  }

  /** A separator followed by `r`. */
  lemma SeparatorThen(r: Re, s: string)
    ensures FullMatch(Cat(Separator, r), s) <==> |s| > 0 && IsSeparator(s[0]) && FullMatch(r, s[1..])
  {
    if FullMatch(Cat(Separator, r), s) {
      var i :| 0 <= i <= |s| && FullMatch(Separator, s[..i]) && FullMatch(r, s[i..]);
      SeparatorMatches(s[..i]);
    }
    if |s| > 0 && IsSeparator(s[0]) && FullMatch(r, s[1..]) {
      SeparatorMatches(s[..1]);
      CatAt(Separator, r, s, 1);
    }
  }

  /** A run of characters outside `stop`, followed by `r`. */
  lemma RunThen(stop: set<char>, r: Re, s: string)
    ensures FullMatch(Cat(Plus(Chars(true, stop)), r), s) <==>
      exists i :: 0 < i <= |s| && Avoids(s[..i], stop) && FullMatch(r, s[i..])
  {
    var p := Plus(Chars(true, stop));
    if FullMatch(Cat(p, r), s) {
      var i :| 0 <= i <= |s| && FullMatch(p, s[..i]) && FullMatch(r, s[i..]);
      PlusOfClass(true, stop, s[..i]);
      assert Avoids(s[..i], stop);
    }
    if exists i :: 0 < i <= |s| && Avoids(s[..i], stop) && FullMatch(r, s[i..]) {
      var i :| 0 < i <= |s| && Avoids(s[..i], stop) && FullMatch(r, s[i..]);
      PlusOfClass(true, stop, s[..i]);
      CatAt(p, r, s, i);
    }
  }

  /** `[^/+]+` and `[^/]+` match exactly the non-empty strings avoiding their class. */
  lemma RunMatches(stop: set<char>, s: string)
    ensures FullMatch(Plus(Chars(true, stop)), s) <==> |s| > 0 && Avoids(s, stop)
  {
    PlusOfClass(true, stop, s);
  }

  /** A full match of `COURSE_ID_REGEX` is exactly a course key. */
  lemma CourseIdRegexMeaning(s: string)
    ensures FullMatch(CourseIdRegex, s) <==> IsCourseId(s)
  {
    var tail := Cat(Separator, Plus(NotSeparator));
    RunThen(Separators, tail, s);
    if FullMatch(CourseIdRegex, s) {
      var i :| 0 < i <= |s| && Avoids(s[..i], Separators) && FullMatch(tail, s[i..]);
      SeparatorThen(Plus(NotSeparator), s[i..]);
      RunMatches(Separators, s[i..][1..]);
      assert s[i..][1..] == s[i + 1..];
      assert IsCourseIdAt(s, i);
    }
    if IsCourseId(s) {
      var i :| 0 < i < |s| && IsCourseIdAt(s, i);
      RunMatches(Separators, s[i + 1..]);
      assert s[i..][1..] == s[i + 1..];
      SeparatorThen(Plus(NotSeparator), s[i..]);
    }
  }

  /** The part of a course run key after its first separator, split at index `j`. */
  predicate IsRunTailAt(t: string, j: int) {
    && 0 < j < |t| - 1
    && Avoids(t[..j], Separators)
    && IsSeparator(t[j])
    && '/' !in t[j + 1..]
  }

  /** `[^/+]+(/|\+)[^/]+`, the part of `COURSE_RUN_ID_REGEX` after its first separator. */
  lemma RunTailMeaning(t: string)
    ensures FullMatch(Cat(Plus(NotSeparator), Cat(Separator, Plus(NotSlash))), t) <==>
      exists j :: 0 < j < |t| && IsRunTailAt(t, j)
  {
    var last := Cat(Separator, Plus(NotSlash));
    RunThen(Separators, last, t);
    if FullMatch(Cat(Plus(NotSeparator), last), t) {
      var j :| 0 < j <= |t| && Avoids(t[..j], Separators) && FullMatch(last, t[j..]);
      SeparatorThen(Plus(NotSlash), t[j..]);
      assert t[j..][1..] == t[j + 1..];
      RunMatches({'/'}, t[j + 1..]);
      assert IsRunTailAt(t, j);
    }
    if exists j :: 0 < j < |t| && IsRunTailAt(t, j) {
      var j :| 0 < j < |t| && IsRunTailAt(t, j);
      assert t[j..][1..] == t[j + 1..];
      RunMatches({'/'}, t[j + 1..]);
      SeparatorThen(Plus(NotSlash), t[j..]);
    }
  }

  /** A course key prefix, a separator at `i` and a run tail after it form a course run key. */
  lemma RunIdFromParts(s: string, i: int, k: int)
    requires 0 < i < |s| - 1 && Avoids(s[..i], Separators) && IsSeparator(s[i])
    requires IsRunTailAt(s[i + 1..], k)
    ensures IsCourseRunIdAt(s, i + 1 + k)
  {
    var t := s[i + 1..];
    var j := i + 1 + k;
    assert s[..j][..i] == s[..i];
    assert s[..j][i + 1..] == t[..k];
    assert IsCourseIdAt(s[..j], i);
    assert s[j + 1..] == t[k + 1..];
  }

  /** A course run key splits at its first separator into a key part and a run tail. */
  lemma RunIdToParts(s: string, j: int, i: int)
    requires IsCourseRunIdAt(s, j) && 0 < i < j && IsCourseIdAt(s[..j], i)
    ensures Avoids(s[..i], Separators) && IsSeparator(s[i])
    ensures IsRunTailAt(s[i + 1..], j - i - 1)
  {
    var t := s[i + 1..];
    var k := j - i - 1;
    assert s[..j][..i] == s[..i];
    assert s[..j][i + 1..] == t[..k];
    assert s[j + 1..] == t[k + 1..];
  }

  lemma CourseRunIdRegexSound(s: string)
    requires FullMatch(CourseRunIdRegex, s)
    ensures IsCourseRunId(s)
  {
    var tail := Cat(Plus(NotSeparator), Cat(Separator, Plus(NotSlash)));
    RunThen(Separators, Cat(Separator, tail), s);
    var i :| 0 < i <= |s| && Avoids(s[..i], Separators) && FullMatch(Cat(Separator, tail), s[i..]);
    SeparatorThen(tail, s[i..]);
    var t := s[i + 1..];
    assert s[i..][1..] == t;
    RunTailMeaning(t);
    var k :| 0 < k < |t| && IsRunTailAt(t, k);
    RunIdFromParts(s, i, k);
  }

  lemma CourseRunIdRegexComplete(s: string)
    requires IsCourseRunId(s)
    ensures FullMatch(CourseRunIdRegex, s)
  {
    var tail := Cat(Plus(NotSeparator), Cat(Separator, Plus(NotSlash)));
    var j :| 0 < j < |s| && IsCourseRunIdAt(s, j);
    var i :| 0 < i < j && IsCourseIdAt(s[..j], i);
    RunIdToParts(s, j, i);
    var t := s[i + 1..];
    RunTailMeaning(t);
    assert s[i..][1..] == t;
    SeparatorThen(tail, s[i..]);
    RunThen(Separators, Cat(Separator, tail), s);
  }

  /**
   * A full match of `COURSE_RUN_ID_REGEX` is exactly a course key, a
   * separator, and a non-empty third part without `/`.
   */
  lemma CourseRunIdRegexMeaning(s: string)
    ensures FullMatch(CourseRunIdRegex, s) <==> IsCourseRunId(s)
  {
    if FullMatch(CourseRunIdRegex, s) {
      CourseRunIdRegexSound(s);
    }
    if IsCourseRunId(s) {
      CourseRunIdRegexComplete(s);
    }
  }

  /** A full match of `COURSE_UUID_REGEX` is exactly a course uuid. */
  lemma CourseUuidRegexMeaning(s: string)
    ensures FullMatch(CourseUuidRegex, s) <==> IsCourseUuid(s)
  {
    PlusOfClass(false, UuidChars, s);
  }

  /** A course run key begins with a course key followed by a separator. */
  lemma CourseRunIdExtendsCourseId(s: string)
    requires FullMatch(CourseRunIdRegex, s)
    ensures exists j :: 0 < j < |s| - 1 && FullMatch(CourseIdRegex, s[..j]) && IsSeparator(s[j]) && '/' !in s[j + 1..]
  {
    CourseRunIdRegexMeaning(s);
    var j :| 0 < j < |s| && IsCourseRunIdAt(s, j);
    CourseIdRegexMeaning(s[..j]);
  }

  /** The first position at or after `from` holding a character of `stop`, or `|s|`. */
  method ScanUntil(s: string, from: int, stop: set<char>) returns (i: int)
    requires 0 <= from <= |s|
    ensures from <= i <= |s|
    ensures Avoids(s[from..i], stop)
    ensures i < |s| ==> s[i] in stop
  {
    i := from;
    while i < |s| && s[i] !in stop
      invariant from <= i <= |s|
      invariant Avoids(s[from..i], stop)
    {
      assert s[from..i + 1] == s[from..i] + [s[i]];
      i := i + 1;
    }
  }

  /**
   * Once a scan from `from` stops at `i`, no other position at or after
   * `from` can be the first character of `stop`.
   */
  lemma FirstStopIsUnique(s: string, stop: set<char>, from: int, i: int)
    requires 0 <= from <= i <= |s| && Avoids(s[from..i], stop)
    requires i < |s| ==> s[i] in stop
    ensures forall k :: from <= k < |s| && s[k] in stop && Avoids(s[from..k], stop) ==> k == i
  {
    assert forall k :: from <= k < i ==> s[from..i][k - from] == s[k];
    assert forall k :: i < k <= |s| ==> s[from..k][i - from] == s[i];
  }

  /**
   * The separators of a course run key are the first two separators of the
   * string.
   */
  lemma CourseRunIdSeparators(s: string, j: int)
    requires 0 < j < |s| && IsCourseRunIdAt(s, j)
    ensures exists i :: 0 < i < j - 1 && IsSeparator(s[i]) && Avoids(s[..i], Separators) && Avoids(s[i + 1..j], Separators)
  {
    var i :| 0 < i < j && IsCourseIdAt(s[..j], i);
    assert s[..j][..i] == s[..i];
    assert s[..j][i + 1..] == s[i + 1..j];
  }

  /** Decides a full match of `COURSE_ID_REGEX` in one left-to-right scan. */
  method ValidateCourseId(s: string) returns (ok: bool)
    ensures ok <==> FullMatch(CourseIdRegex, s)
  {
    CourseIdRegexMeaning(s);
    var i := ScanUntil(s, 0, Separators);
    assert forall k :: 0 <= k <= |s| ==> s[0..k] == s[..k];
    FirstStopIsUnique(s, Separators, 0, i);
    if i == 0 || i >= |s| - 1 {
      ok := false;
    } else {
      var j := ScanUntil(s, i + 1, Separators);
      ok := j == |s|;
      assert j < |s| ==> s[i + 1..][j - i - 1] == s[j];
      assert ok ==> IsCourseIdAt(s, i);
    }
  }

  /** Where the first separator of `s` sits bounds where any course run key can split. */
  lemma RunIdAfterFirstSeparator(s: string, i: int)
    requires 0 <= i <= |s| && Avoids(s[..i], Separators) && (i < |s| ==> IsSeparator(s[i]))
    ensures forall k :: 0 < k < |s| && IsCourseRunIdAt(s, k) ==>
      0 < i < k - 1 && Avoids(s[i + 1..k], Separators) && IsSeparator(s[k])
  {
    assert forall k :: 0 <= k <= |s| ==> s[0..k] == s[..k];
    FirstStopIsUnique(s, Separators, 0, i);
    forall k | 0 < k < |s| && IsCourseRunIdAt(s, k)
      ensures 0 < i < k - 1 && Avoids(s[i + 1..k], Separators)
    {
      CourseRunIdSeparators(s, k);
    }
  }

  /**
   * Given the first separator at `i` and the next at `j` (or `j == |s|`), `s`
   * is a course run key exactly when both parts before `j` are non-empty and
   * a non-empty, slash-free part follows `j`.
   */
  lemma RunIdByScans(s: string, i: int, j: int)
    requires 0 < i < |s| - 1 && Avoids(s[..i], Separators) && IsSeparator(s[i])
    requires i + 1 <= j <= |s| && Avoids(s[i + 1..j], Separators) && (j < |s| ==> IsSeparator(s[j]))
    ensures IsCourseRunId(s) <==> i + 1 < j < |s| - 1 && '/' !in s[j + 1..]
  {
    RunIdAfterFirstSeparator(s, i);
    FirstStopIsUnique(s, Separators, i + 1, j);
    if i + 1 < j < |s| - 1 && '/' !in s[j + 1..] {
      assert s[..j][..i] == s[..i];
      assert s[..j][i + 1..] == s[i + 1..j];
      assert IsCourseIdAt(s[..j], i);
      assert IsCourseRunIdAt(s, j);
    }
  }

  /** Decides a full match of `COURSE_RUN_ID_REGEX` in one left-to-right scan. */
  method ValidateCourseRunId(s: string) returns (ok: bool)
    ensures ok <==> FullMatch(CourseRunIdRegex, s)
  {
    CourseRunIdRegexMeaning(s);
    var i := ScanUntil(s, 0, Separators);
    assert s[0..i] == s[..i];
    RunIdAfterFirstSeparator(s, i);
    if i == 0 || i >= |s| - 1 {
      ok := false;
    } else {
      var j := ScanUntil(s, i + 1, Separators);
      RunIdByScans(s, i, j);
      if j == i + 1 || j >= |s| - 1 {
        ok := false;
      } else {
        var end := ScanUntil(s, j + 1, {'/'});
        ok := end == |s|;
        assert end < |s| ==> s[j + 1..][end - j - 1] == s[end];
        assert s[j + 1..|s|] == s[j + 1..];
      }
    }
  }

  /** Decides a full match of `COURSE_UUID_REGEX` in one left-to-right scan. */
  method ValidateCourseUuid(s: string) returns (ok: bool)
    ensures ok <==> FullMatch(CourseUuidRegex, s)
  {
    CourseUuidRegexMeaning(s);
    var k := 0;
    while k < |s| && s[k] in UuidChars
      invariant 0 <= k <= |s|
      invariant forall m :: 0 <= m < k ==> s[m] in UuidChars
    {
      k := k + 1;
    }
    ok := |s| > 0 && k == |s|;
  }
}
