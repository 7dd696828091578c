/**
 * Enhancement_One/Enhanced_ProjectTwo.cpp: fields are trimmed, a course number is
 * 5 to 8 alphanumeric characters, and the catalog keeps a vector of courses in file
 * order beside a hash map from number to course.
 */
module EnhancedOne {
  import opened Wrappers
  import opened Text
  import opened Courses

  // ---------------------------------------------------------------------------
  // trim
  // ---------------------------------------------------------------------------

  /** The characters `trim` removes: " \t". */
  predicate IsBlank(c: char) { c == ' ' || c == '\t' }

  predicate AllBlank(s: string) { forall i :: 0 <= i < |s| ==> IsBlank(s[i]) }

  /** `find_first_not_of(" \t")`, with |s| standing for `npos`. */
  function FirstNonBlank(s: string): (k: nat)
    ensures k <= |s|
    ensures forall i :: 0 <= i < k ==> IsBlank(s[i])
    ensures k < |s| ==> !IsBlank(s[k])
  {
    if |s| == 0 || !IsBlank(s[0]) then 0 else 1 + FirstNonBlank(s[1..])
  }

  /** `find_last_not_of(" \t")`, with -1 standing for `npos`. */
  function LastNonBlank(s: string): (k: int)
    ensures -1 <= k < |s|
    ensures k >= 0 ==> !IsBlank(s[k])
    ensures forall i :: k < i < |s| ==> IsBlank(s[i])
  {
    if |s| == 0 then -1
    else if !IsBlank(s[|s| - 1]) then |s| - 1
    else LastNonBlank(s[..|s| - 1])
  }

  /**
   * `trim`: an all-blank string becomes "", and what is left neither starts nor
   * ends blank (TrimStrips says that only a blank prefix and suffix went).
   */
  function Trim(s: string): (r: string)
    ensures |r| <= |s|
    ensures r == "" <==> AllBlank(s)
    ensures r != "" ==> !IsBlank(r[0]) && !IsBlank(r[|r| - 1])
  {
    var first := FirstNonBlank(s);
    if first == |s| then ""
    else
      var last := LastNonBlank(s);
      assert first <= last;
      s[first..last + 1]
  }

  /** `r` is `s` with a blank prefix `p` and a blank suffix `q` taken off. */
  predicate Strips(s: string, r: string, p: string, q: string)
  {
    s == p + r + q && AllBlank(p) && AllBlank(q)
  }

  /** `trim` removes a blank prefix and a blank suffix, and leaves the interior unchanged. */
  lemma TrimStrips(s: string)
    ensures exists p, q :: Strips(s, Trim(s), p, q)
  {
    var p, q := TrimParts(s);
  }

  /** The blank prefix and suffix that `trim` takes off. */
  lemma TrimParts(s: string) returns (p: string, q: string)
    ensures Strips(s, Trim(s), p, q)
  {
    var first := FirstNonBlank(s);
    if first == |s| {
      p, q := s, "";
      assert s + "" + "" == s;
    } else {
      var last := LastNonBlank(s);
      p, q := s[..first], s[last + 1..];
      BlankPrefix(s);
      BlankSuffix(s);
      SliceInThree(s, first, last + 1);
    }
  }

  lemma BlankPrefix(s: string)
    ensures AllBlank(s[..FirstNonBlank(s)])
  {
    var p := s[..FirstNonBlank(s)];
    forall i | 0 <= i < |p| ensures IsBlank(p[i]) { assert p[i] == s[i]; }
  }

  lemma BlankSuffix(s: string)
    ensures AllBlank(s[LastNonBlank(s) + 1..])
  {
    var k := LastNonBlank(s) + 1;
    var q := s[k..];
    forall i | 0 <= i < |q| ensures IsBlank(q[i]) { assert q[i] == s[k + i]; }
  }

  lemma SliceInThree(s: string, i: nat, j: nat)
    requires i <= j <= |s|
    ensures s == s[..i] + s[i..j] + s[j..]
  {
  }

  /** A string that neither starts nor ends blank is its own trim. */
  lemma TrimOfTrimmed(r: string)
    requires r == "" || (!IsBlank(r[0]) && !IsBlank(r[|r| - 1]))
    ensures Trim(r) == r
  {
    if r != "" {
      assert FirstNonBlank(r) == 0;
      assert LastNonBlank(r) == |r| - 1;
      assert r[0..|r|] == r;
    }
  }

  /** `trim(trim(s)) == trim(s)`. */
  lemma TrimIdempotent(s: string)
    ensures Trim(Trim(s)) == Trim(s)
  {
    TrimOfTrimmed(Trim(s));
  }

  /** One blank in front of a trimmed string is all that `trim` takes off. */
  lemma TrimLeadingBlank(t: string)
    requires t != "" && Trim(t) == t
    ensures Trim(" " + t) == t
  {
    var s := " " + t;
    assert s[1..] == t;
    assert FirstNonBlank(t) == 0;
    assert FirstNonBlank(s) == 1;
    assert s[|s| - 1] == t[|t| - 1];
    assert LastNonBlank(s) == |t|;
    assert s[1..|t| + 1] == t;
  }

  /** Trimming takes characters away and never adds one. */
  lemma TrimKeepsCharacters(s: string, c: char)
    requires c in Trim(s)
    ensures c in s
  {
    var r := Trim(s);
    var p, q := TrimParts(s);
    var i :| 0 <= i < |r| && r[i] == c;
    assert (p + r)[|p| + i] == c;
    assert s == (p + r) + q;
    assert s[|p| + i] == c;
  }

  // ---------------------------------------------------------------------------
  // isValidCourseNumber
  // ---------------------------------------------------------------------------

  /** A course number of this variant: 5 to 8 characters, each alphanumeric. */
  predicate ValidCourseNumber(s: string)
  {
    5 <= |s| <= 8 && forall i :: 0 <= i < |s| ==> IsAlnum(s[i])
  }

  /** `isValidCourseNumber`: the length test, then a scan that stops at the first bad character. */
  method IsValidCourseNumber(courseNum: string) returns (ok: bool)
    ensures ok == ValidCourseNumber(courseNum)
  {
    if |courseNum| < 5 || |courseNum| > 8 {
      return false;
    }
    var i := 0;
    while i < |courseNum|
      invariant 0 <= i <= |courseNum|
      invariant forall k :: 0 <= k < i ==> IsAlnum(courseNum[k])
    {
      if !IsAlnum(courseNum[i]) {
        return false;
      }
      i := i + 1;
    }
    return true;
  }

  // ---------------------------------------------------------------------------
  // split
  // ---------------------------------------------------------------------------

  /** Each field trimmed. */
  function TrimAll(fs: seq<string>): (r: seq<string>)
    ensures |r| == |fs|
    ensures forall i :: 0 <= i < |fs| ==> r[i] == Trim(fs[i])
  {
    if |fs| == 0 then [] else TrimAll(fs[..|fs| - 1]) + [Trim(fs[|fs| - 1])]
  }

  /** The tokens of the trimming `split`: trimmed fields, empty ones dropped. */
  function TrimmedTokens(s: string, delim: char): seq<string>
  {
    NonEmpty(TrimAll(Fields(s, delim)))
  }

  /** Every token is non-empty, already trimmed and free of the delimiter. */
  lemma TrimmedTokensShape(s: string, delim: char)
    ensures forall t :: t in TrimmedTokens(s, delim) ==> t != "" && Trim(t) == t && delim !in t
  {
    var fs := Fields(s, delim);
    FieldsHaveNoDelimiter(s, delim);
    NonEmptyMembers(TrimAll(fs));
    forall t | t in TrimmedTokens(s, delim)
      ensures t != "" && Trim(t) == t && delim !in t
    {
      var i :| 0 <= i < |TrimAll(fs)| && TrimAll(fs)[i] == t;
      TrimIdempotent(fs[i]);
      if delim in t {
        TrimKeepsCharacters(fs[i], delim);
      }
    }
  }

  /** A line with one delimiter and two non-blank fields gives those two fields, trimmed. */
  lemma TrimmedTwoFields(a: string, b: string, delim: char)
    requires delim !in a && delim !in b
    requires Trim(a) != "" && Trim(b) != ""
    ensures TrimmedTokens(a + [delim] + b, delim) == [Trim(a), Trim(b)]
  {
    var fs := Fields(a + [delim] + b, delim);
    assert fs == [a, b] by { TwoFields(a, b, delim); }
    var ts := TrimAll(fs);
    assert ts == [Trim(a), Trim(b)];
    assert NonEmpty(ts) == ts by { NonEmptyOfNonEmpty(ts); }
  }

  /** `split` of this variant: each field is trimmed and kept when it is not empty. */
  method SplitTrimmed(str: string, delimiter: char) returns (tokens: seq<string>)
    ensures tokens == TrimmedTokens(str, delimiter)
  {
    tokens := [];
    var token := "";
    ghost var done: seq<string> := [];
    var i := 0;
    while i < |str|
      invariant 0 <= i <= |str|
      invariant Fields(str[..i], delimiter) == done + [token]
      invariant tokens == NonEmpty(TrimAll(done))
    {
      FieldsStep(str, i, delimiter);
      if str[i] == delimiter {
        var trimmed := Trim(token);
        if trimmed != "" {
          tokens := tokens + [trimmed];
        }
        assert (done + [token])[..|done|] == done;
        assert TrimAll(done + [token]) == TrimAll(done) + [trimmed];
        done := done + [token];
        token := "";
      } else {
        token := token + [str[i]];
      }
      i := i + 1;
    }
    assert str[..|str|] == str;
    assert (done + [token])[..|done|] == done;
    assert TrimAll(done + [token]) == TrimAll(done) + [Trim(token)];
    var trimmed := Trim(token);
    if trimmed != "" {
      tokens := tokens + [trimmed];
    }
  }

  // ---------------------------------------------------------------------------
  // One line of loadCoursesFromFile
  // ---------------------------------------------------------------------------

  /** The prerequisite tokens that survive: trimmed, non-empty and valid, in order. */
  function KeptPrerequisites(ts: seq<string>): (r: seq<string>)
    ensures forall i :: 0 <= i < |r| ==> ValidCourseNumber(r[i]) && r[i] in TrimAll(ts)
    ensures forall i :: 0 <= i < |ts| && ValidCourseNumber(Trim(ts[i])) ==> Trim(ts[i]) in r
  {
    if |ts| == 0 then []
    else
      var init, last := ts[..|ts| - 1], Trim(ts[|ts| - 1]);
      var rest := KeptPrerequisites(init);
      assert TrimAll(ts) == TrimAll(init) + [last];
      if last != "" && ValidCourseNumber(last) then rest + [last] else rest
  }

  /** A course this variant stores. */
  predicate WellFormed(c: Course)
  {
    && ValidCourseNumber(c.number)
    && c.title != "" && Trim(c.title) == c.title && ',' !in c.title
    && forall i :: 0 <= i < |c.prerequisites| ==> ValidCourseNumber(c.prerequisites[i])
  }

  /**
   * What one line of the file contributes: nothing when it is blank, has fewer than
   * two tokens or an invalid number; otherwise the course made of the trimmed
   * number, the trimmed title and the valid prerequisites.
   */
  function ParseLine(line: string): (r: Option<Course>)
    ensures r.Some? ==> WellFormed(r.value)
  {
    var trimmed := Trim(line);
    if trimmed == "" then None
    else
      var tokens := TrimmedTokens(trimmed, ',');
      if |tokens| < 2 then None
      else
        var number := Trim(tokens[0]);
        var title := Trim(tokens[1]);
        if !ValidCourseNumber(number) then None
        else
          TrimmedTokensShape(trimmed, ',');
          assert tokens[1] in tokens;
          Some(Course(number, title, KeptPrerequisites(tokens[2..])))
  }

  /** The title of an accepted line is its trimmed second field, and the line was not blank. */
  lemma ParseLineFields(line: string)
    requires ParseLine(line).Some?
    ensures Trim(line) != ""
    ensures var tokens := TrimmedTokens(Trim(line), ',');
      |tokens| >= 2 && ParseLine(line).value.number == tokens[0] && ParseLine(line).value.title == tokens[1]
  {
    var tokens := TrimmedTokens(Trim(line), ',');
    TrimmedTokensShape(Trim(line), ',');
    assert tokens[0] in tokens && tokens[1] in tokens;
  }

  /** The loop over `tokens[2..]`: trim each, keep it when it is non-empty and valid. */
  method CollectPrerequisites(tokens: seq<string>) returns (prerequisites: seq<string>)
    ensures prerequisites == KeptPrerequisites(tokens)
  {
    prerequisites := [];
    var i := 0;
    while i < |tokens|
      invariant 0 <= i <= |tokens|
      invariant prerequisites == KeptPrerequisites(tokens[..i])
    {
      assert tokens[..i + 1][..i] == tokens[..i];
      var prereq := Trim(tokens[i]);
      if prereq != "" {
        var ok := IsValidCourseNumber(prereq);
        if ok {
          prerequisites := prerequisites + [prereq];
        }
      }
      i := i + 1;
    }
    assert tokens[..|tokens|] == tokens;
  }

  /** The body of the `while (std::getline(file, line))` loop, up to building the course. */
  method ParseCourseLine(line: string) returns (course: Option<Course>)
    ensures course == ParseLine(line)
  {
    var trimmed := Trim(line);
    if trimmed == "" {
      return None;
    }
    var tokens := SplitTrimmed(trimmed, ',');
    if |tokens| < 2 {
      return None;
    }
    var courseNumber := Trim(tokens[0]);
    var courseTitle := Trim(tokens[1]);
    var valid := IsValidCourseNumber(courseNumber);
    if !valid {
      return None;
    }
    var prerequisites := CollectPrerequisites(tokens[2..]);
    return Some(Course(courseNumber, courseTitle, prerequisites));
  }

  /** Every course stored from a file has a valid number, a trimmed title and valid prerequisites. */
  lemma AcceptedWellFormed(lines: seq<string>)
    ensures forall i :: 0 <= i < |Accepted(lines, ParseLine)| ==> WellFormed(Accepted(lines, ParseLine)[i])
  {
    var cs := Accepted(lines, ParseLine);
    AcceptedComeFromLines(lines, ParseLine);
    forall i | 0 <= i < |cs| ensures WellFormed(cs[i]) {
      assert cs[i] in cs;
    }
  }

  // ---------------------------------------------------------------------------
  // The catalog
  // ---------------------------------------------------------------------------

  /** `courses` and `courseMap` of `main`, with the three functions that use them. */
  class Catalog {
    var courses: seq<Course>
    var courseMap: map<string, Course>

    /** The map is the last-wins index of the vector, and every stored course is well formed. */
    ghost predicate Valid()
      reads this
    {
      && courseMap == Index(courses)
      && forall i :: 0 <= i < |courses| ==> WellFormed(courses[i])
    }

    constructor ()
      ensures Valid() && courses == [] && courseMap == map[]
    {
      courses := [];
      courseMap := map[];
    }

    /**
     * `loadCoursesFromFile`; `None` is a file that could not be opened. After a
     * successful open both containers are rebuilt from the file, and the result
     * says whether any course was accepted.
     */
    method Load(lines: Option<seq<string>>) returns (ok: bool)
      requires Valid()
      modifies this
      ensures Valid()
      ensures lines.None? ==> !ok && courses == old(courses) && courseMap == old(courseMap)
      ensures lines.Some? ==> courses == Accepted(lines.value, ParseLine) && ok == (courses != [])
      ensures lines.Some? && !ok ==> courses == [] && courseMap == map[]
    {
      if lines.None? {
        return false;
      }
      courses := [];
      courseMap := map[];
      var file := lines.value;
      var i := 0;
      while i < |file|
        invariant 0 <= i <= |file|
        invariant courses == Accepted(file[..i], ParseLine)
        invariant courseMap == Index(courses)
      {
        var course := ParseCourseLine(file[i]);
        AcceptedStep(file, i, ParseLine);
        if course.Some? {
          IndexStep(courses, course.value);
          courses := courses + [course.value];
          courseMap := courseMap[course.value.number := course.value];
        }
        i := i + 1;
      }
      assert file[..|file|] == file;
      AcceptedWellFormed(file);
      ok := courses != [];
    }

    /** `printCourseList`: a sorted copy of the vector, or nothing loaded. */
    method ListCourses() returns (r: Listing)
      ensures courses == [] ==> r == Listing.NothingLoaded
      ensures courses != [] ==> r.Listed? && SortedByNumber(r.entries) && multiset(r.entries) == multiset(courses)
    {
      r := SortedListing(courses);
    }

    /**
     * `printCourseInfo`: the query is trimmed and upper-cased and compared with each
     * upper-cased key, in the map's unspecified iteration order; the first key that
     * matches is reported, with each prerequisite looked up exactly.
     */
    method CourseInfo(courseNumber: string) returns (r: Info)
      ensures courseMap == map[] ==> r == Info.NothingLoaded
      ensures courseMap != map[] && (forall k :: k in courseMap ==> Upper(k) != Upper(Trim(courseNumber))) ==>
        r == NotFound(courseNumber)
      ensures courseMap != map[] && (exists k :: k in courseMap && Upper(k) == Upper(Trim(courseNumber))) ==>
        exists k :: k in courseMap && Upper(k) == Upper(Trim(courseNumber)) && r == Describe(courseMap, courseMap[k])
    {
      if courseMap == map[] {
        return Info.NothingLoaded;
      }
      var upperCourseNumber := Upper(Trim(courseNumber));
      var remaining := courseMap.Keys;
      var it: Option<string> := None;
      while remaining != {}
        invariant remaining <= courseMap.Keys
        invariant it.None?
        invariant forall k :: k in courseMap && k !in remaining ==> Upper(k) != upperCourseNumber
        decreases remaining
      {
        var key :| key in remaining;
        if Upper(key) == upperCourseNumber {
          it := Some(key);
          break;
        }
        remaining := remaining - {key};
      }
      if it.None? {
        return NotFound(courseNumber);
      }
      var course := courseMap[it.value];
      var resolved := ResolvePrerequisites(courseMap, course.prerequisites);
      assert resolved == Resolve(courseMap, course.prerequisites);
      return Found(course.number, course.title, resolved);
    }
  }
}
