/**
 * Enhancement_Two/Enhanced_ABCU_Advising_Program.cpp (and its byte-identical copy
 * milestone_3_sources/milestone_3_sources/Enhanced_ABCU_Advising_Program.cpp):
 * fields are not trimmed, a course number is four upper-case letters and three
 * digits, and the catalog keeps a hash map beside a vector that is sorted once, at
 * the end of loading.
 */
module EnhancedTwo {
  import opened Wrappers
  import opened Text
  import opened Courses

  /** `isValidCourseNumber`: the whole string matches `^[A-Z]{4}[0-9]{3}$`. */
  predicate IsValidCourseNumber(s: string)
    ensures IsValidCourseNumber(s) ==> forall i :: 0 <= i < |s| ==> IsAlnum(s[i]) && !IsLower(s[i])
  {
    && |s| == 7
    && (forall i :: 0 <= i < 4 ==> IsUpper(s[i]))
    && (forall i :: 4 <= i < 7 ==> IsDigit(s[i]))
  }

  /** A valid number is already upper case, so an upper-cased query can equal it exactly. */
  lemma ValidNumberIsUpperCase(s: string)
    requires IsValidCourseNumber(s)
    ensures Upper(s) == s
  {
    assert forall i :: 0 <= i < |s| ==> !IsLower(s[i]);
  }

  /** The prerequisite tokens that are non-empty and valid, in order; the others are dropped silently. */
  function KeptPrerequisites(ts: seq<string>): (r: seq<string>)
    ensures forall i :: 0 <= i < |r| ==> IsValidCourseNumber(r[i]) && r[i] in ts
    ensures forall i :: 0 <= i < |ts| && IsValidCourseNumber(ts[i]) ==> ts[i] in r
  {
    if |ts| == 0 then []
    else
      var init, last := ts[..|ts| - 1], ts[|ts| - 1];
      var rest := KeptPrerequisites(init);
      assert forall t :: t in init ==> t in ts;
      assert forall i :: 0 <= i < |init| ==> init[i] == ts[i];
      if last != "" && IsValidCourseNumber(last) then rest + [last] else rest
  }

  /** A course this variant stores. */
  predicate WellFormed(c: Course)
  {
    && IsValidCourseNumber(c.number)
    && c.title != "" && ',' !in c.title
    && forall i :: 0 <= i < |c.prerequisites| ==> IsValidCourseNumber(c.prerequisites[i])
  }

  /**
   * What one line of the file contributes: nothing when it is empty, has fewer than
   * two tokens or an invalid number; otherwise the course made of the first token,
   * the second token as it stands, and the valid prerequisite tokens.
   */
  function ParseLine(line: string): (r: Option<Course>)
    ensures r.Some? ==> WellFormed(r.value)
  {
    if line == "" then None
    else
      var tokens := NonEmpty(Fields(line, ','));
      if |tokens| < 2 then None
      else if !IsValidCourseNumber(tokens[0]) then None
      else
        TokensHaveNoDelimiter(line, ',');
        assert tokens[1] in tokens;
        Some(Course(tokens[0], tokens[1], KeptPrerequisites(tokens[2..])))
  }

  /** The loop over `tokens[2..]`: keep a token when it is non-empty and valid. */
  method CollectPrerequisites(tokens: seq<string>) returns (prerequisites: seq<string>)
    ensures prerequisites == KeptPrerequisites(tokens)
  {
    prerequisites := [];
    var i := 0;
    while i < |tokens|
      invariant 0 <= i <= |tokens|
      invariant prerequisites == KeptPrerequisites(tokens[..i])
    {
      assert tokens[..i + 1][..i] == tokens[..i];
      if tokens[i] != "" && IsValidCourseNumber(tokens[i]) {
        prerequisites := prerequisites + [tokens[i]];
      }
      i := i + 1;
    }
    assert tokens[..|tokens|] == tokens;
  }

  /** The body of the `while (std::getline(file, line))` loop, up to building the course. */
  method ParseCourseLine(line: string) returns (course: Option<Course>)
    ensures course == ParseLine(line)
  {
    if line == "" {
      return None;
    }
    var tokens := Split(line, ',');
    if |tokens| < 2 {
      return None;
    }
    var courseNumber := tokens[0];
    if !IsValidCourseNumber(courseNumber) {
      return None;
    }
    var courseTitle := tokens[1];
    var prerequisites := CollectPrerequisites(tokens[2..]);
    return Some(Course(courseNumber, courseTitle, prerequisites));
  }

  /** Every course stored from a file has a valid number, a title and valid prerequisites. */
  lemma AcceptedWellFormed(lines: seq<string>)
    ensures forall i :: 0 <= i < |Accepted(lines, ParseLine)| ==> WellFormed(Accepted(lines, ParseLine)[i])
  {
    var cs := Accepted(lines, ParseLine);
    AcceptedComeFromLines(lines, ParseLine);
    forall i | 0 <= i < |cs| ensures WellFormed(cs[i]) {
      assert cs[i] in cs;
    }
  }

  /**
   * What `printCourseInfo` reports: nothing loaded for an empty map; otherwise the
   * query is upper-cased (not trimmed), rejected if it is not a valid number, and
   * looked up exactly.
   */
  function Lookup(m: map<string, Course>, query: string): (r: Info)
    ensures r.NothingLoaded? <==> m == map[]
    ensures r.InvalidFormat? <==> m != map[] && !IsValidCourseNumber(Upper(query))
    ensures r.NotFound? <==> m != map[] && IsValidCourseNumber(Upper(query)) && Upper(query) !in m
    ensures r.NotFound? ==> r.query == query
    ensures r.Found? ==> Upper(query) in m && r == Describe(m, m[Upper(query)])
  {
    if m == map[] then Info.NothingLoaded
    else
      var key := Upper(query);
      if !IsValidCourseNumber(key) then InvalidFormat
      else if key !in m then NotFound(query)
      else Describe(m, m[key])
  }

  /** Queries that differ only in letter case get the same answer (an error echoes the query). */
  lemma LookupIgnoresCase(m: map<string, Course>, q1: string, q2: string)
    requires Upper(q1) == Upper(q2)
    ensures Lookup(m, q1) == Lookup(m, q2) || (Lookup(m, q1).NotFound? && Lookup(m, q2).NotFound?)
  {
  }

  /** A course is only ever reported for a well-formed query that is a key of the map. */
  lemma LookupFoundIsKey(m: map<string, Course>, query: string)
    requires forall n :: n in m ==> m[n].number == n
    requires Lookup(m, query).Found?
    ensures IsValidCourseNumber(Upper(query)) && Upper(query) in m
    ensures Lookup(m, query).number == Upper(query)
  {
  }

  /**
   * Loading a file and then asking for a course number, in any letter case, reports
   * the course of the last line that carries that number.
   */
  lemma FindAfterLoad(pre: seq<string>, line: string, post: seq<string>, query: string)
    requires ParseLine(line).Some?
    requires Upper(query) == ParseLine(line).value.number
    requires forall l :: l in post && ParseLine(l).Some? ==> ParseLine(l).value.number != ParseLine(line).value.number
    ensures var m := Index(Accepted(pre + [line] + post, ParseLine));
      Lookup(m, query) == Describe(m, ParseLine(line).value)
  {
    LastLineWins(pre, line, post, ParseLine);
  }

  /** `courseMap` and `sortedCourses` of `main`, with the three functions that use them. */
  class Catalog {
    var courseMap: map<string, Course>
    var sortedCourses: seq<Course>
    /** The accepted courses in file order, before sorting. */
    ghost var accepted: seq<Course>

    /** The map is the last-wins index of the accepted courses; the vector is them, sorted. */
    ghost predicate Valid()
      reads this
    {
      && courseMap == Index(accepted)
      && SortedByNumber(sortedCourses)
      && multiset(sortedCourses) == multiset(accepted)
      && forall i :: 0 <= i < |accepted| ==> WellFormed(accepted[i])
    }

    constructor ()
      ensures Valid() && courseMap == map[] && sortedCourses == [] && accepted == []
    {
      courseMap := map[];
      sortedCourses := [];
      accepted := [];
    }

    /**
     * `loadCoursesFromFile`; `None` is a file that could not be opened. After a
     * successful open both containers are rebuilt from the file and the result is
     * true, however many courses were accepted.
     */
    method Load(lines: Option<seq<string>>) returns (ok: bool)
      requires Valid()
      modifies this
      ensures Valid()
      ensures ok == lines.Some?
      ensures lines.None? ==> courseMap == old(courseMap) && sortedCourses == old(sortedCourses) && accepted == old(accepted)
      ensures lines.Some? ==> accepted == Accepted(lines.value, ParseLine)
      ensures lines.Some? ==> courseMap == Index(Accepted(lines.value, ParseLine))
      ensures lines.Some? ==> SortedByNumber(sortedCourses) && multiset(sortedCourses) == multiset(Accepted(lines.value, ParseLine))
    {
      if lines.None? {
        return false;
      }
      courseMap := map[];
      sortedCourses := [];
      accepted := [];
      var file := lines.value;
      var i := 0;
      while i < |file|
        invariant 0 <= i <= |file|
        invariant accepted == Accepted(file[..i], ParseLine)
        invariant courseMap == Index(accepted)
        invariant sortedCourses == accepted
      {
        var course := ParseCourseLine(file[i]);
        AcceptedStep(file, i, ParseLine);
        if course.Some? {
          IndexStep(accepted, course.value);
          courseMap := courseMap[course.value.number := course.value];
          sortedCourses := sortedCourses + [course.value];
          accepted := accepted + [course.value];
        }
        i := i + 1;
      }
      assert file[..|file|] == file;
      var sorted := SortedCopy(sortedCourses);
      sortedCourses := sorted;
      AcceptedWellFormed(file);
      return true;
    }

    /** `printCourseList`: the vector as stored, which is sorted, or nothing loaded. */
    method ListCourses() returns (r: Listing)
      requires Valid()
      ensures sortedCourses == [] <==> r == Listing.NothingLoaded
      ensures r.Listed? ==> r.entries == sortedCourses
      ensures r.Listed? ==> SortedByNumber(r.entries) && multiset(r.entries) == multiset(accepted)
    {
      if sortedCourses == [] {
        return Listing.NothingLoaded;
      }
      return Listed(sortedCourses);
    }

    /** `printCourseInfo`, with its prerequisite loop. */
    method CourseInfo(courseNumber: string) returns (r: Info)
      ensures r == Lookup(courseMap, courseNumber)
    {
      if courseMap == map[] {
        return Info.NothingLoaded;
      }
      var upperCourseNumber := Upper(courseNumber);
      if !IsValidCourseNumber(upperCourseNumber) {
        return InvalidFormat;
      }
      if upperCourseNumber !in courseMap {
        return NotFound(courseNumber);
      }
      var course := courseMap[upperCourseNumber];
      var resolved := ResolvePrerequisites(courseMap, course.prerequisites);
      assert resolved == Resolve(courseMap, course.prerequisites);
      return Found(course.number, course.title, resolved);
    }
  }
}
