/**
 * Enhancement_One/Original_ProjectTwo.cpp (and its byte-identical copy
 * Enhancement_Two/Original_ProjectTwo.cpp): no trimming and no validation; the
 * catalog is one vector, and every lookup is a linear scan of it.
 */
module Original {
  import opened Wrappers
  import opened Text
  import opened Courses

  /** A course this variant stores: every field is a non-empty token free of commas. */
  predicate WellFormed(c: Course)
  {
    && c.number != "" && ',' !in c.number
    && c.title != "" && ',' !in c.title
    && forall i :: 0 <= i < |c.prerequisites| ==> c.prerequisites[i] != "" && ',' !in c.prerequisites[i]
  }

  /**
   * What one line of the file contributes: nothing when it is empty or has fewer
   * than two tokens; otherwise the course made of the tokens, unvalidated.
   */
  function ParseLine(line: string): (r: Option<Course>)
    ensures r.Some? ==> WellFormed(r.value)
  {
    if line == "" then None
    else
      var tokens := NonEmpty(Fields(line, ','));
      if |tokens| < 2 then None
      else
        TokensHaveNoDelimiter(line, ',');
        assert tokens[0] in tokens && tokens[1] in tokens;
        assert forall t :: t in tokens[2..] ==> t in tokens;
        NonEmptyMembers(tokens[2..]);
        Some(Course(tokens[0], tokens[1], NonEmpty(tokens[2..])))
  }

  /** The prerequisites are all the tokens after the title: the emptiness test never drops one. */
  lemma ParseLineKeepsAllTokens(line: string)
    requires line != "" && |NonEmpty(Fields(line, ','))| >= 2
    ensures var tokens := NonEmpty(Fields(line, ','));
      ParseLine(line) == Some(Course(tokens[0], tokens[1], tokens[2..]))
  {
    NonEmptyOfNonEmpty(NonEmpty(Fields(line, ','))[2..]);
  }

  /** The prerequisite loop: every token after the title that is not empty. */
  method CollectPrerequisites(tokens: seq<string>) returns (prerequisites: seq<string>)
    ensures prerequisites == NonEmpty(tokens)
  {
    prerequisites := [];
    var i := 0;
    while i < |tokens|
      invariant 0 <= i <= |tokens|
      invariant prerequisites == NonEmpty(tokens[..i])
    {
      assert tokens[..i + 1][..i] == tokens[..i];
      if tokens[i] != "" {
        prerequisites := prerequisites + [tokens[i]];
      }
      i := i + 1;
    }
    assert tokens[..|tokens|] == tokens;
  }

  /** The body of the `while (std::getline(file, line))` loop, up to building the course. */
  method ParseCourseLine(line: string) returns (course: Option<Course>)
    ensures course == ParseLine(line)
  {
    if line == "" {
      return None;
    }
    var tokens := Split(line, ',');
    if |tokens| < 2 {
      return None;
    }
    var courseNumber := tokens[0];
    var courseTitle := tokens[1];
    var prerequisites := CollectPrerequisites(tokens[2..]);
    return Some(Course(courseNumber, courseTitle, prerequisites));
  }

  // ---------------------------------------------------------------------------
  // The linear scans of printCourseInfo
  // ---------------------------------------------------------------------------

  /** The position of the first course whose upper-cased number is `key`, or |cs|. */
  function FirstCaseInsensitive(cs: seq<Course>, key: string): (k: nat)
    ensures k <= |cs|
    ensures k < |cs| ==> Upper(cs[k].number) == key
    ensures forall j :: 0 <= j < k ==> Upper(cs[j].number) != key
  {
    if |cs| == 0 then 0
    else if Upper(cs[0].number) == key then 0
    else 1 + FirstCaseInsensitive(cs[1..], key)
  }

  /** The position of the first course whose number is exactly `number`, or |cs|. */
  function FirstWithNumber(cs: seq<Course>, number: string): (k: nat)
    ensures k <= |cs|
    ensures k < |cs| ==> cs[k].number == number
    ensures forall j :: 0 <= j < k ==> cs[j].number != number
  {
    if |cs| == 0 then 0
    else if cs[0].number == number then 0
    else 1 + FirstWithNumber(cs[1..], number)
  }

  /** The title the inner scan settles on: the first exact match's, or "Unknown". */
  function ScanTitle(cs: seq<Course>, code: string): (r: string)
    ensures (forall k :: 0 <= k < |cs| ==> cs[k].number != code) ==> r == UNKNOWN
    ensures (exists k :: 0 <= k < |cs| && cs[k].number == code) ==>
      exists k :: 0 <= k < |cs| && cs[k].number == code && r == cs[k].title &&
        forall j :: 0 <= j < k ==> cs[j].number != code
  {
    var k := FirstWithNumber(cs, code);
    if k < |cs| then cs[k].title else UNKNOWN
  }

  /** What `printCourseInfo` reports for a query: the first case-insensitive match wins. */
  function Lookup(cs: seq<Course>, query: string): (r: Info)
    ensures r.NothingLoaded? <==> cs == []
    ensures !r.InvalidFormat?
    ensures r.NotFound? ==> r.query == query
    ensures r.Found? ==>
      exists k :: 0 <= k < |cs| && Upper(cs[k].number) == Upper(query) &&
        (forall j :: 0 <= j < k ==> Upper(cs[j].number) != Upper(query)) &&
        r.number == cs[k].number && r.title == cs[k].title &&
        |r.prerequisites| == |cs[k].prerequisites| &&
        forall i :: 0 <= i < |r.prerequisites| ==>
          r.prerequisites[i] == Resolved(cs[k].prerequisites[i], ScanTitle(cs, cs[k].prerequisites[i]))
  {
    if cs == [] then Info.NothingLoaded
    else
      var k := FirstCaseInsensitive(cs, Upper(query));
      if k == |cs| then NotFound(query)
      else
        var c := cs[k];
        Found(c.number, c.title,
          seq(|c.prerequisites|, i requires 0 <= i < |c.prerequisites| =>
            Resolved(c.prerequisites[i], ScanTitle(cs, c.prerequisites[i]))))
  }

  /** Queries that differ only in letter case get the same answer (an error echoes the query). */
  lemma LookupIgnoresCase(cs: seq<Course>, q1: string, q2: string)
    requires Upper(q1) == Upper(q2)
    ensures Lookup(cs, q1) == Lookup(cs, q2) || (Lookup(cs, q1).NotFound? && Lookup(cs, q2).NotFound?)
  {
  }

  /** A query is only "not found" when no course matches it, ignoring case. */
  lemma LookupNotFound(cs: seq<Course>, query: string)
    requires cs != []
    ensures Lookup(cs, query).NotFound? <==> forall j :: 0 <= j < |cs| ==> Upper(cs[j].number) != Upper(query)
  {
  }

  /**
   * The prerequisite loop of `printCourseInfo`: for each prerequisite in stored
   * order, a scan of the whole vector for the first course with exactly that number.
   */
  method ScanPrerequisites(courses: seq<Course>, prerequisites: seq<string>) returns (resolved: seq<Resolved>)
    ensures |resolved| == |prerequisites|
    ensures forall k :: 0 <= k < |resolved| ==>
      resolved[k] == Resolved(prerequisites[k], ScanTitle(courses, prerequisites[k]))
  {
    resolved := [];
    var i := 0;
    while i < |prerequisites|
      invariant 0 <= i <= |prerequisites|
      invariant |resolved| == i
      invariant forall k :: 0 <= k < i ==>
        resolved[k] == Resolved(prerequisites[k], ScanTitle(courses, prerequisites[k]))
    {
      var prereqTitle := UNKNOWN;
      var j := 0;
      while j < |courses|
        invariant 0 <= j <= |courses|
        invariant prereqTitle == UNKNOWN
        invariant forall l :: 0 <= l < j ==> courses[l].number != prerequisites[i]
      {
        if courses[j].number == prerequisites[i] {
          prereqTitle := courses[j].title;
          break;
        }
        j := j + 1;
      }
      assert prereqTitle == ScanTitle(courses, prerequisites[i]);
      resolved := resolved + [Resolved(prerequisites[i], prereqTitle)];
      i := i + 1;
    }
  }

  /** `courses` of `main`, with the three functions that use it. */
  class Catalog {
    var courses: seq<Course>

    constructor ()
      ensures courses == []
    {
      courses := [];
    }

    /**
     * `loadCoursesFromFile`; `None` is a file that could not be opened. After a
     * successful open the vector is rebuilt from the file and the result is true.
     */
    method Load(lines: Option<seq<string>>) returns (ok: bool)
      modifies this
      ensures ok == lines.Some?
      ensures lines.None? ==> courses == old(courses)
      ensures lines.Some? ==> courses == Accepted(lines.value, ParseLine)
    {
      if lines.None? {
        return false;
      }
      courses := [];
      var file := lines.value;
      var i := 0;
      while i < |file|
        invariant 0 <= i <= |file|
        invariant courses == Accepted(file[..i], ParseLine)
      {
        var course := ParseCourseLine(file[i]);
        AcceptedStep(file, i, ParseLine);
        if course.Some? {
          courses := courses + [course.value];
        }
        i := i + 1;
      }
      assert file[..|file|] == file;
      return true;
    }

    /** `printCourseList`: a sorted copy of the vector, or nothing loaded. */
    method ListCourses() returns (r: Listing)
      ensures courses == [] ==> r == Listing.NothingLoaded
      ensures courses != [] ==> r.Listed? && SortedByNumber(r.entries) && multiset(r.entries) == multiset(courses)
    {
      r := SortedListing(courses);
    }

    /**
     * `printCourseInfo`: scan for the first course whose upper-cased number equals
     * the upper-cased query; for each of its prerequisites, scan for the first
     * course with exactly that number.
     */
    method CourseInfo(courseNumber: string) returns (r: Info)
      ensures r == Lookup(courses, courseNumber)
    {
      if courses == [] {
        return Info.NothingLoaded;
      }
      var upperCourseNumber := Upper(courseNumber);
      var c := 0;
      while c < |courses|
        invariant 0 <= c <= |courses|
        invariant forall j :: 0 <= j < c ==> Upper(courses[j].number) != upperCourseNumber
      {
        var course := courses[c];
        if Upper(course.number) == upperCourseNumber {
          assert FirstCaseInsensitive(courses, upperCourseNumber) == c;
          var resolved := ScanPrerequisites(courses, course.prerequisites);
          assert resolved == Lookup(courses, courseNumber).prerequisites;
          return Found(course.number, course.title, resolved);
        }
        c := c + 1;
      }
      return NotFound(courseNumber);
    }
  }
}
