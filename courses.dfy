/**
 * The course record and what every variant builds from a file of lines: the
 * accepted courses in file order, the index from course number to course (a
 * later line with the same number overwrites the earlier one), the sorted
 * listing and the resolution of prerequisite titles.
 */
module Courses {
  import opened Wrappers
  import opened Text

  /** `class Course`: number, title and the prerequisite numbers in file order. */
  datatype Course = Course(number: string, title: string, prerequisites: seq<string>)

  /** One rendered prerequisite: its number and the title found for it. */
  datatype Resolved = Resolved(number: string, title: string)

  /**
   * What `printCourseInfo` reports. An empty `prerequisites` list is the case the
   * program renders as "None".
   */
  datatype Info =
    | NothingLoaded
    | InvalidFormat
    | NotFound(query: string)
    | Found(number: string, title: string, prerequisites: seq<Resolved>)

  /** What `printCourseList` reports: nothing loaded, or the courses in printing order. */
  datatype Listing = NothingLoaded | Listed(entries: seq<Course>)

  /** The title shown for a prerequisite that no loaded course has. */
  const UNKNOWN: string := "Unknown"

  // ---------------------------------------------------------------------------
  // Loading: the accepted courses and the index
  // ---------------------------------------------------------------------------

  /** The courses that `parse` accepts from `lines`, in file order, repeats included. */
  function Accepted(lines: seq<string>, parse: string -> Option<Course>): (cs: seq<Course>)
    ensures |cs| <= |lines|
  {
    if |lines| == 0 then []
    else
      var rest := Accepted(lines[..|lines| - 1], parse);
      match parse(lines[|lines| - 1])
      case None => rest
      case Some(c) => rest + [c]
  }

  /** Reading one more line adds its course, if it has one, at the end. */
  lemma AcceptedStep(lines: seq<string>, i: nat, parse: string -> Option<Course>)
    requires i < |lines|
    ensures parse(lines[i]).None? ==> Accepted(lines[..i + 1], parse) == Accepted(lines[..i], parse)
    ensures parse(lines[i]).Some? ==> Accepted(lines[..i + 1], parse) == Accepted(lines[..i], parse) + [parse(lines[i]).value]
  {
    assert lines[..i + 1][..i] == lines[..i];
  }

  /** Every accepted course is what some line of the file parses to. */
  lemma {:induction false} AcceptedComeFromLines(lines: seq<string>, parse: string -> Option<Course>)
    ensures forall c :: c in Accepted(lines, parse) ==> exists l :: l in lines && parse(l) == Some(c)
  {
    if |lines| > 0 {
      var init := lines[..|lines| - 1];
      AcceptedComeFromLines(init, parse);
      assert forall l :: l in init ==> l in lines;
      assert lines[|lines| - 1] in lines;
    }
  }

  /** Loading two pieces of a file one after the other accepts what loading the whole does. */
  lemma {:induction false} AcceptedAppend(a: seq<string>, b: seq<string>, parse: string -> Option<Course>)
    ensures Accepted(a + b, parse) == Accepted(a, parse) + Accepted(b, parse)
    decreases |b|
  {
    if |b| == 0 {
      assert a + b == a;
    } else {
      var b' := b[..|b| - 1];
      AcceptedAppend(a, b', parse);
      assert (a + b)[..|a + b| - 1] == a + b';
      assert (a + b)[|a + b| - 1] == b[|b| - 1];
    }
  }

  /** The numbers of a sequence of courses. */
  function Numbers(cs: seq<Course>): set<string>
  {
    set c | c in cs :: c.number
  }

  /**
   * The map that `courseMap[courseNumber] = course` builds when it is run over `cs`
   * in order: insert or overwrite, so the last course with a number wins.
   */
  function Index(cs: seq<Course>): (m: map<string, Course>)
    ensures forall n :: n in m ==> m[n].number == n
  {
    if |cs| == 0 then map[]
    else
      var last := cs[|cs| - 1];
      Index(cs[..|cs| - 1])[last.number := last]
  }

  /** Appending a course inserts it into the index or overwrites the entry of its number. */
  lemma IndexStep(cs: seq<Course>, c: Course)
    ensures Index(cs + [c]) == Index(cs)[c.number := c]
  {
    assert (cs + [c])[..|cs|] == cs;
  }

  /** No two courses share a number. */
  predicate DistinctNumbers(cs: seq<Course>)
  {
    forall i, j :: 0 <= i < j < |cs| ==> cs[i].number != cs[j].number
  }

  /** The index has exactly the numbers of the courses as keys. */
  lemma {:induction false} IndexKeys(cs: seq<Course>)
    ensures Index(cs).Keys == Numbers(cs)
  {
    if |cs| > 0 {
      var init, last := cs[..|cs| - 1], cs[|cs| - 1];
      IndexKeys(init);
      assert cs == init + [last];
      assert forall c :: c in cs <==> c in init || c == last;
    }
  }

  /** The index holds the last course of each number. */
  lemma {:induction false} IndexLastWins(cs: seq<Course>, j: nat)
    requires j < |cs|
    requires forall k :: j < k < |cs| ==> cs[k].number != cs[j].number
    ensures cs[j].number in Index(cs) && Index(cs)[cs[j].number] == cs[j]
  {
    if j < |cs| - 1 {
      IndexLastWins(cs[..|cs| - 1], j);
    }
  }

  /** Courses appended after `a` that do not carry number `n` leave `n`'s entry alone. */
  lemma {:induction false} IndexAppendOther(a: seq<Course>, b: seq<Course>, n: string)
    requires n !in Numbers(b)
    ensures n in Index(a + b) <==> n in Index(a)
    ensures n in Index(a) ==> Index(a + b)[n] == Index(a)[n]
    decreases |b|
  {
    if |b| == 0 {
      assert a + b == a;
    } else {
      var b' := b[..|b| - 1];
      assert forall c :: c in b' ==> c in b;
      IndexAppendOther(a, b', n);
      assert (a + b)[..|a + b| - 1] == a + b';
      assert b[|b| - 1] in b;
    }
  }

  /**
   * The file-level last-wins rule: the index built from a file maps a course
   * number to the course of the last accepted line that carries it.
   */
  lemma LastLineWins(pre: seq<string>, line: string, post: seq<string>, parse: string -> Option<Course>)
    requires parse(line).Some?
    requires forall l :: l in post && parse(l).Some? ==> parse(l).value.number != parse(line).value.number
    ensures parse(line).value.number in Index(Accepted(pre + [line] + post, parse))
    ensures Index(Accepted(pre + [line] + post, parse))[parse(line).value.number] == parse(line).value
  {
    var c := parse(line).value;
    AcceptedAppend(pre + [line], post, parse);
    assert (pre + [line])[..|pre|] == pre;
    var a := Accepted(pre + [line], parse);
    assert a == Accepted(pre, parse) + [c];
    AcceptedComeFromLines(post, parse);
    assert c.number !in Numbers(Accepted(post, parse));
    IndexAppendOther(a, Accepted(post, parse), c.number);
  }

  // ---------------------------------------------------------------------------
  // Prerequisite titles
  // ---------------------------------------------------------------------------

  /** `courseMap.find(p)`: the title of the indexed course, or "Unknown". */
  function TitleIn(m: map<string, Course>, code: string): (r: string)
    ensures code !in m ==> r == UNKNOWN
    ensures (forall n :: n in m ==> m[n].number == n) && r != UNKNOWN ==>
      exists c :: c in m.Values && c.number == code && c.title == r
  {
    assert code in m ==> m[code] in m.Values;
    if code in m then m[code].title else UNKNOWN
  }

  /** Each prerequisite paired with its title, in stored order. */
  function Resolve(m: map<string, Course>, prerequisites: seq<string>): seq<Resolved>
  {
    seq(|prerequisites|, i requires 0 <= i < |prerequisites| =>
      Resolved(prerequisites[i], TitleIn(m, prerequisites[i])))
  }

  /** The detail report of the map-based variants for a course found in `m`. */
  function Describe(m: map<string, Course>, c: Course): Info
  {
    Found(c.number, c.title, Resolve(m, c.prerequisites))
  }

  /**
   * The prerequisite loop of `printCourseInfo` in the map-based variants: one exact,
   * case-sensitive `find` per prerequisite, in stored order.
   */
  method ResolvePrerequisites(courseMap: map<string, Course>, prerequisites: seq<string>)
    returns (resolved: seq<Resolved>)
    ensures |resolved| == |prerequisites|
    ensures forall i :: 0 <= i < |prerequisites| ==>
      resolved[i].number == prerequisites[i] &&
      (prerequisites[i] in courseMap ==> resolved[i].title == courseMap[prerequisites[i]].title) &&
      (prerequisites[i] !in courseMap ==> resolved[i].title == UNKNOWN)
  {
    resolved := [];
    var i := 0;
    while i < |prerequisites|
      invariant 0 <= i <= |prerequisites|
      invariant |resolved| == i
      invariant forall k :: 0 <= k < i ==> resolved[k] == Resolved(prerequisites[k], TitleIn(courseMap, prerequisites[k]))
    {
      var p := prerequisites[i];
      var prereqTitle := if p in courseMap then courseMap[p].title else UNKNOWN;
      resolved := resolved + [Resolved(p, prereqTitle)];
      i := i + 1;
    }
  }

  // ---------------------------------------------------------------------------
  // Sorting by course number
  // ---------------------------------------------------------------------------

  /** Non-decreasing by number under `std::string`'s `<`. */
  ghost predicate SortedByNumber(s: seq<Course>)
  {
    forall i, j :: 0 <= i < j < |s| ==> !Less(s[j].number, s[i].number)
  }

  lemma {:induction false} NeighboursChain(s: seq<Course>, i: nat, j: nat)
    requires forall k :: 0 < k < |s| ==> !Less(s[k].number, s[k - 1].number)
    requires i < j < |s|
    ensures !Less(s[j].number, s[i].number)
    decreases j - i
  {
    if i + 1 < j {
      NeighboursChain(s, i, j - 1);
      NotLessTransitive(s[i].number, s[j - 1].number, s[j].number);
    }
  }

  /** A sequence whose neighbours are in order is sorted. */
  lemma NeighboursSorted(s: seq<Course>)
    requires forall k :: 0 < k < |s| ==> !Less(s[k].number, s[k - 1].number)
    ensures SortedByNumber(s)
  {
    forall i, j | 0 <= i < j < |s|
      ensures !Less(s[j].number, s[i].number)
    {
      NeighboursChain(s, i, j);
    }
  }

  /** The neighbours within `s[..hi]` are in order. */
  ghost predicate NeighboursInOrder(s: seq<Course>, hi: int)
  {
    forall k :: 0 < k < hi && k < |s| ==> !Less(s[k].number, s[k - 1].number)
  }

  /** Exchanges two adjacent elements. */
  method Swap(a: array<Course>, j: nat)
    requires 0 < j < a.Length
    modifies a
    ensures a[j - 1] == old(a[j]) && a[j] == old(a[j - 1])
    ensures forall k :: 0 <= k < a.Length && k != j && k != j - 1 ==> a[k] == old(a[k])
    ensures multiset(a[..]) == multiset(old(a[..]))
  {
    a[j - 1], a[j] := a[j], a[j - 1];
  }

  /** Moves `a[i]` left past every larger neighbour, so that `a[..i + 1]` is in order. */
  method InsertAt(a: array<Course>, i: nat)
    requires i < a.Length
    requires NeighboursInOrder(a[..], i)
    modifies a
    ensures NeighboursInOrder(a[..], i + 1)
    ensures multiset(a[..]) == multiset(old(a[..]))
  {
    var j := i;
    while j > 0 && Less(a[j].number, a[j - 1].number)
      invariant 0 <= j <= i
      invariant forall k :: 0 < k <= i && k != j ==> !Less(a[k].number, a[k - 1].number)
      invariant 0 < j < i ==> !Less(a[j + 1].number, a[j - 1].number)
      invariant multiset(a[..]) == multiset(old(a[..]))
    {
      LessAsymmetric(a[j].number, a[j - 1].number);
      Swap(a, j);
      j := j - 1;
    }
  }

  /**
   * `std::sort` by `a.courseNumber < b.courseNumber`, in place. Only order and
   * permutation are promised: the order among equal numbers is not.
   */
  method SortCourses(a: array<Course>)
    modifies a
    ensures SortedByNumber(a[..])
    ensures multiset(a[..]) == multiset(old(a[..]))
  {
    var i := 0;
    while i < a.Length
      invariant 0 <= i <= a.Length
      invariant NeighboursInOrder(a[..], i)
      invariant multiset(a[..]) == multiset(old(a[..]))
    {
      InsertAt(a, i);
      i := i + 1;
    }
    NeighboursSorted(a[..]);
  }

  /**
   * `printCourseList` in the vector-based variants: nothing loaded for an empty
   * vector, otherwise a sorted copy of it, the vector itself untouched.
   */
  method SortedListing(courses: seq<Course>) returns (r: Listing)
    ensures courses == [] <==> r == Listing.NothingLoaded
    ensures r.Listed? ==> SortedByNumber(r.entries) && multiset(r.entries) == multiset(courses)
  {
    if courses == [] {
      return Listing.NothingLoaded;
    }
    var sortedCourses := SortedCopy(courses);
    return Listed(sortedCourses);
  }

  /** A sorted copy of `s` (`std::vector<Course> sortedCourses = courses; std::sort(...)`). */
  method SortedCopy(s: seq<Course>) returns (r: seq<Course>)
    ensures SortedByNumber(r)
    ensures multiset(r) == multiset(s)
  {
    var a := new Course[|s|](i requires 0 <= i < |s| => s[i]);
    assert a[..] == s;
    SortCourses(a);
    r := a[..];
  }

  /** A sorted permutation lists every course exactly as often as the original does. */
  lemma SameCoursesSameNumbers(s: seq<Course>, r: seq<Course>)
    requires multiset(r) == multiset(s)
    ensures |r| == |s| && Numbers(r) == Numbers(s)
  {
    assert |multiset(r)| == |r| && |multiset(s)| == |s|;
    forall c ensures c in r <==> c in s {
      assert c in r <==> c in multiset(r);
      assert c in s <==> c in multiset(s);
    }
  }
}
