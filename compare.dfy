/** How the three variants' rules and answers relate to one another. */
module Compare {
  import opened Wrappers
  import opened Text
  import opened Courses
  import EnhancedOne
  import EnhancedTwo
  import Original

  /** Every number of the four-letters-three-digits rule also passes the 5-to-8-alphanumeric rule. */
  lemma PatternNumberIsAlnumNumber(s: string)
    requires EnhancedTwo.IsValidCourseNumber(s)
    ensures EnhancedOne.ValidCourseNumber(s)
  {
  }

  /** The alphanumeric rule is strictly looser: it accepts lower case and other lengths. */
  lemma AlnumRuleIsLooser()
    ensures EnhancedOne.ValidCourseNumber("csci101") && !EnhancedTwo.IsValidCourseNumber("csci101")
    ensures EnhancedOne.ValidCourseNumber("CS1010") && !EnhancedTwo.IsValidCourseNumber("CS1010")
  {
    assert !IsUpper("csci101"[0]);
  }

  /** A field after ", " in a comma-separated line: what follows the comma, blank included. */
  lemma AfterCommaAndBlank(a: string, t: string)
    requires ',' !in a && ',' !in t
    ensures a + ", " + t == a + [','] + (" " + t)
    ensures ',' !in " " + t
  {
    assert forall x :: x in " " + t ==> x == ' ' || x in t;
  }

  /** The non-trimming split of Enhancement_Two keeps a blank after a comma: the second token of "CSCI101, Art" is " Art". */
  lemma RawSplitKeepsBlank(a: string, t: string)
    requires ',' !in a && ',' !in t
    requires a != ""
    ensures NonEmpty(Fields(a + ", " + t, ',')) == [a, " " + t]
  {
    var b := " " + t;
    AfterCommaAndBlank(a, t);
    TwoFields(a, b, ',');
    NonEmptyOfNonEmpty([a, b]);
  }

  /** The trimming split of Enhancement_One drops it: the second token of "CSCI101, Art" is "Art". */
  lemma TrimmedSplitDropsBlank(a: string, t: string)
    requires ',' !in a && ',' !in t
    requires a != "" && t != ""
    requires EnhancedOne.Trim(a) == a && EnhancedOne.Trim(t) == t
    ensures EnhancedOne.TrimmedTokens(a + ", " + t, ',') == [a, t]
  {
    var b := " " + t;
    AfterCommaAndBlank(a, t);
    EnhancedOne.TrimLeadingBlank(t);
    EnhancedOne.TrimmedTwoFields(a, b, ',');
  }

  /** So a course line of Enhancement_Two keeps that blank in its title: "CSCI101, Art" has title " Art". */
  lemma RawLineKeepsBlank(a: string, t: string)
    requires ',' !in a && ',' !in t
    requires EnhancedTwo.IsValidCourseNumber(a)
    ensures EnhancedTwo.ParseLine(a + ", " + t) == Some(Course(a, " " + t, []))
  {
    RawSplitKeepsBlank(a, t);
  }

  /** And a course line of Enhancement_One loses it: "CSCI101, Art" has title "Art". */
  lemma TrimmedLineDropsBlank(a: string, t: string)
    requires ',' !in a && ',' !in t
    requires t != ""
    requires EnhancedOne.Trim(a) == a && EnhancedOne.Trim(t) == t
    requires EnhancedOne.ValidCourseNumber(a)
    ensures EnhancedOne.ParseLine(a + ", " + t) == Some(Course(a, t, []))
  {
    var line := a + ", " + t;
    assert line[0] == a[0] && line[|line| - 1] == t[|t| - 1];
    EnhancedOne.TrimOfTrimmed(line);
    TrimmedSplitDropsBlank(a, t);
  }

  /**
   * On a catalog whose numbers are distinct, the first exact match of the scan and
   * the last-wins index give a prerequisite the same title.
   */
  lemma {:induction false} ScanAgreesWithIndex(cs: seq<Course>, code: string)
    requires DistinctNumbers(cs)
    ensures Original.ScanTitle(cs, code) == TitleIn(Index(cs), code)
  {
    var k := Original.FirstWithNumber(cs, code);
    IndexKeys(cs);
    if k < |cs| {
      IndexLastWins(cs, k);
    } else {
      assert code !in Numbers(cs);
    }
  }

  /** With a repeated number the two disagree: the scan keeps the first title, the index the last. */
  lemma ScanAndIndexDisagreeOnRepeats()
    ensures var cs := [Course("CSCI100", "Old", []), Course("CSCI100", "New", [])];
      Original.ScanTitle(cs, "CSCI100") == "Old" && TitleIn(Index(cs), "CSCI100") == "New"
  {
    var cs := [Course("CSCI100", "Old", []), Course("CSCI100", "New", [])];
    assert Original.FirstWithNumber(cs, "CSCI100") == 0;
    assert cs[..1] == [cs[0]];
  }

  /**
   * On a catalog of distinct numbers that all follow the four-letters-three-digits
   * rule, and for a query that follows it once upper-cased, the map lookup of
   * Enhancement_Two answers exactly as the original linear scan does.
   */
  lemma MapLookupRefinesScan(cs: seq<Course>, query: string)
    requires DistinctNumbers(cs)
    requires forall i :: 0 <= i < |cs| ==> EnhancedTwo.IsValidCourseNumber(cs[i].number)
    requires EnhancedTwo.IsValidCourseNumber(Upper(query))
    ensures EnhancedTwo.Lookup(Index(cs), query) == Original.Lookup(cs, query)
  {
    if cs != [] {
      var m, key := Index(cs), Upper(query);
      var k := Original.FirstCaseInsensitive(cs, key);
      IndexKeys(cs);
      assert cs[0].number in Numbers(cs);
      if k < |cs| {
        FoundAgrees(cs, key, k);
      } else {
        forall c | c in cs ensures c.number != key {
          var j :| 0 <= j < |cs| && cs[j] == c;
          EnhancedTwo.ValidNumberIsUpperCase(c.number);
        }
        assert key !in Numbers(cs);
      }
    }
  }

  /** The found case of MapLookupRefinesScan: same course, same prerequisite titles. */
  lemma FoundAgrees(cs: seq<Course>, key: string, k: nat)
    requires DistinctNumbers(cs)
    requires k == Original.FirstCaseInsensitive(cs, key) < |cs|
    requires EnhancedTwo.IsValidCourseNumber(cs[k].number)
    ensures key in Index(cs)
    ensures var c := cs[k];
      Describe(Index(cs), Index(cs)[key]) ==
      Found(c.number, c.title,
        seq(|c.prerequisites|, i requires 0 <= i < |c.prerequisites| =>
          Resolved(c.prerequisites[i], Original.ScanTitle(cs, c.prerequisites[i]))))
  {
    var m, c := Index(cs), cs[k];
    assert key in m && m[key] == c by {
      EnhancedTwo.ValidNumberIsUpperCase(c.number);
      IndexLastWins(cs, k);
    }
    var scanned := seq(|c.prerequisites|, i requires 0 <= i < |c.prerequisites| =>
      Resolved(c.prerequisites[i], Original.ScanTitle(cs, c.prerequisites[i])));
    assert Resolve(m, c.prerequisites) == scanned by {
      forall i | 0 <= i < |c.prerequisites|
        ensures Original.ScanTitle(cs, c.prerequisites[i]) == TitleIn(m, c.prerequisites[i])
      {
        ScanAgreesWithIndex(cs, c.prerequisites[i]);
      }
    }
  }
}
