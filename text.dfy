/**
 * Character classes, upper-casing, field splitting and string ordering shared by
 * every variant of the advising program. Characters are ASCII, as in the "C" locale.
 */
module Text {

  predicate IsUpper(c: char) { 'A' <= c <= 'Z' }
  predicate IsLower(c: char) { 'a' <= c <= 'z' }
  predicate IsDigit(c: char) { '0' <= c <= '9' }

  /** `std::isalnum` in the "C" locale. */
  predicate IsAlnum(c: char) { IsUpper(c) || IsLower(c) || IsDigit(c) }

  /** `::toupper` in the "C" locale: lower-case letters become upper case, nothing else moves. */
  function ToUpper(c: char): (u: char)
    ensures IsLower(c) ==> IsUpper(u) && u as int == c as int - 32
    ensures !IsLower(c) ==> u == c
  {
    if IsLower(c) then (c as int - 32) as char else c
  }

  /**
   * `std::transform(s.begin(), s.end(), s.begin(), ::toupper)`: same length, each
   * lower-case letter replaced by its upper-case form, every other character where it was.
   */
  function Upper(s: string): (r: string)
    ensures |r| == |s|
    ensures forall i :: 0 <= i < |r| ==> !IsLower(r[i])
    ensures forall i :: 0 <= i < |s| && IsLower(s[i]) ==> r[i] as int == s[i] as int - 32
    ensures forall i :: 0 <= i < |s| && !IsLower(s[i]) ==> r[i] == s[i]
  {
    seq(|s|, i requires 0 <= i < |s| => ToUpper(s[i]))
  }

  // ---------------------------------------------------------------------------
  // Splitting on a delimiter
  // ---------------------------------------------------------------------------

  /**
   * Every field of `s` between occurrences of `delim`, read left to right, empty
   * fields included, and always at least one. `std::getline` on a
   * string stream yields the same fields, except that it yields no trailing empty
   * field, so that the empty string, whose fields are `[""]`, yields no field at
   * all; every caller here drops empty fields, so the difference never shows.
   */
  function Fields(s: string, delim: char): (r: seq<string>)
    ensures |r| > 0
    decreases |s|
  {
    if |s| == 0 then [""] else Extend(Fields(s[..|s| - 1], delim), s[|s| - 1], delim)
  }

  /** The fields after reading one more character `c`. */
  function Extend(f: seq<string>, c: char, delim: char): (r: seq<string>)
    requires |f| > 0
    ensures |r| > 0
  {
    if c == delim then f + [""] else f[..|f| - 1] + [f[|f| - 1] + [c]]
  }

  /** The fields glued back together with the delimiter between them. */
  function Join(fs: seq<string>, delim: char): string
  {
    if |fs| == 0 then ""
    else if |fs| == 1 then fs[0]
    else Join(fs[..|fs| - 1], delim) + [delim] + fs[|fs| - 1]
  }

  /** Splitting loses nothing: joining the fields gives back the line. */
  lemma {:induction false} JoinFields(s: string, delim: char)
    ensures Join(Fields(s, delim), delim) == s
    decreases |s|
  {
    if |s| > 0 {
      var p, c := s[..|s| - 1], s[|s| - 1];
      var f := Fields(p, delim);
      JoinFields(p, delim);
      assert p + [c] == s;
      if c == delim {
        assert (f + [""])[..|f|] == f;
      } else if |f| == 1 {
        assert Fields(s, delim) == [f[0] + [c]];
      } else {
        var g := f[..|f| - 1] + [f[|f| - 1] + [c]];
        assert g[..|g| - 1] == f[..|f| - 1];
        assert Join(f, delim) == Join(f[..|f| - 1], delim) + [delim] + f[|f| - 1];
      }
    }
  }

  /** No field contains the delimiter. */
  lemma {:induction false} FieldsHaveNoDelimiter(s: string, delim: char)
    ensures forall i :: 0 <= i < |Fields(s, delim)| ==> delim !in Fields(s, delim)[i]
    decreases |s|
  {
    if |s| > 0 {
      var p, c := s[..|s| - 1], s[|s| - 1];
      FieldsHaveNoDelimiter(p, delim);
      var f := Fields(p, delim);
      if c != delim {
        var last := f[|f| - 1] + [c];
        assert delim !in f[|f| - 1];
        assert forall x :: x in last ==> x in f[|f| - 1] || x == c;
      }
    }
  }

  /** Reading one more character either starts a new field or extends the last one. */
  lemma FieldsStep(s: string, i: nat, delim: char)
    requires i < |s|
    ensures Fields(s[..i + 1], delim) == Extend(Fields(s[..i], delim), s[i], delim)
  {
    assert s[..i + 1][..i] == s[..i];
  }

  /** Reading a run `s[j..i]` free of the delimiter only extends the last field. */
  lemma {:induction false} FieldsPlainRun(s: string, j: nat, i: nat, delim: char)
    requires j <= i <= |s|
    requires delim !in s[j..i]
    ensures var f := Fields(s[..j], delim); Fields(s[..i], delim) == f[..|f| - 1] + [f[|f| - 1] + s[j..i]]
    decreases i - j
  {
    if i == j {
      var f := Fields(s[..j], delim);
      assert f[|f| - 1] + s[j..i] == f[|f| - 1];
      assert f[..|f| - 1] + [f[|f| - 1]] == f;
    } else {
      assert s[j..i] == s[j..i - 1] + [s[i - 1]];
      assert s[i - 1] != delim && delim !in s[j..i - 1] by {
        assert s[i - 1] in s[j..i];
        assert forall x :: x in s[j..i - 1] ==> x in s[j..i];
      }
      FieldsPlainRun(s, j, i - 1, delim);
      assert s[..i] == s[..i - 1] + [s[i - 1]];
      FieldsPlainStep(s[..i - 1], s[i - 1], Fields(s[..j], delim), s[j..i - 1], delim);
    }
  }

  /** The step of FieldsPlainRun: one more character other than the delimiter. */
  lemma {:induction false} FieldsPlainStep(p: string, c: char, f: seq<string>, t: string, delim: char)
    requires |f| > 0 && c != delim
    requires Fields(p, delim) == f[..|f| - 1] + [f[|f| - 1] + t]
    ensures Fields(p + [c], delim) == f[..|f| - 1] + [f[|f| - 1] + (t + [c])]
  {
    assert (p + [c])[..|p|] == p;
    ExtendPlain(f, t, c, delim);
  }

  /** Extending by a character other than the delimiter grows the last field by it. */
  lemma {:induction false} ExtendPlain(f: seq<string>, t: string, c: char, delim: char)
    requires |f| > 0 && c != delim
    ensures Extend(f[..|f| - 1] + [f[|f| - 1] + t], c, delim) == f[..|f| - 1] + [f[|f| - 1] + (t + [c])]
  {
    var g := f[..|f| - 1] + [f[|f| - 1] + t];
    assert g[..|g| - 1] == f[..|f| - 1];
    assert g[|g| - 1] + [c] == f[|f| - 1] + (t + [c]);
  }

  /** Text without the delimiter extends the last field and adds none. */
  lemma FieldsAppendPlain(p: string, y: string, delim: char)
    requires delim !in y
    ensures var f := Fields(p, delim); Fields(p + y, delim) == f[..|f| - 1] + [f[|f| - 1] + y]
  {
    var s := p + y;
    assert s[..|p|] == p && s[|p|..|s|] == y && s[..|s|] == s;
    FieldsPlainRun(s, |p|, |s|, delim);
  }

  /** A line with one delimiter splits into exactly what stands before and after it. */
  lemma TwoFields(a: string, b: string, delim: char)
    requires delim !in a && delim !in b
    ensures Fields(a + [delim] + b, delim) == [a, b]
  {
    FieldsAppendPlain("", a, delim);
    assert "" + a == a;
    assert (a + [delim])[..|a|] == a;
    assert Fields(a + [delim], delim) == [a, ""];
    FieldsAppendPlain(a + [delim], b, delim);
    assert "" + b == b && [a, ""][..1] == [a];
  }

  /** The fields that are not empty, in their original order (the `!token.empty()` test). */
  function NonEmpty(fs: seq<string>): (r: seq<string>)
    ensures |r| <= |fs|
    ensures forall i :: 0 <= i < |r| ==> r[i] != ""
  {
    if |fs| == 0 then []
    else
      var rest := NonEmpty(fs[..|fs| - 1]);
      if fs[|fs| - 1] != "" then rest + [fs[|fs| - 1]] else rest
  }

  /** Dropping empty fields keeps exactly the non-empty ones. */
  lemma {:induction false} NonEmptyMembers(fs: seq<string>)
    ensures forall t :: t in NonEmpty(fs) <==> t in fs && t != ""
  {
    if |fs| > 0 {
      var init := fs[..|fs| - 1];
      NonEmptyMembers(init);
      assert fs == init + [fs[|fs| - 1]];
    }
  }

  /** Dropping empty fields from a list that has none changes nothing. */
  lemma {:induction false} NonEmptyOfNonEmpty(fs: seq<string>)
    requires forall i :: 0 <= i < |fs| ==> fs[i] != ""
    ensures NonEmpty(fs) == fs
  {
    if |fs| > 0 {
      NonEmptyOfNonEmpty(fs[..|fs| - 1]);
      assert fs[..|fs| - 1] + [fs[|fs| - 1]] == fs;
    }
  }

  /** The tokens of the non-trimming split: non-empty, free of the delimiter. */
  lemma TokensHaveNoDelimiter(s: string, delim: char)
    ensures forall t :: t in NonEmpty(Fields(s, delim)) ==> t != "" && delim !in t
  {
    FieldsHaveNoDelimiter(s, delim);
    NonEmptyMembers(Fields(s, delim));
  }

  /**
   * `split` of the non-trimming variants: a `std::getline` loop over the line that
   * keeps every non-empty field as it stands.
   */
  method Split(str: string, delimiter: char) returns (tokens: seq<string>)
    ensures tokens == NonEmpty(Fields(str, delimiter))
  {
    tokens := [];
    var token := "";
    ghost var done: seq<string> := [];
    var i := 0;
    while i < |str|
      invariant 0 <= i <= |str|
      invariant Fields(str[..i], delimiter) == done + [token]
      invariant tokens == NonEmpty(done)
    {
      FieldsStep(str, i, delimiter);
      if str[i] == delimiter {
        if token != "" {
          tokens := tokens + [token];
        }
        assert (done + [token])[..|done|] == done;
        done := done + [token];
        token := "";
      } else {
        token := token + [str[i]];
      }
      i := i + 1;
    }
    assert str[..|str|] == str;
    assert (done + [token])[..|done|] == done;
    if token != "" {
      tokens := tokens + [token];
    }
  }

  // ---------------------------------------------------------------------------
  // String ordering
  // ---------------------------------------------------------------------------

  /**
   * `std::string`'s `operator<`: lexicographic by character code, a proper prefix
   * first; irreflexive, and a proper prefix is less than the string it begins.
   */
  predicate Less(a: string, b: string)
    ensures Less(a, b) ==> a != b
    ensures |a| < |b| && a == b[..|a|] ==> Less(a, b)
  {
    if |b| == 0 then false
    else if |a| == 0 then true
    else if a[0] != b[0] then a[0] < b[0]
    else Less(a[1..], b[1..])
  }

  lemma {:induction false} LessAsymmetric(a: string, b: string)
    requires Less(a, b)
    ensures !Less(b, a)
  {
    if |a| > 0 && a[0] == b[0] {
      LessAsymmetric(a[1..], b[1..]);
    }
  }

  /** Two different strings are always ordered one way or the other. */
  lemma {:induction false} LessTotal(a: string, b: string)
    requires a != b
    ensures Less(a, b) || Less(b, a)
  {
    if |a| > 0 && |b| > 0 && a[0] == b[0] {
      assert a == [a[0]] + a[1..] && b == [b[0]] + b[1..];
      LessTotal(a[1..], b[1..]);
    }
  }

  /** "Not less" is transitive, which makes a sequence sorted as soon as neighbours are. */
  lemma {:induction false} NotLessTransitive(a: string, b: string, c: string)
    requires !Less(b, a) && !Less(c, b)
    ensures !Less(c, a)
  {
    if |a| > 0 && |b| > 0 && |c| > 0 && a[0] == b[0] == c[0] {
      NotLessTransitive(a[1..], b[1..], c[1..]);
    }
  }
}
