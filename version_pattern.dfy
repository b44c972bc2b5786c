/** The validation half of the `nginxversion` fact: the fixed pattern
    `^\d{1,}\.\d{1,}\.\d{1,}$` written out as a predicate, Ruby's reading of
    its anchors, and the choice between the cached value and `nil`. */
module VersionPattern {
  import opened Text

  /** `\d` in Ruby matches the ASCII digits only. */
  predicate IsDigit(c: char)
  {
    '0' <= c <= '9'
  }

  /** `\d{1,}`: one or more digits. */
  predicate IsDigitRun(s: string)
  {
    |s| >= 1 && forall i :: 0 <= i < |s| ==> IsDigit(s[i])
  }

  /** The body of the pattern between its anchors: exactly three dot-separated
      segments, each a non-empty run of digits. Leading zeros are allowed. */
  predicate IsVersion(s: string)
  {
    var segments := Split(s, '.');
    |segments| == 3 && IsDigitRun(segments[0]) && IsDigitRun(segments[1]) && IsDigitRun(segments[2])
  }

  /** The pattern matched at a span: `^` holds at the start of the text or
      just after a newline, `$` at the end of the text or just before a
      newline, and the characters in between form a version. */
  predicate MatchAt(s: string, i: nat, j: nat)
    requires i <= j <= |s|
  {
    (i == 0 || s[i - 1] == '\n') && (j == |s| || s[j] == '\n') && IsVersion(s[i..j])
  }

  /** Some string of `ss` is a version. */
  predicate AnyVersion(ss: seq<string>)
  {
    exists k :: 0 <= k < |ss| && IsVersion(ss[k])
  }

  /** `pattern.match(value)` succeeds: the value is present and one of its
      lines is a version. `Regexp#match(nil)` fails rather than raising. */
  predicate Matches(value: Option<string>)
  {
    value.Some? && AnyVersion(Lines(value.value))
  }

  /** The value of the fact for a cached exec result: the cached string itself
      when it matches, `nil` otherwise. */
  function FactValue(cached: Option<string>): (r: Option<string>)
    ensures r == None || r == cached
    ensures r.Some? <==> Matches(cached)
  {
    if Matches(cached) then cached else None
  }

  /** Three digit runs joined by dots form a version. */
  lemma VersionFromRuns(a: string, b: string, c: string)
    requires IsDigitRun(a) && IsDigitRun(b) && IsDigitRun(c)
    ensures IsVersion(a + "." + b + "." + c)
  {
    assert '.' !in a && '.' !in b && '.' !in c by {
      assert !IsDigit('.');
    }
    var parts := [a, b, c];
    assert Join(parts, '.') == a + "." + b + "." + c by {
      assert Join(parts[1..], '.') == b + "." + c;
    }
    SplitJoin(parts, '.');
  }

  /** Every version is three digit runs joined by dots. */
  lemma VersionRuns(s: string)
    requires IsVersion(s)
    ensures var p := Split(s, '.'); s == p[0] + "." + p[1] + "." + p[2]
  {
    var p := Split(s, '.');
    JoinSplit(s, '.');
    assert Join(p[1..], '.') == p[1] + "." + p[2] by {
      assert p[1..][1..] == [p[2]];
    }
  }

  /** A version holds digits and dots only; in particular no newline. */
  lemma VersionAlphabet(s: string)
    requires IsVersion(s)
    ensures forall i :: 0 <= i < |s| ==> IsDigit(s[i]) || s[i] == '.'
    ensures '\n' !in s
  {
    var p := Split(s, '.');
    VersionRuns(s);
    forall i | 0 <= i < |s|
      ensures IsDigit(s[i]) || s[i] == '.'
    {
      var n0, n1 := |p[0]|, |p[0]| + 1 + |p[1]|;
      if i < n0 {
        assert s[i] == p[0][i];
      } else if n0 < i < n1 {
        assert s[i] == p[1][i - n0 - 1];
      } else if n1 < i {
        assert s[i] == p[2][i - n1 - 1];
      }
    }
    assert !IsDigit('\n');
  }

  /** The anchors read as line anchors: the regular expression matches some
      anchored span of the text exactly when some line of the text is a
      version. */
  lemma MatchesIffAnchoredSpan(s: string)
    ensures Matches(Some(s)) <==> exists i: nat, j: nat :: i <= j <= |s| && MatchAt(s, i, j)
  {
    if Matches(Some(s)) {
      var k :| 0 <= k < |Lines(s)| && IsVersion(Lines(s)[k]);
      var i, j := LineSpan(s, k);
      assert MatchAt(s, i, j);
    }
    if exists i: nat, j: nat :: i <= j <= |s| && MatchAt(s, i, j) {
      var i: nat, j: nat :| i <= j <= |s| && MatchAt(s, i, j);
      VersionAlphabet(s[i..j]);
      var k := SpanLine(s, i, j);
      assert IsVersion(Lines(s)[k]);
    }
  }

  /** For a text made of the given lines, the fact keeps the whole text when
      any one line is a version, and is `nil` when none is. */
  lemma {:induction false} MultiLineValue(lines: seq<string>)
    requires |lines| >= 1 && Undelimited(lines, '\n')
    ensures var text := Join(lines, '\n');
            FactValue(Some(text)) ==
              if AnyVersion(lines) then Some(text) else None
  {
    SplitJoin(lines, '\n');
    assert Lines(Join(lines, '\n')) == lines;
  }

  /** On a single-line value the fact is the value itself exactly when the
      whole value is a version, and `nil` otherwise. */
  lemma SingleLineValue(s: string)
    requires '\n' !in s
    ensures FactValue(Some(s)) == if IsVersion(s) then Some(s) else None
  {
    SplitNoDelimiter(s, '\n');
    assert Lines(s)[0] == s;
  }

  /** An absent exec result (the command could not be run) gives `nil`. */
  lemma AbsentOutputIsNil()
    ensures FactValue(None) == None
  {
  }

  /** Three digit runs with leading zeros allowed: the value is returned. */
  lemma VersionAccepted(a: string, b: string, c: string)
    requires IsDigitRun(a) && IsDigitRun(b) && IsDigitRun(c)
    ensures var v := a + "." + b + "." + c; FactValue(Some(v)) == Some(v)
  {
    var v := a + "." + b + "." + c;
    VersionFromRuns(a, b, c);
    VersionAlphabet(v);
    SingleLineValue(v);
  }

  /** `01.02.03`: leading zeros are accepted. */
  lemma LeadingZerosAccepted(s: string)
    requires s == "01.02.03"
    ensures FactValue(Some(s)) == Some(s)
  {
    assert s == "01" + "." + "02" + "." + "03";
    VersionAccepted("01", "02", "03");
  }

  /** Two segments only: `nil`. */
  lemma TwoSegmentsRejected(a: string, b: string)
    requires IsDigitRun(a) && IsDigitRun(b)
    ensures FactValue(Some(a + "." + b)) == None
  {
    assert '.' !in a && '.' !in b && '\n' !in a && '\n' !in b by {
      assert !IsDigit('.') && !IsDigit('\n');
    }
    var s := a + "." + b;
    SplitJoin([a, b], '.');
    assert Join([a, b], '.') == s;
    assert '\n' !in s;
    SingleLineValue(s);
  }

  /** A single-line value with any character other than a digit or a dot:
      `nil`. This covers a letter inside a segment and trailing text such as
      ` (Ubuntu)` after the version. */
  lemma ForeignCharRejected(s: string, k: nat)
    requires '\n' !in s && k < |s| && !IsDigit(s[k]) && s[k] != '.'
    ensures FactValue(Some(s)) == None
  {
    if IsVersion(s) {
      VersionAlphabet(s);
    }
    SingleLineValue(s);
  }

  /** The empty string is not a version. */
  lemma EmptyNotVersion()
    ensures !IsVersion("")
  {
    assert Split("", '.') == [""];
  }

  /** A trailing empty line never makes the pattern match. */
  lemma AnyVersionTrailingEmpty(ss: seq<string>)
    ensures AnyVersion(ss + [""]) <==> AnyVersion(ss)
  {
    EmptyNotVersion();
    if AnyVersion(ss + [""]) {
      var k :| 0 <= k < |ss| + 1 && IsVersion((ss + [""])[k]);
      assert k < |ss| && IsVersion(ss[k]);
    }
    if AnyVersion(ss) {
      var k :| 0 <= k < |ss| && IsVersion(ss[k]);
      assert IsVersion((ss + [""])[k]);
    }
  }

  /** The empty output: `nil`. */
  lemma EmptyRejected()
    ensures FactValue(Some("")) == None
  {
    SingleLineValue("");
    EmptyNotVersion();
  }

  /** `1.21`, two segments only: `nil`. */
  lemma TwoSegmentExample(s: string)
    requires s == "1.21"
    ensures FactValue(Some(s)) == None
  {
    assert s == "1" + "." + "21";
    TwoSegmentsRejected("1", "21");
  }

  /** `1.x.3`, a letter in a segment: `nil`. */
  lemma LetterExample(s: string)
    requires s == "1.x.3"
    ensures FactValue(Some(s)) == None
  {
    ForeignCharRejected(s, 2);
  }

  /** A first line that is not a version followed by a version on the next
      line: the whole two-line value is kept, not just the version line. */
  lemma LaterLineAccepted(first: string, v: string)
    requires '\n' !in first && IsVersion(v)
    ensures FactValue(Some(first + "\n" + v)) == Some(first + "\n" + v)
  {
    var lines := [first, v];
    VersionAlphabet(v);
    assert Undelimited(lines, '\n');
    MultiLineValue(lines);
    assert IsVersion(lines[1]);
    assert Join(lines, '\n') == first + "\n" + v;
  }
}
