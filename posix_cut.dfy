/** The field extraction in the exec pipeline, `cut -d "/" -f 2`, as the
    `cut` utility of POSIX.1-2017 (IEEE Std 1003.1-2017, Shell and Utilities
    volume) defines it. This is the standard's behaviour, not Ruby code. */
module PosixCut {
  import opened Text
  import opened VersionPattern

  /** One input line through `cut -d "/" -f 2`: a line holding a `/` yields
      its second `/`-delimited field (from the first `/` up to the second
      one or the end of the line); a line without any `/` is written whole,
      because `-s` is not given. */
  function CutLine(line: string): (field: string)
    ensures '/' !in line ==> field == line
    ensures '/' in line ==> '/' !in field
  {
    var first := Find(line, '/');
    if first == |line| then
      line
    else
      var after := line[first + 1..];
      after[..Find(after, '/')]
  }

  /** The field is taken from the line: it holds no character the line lacks. */
  lemma CutLineWithin(line: string, c: char)
    requires c in CutLine(line)
    ensures c in line
  {
    var first := Find(line, '/');
    if first < |line| {
      var after := line[first + 1..];
      var k :| 0 <= k < Find(after, '/') && after[k] == c;
      assert line[first + 1 + k] == c;
    }
  }

  /** The whole output of `cut` for an input of the given lines: every
      selected field followed by a newline. */
  function CutOutput(lines: seq<string>): string
  {
    if |lines| == 0 then [] else CutLine(lines[0]) + "\n" + CutOutput(lines[1..])
  }

  /** `cut` applied to each input line in turn. */
  function CutFields(lines: seq<string>): seq<string>
  {
    if |lines| == 0 then [] else [CutLine(lines[0])] + CutFields(lines[1..])
  }

  /** The `k`-th output line is the cut of the `k`-th input line. */
  lemma {:induction false} CutFieldsAt(lines: seq<string>, k: nat)
    requires k < |lines|
    ensures |CutFields(lines)| == |lines| && CutFields(lines)[k] == CutLine(lines[k])
    decreases |lines|
  {
    if k == 0 {
      CutFieldsLength(lines);
    } else {
      CutFieldsAt(lines[1..], k - 1);
      assert lines[1..][k - 1] == lines[k];
    }
  }

  lemma {:induction false} CutFieldsLength(lines: seq<string>)
    ensures |CutFields(lines)| == |lines|
    decreases |lines|
  {
    if |lines| > 0 {
      CutFieldsLength(lines[1..]);
    }
  }

  /** The second field is exactly the text between the first and the second
      `/`, or up to the end of the line when there is no second `/`. */
  lemma CutSecondField(name: string, field: string, rest: string)
    requires '/' !in name && '/' !in field
    ensures CutLine(name + "/" + field) == field
    ensures CutLine(name + "/" + field + "/" + rest) == field
  {
    FindFirst(name, '/', field);
    assert (name + "/" + field)[|name| + 1..] == field;
    FindNone(field, '/');
    var line := name + "/" + field + "/" + rest;
    assert line == name + "/" + (field + "/" + rest);
    FindFirst(name, '/', field + "/" + rest);
    assert line[|name| + 1..] == field + "/" + rest;
    FindFirst(field, '/', rest);
    assert (field + "/" + rest)[..|field|] == field;
  }

  /** The lines Ruby sees in the output of `cut` are the cut fields of the
      input lines, plus the empty piece after the final newline. */
  lemma {:induction false} CutOutputLines(lines: seq<string>)
    requires Undelimited(lines, '\n')
    ensures Lines(CutOutput(lines)) == CutFields(lines) + [""]
    decreases |lines|
  {
    if |lines| == 0 {
      assert CutOutput(lines) == [];
      SplitNoDelimiter([], '\n');
    } else {
      var head, tail := CutLine(lines[0]), CutOutput(lines[1..]);
      assert '\n' !in head by {
        assert '\n' !in lines[0];
        if '\n' in head {
          CutLineWithin(lines[0], '\n');
        }
      }
      assert Undelimited(lines[1..], '\n') by {
        assert forall k :: 0 <= k < |lines| - 1 ==> lines[1..][k] == lines[k + 1];
      }
      CutOutputLines(lines[1..]);
      assert Lines(CutOutput(lines)) == [head] + Lines(tail) by {
        assert CutOutput(lines) == head + "\n" + tail;
        SplitCons(head, '\n', tail);
      }
    }
  }

  /** The output of `cut` passes validation exactly when the cut field of
      some input line is a version. */
  lemma CutThenValidate(lines: seq<string>)
    requires Undelimited(lines, '\n')
    ensures Matches(Some(CutOutput(lines))) <==> exists k :: 0 <= k < |lines| && IsVersion(CutLine(lines[k]))
  {
    CutOutputLines(lines);
    AnyVersionTrailingEmpty(CutFields(lines));
    AnyCutField(lines);
  }

  /** Some cut field is a version exactly when the cut of some input line is. */
  lemma AnyCutField(lines: seq<string>)
    ensures AnyVersion(CutFields(lines)) <==> exists k :: 0 <= k < |lines| && IsVersion(CutLine(lines[k]))
  {
    var fields := CutFields(lines);
    if AnyVersion(fields) {
      var k :| 0 <= k < |fields| && IsVersion(fields[k]);
      CutFieldsLength(lines);
      CutFieldsAt(lines, k);
      assert IsVersion(CutLine(lines[k]));
    }
    if exists k :: 0 <= k < |lines| && IsVersion(CutLine(lines[k])) {
      var k :| 0 <= k < |lines| && IsVersion(CutLine(lines[k]));
      CutFieldsAt(lines, k);
      assert IsVersion(fields[k]);
    }
  }

  /** A banner `<text>/<version>` is cut down to the version, and the cut
      output of that one line passes validation. */
  lemma BannerYieldsVersion(prefix: string, v: string)
    requires '/' !in prefix && '\n' !in prefix && IsVersion(v)
    ensures CutLine(prefix + "/" + v) == v
    ensures Matches(Some(CutOutput([prefix + "/" + v])))
    ensures FactValue(Some(v)) == Some(v)
  {
    VersionAlphabet(v);
    assert '/' !in v by {
      assert !IsDigit('/');
    }
    CutSecondField(prefix, v, "");
    var line := prefix + "/" + v;
    assert Undelimited([line], '\n');
    CutThenValidate([line]);
    assert IsVersion(CutLine([line][0]));
    SingleLineValue(v);
  }

  /** A banner `<text>/<version>` followed on the same line by trailing text
      that starts with neither a digit nor a dot (a distribution suffix such
      as ` (Ubuntu)`): `cut` keeps the trailing text with the version, since
      the field runs to the end of the line, and the value is rejected. */
  lemma TrailingTextSurvivesCut(prefix: string, v: string, trailer: string)
    requires '/' !in prefix && '/' !in trailer && '\n' !in trailer && IsVersion(v)
    requires |trailer| > 0 && !IsDigit(trailer[0]) && trailer[0] != '.'
    ensures CutLine(prefix + "/" + v + trailer) == v + trailer
    ensures FactValue(Some(v + trailer)) == None
  {
    VersionAlphabet(v);
    assert '/' !in v by {
      assert !IsDigit('/');
    }
    assert prefix + "/" + v + trailer == prefix + "/" + (v + trailer);
    CutSecondField(prefix, v + trailer, "");
    assert (v + trailer)[|v|] == trailer[0];
    ForeignCharRejected(v + trailer, |v|);
  }

  /** A shell error line holding no `/` (such as `command not found`) passes
      through `cut` unchanged; having a character other than a digit or a dot
      it is then rejected. */
  lemma NoSlashPassesThrough(line: string, k: nat)
    requires '/' !in line && '\n' !in line
    requires k < |line| && !IsDigit(line[k]) && line[k] != '.'
    ensures CutLine(line) == line
    ensures FactValue(Some(CutLine(line))) == None
  {
    ForeignCharRejected(line, k);
  }

  /** `nginx -v` prints `nginx version: nginx/1.21.6`: the cut field is
      `1.21.6`, which is accepted. */
  lemma NginxBanner(prefix: string, v: string)
    requires prefix == "nginx version: nginx" && v == "1.21.6"
    ensures CutLine(prefix + "/" + v) == v
    ensures FactValue(Some(CutLine(prefix + "/" + v))) == Some(v)
  {
    assert IsVersion(v) by {
      assert v == "1" + "." + "21" + "." + "6";
      VersionFromRuns("1", "21", "6");
    }
    assert '/' !in prefix && '\n' !in prefix;
    BannerYieldsVersion(prefix, v);
  }

  /** The error `command not found` is rejected after `cut`. */
  lemma CommandNotFound(line: string)
    requires line == "command not found"
    ensures CutLine(line) == line
    ensures FactValue(Some(CutLine(line))) == None
  {
    NoSlashPassesThrough(line, 7);
  }

  /** The Ubuntu banner `nginx version: nginx/1.18.0 (Ubuntu)` is cut to
      `1.18.0 (Ubuntu)`, which is rejected. */
  lemma UbuntuBanner(prefix: string, v: string, trailer: string)
    requires prefix == "nginx version: nginx" && v == "1.18.0" && trailer == " (Ubuntu)"
    ensures CutLine(prefix + "/" + v + trailer) == v + trailer
    ensures FactValue(Some(CutLine(prefix + "/" + v + trailer))) == None
  {
    assert IsVersion(v) by {
      assert v == "1" + "." + "18" + "." + "0";
      VersionFromRuns("1", "18", "0");
    }
    assert '/' !in prefix && '/' !in trailer && '\n' !in trailer;
    assert !IsDigit(trailer[0]) && trailer[0] != '.';
    TrailingTextSurvivesCut(prefix, v, trailer);
  }
}
