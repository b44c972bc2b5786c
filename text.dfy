/** Strings as sequences of characters, optional values, and splitting a
    string into the pieces between occurrences of one delimiter character.
    Both the line structure that Ruby's `^`/`$` anchors see and the fields
    that `cut -d` selects are defined through `Split` below. */
module Text {

  /** Ruby's `nil` versus a value. */
  datatype Option<+T> = None | Some(value: T)

  /** Index of the first occurrence of `d` in `s`, or `|s|` when there is none. */
  function Find(s: string, d: char): (k: nat)
    ensures k <= |s|
    ensures k < |s| ==> s[k] == d
    ensures d !in s[..k]
    decreases |s|
  {
    if |s| == 0 then 0
    else if s[0] == d then 0
    else 1 + Find(s[1..], d)
  }

  /** The pieces of `s` between occurrences of `d`: a string with `n`
      delimiters has `n + 1` pieces, possibly empty. */
  function Split(s: string, d: char): (parts: seq<string>)
    ensures |parts| >= 1
    decreases |s|
  {
    var k := Find(s, d);
    if k == |s| then [s] else [s[..k]] + Split(s[k + 1..], d)
  }

  /** The pieces glued back together with `d` between neighbours. */
  function Join(parts: seq<string>, d: char): string
    requires |parts| >= 1
  {
    if |parts| == 1 then parts[0] else parts[0] + [d] + Join(parts[1..], d)
  }

  /** True when no piece contains the delimiter. */
  predicate Undelimited(parts: seq<string>, d: char)
  {
    forall i :: 0 <= i < |parts| ==> d !in parts[i]
  }

  /** The lines of a text as Ruby's line anchors see them: the pieces between
      newline characters (a final newline leaves an empty last piece). */
  function Lines(s: string): (lines: seq<string>)
    ensures |lines| >= 1
  {
    Split(s, '\n')
  }

  lemma SplitNoDelimiter(s: string, d: char)
    requires d !in s
    ensures Split(s, d) == [s]
  {
  }

  /** Every character of a piece occurs in the text that was split. */
  lemma {:induction false} SplitWithin(s: string, d: char, i: nat, c: char)
    requires i < |Split(s, d)| && c in Split(s, d)[i]
    ensures c in s
    decreases |s|
  {
    var k := Find(s, d);
    if k < |s| {
      var rest := s[k + 1..];
      assert Split(s, d) == [s[..k]] + Split(rest, d);
      if i == 0 {
        assert c in s[..k];
      } else {
        SplitWithin(rest, d, i - 1, c);
        assert c in rest;
      }
    }
  }

  /** No delimiter: `Find` runs to the end. */
  lemma FindNone(s: string, d: char)
    requires d !in s
    ensures Find(s, d) == |s|
  {
  }

  /** The first delimiter after a delimiter-free prefix is found right there. */
  lemma FindFirst(a: string, d: char, rest: string)
    requires d !in a
    ensures Find(a + [d] + rest, d) == |a|
  {
    var s := a + [d] + rest;
    assert s[|a|] == d;
    assert forall i :: 0 <= i < |a| ==> s[i] == a[i];
  }

  /** Splitting peels off everything before the first delimiter as one piece. */
  lemma SplitCons(a: string, d: char, rest: string)
    requires d !in a
    ensures Split(a + [d] + rest, d) == [a] + Split(rest, d)
  {
    var s := a + [d] + rest;
    var k := Find(s, d);
    FindFirst(a, d, rest);
    assert s[..k] == a;
    assert s[k + 1..] == rest;
  }

  /** Splitting and joining are inverse: joining the pieces restores the text. */
  lemma {:induction false} JoinSplit(s: string, d: char)
    ensures Join(Split(s, d), d) == s
    decreases |s|
  {
    var k := Find(s, d);
    if k < |s| {
      var rest := s[k + 1..];
      var parts := Split(s, d);
      assert parts == [s[..k]] + Split(rest, d);
      assert parts[1..] == Split(rest, d);
      JoinSplit(rest, d);
      assert Join(parts, d) == s[..k] + [d] + rest;
      assert s == s[..k] + [d] + rest;
    }
  }

  /** ... and splitting a joined text gives back delimiter-free pieces. */
  lemma {:induction false} SplitJoin(parts: seq<string>, d: char)
    requires |parts| >= 1 && Undelimited(parts, d)
    ensures Split(Join(parts, d), d) == parts
    decreases |parts|
  {
    if |parts| == 1 {
      SplitNoDelimiter(parts[0], d);
    } else {
      assert d !in parts[0];
      SplitJoin(parts[1..], d);
      SplitCons(parts[0], d, Join(parts[1..], d));
    }
  }

  /** Past the first delimiter, splitting continues on the rest. */
  lemma SplitAtFirst(s: string, d: char)
    requires Find(s, d) < |s|
    ensures Split(s, d) == [s[..Find(s, d)]] + Split(s[Find(s, d) + 1..], d)
  {
  }

  /** The lines of a text with a newline at `k`, its first newline. */
  lemma LinesAtFirst(s: string, k: nat)
    requires k == Find(s, '\n') < |s|
    ensures Lines(s) == [s[..k]] + Lines(s[k + 1..])
  {
    SplitAtFirst(s, '\n');
  }

  /** A span of the text after position `k` (a newline) is the same span of
      `s` moved right by `k + 1`, and keeps its bounding newlines. */
  lemma ShiftSpan(s: string, k: nat, i: nat, j: nat)
    requires k < |s| && s[k] == '\n' && i <= j <= |s| - k - 1
    requires i == 0 || s[k + 1..][i - 1] == '\n'
    requires j == |s| - k - 1 || s[k + 1..][j] == '\n'
    ensures s[i + k + 1..j + k + 1] == s[k + 1..][i..j]
    ensures s[i + k] == '\n'
    ensures j + k + 1 == |s| || s[j + k + 1] == '\n'
  {
  }

  /** Every line of `s` is a newline-free stretch `s[i..j]` of `s` that starts
      at the beginning of `s` or just after a newline, and ends at the end of
      `s` or just before a newline. */
  lemma {:induction false} LineSpan(s: string, idx: nat) returns (i: nat, j: nat)
    requires idx < |Lines(s)|
    ensures i <= j <= |s| && s[i..j] == Lines(s)[idx]
    ensures i == 0 || s[i - 1] == '\n'
    ensures j == |s| || s[j] == '\n'
    decreases |s|
  {
    var k := Find(s, '\n');
    if k == |s| {
      SplitNoDelimiter(s, '\n');
      i, j := 0, |s|;
    } else {
      var rest := s[k + 1..];
      LinesAtFirst(s, k);
      if idx == 0 {
        i, j := 0, k;
      } else {
        var i', j' := LineSpan(rest, idx - 1);
        ShiftSpan(s, k, i', j');
        i, j := i' + k + 1, j' + k + 1;
      }
    }
  }

  /** Conversely, every newline-free stretch bounded that way is a line. */
  lemma {:induction false} SpanLine(s: string, i: nat, j: nat) returns (idx: nat)
    requires i <= j <= |s| && '\n' !in s[i..j]
    requires i == 0 || s[i - 1] == '\n'
    requires j == |s| || s[j] == '\n'
    ensures idx < |Lines(s)| && Lines(s)[idx] == s[i..j]
    decreases |s|
  {
    var k := Find(s, '\n');
    if k == |s| {
      assert i == 0 && j == |s|;
      idx := 0;
    } else if i <= k {
      assert i == 0;
      assert j == k;
      idx := 0;
    } else {
      var rest := s[k + 1..];
      assert rest[i - k - 1..j - k - 1] == s[i..j];
      if i - k - 1 > 0 {
        assert rest[i - k - 2] == s[i - 1];
      }
      if j - k - 1 < |rest| {
        assert rest[j - k - 1] == s[j];
      }
      var idx' := SpanLine(rest, i - k - 1, j - k - 1);
      idx := idx' + 1;
    }
  }
}
