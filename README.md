# nginxversion fact — a Dafny model

The repository adds one fact, `nginxversion`, to Facter. Resolving the fact
runs `nginx -v 2>&1 | cut -d "/" -f 2` at most once per process. It keeps
the raw output in the class variable `@@nginxversion`, and returns that
output when it matches `^\d{1,}\.\d{1,}\.\d{1,}$`, and `nil` otherwise.

The model has four modules:

- `Text` (`text.dfy`): strings as `seq<char>`, `Option` for Ruby's `nil`,
  and `Split`/`Join` on one delimiter character with their round trips.
  `Lines` is the line structure that Ruby's `^` and `$` anchors see.
- `VersionPattern` (`version_pattern.dfy`): the fixed pattern as a
  hand-written predicate. `IsVersion` is three non-empty runs of ASCII
  digits joined by two dots. `Matches` is `pattern.match` on an optional
  string. In Ruby `^` and `$` are line anchors, so a value matches when any
  one of its lines is a version; `MatchesIffAnchoredSpan` proves this equal
  to the positional reading of the anchors. `FactValue` is the choice between
  the cached value and `nil` (`lib/facter/nginx.rb:8-12`).
- `PosixCut` (`posix_cut.dfy`): the `cut -d "/" -f 2` step of the exec
  pipeline. It follows the `cut` utility of POSIX.1-2017 (IEEE Std
  1003.1-2017, Shell and Utilities volume), not Ruby code in the repository.
  A line holding a `/` yields the text between the first `/` and the second
  one, or up to the end of the line. A line without any `/` is written whole,
  because `-s` is not given.
- `NginxFact` (`nginx_fact.dfy`): the class variable as a class
  `NginxVersionFact` with a field `cache: Option<Option<string>>`. `None` is
  "not yet defined", and `Some(out)` holds the exec result, which may itself
  be absent. A ghost counter `spawns` records how many times the command ran.
  `Resolve` takes the exec result as a parameter and uses it only when the
  cache is undefined.

Banners with trailing text are not reduced to the bare version. For a
banner such as `nginx version: nginx/1.18.0 (Ubuntu)` one might expect the
fact to be `1.18.0`. The code's `cut -f 2` keeps everything after the first
`/` on that line, so the cached value is `1.18.0 (Ubuntu)`. That value is
rejected, and the fact is `nil` (`PosixCut.TrailingTextSurvivesCut`). The
model follows the code.

## Model

| member | source | states |
|---|---|---|
| VersionPattern.FactValue | lib/facter/nginx.rb:8-12 | the fact is either `nil` or exactly the cached string, never a part or a transformation of it; it is the string exactly when the pattern matches |
| VersionPattern.VersionFromRuns | lib/facter/nginx.rb:3 | any three non-empty digit runs joined by two dots satisfy the pattern between its anchors |
| VersionPattern.VersionRuns | lib/facter/nginx.rb:3 | conversely, every string the pattern accepts between its anchors is its three digit segments joined by dots |
| VersionPattern.VersionAlphabet | lib/facter/nginx.rb:3 | a string the pattern accepts holds only digits and dots, and in particular no newline |
| Text.LineSpan | lib/facter/nginx.rb:3 | every line of a text is a newline-free span that starts where `^` can match and ends where `$` can match |
| Text.SpanLine | lib/facter/nginx.rb:3 | every newline-free span bounded where `^` and `$` can match is one of the lines |
| VersionPattern.MatchesIffAnchoredSpan | lib/facter/nginx.rb:3 | the pattern with Ruby's line anchors matches somewhere in the text if and only if some line of the text is a version |
| VersionPattern.MultiLineValue | lib/facter/nginx.rb:3-12 | for a multi-line value, the whole value is returned when any one line is a version, and `nil` when none is |
| VersionPattern.LaterLineAccepted | lib/facter/nginx.rb:3-12 | a non-version first line followed by a version line keeps the whole two-line value |
| VersionPattern.SingleLineValue | lib/facter/nginx.rb:8-12 | for a single-line value, the fact is the value itself if the whole value is a version, and `nil` otherwise |
| VersionPattern.AbsentOutputIsNil | lib/facter/nginx.rb:8-12 | an absent exec result gives `nil` without raising |
| VersionPattern.VersionAccepted | lib/facter/nginx.rb:8-9 | digits, dot, digits, dot, digits, each run one or more digits, is returned unchanged |
| VersionPattern.LeadingZerosAccepted | lib/facter/nginx.rb:8-9 | `01.02.03` is returned: leading zeros are not excluded |
| VersionPattern.TwoSegmentsRejected | lib/facter/nginx.rb:10-11 | two digit runs joined by a single dot give `nil` |
| VersionPattern.ForeignCharRejected | lib/facter/nginx.rb:10-11 | a single-line value holding any character other than a digit or a dot gives `nil` |
| VersionPattern.EmptyNotVersion | lib/facter/nginx.rb:3 | the empty string does not satisfy the pattern |
| VersionPattern.EmptyRejected | lib/facter/nginx.rb:10-11 | the empty output gives `nil` |
| VersionPattern.AnyVersionTrailingEmpty | lib/facter/nginx.rb:3 | an empty last line, as left by a final newline, never makes the pattern match |
| VersionPattern.TwoSegmentExample | lib/facter/nginx.rb:10-11 | `1.21` gives `nil` |
| VersionPattern.LetterExample | lib/facter/nginx.rb:10-11 | `1.x.3` gives `nil` |
| PosixCut.CutLine | lib/facter/nginx.rb:5 | a line without `/` passes through `cut` whole; the field cut from a line with `/` holds no `/` |
| PosixCut.CutLineWithin | lib/facter/nginx.rb:5 | every character of the cut field occurs in the input line |
| PosixCut.CutSecondField | lib/facter/nginx.rb:5 | field 2 is exactly the text between the first and second `/`, or to the end of the line when there is no second `/` |
| PosixCut.CutOutputLines | lib/facter/nginx.rb:5 | the lines of `cut`'s output are the cut fields of the input lines, in order, plus the empty piece after the final newline |
| PosixCut.CutFieldsAt | lib/facter/nginx.rb:5 | `cut` maps input lines to output lines one to one and in order: output line `k` is the field of input line `k` |
| PosixCut.AnyCutField | lib/facter/nginx.rb:5-8 | some output line of `cut` is a version if and only if the field cut from some input line is |
| PosixCut.CutThenValidate | lib/facter/nginx.rb:5-8 | `cut`'s output matches the pattern if and only if the cut field of some input line is a version |
| PosixCut.BannerYieldsVersion | lib/facter/nginx.rb:5-9 | a banner `<text>/<version>` is cut down to the version, and the cut output passes validation |
| PosixCut.NginxBanner | lib/facter/nginx.rb:5-9 | `nginx version: nginx/1.21.6` is cut to `1.21.6`, which is accepted |
| PosixCut.NoSlashPassesThrough | lib/facter/nginx.rb:5-11 | a line with no `/` passes through `cut` unchanged, and if it holds a character other than a digit or a dot it gives `nil` |
| PosixCut.CommandNotFound | lib/facter/nginx.rb:5-11 | `command not found` has no `/`, passes through `cut` unchanged and gives `nil` |
| PosixCut.TrailingTextSurvivesCut | lib/facter/nginx.rb:5-11 | a banner `<text>/<version><trailer>` whose trailer starts with neither a digit nor a dot is cut to the version with the trailer still attached, which gives `nil` |
| PosixCut.UbuntuBanner | lib/facter/nginx.rb:5-11 | `nginx version: nginx/1.18.0 (Ubuntu)` is cut to `1.18.0 (Ubuntu)`, which gives `nil` |
| NginxFact.NginxVersionFact.constructor | lib/facter/nginx.rb:4 | a new process starts with `@@nginxversion` undefined and the command not yet run |
| NginxFact.NginxVersionFact.Resolve | lib/facter/nginx.rb:4-12 | the first call stores the raw exec result, valid or not, and runs the command once; later calls leave the cache and the run count unchanged; each call returns the validated cached value; the command runs at most once |
| NginxFact.ResolveTwice | lib/facter/nginx.rb:4-12 | two calls in one process run the command once and return the same value, the one computed from the first call's output |

## Left out

- `Facter.add(:nginxversion)` and `setcode` (`lib/facter/nginx.rb:1-2`, `13-14`): registration with the host framework, which is not part of this model.
- `Facter::Util::Resolution.exec`: spawning the shell, looking up `nginx` on the command search path, merging standard error with `2>&1`, and any trimming of the output. Its result is the opaque `Option<string>` parameter of `Resolve`. The model says nothing about how that result relates to `cut`'s output beyond the lemmas in `PosixCut`.
- `PosixCut.CutOutputLines`: the input to `cut` is given as a list of newline-free lines, each ended by a newline. A final line without a newline is not modelled separately.
- Concurrent resolutions racing on `@@nginxversion`: the model is single-threaded.
- Ruby's regular-expression engine in general: only this one fixed pattern is modelled, as a predicate. Which span the engine reports as the match is not modelled, only whether a match exists.
