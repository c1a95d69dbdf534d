/**
 * The release script: it checks the package version against the anchored
 * pattern `^\d+\.\d+\.\d+(-\w+)?$`, builds the tag name `v<version>` and runs
 * four git commands, ignoring failures of the first two.
 *
 * The pattern is recognised by hand (`Parse`); running a command is a
 * parameter `succeeds` that says whether it exits normally.
 */
module Release {
  import opened Wrappers

  // ---------------------------------------------------------------------------
  // The version pattern
  // ---------------------------------------------------------------------------

  /** `\d` without the unicode flag: ASCII digits only. */
  predicate IsDigit(c: char) { '0' <= c <= '9' }

  /** `\w`: ASCII letters, digits and the underscore. */
  predicate IsWordChar(c: char) {
    'a' <= c <= 'z' || 'A' <= c <= 'Z' || IsDigit(c) || c == '_'
  }

  predicate AllDigits(s: string) { forall i :: 0 <= i < |s| ==> IsDigit(s[i]) }
  predicate AllWordChars(s: string) { forall i :: 0 <= i < |s| ==> IsWordChar(s[i]) }

  /** A version split into the groups of the pattern; the suffix is what follows `-`. */
  datatype Version = Version(major: string, minor: string, patch: string, suffix: Option<string>)

  /** Each group is what its part of the pattern admits: `\d+` three times, then `\w+` if present. */
  predicate WellFormed(v: Version) {
    v.major != [] && AllDigits(v.major) &&
    v.minor != [] && AllDigits(v.minor) &&
    v.patch != [] && AllDigits(v.patch) &&
    (v.suffix.Some? ==> v.suffix.value != [] && AllWordChars(v.suffix.value))
  }

  /** The text of the optional suffix: nothing, or a dash and the suffix. */
  function SuffixText(suffix: Option<string>): string {
    match suffix
    case None => ""
    case Some(w) => "-" + w
  }

  /** The string a version stands for. */
  function Render(v: Version): string {
    v.major + "." + v.minor + "." + v.patch + SuffixText(v.suffix)
  }

  /** The rendering, regrouped as the recogniser splits it. */
  lemma RenderFromParts(v: Version, s1: string, s2: string)
    requires s2 == v.patch + SuffixText(v.suffix)
    requires s1 == v.minor + "." + s2
    ensures Render(v) == v.major + "." + s1
  {
    assert Render(v) == v.major + "." + (v.minor + "." + (v.patch + SuffixText(v.suffix)));
  }

  /** The length of the run of digits that `s` starts with. */
  function DigitRun(s: string): (n: nat)
    ensures n <= |s|
    ensures AllDigits(s[..n])
    ensures n < |s| ==> !IsDigit(s[n])
  {
    if s == [] || !IsDigit(s[0]) then 0
    else
      var k := DigitRun(s[1..]);
      assert s[..k + 1] == [s[0]] + s[1..][..k];
      k + 1
  }

  /** `\d+\.`: a non-empty digit run and the dot after it, split off the front of `s`. */
  function DottedGroup(s: string): (r: Option<(string, string)>)
    ensures r.Some? ==> r.value.0 != [] && AllDigits(r.value.0) && s == r.value.0 + "." + r.value.1
  {
    var a := DigitRun(s);
    if a == 0 || a == |s| || s[a] != '.' then None
    else
      assert s == s[..a] + "." + s[a + 1..];
      Some((s[..a], s[a + 1..]))
  }

  /** `(-\w+)?$`: what may follow the last digit group, up to the end. */
  function Suffix(rest: string): (r: Option<Option<string>>)
    ensures r.Some? ==>
      match r.value
      case None => rest == ""
      case Some(w) => w != [] && AllWordChars(w) && rest == "-" + w
  {
    if rest == [] then Some(None)
    else if rest[0] == '-' && |rest| >= 2 && AllWordChars(rest[1..]) then
      assert rest == "-" + rest[1..];
      Some(Some(rest[1..]))
    else None
  }

  /**
   * The hand-written recogniser: two dotted digit groups, a digit group, and
   * the optional suffix. Digit runs are taken whole, which is all the pattern
   * can do since neither `.` nor `-` is a digit.
   */
  function Parse(s: string): Option<Version> {
    match DottedGroup(s)
    case None => None
    case Some((major, s1)) =>
      match DottedGroup(s1)
      case None => None
      case Some((minor, s2)) =>
        var c := DigitRun(s2);
        if c == 0 then None
        else
          match Suffix(s2[c..])
          case None => None
          case Some(suffix) => Some(Version(major, minor, s2[..c], suffix))
  }

  /** Whatever the recogniser accepts is the rendering of a well-formed version. */
  lemma ParseSound(s: string)
    ensures Parse(s).Some? ==> WellFormed(Parse(s).value) && Render(Parse(s).value) == s
  {
    var g1 := DottedGroup(s);
    if g1.Some? {
      var (major, s1) := g1.value;
      var g2 := DottedGroup(s1);
      if g2.Some? {
        var (minor, s2) := g2.value;
        var c := DigitRun(s2);
        if c != 0 {
          var suf := Suffix(s2[c..]);
          if suf.Some? {
            var v := Version(major, minor, s2[..c], suf.value);
            assert Parse(s) == Some(v);
            assert s2 == s2[..c] + s2[c..];
            assert s2[c..] == SuffixText(suf.value);
            RenderFromParts(v, s1, s2);
          }
        }
      }
    }
  }

  /** The version check of the release script. */
  predicate IsValidVersion(s: string) {
    Parse(s).Some?
  }

  /** A digit run followed by a non-digit (or nothing) is found exactly. */
  lemma {:induction false} DigitRunOf(d: string, rest: string)
    requires AllDigits(d)
    requires rest == [] || !IsDigit(rest[0])
    ensures DigitRun(d + rest) == |d|
  {
    if d != [] {
      assert (d + rest)[1..] == d[1..] + rest;
      DigitRunOf(d[1..], rest);
    }
  }

  lemma DottedGroupOf(d: string, rest: string)
    requires d != [] && AllDigits(d)
    ensures DottedGroup(d + "." + rest) == Some((d, rest))
  {
    assert d + "." + rest == d + ("." + rest);
    DigitRunOf(d, "." + rest);
    assert (d + "." + rest)[..|d|] == d;
    assert (d + "." + rest)[|d| + 1..] == rest;
  }

  lemma SuffixOf(suffix: Option<string>)
    requires suffix.Some? ==> suffix.value != [] && AllWordChars(suffix.value)
    ensures Suffix(SuffixText(suffix)) == Some(suffix)
  {
    if suffix.Some? {
      assert ("-" + suffix.value)[1..] == suffix.value;
    }
  }

  /** The recogniser accepts every well-formed version, and reads it back unchanged. */
  lemma ParseRender(v: Version)
    requires WellFormed(v)
    ensures Parse(Render(v)) == Some(v)
  {
    var tail := SuffixText(v.suffix);
    var s2 := v.patch + tail;
    var s1 := v.minor + "." + s2;
    RenderFromParts(v, s1, s2);
    DottedGroupOf(v.major, s1);
    DottedGroupOf(v.minor, s2);
    DigitRunOf(v.patch, tail);
    assert s2[..|v.patch|] == v.patch;
    assert s2[|v.patch|..] == tail;
    SuffixOf(v.suffix);
  }

  /** A string passes the check exactly when it is the rendering of a well-formed version. */
  lemma ValidIffRendered(s: string)
    ensures IsValidVersion(s) <==> exists v :: WellFormed(v) && Render(v) == s
  {
    ParseSound(s);
    if exists v :: WellFormed(v) && Render(v) == s {
      var v :| WellFormed(v) && Render(v) == s;
      ParseRender(v);
    }
  }

  lemma AcceptedPlain()
    ensures IsValidVersion("1.2.3")
  {
    assert "1.2.3" == "1" + "." + "2" + "." + "3" + "";
    JudgedBySuffix("1", "2", "3", "");
  }

  lemma AcceptedWithSuffix()
    ensures IsValidVersion("1.2.3-beta1")
  {
    BetaIsWord();
    SuffixOf(Some("beta1"));
    assert SuffixText(Some("beta1")) == "-beta1";
    assert "1.2.3-beta1" == "1" + "." + "2" + "." + "3" + "-beta1";
    JudgedBySuffix("1", "2", "3", "-beta1");
  }

  lemma BetaIsWord()
    ensures AllWordChars("beta1")
  {
  }

  /** A leading `v` is rejected: the string must start with a digit. */
  lemma RejectedLeadingV()
    ensures !IsValidVersion("v1.2.3")
  {
    assert DigitRun("v1.2.3") == 0;
  }

  /** Two groups are not enough. */
  lemma RejectedTwoGroups()
    ensures !IsValidVersion("1.2")
  {
    assert "1.2" == "1" + "." + "2";
    DottedGroupOf("1", "2");
    assert DigitRun("2") == 1;
  }

  /** Nothing may follow the third group but the suffix: a trailing dot is rejected. */
  lemma RejectedTrailingDot()
    ensures !IsValidVersion("1.2.3.")
  {
    assert "1.2.3." == "1" + "." + "2" + "." + "3" + ".";
    JudgedBySuffix("1", "2", "3", ".");
  }

  /** `\w` has no dot, so a dotted pre-release suffix is rejected. */
  lemma RejectedDottedSuffix()
    ensures !IsValidVersion("1.2.3-beta.1")
  {
    assert "1.2.3-beta.1" == "1" + "." + "2" + "." + "3" + "-beta.1";
    JudgedBySuffix("1", "2", "3", "-beta.1");
    assert !IsWordChar("-beta.1"[1..][4]);
  }

  /** A dash must be followed by at least one word character. */
  lemma RejectedEmptySuffix()
    ensures !IsValidVersion("1.2.3-")
  {
    assert "1.2.3-" == "1" + "." + "2" + "." + "3" + "-";
    JudgedBySuffix("1", "2", "3", "-");
  }

  /** How `major.minor.patch` followed by `tail` is judged: by the suffix check alone. */
  lemma JudgedBySuffix(major: string, minor: string, patch: string, tail: string)
    requires major != [] && AllDigits(major)
    requires minor != [] && AllDigits(minor)
    requires patch != [] && AllDigits(patch)
    requires tail == [] || !IsDigit(tail[0])
    ensures IsValidVersion(major + "." + minor + "." + patch + tail) == Suffix(tail).Some?
  {
    var s2 := patch + tail;
    var s1 := minor + "." + s2;
    assert major + "." + minor + "." + patch + tail == major + "." + s1;
    DottedGroupOf(major, s1);
    DottedGroupOf(minor, s2);
    DigitRunOf(patch, tail);
    assert s2[|patch|..] == tail;
  }

  // ---------------------------------------------------------------------------
  // Tag name and git commands
  // ---------------------------------------------------------------------------

  /** The template `v${version}`. */
  function TagName(version: string): string {
    "v" + version
  }

  /** Distinct versions give distinct tags, and the version can be read back from the tag. */
  lemma TagNameInjective(a: string, b: string)
    ensures TagName(a)[0] == 'v' && TagName(a)[1..] == a
    ensures TagName(a) == TagName(b) ==> a == b
  {
    assert TagName(a)[1..] == a;
    assert TagName(b)[1..] == b;
  }

  datatype GitCommand =
    | DeleteLocalTag(tag: string)
    | DeleteRemoteTag(tag: string)
    | CreateTag(tag: string, message: string)
    | PushTag(tag: string)

  /** The shell text the script hands to execSync. */
  function CommandLine(c: GitCommand): string {
    match c
    case DeleteLocalTag(t) => "git tag -d " + t
    case DeleteRemoteTag(t) => "git push origin :refs/tags/" + t
    case CreateTag(t, m) => "git tag -a " + t + " -m \"" + m + "\""
    case PushTag(t) => "git push origin " + t
  }

  /** `t` occurs in `s` starting at position `k`. */
  predicate OccursAt(t: string, s: string, k: int) {
    0 <= k && k + |t| <= |s| && s[k..k + |t|] == t
  }

  /** The shell text of every command names the tag it acts on. */
  lemma CommandLineNamesTag(c: GitCommand)
    ensures exists k :: OccursAt(c.tag, CommandLine(c), k)
  {
    match c
    case DeleteLocalTag(t) =>
      assert OccursAt(t, CommandLine(c), 11);
    case DeleteRemoteTag(t) =>
      assert OccursAt(t, CommandLine(c), 27);
    case CreateTag(t, m) =>
      assert CommandLine(c) == "git tag -a " + t + (" -m \"" + m + "\"");
      assert OccursAt(t, CommandLine(c), 11);
    case PushTag(t) =>
      assert OccursAt(t, CommandLine(c), 16);
  }

  /** Every command of a release acts on the release's tag, and the annotation message names it too. */
  lemma PlanNamesTag(tag: string)
    ensures |ReleasePlan(tag)| == 4
    ensures forall i :: 0 <= i < 4 ==> ReleasePlan(tag)[i].tag == tag
    ensures ReleasePlan(tag)[2].CreateTag? && OccursAt(tag, ReleasePlan(tag)[2].message, 8)
    ensures forall i :: 0 <= i < 4 ==> exists k :: OccursAt(tag, CommandLine(ReleasePlan(tag)[i]), k)
  {
    var plan := ReleasePlan(tag);
    CommandLineNamesTag(plan[0]);
    CommandLineNamesTag(plan[1]);
    CommandLineNamesTag(plan[2]);
    CommandLineNamesTag(plan[3]);
  }

  /** Only the two deletions sit inside a try whose catch ignores the error. */
  predicate FailureIgnored(c: GitCommand) {
    c.DeleteLocalTag? || c.DeleteRemoteTag?
  }

  /** The commands of a release, in the order the script issues them. */
  function ReleasePlan(tag: string): seq<GitCommand> {
    [DeleteLocalTag(tag), DeleteRemoteTag(tag), CreateTag(tag, "Release " + tag), PushTag(tag)]
  }

  datatype Exit = Released | InvalidVersion | CommandFailed(command: GitCommand)

  /** What a run did: the commands issued, in order, and how it ended. */
  datatype Run = Run(issued: seq<GitCommand>, exit: Exit)

  /** Issues the commands in order; a failing command stops the run unless its failure is ignored. */
  function Execute(plan: seq<GitCommand>, succeeds: GitCommand -> bool): Run {
    if plan == [] then Run([], Released)
    else if succeeds(plan[0]) || FailureIgnored(plan[0]) then
      var rest := Execute(plan[1..], succeeds);
      Run([plan[0]] + rest.issued, rest.exit)
    else
      Run([plan[0]], CommandFailed(plan[0]))
  }

  /** The whole script: the version check, then the plan for its tag. */
  function RunRelease(version: string, succeeds: GitCommand -> bool): Run {
    if !IsValidVersion(version) then Run([], InvalidVersion)
    else Execute(ReleasePlan(TagName(version)), succeeds)
  }

  /**
   * A run issues a prefix of its plan, in order; when it ends Released it
   * issued the whole plan, and otherwise it ends at the last command issued,
   * which failed and whose failure is not ignored.
   */
  lemma {:induction false} ExecutePrefix(plan: seq<GitCommand>, succeeds: GitCommand -> bool)
    ensures |Execute(plan, succeeds).issued| <= |plan|
    ensures Execute(plan, succeeds).issued == plan[..|Execute(plan, succeeds).issued|]
    ensures Execute(plan, succeeds).exit.Released? ==> Execute(plan, succeeds).issued == plan
    ensures Execute(plan, succeeds).exit.CommandFailed? ==>
      var n := |Execute(plan, succeeds).issued|;
      n > 0 && Execute(plan, succeeds).exit.command == plan[n - 1] &&
      !succeeds(plan[n - 1]) && !FailureIgnored(plan[n - 1])
    ensures !Execute(plan, succeeds).exit.InvalidVersion?
  {
    if plan != [] {
      ExecutePrefix(plan[1..], succeeds);
      if succeeds(plan[0]) || FailureIgnored(plan[0]) {
        var rest := Execute(plan[1..], succeeds);
        assert plan[..|rest.issued| + 1] == [plan[0]] + plan[1..][..|rest.issued|];
      }
    }
  }

  /** A run ends Released exactly when every command whose failure is not ignored succeeds. */
  lemma {:induction false} ExecuteReleasedIff(plan: seq<GitCommand>, succeeds: GitCommand -> bool)
    ensures Execute(plan, succeeds).exit.Released? <==>
      forall i :: 0 <= i < |plan| && !FailureIgnored(plan[i]) ==> succeeds(plan[i])
  {
    if plan != [] {
      ExecuteReleasedIff(plan[1..], succeeds);
      assert forall i :: 0 < i < |plan| ==> plan[i] == plan[1..][i - 1];
    }
  }

  /** Whether the deletions succeed changes nothing about a run. */
  lemma {:induction false} ExecuteIgnoresIgnorable(plan: seq<GitCommand>, s1: GitCommand -> bool, s2: GitCommand -> bool)
    requires forall c :: !FailureIgnored(c) ==> s1(c) == s2(c)
    ensures Execute(plan, s1) == Execute(plan, s2)
  {
    if plan != [] {
      ExecuteIgnoresIgnorable(plan[1..], s1, s2);
    }
  }

  /** An invalid version stops the script before any git command. */
  lemma InvalidIssuesNothing(version: string, succeeds: GitCommand -> bool)
    requires !IsValidVersion(version)
    ensures RunRelease(version, succeeds) == Run([], InvalidVersion)
  {
  }

  /** The last two commands: the push is issued only after the creation succeeded. */
  lemma ExecuteCreatePush(create: GitCommand, push: GitCommand, succeeds: GitCommand -> bool)
    requires !FailureIgnored(create) && !FailureIgnored(push)
    ensures Execute([create, push], succeeds) ==
      if !succeeds(create) then Run([create], CommandFailed(create))
      else if !succeeds(push) then Run([create, push], CommandFailed(push))
      else Run([create, push], Released)
  {
    assert [create, push][1..] == [push];
    assert [push][1..] == [];
    assert Execute([push], succeeds) ==
      if succeeds(push) then Run([push], Released) else Run([push], CommandFailed(push));
  }

  /**
   * For a valid version the two deletions and the tag creation are always
   * issued, the push only if the creation succeeded, and the release succeeds
   * exactly when both the creation and the push do.
   */
  lemma ValidRelease(version: string, succeeds: GitCommand -> bool)
    requires IsValidVersion(version)
    ensures var tag := TagName(version);
      var create := CreateTag(tag, "Release " + tag);
      var r := RunRelease(version, succeeds);
      |r.issued| >= 3 &&
      r.issued[..3] == [DeleteLocalTag(tag), DeleteRemoteTag(tag), create] &&
      (r.issued == ReleasePlan(tag) <==> succeeds(create)) &&
      (r.exit == Released <==> succeeds(create) && succeeds(PushTag(tag))) &&
      (!succeeds(create) ==> r.exit == CommandFailed(create)) &&
      (succeeds(create) && !succeeds(PushTag(tag)) ==> r.exit == CommandFailed(PushTag(tag)))
  {
    var tag := TagName(version);
    var create, push := CreateTag(tag, "Release " + tag), PushTag(tag);
    var plan := ReleasePlan(tag);
    assert plan[1..] == [DeleteRemoteTag(tag), create, push];
    assert plan[1..][1..] == [create, push];
    ExecuteCreatePush(create, push, succeeds);
    var tail := Execute([create, push], succeeds);
    assert Execute(plan, succeeds) == Run([DeleteLocalTag(tag), DeleteRemoteTag(tag)] + tail.issued, tail.exit);
  }
}
