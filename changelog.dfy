/** The changelog hooks of versionist.conf.js: which commits enter the
    changelog, the version increment a commit asks for, and the issue link
    attached to each commit before the changelog template is rendered. */
module Changelog {
  import opened Common

  const ChangeType: string := "Change-Type"
  const ConnectsTo: string := "Connects-To"

  /** The issue tracker every link points into (line 29). */
  const TrackerUrl: string := "https://github.com/resin-io-modules/resin-discoverable-services/issues/"

  /** A commit as the changelog tool hands it over: its parsed footer tags,
      which the hooks only read, and the `issue` property the template
      reads, which `transformTemplateData` may set. */
  class Commit {
    const footer: map<string, string>
    var issue: Option<string>

    constructor (footer: map<string, string>, issue: Option<string>)
      ensures this.footer == footer && this.issue == issue
    {
      this.footer := footer;
      this.issue := issue;
    }
  }

  /** The data object passed to `transformTemplateData`. */
  class TemplateData {
    var commits: seq<Commit>

    constructor (commits: seq<Commit>)
      ensures this.commits == commits
    {
      this.commits := commits;
    }
  }

  /** `footer[key]` when it is truthy: present and not the empty string. */
  function FooterValue(footer: map<string, string>, key: string): (r: Option<string>)
    ensures r.Some? ==> key in footer && r.value == footer[key] && r.value != ""
    ensures r.None? ==> key !in footer || footer[key] == ""
  {
    if key in footer && footer[key] != "" then Some(footer[key]) else None
  }

  // ---------------------------------------------------------------------
  // String.prototype.trim

  /** The characters `trim` removes: ECMAScript's WhiteSpace (tab, vertical
      tab, form feed, space, no-break space, the byte order mark and the
      other space separators) and its LineTerminator characters. */
  predicate IsJsSpace(c: char)
  {
    c == '\t' || c == '\U{000B}' || c == '\U{000C}' || c == ' ' || c == '\U{00A0}' || c == '\U{FEFF}'
    || c == '\U{1680}' || ('\U{2000}' <= c <= '\U{200A}') || c == '\U{202F}' || c == '\U{205F}' || c == '\U{3000}'
    || c == '\n' || c == '\r' || c == '\U{2028}' || c == '\U{2029}'
  }

  predicate AllSpace(s: string)
  {
    forall k :: 0 <= k < |s| ==> IsJsSpace(s[k])
  }

  /** Neither end of `r` is a character `trim` removes. */
  predicate Trimmed(r: string)
  {
    r == [] || (!IsJsSpace(r[0]) && !IsJsSpace(r[|r| - 1]))
  }

  /** The number of removable characters at the start of `s`. */
  function LeadingSpace(s: string): (n: nat)
    ensures n <= |s| && AllSpace(s[..n])
    ensures n < |s| ==> !IsJsSpace(s[n])
  {
    if s == [] || !IsJsSpace(s[0]) then 0
    else
      var n := LeadingSpace(s[1..]);
      assert forall k :: 1 <= k < n + 1 ==> s[k] == s[1..][k - 1];
      n + 1
  }

  /** The number of removable characters at the end of `s`. */
  function TrailingSpace(s: string): (n: nat)
    ensures n <= |s| && AllSpace(s[|s| - n..])
    ensures n < |s| ==> !IsJsSpace(s[|s| - n - 1])
  {
    if s == [] || !IsJsSpace(s[|s| - 1]) then 0
    else
      var front := s[..|s| - 1];
      var n := TrailingSpace(front);
      var tail := s[|s| - (n + 1)..];
      assert AllSpace(tail) by {
        forall k | 0 <= k < |tail| ensures IsJsSpace(tail[k]) {
          if k < n {
            assert tail[k] == front[|front| - n..][k];
          }
        }
      }
      n + 1
  }

  /** `s.trim()`: `s` without its leading and trailing removable
      characters. The result is the slice of `s` that is left when only
      removable characters are cut from either end, and neither of its
      ends is removable. */
  function Trim(s: string): (r: string)
    ensures |r| <= |s|
    ensures var i := LeadingSpace(s);
            i + |r| <= |s| && r == s[i..i + |r|] && AllSpace(s[..i]) && AllSpace(s[i + |r|..])
    ensures Trimmed(r)
  {
    var a := LeadingSpace(s);
    var rest := s[a..];
    var b := TrailingSpace(rest);
    var r := rest[..|rest| - b];
    assert r == s[a..a + |r|];
    assert s[a + |r|..] == rest[|rest| - b..];
    assert r != [] ==> r[0] == s[a];
    r
  }

  /** Cutting removable characters from the ends of `s` can give only one
      string whose ends are not removable: it is `s.trim()`. */
  lemma TrimUnique(s: string, r: string, i: nat)
    requires i + |r| <= |s| && r == s[i..i + |r|] && AllSpace(s[..i]) && AllSpace(s[i + |r|..])
    requires Trimmed(r)
    ensures r == Trim(s)
  {
    var t := Trim(s);
    var j := LeadingSpace(s);
    SliceEnds(s, r, i);
    SliceEnds(s, t, j);
    if r == [] || t == [] {
      // One of them is empty, so every character of `s` is removable,
      // and a slice of `s` with non-removable ends is empty.
      AllSpaceAround(s, if r == [] then i else j);
    } else {
      SameSlice(s, r, i, t, j);
    }
  }

  /** Two non-empty slices with non-removable ends and only removable
      characters around them are the same slice. */
  lemma SameSlice(s: string, r: string, i: nat, t: string, j: nat)
    requires i + |r| <= |s| && r == s[i..i + |r|] && AllSpace(s[..i]) && AllSpace(s[i + |r|..])
    requires j + |t| <= |s| && t == s[j..j + |t|] && AllSpace(s[..j]) && AllSpace(s[j + |t|..])
    requires r != [] && t != [] && Trimmed(r) && Trimmed(t)
    ensures r == t
  {
    SliceEnds(s, r, i);
    SliceEnds(s, t, j);
    assert i == j by {
      SpaceBefore(s, i, j);
      SpaceBefore(s, j, i);
    }
    assert i + |r| == j + |t| by {
      SpaceAfter(s, i + |r|, j + |t| - 1);
      SpaceAfter(s, j + |t|, i + |r| - 1);
    }
  }

  /** The ends of a non-empty slice are characters of the sequence. */
  lemma SliceEnds(s: string, r: string, i: nat)
    requires i + |r| <= |s| && r == s[i..i + |r|]
    ensures r != [] ==> r[0] == s[i] && r[|r| - 1] == s[i + |r| - 1]
  {
  }

  /** With removable characters on both sides of `i`, all of `s` is removable. */
  lemma AllSpaceAround(s: string, i: nat)
    requires i <= |s| && AllSpace(s[..i]) && AllSpace(s[i..])
    ensures AllSpace(s)
  {
    forall k | 0 <= k < |s| ensures IsJsSpace(s[k]) {
      if k < i {
        assert s[..i][k] == s[k];
      } else {
        assert s[i..][k - i] == s[k];
      }
    }
  }

  /** A character before a removable prefix's end is removable. */
  lemma SpaceBefore(s: string, k: nat, j: nat)
    ensures k < j <= |s| && AllSpace(s[..j]) ==> IsJsSpace(s[k])
  {
    if k < j <= |s| {
      assert s[..j][k] == s[k];
    }
  }

  /** A character after a removable suffix's start is removable. */
  lemma SpaceAfter(s: string, j: nat, k: nat)
    ensures j <= k < |s| && AllSpace(s[j..]) ==> IsJsSpace(s[k])
  {
    if j <= k < |s| {
      assert s[j..][k - j] == s[k];
    }
  }

  /** `trim` is idempotent. */
  lemma TrimIdempotent(s: string)
    ensures Trim(Trim(s)) == Trim(s)
  {
    var t := Trim(s);
    assert t == t[0..0 + |t|] && t[..0] == [] && t[0 + |t|..] == [];
    TrimUnique(t, t, 0);
  }

  // ---------------------------------------------------------------------
  // The hooks

  /** `includeCommitWhen` (lines 14-16): `!!commit.footer['Change-Type']`. */
  function IncludeCommitWhen(commit: Commit): (r: bool)
    ensures r <==> ChangeType in commit.footer && commit.footer[ChangeType] != ""
  {
    FooterValue(commit.footer, ChangeType).Some?
  }

  /** `getIncrementLevelFromCommit` (lines 20-24): the trimmed
      `Change-Type` value, or `undefined` (here `None`) when the tag is
      missing or empty. */
  function GetIncrementLevelFromCommit(commit: Commit): (r: Option<string>)
    ensures r.Some? ==> ChangeType in commit.footer && Trimmed(r.value) && |r.value| <= |commit.footer[ChangeType]|
  {
    match FooterValue(commit.footer, ChangeType)
    case None => None
    case Some(v) => Some(Trim(v))
  }

  /** The changelog holds exactly the commits that state an increment
      level; the level is the tag's value without surrounding blanks, and
      is a fixed point of `trim`. */
  lemma IncludedIffLevel(commit: Commit)
    ensures IncludeCommitWhen(commit) <==> GetIncrementLevelFromCommit(commit).Some?
    ensures IncludeCommitWhen(commit) ==>
      var level := GetIncrementLevelFromCommit(commit).value;
      Trim(level) == level && level == Trim(commit.footer[ChangeType])
  {
    if IncludeCommitWhen(commit) {
      TrimIdempotent(commit.footer[ChangeType]);
    }
  }

  /** A non-empty `Change-Type` made only of removable characters is
      truthy, so the commit is included, and its level is the empty string. */
  lemma BlankChangeType(commit: Commit)
    requires ChangeType in commit.footer && commit.footer[ChangeType] != [] && AllSpace(commit.footer[ChangeType])
    ensures IncludeCommitWhen(commit) && GetIncrementLevelFromCommit(commit) == Some("")
  {
    var v := commit.footer[ChangeType];
    assert v[..0] == [] && v[0 + 0..] == v;
    TrimUnique(v, [], 0);
  }

  predicate IsDigit(c: char)
  {
    '0' <= c <= '9'
  }

  /** `/^#[0-9]+$/.test(t)`: a `#` and one or more decimal digits, and
      nothing else (without the `m` flag `$` matches only at the end). */
  predicate IsIssueRef(t: string): (r: bool)
    ensures r ==> |t| >= 2 && forall k :: 0 <= k < |t| ==> !IsJsSpace(t[k])
    ensures r ==> Trimmed(t)
  {
    |t| >= 2 && t[0] == '#' && forall k :: 1 <= k < |t| ==> IsDigit(t[k])
  }

  /** The link lines 32-36 attach for a footer, if any: the tracker URL
      followed by the issue number of a trimmed `#<digits>` `Connects-To`
      value. */
  function IssueLink(footer: map<string, string>): (r: Option<string>)
    ensures r.Some? <==> ConnectsTo in footer && IsIssueRef(Trim(footer[ConnectsTo]))
    ensures r.Some? ==>
      |r.value| > |TrackerUrl| && r.value[..|TrackerUrl|] == TrackerUrl
      && "#" + r.value[|TrackerUrl|..] == Trim(footer[ConnectsTo])
  {
    match FooterValue(footer, ConnectsTo)
    case None =>
      assert ConnectsTo in footer ==> Trim(footer[ConnectsTo]) == [];
      None
    case Some(v) =>
      var t := Trim(v);
      if IsIssueRef(t) then
        var link := TrackerUrl + t[1..];
        assert link[..|TrackerUrl|] == TrackerUrl && link[|TrackerUrl|..] == t[1..];
        assert "#" + t[1..] == t;
        Some(link)
      else None
  }

  /** The `issue` of a commit with `footer` after the `forEach` body, given
      its `issue` before. */
  function Updated(footer: map<string, string>, previous: Option<string>): (r: Option<string>)
    ensures IssueLink(footer).None? ==> r == previous
    ensures IssueLink(footer).Some? ==> r == IssueLink(footer)
  {
    if IssueLink(footer).Some? then IssueLink(footer) else previous
  }

  /** Running the body twice on the same commit changes nothing more:
      a commit listed twice ends as if listed once. */
  lemma UpdatedIdempotent(footer: map<string, string>, previous: Option<string>)
    ensures Updated(footer, Updated(footer, previous)) == Updated(footer, previous)
  {
  }

  /** An issue link is set exactly when the footer names one, and the
      issue number can be read back from the link. */
  lemma IssueLinkRoundTrip(footer: map<string, string>, digits: string)
    requires forall k :: 0 <= k < |digits| ==> IsDigit(digits[k])
    requires digits != [] && ConnectsTo in footer && Trim(footer[ConnectsTo]) == "#" + digits
    ensures IssueLink(footer) == Some(TrackerUrl + digits)
  {
    var t := "#" + digits;
    assert forall k :: 1 <= k < |t| ==> t[k] == digits[k - 1];
    assert t[1..] == digits;
  }

  /** The `forEach` body at lines 32-37 for one commit. */
  method UpdateIssue(commit: Commit)
    modifies commit
    ensures commit.issue == Updated(commit.footer, old(commit.issue))
  {
    if ConnectsTo in commit.footer && commit.footer[ConnectsTo] != "" {
      var t := Trim(commit.footer[ConnectsTo]);
      if IsIssueRef(t) {
        commit.issue := Some(TrackerUrl + t[1..]);
      }
    }
  }

  /** `transformTemplateData` (lines 28-41): sets `issue` on each commit
      whose `Connects-To` names an issue, leaves every other commit as it
      was, keeps the list of commits, and returns the same object. */
  method TransformTemplateData(data: TemplateData) returns (r: TemplateData)
    modifies set c | c in data.commits
    ensures r == data && data.commits == old(data.commits)
    ensures forall c :: c in data.commits ==> c.issue == Updated(c.footer, old(c.issue))
  {
    ghost var done: set<Commit> := {};
    var i := 0;
    while i < |data.commits|
      invariant 0 <= i <= |data.commits|
      invariant data.commits == old(data.commits)
      invariant forall k :: 0 <= k < i ==> data.commits[k] in done
      invariant forall c :: c in data.commits ==>
        c.issue == (if c in done then Updated(c.footer, old(c.issue)) else old(c.issue))
    {
      var commit := data.commits[i];
      UpdatedIdempotent(commit.footer, old(commit.issue));
      UpdateIssue(commit);
      done := done + {commit};
      i := i + 1;
    }
    return data;
  }
}
