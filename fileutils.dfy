/**
 * `getHeadingLevel` and the file-text path of `updateSection` (src/fileUtils.ts).
 *
 * A note is split into lines; a scan finds the target heading line and the first
 * later line that opens a sibling or ancestor section; the lines in between are
 * replaced by the new section contents. When the heading is absent, a blank line,
 * the heading and the contents are appended.
 */
module FileUtils {
  import opened Wrappers
  import opened Text

  /* ---------------- Heading classification ---------------- */

  /** Length of the run of '#' that `s` starts with. */
  function HashRun(s: string): (n: nat)
    ensures n <= |s|
    ensures forall i :: 0 <= i < n ==> s[i] == '#'
    ensures n < |s| ==> s[n] != '#'
  {
    if |s| > 0 && s[0] == '#' then 1 + HashRun(s[1..]) else 0
  }

  /** The regular expression `^(#{1,6})\s+\S` matching `line` with a group of `k` characters. */
  ghost predicate MatchesHeadingPattern(line: string, k: nat) {
    1 <= k <= 6 && k < |line| &&
    (forall i :: 0 <= i < k ==> line[i] == '#') &&
    exists j :: k < j < |line| && !IsSpace(line[j]) && forall m :: k <= m < j ==> IsSpace(line[m])
  }

  /** `getHeadingLevel(line)`: the number of leading '#' when the line is a heading, else `None`. */
  function HeadingLevel(line: string): (level: Option<nat>)
    ensures level.Some? ==> 1 <= level.value <= 6 && level.value < |line| && IsSpace(line[level.value])
  {
    var k := HashRun(line);
    if 1 <= k <= 6 && k < |line| && IsSpace(line[k]) && !AllSpace(line[k..]) then Some(k) else None
  }

  lemma {:induction false} FirstNonSpace(s: string, k: nat)
    requires k <= |s| && !AllSpace(s[k..])
    ensures exists j :: k <= j < |s| && !IsSpace(s[j]) && forall m :: k <= m < j ==> IsSpace(s[m])
    decreases |s| - k
  {
    if IsSpace(s[k]) {
      assert !AllSpace(s[k + 1..]) by {
        var i :| 0 <= i < |s[k..]| && !IsSpace(s[k..][i]);
        assert i != 0;
        assert s[k + 1..][i - 1] == s[k..][i];
      }
      FirstNonSpace(s, k + 1);
    }
  }

  /** The classifier agrees with the regular expression: the level is `k` exactly when the
      line starts with exactly `k` '#' (1 to 6), then white space, then a non-space character. */
  lemma {:induction false} HeadingLevelMatchesPattern(line: string, k: nat)
    ensures HeadingLevel(line) == Some(k) <==> MatchesHeadingPattern(line, k)
  {
    if HeadingLevel(line) == Some(k) {
      HeadingLevelIsPattern(line, k);
    }
    if MatchesHeadingPattern(line, k) {
      PatternIsHeadingLevel(line, k);
    }
  }

  lemma {:induction false} HeadingLevelIsPattern(line: string, k: nat)
    requires HeadingLevel(line) == Some(k)
    ensures MatchesHeadingPattern(line, k)
  {
    FirstNonSpace(line, k + 1);
    var j :| k + 1 <= j < |line| && !IsSpace(line[j]) && forall m :: k + 1 <= m < j ==> IsSpace(line[m]);
    assert forall m :: k <= m < j ==> IsSpace(line[m]);
  }

  lemma {:induction false} PatternIsHeadingLevel(line: string, k: nat)
    requires MatchesHeadingPattern(line, k)
    ensures HeadingLevel(line) == Some(k)
  {
    var j :| k < j < |line| && !IsSpace(line[j]) && forall m :: k <= m < j ==> IsSpace(line[m]);
    assert IsSpace(line[k]) && line[k] != '#';
    assert HashRun(line) == k;
    assert line[k..][j - k] == line[j];
  }

  /** A heading has content: `#` then only white space is not a heading. */
  lemma {:induction false} HeadingLevelNeedsContent(line: string)
    requires AllSpace(line[HashRun(line)..])
    ensures HeadingLevel(line) == None
  {
    var k := HashRun(line);
    if 1 <= k <= 6 && k < |line| {
      assert line[k..][1..] == line[k + 1..];
    }
  }

  /* ---------------- The scan (src/fileUtils.ts, lines 21-34) ---------------- */

  /** `fileLines[i].trim() === heading`: the file line is trimmed, the heading is not. */
  predicate Matches(line: string, heading: string) {
    Trim(line) == heading
  }

  /** `currLevel && currLevel <= headingLevel`: a heading at the target's level or shallower.
      When the target is not a heading its level is `null` and nothing is a boundary. */
  predicate IsBoundary(line: string, level: Option<nat>) {
    level.Some? && HeadingLevel(line).Some? && HeadingLevel(line).value <= level.value
  }

  /** The per-line answers to the loop's two questions: does the line trim to the heading,
      and is it a boundary for the target's level. */
  function MatchFlags(lines: seq<string>, heading: string): (m: seq<bool>)
    ensures |m| == |lines|
  {
    seq(|lines|, j requires 0 <= j < |lines| => Matches(lines[j], heading))
  }

  function BoundaryFlags(lines: seq<string>, level: Option<nat>): (bd: seq<bool>)
    ensures |bd| == |lines|
  {
    seq(|lines|, j requires 0 <= j < |lines| => IsBoundary(lines[j], level))
  }

  /** No line before index `h` could have ended the scan: a line ends it when it is a
      boundary that does not itself match (the equality test comes first) and a match came
      before it; so every such line before `h` precedes the first match. */
  ghost predicate NoStopBefore(m: seq<bool>, bd: seq<bool>, h: int)
    requires |m| == |bd|
  {
    forall j :: 0 <= j < h && j < |m| && !m[j] && bd[j] ==> forall i :: 0 <= i < j ==> !m[i]
  }

  /** What the two sentinels mean once the loop has looked at the first `i` lines. */
  ghost predicate ScanInvariant(m: seq<bool>, bd: seq<bool>, i: int, h: int) {
    |m| == |bd| && 0 <= i <= |m| && -1 <= h < i &&
    (h == -1 ==> forall j :: 0 <= j < i ==> !m[j]) &&
    (h != -1 ==> m[h] && NoStopBefore(m, bd, h) && (forall j :: h < j < i ==> !m[j] && !bd[j]))
  }

  /** What the scan computes: `h` is the heading line (-1 when no line matches); it is the last
      matching line before `b`, the first later line that is a boundary and does not match
      (-1 when there is none, so the section runs to the end of the file). */
  ghost predicate IsScanResult(m: seq<bool>, bd: seq<bool>, h: int, b: int) {
    |m| == |bd| && -1 <= h < |m| && -1 <= b < |m| &&
    (h == -1 ==> b == -1 && forall j :: 0 <= j < |m| ==> !m[j]) &&
    (h != -1 ==>
      (m[h] && NoStopBefore(m, bd, h) &&
       (b == -1 ==> forall j :: h < j < |m| ==> !m[j] && !bd[j]) &&
       (b != -1 ==> h < b && !m[b] && bd[b] && forall j :: h < j < b ==> !m[j] && !bd[j])))
  }

  /** `IsScanResult` for the lines of a file and a target heading. */
  ghost predicate IsSectionScan(lines: seq<string>, heading: string, h: int, b: int) {
    IsScanResult(MatchFlags(lines, heading), BoundaryFlags(lines, HeadingLevel(heading)), h, b)
  }

  /** The scan loop from index `i` with the heading sentinel at `h`, as a recursive function. */
  function LocateFrom(m: seq<bool>, bd: seq<bool>, i: nat, h: int): (r: (int, int))
    requires |m| == |bd| && i <= |m| && -1 <= h < i
    ensures -1 <= r.0 < |m| && -1 <= r.1 < |m|
    ensures h != -1 ==> r.0 != -1
    ensures r.1 != -1 ==> r.0 != -1 && i <= r.1 && r.0 < r.1
    decreases |m| - i
  {
    if i == |m| then (h, -1)
    else if m[i] then LocateFrom(m, bd, i + 1, i)
    else if h != -1 && bd[i] then (h, i)
    else LocateFrom(m, bd, i + 1, h)
  }

  /** The pair (`logbookSectionLineNum`, `nextSectionLineNum`) the scan ends with. */
  function Locate(lines: seq<string>, heading: string): (r: (int, int))
    ensures -1 <= r.0 < |lines| && -1 <= r.1 < |lines|
    ensures r.1 != -1 ==> r.0 != -1 && r.0 < r.1
  {
    LocateFrom(MatchFlags(lines, heading), BoundaryFlags(lines, HeadingLevel(heading)), 0, -1)
  }

  /** A line that matches becomes the new heading line (line 26). */
  lemma {:induction false} ScanStepMatch(m: seq<bool>, bd: seq<bool>, i: int, h: int)
    requires ScanInvariant(m, bd, i, h) && i < |m| && m[i]
    ensures ScanInvariant(m, bd, i + 1, i)
  {
    forall j | 0 <= j < i && !m[j] && bd[j]
      ensures forall k :: 0 <= k < j ==> !m[k]
    {
      if h != -1 {
        assert j < h;
      }
    }
  }

  /** A line that neither matches nor stops the scan leaves the sentinels as they are. */
  lemma {:induction false} ScanStepSkip(m: seq<bool>, bd: seq<bool>, i: int, h: int)
    requires ScanInvariant(m, bd, i, h) && i < |m|
    requires !m[i] && !(h != -1 && bd[i])
    ensures ScanInvariant(m, bd, i + 1, h)
  {
  }

  /** A boundary after the heading that does not itself match ends the scan (lines 29-31). */
  lemma {:induction false} ScanStepStop(m: seq<bool>, bd: seq<bool>, i: int, h: int)
    requires ScanInvariant(m, bd, i, h) && i < |m|
    requires !m[i] && h != -1 && bd[i]
    ensures IsScanResult(m, bd, h, i)
  {
  }

  /** Running out of lines ends the scan without a boundary. */
  lemma {:induction false} ScanStepEnd(m: seq<bool>, bd: seq<bool>, h: int)
    requires ScanInvariant(m, bd, |m|, h)
    ensures IsScanResult(m, bd, h, -1)
  {
  }

  lemma {:induction false} LocateFromSound(m: seq<bool>, bd: seq<bool>, i: nat, h: int)
    requires ScanInvariant(m, bd, i, h)
    ensures var r := LocateFrom(m, bd, i, h); IsScanResult(m, bd, r.0, r.1)
    decreases |m| - i
  {
    if i < |m| {
      if m[i] {
        ScanStepMatch(m, bd, i, h);
        LocateFromSound(m, bd, i + 1, i);
      } else if !(h != -1 && bd[i]) {
        ScanStepSkip(m, bd, i, h);
        LocateFromSound(m, bd, i + 1, h);
      }
    }
  }

  /** The scan's outcome is determined by the flags: at most one pair meets `IsScanResult`. */
  lemma {:induction false} ScanResultUnique(m: seq<bool>, bd: seq<bool>, h1: int, b1: int, h2: int, b2: int)
    requires IsScanResult(m, bd, h1, b1) && IsScanResult(m, bd, h2, b2)
    ensures h1 == h2 && b1 == b2
  {
    if h1 < h2 {
      SameHeadingLine(m, bd, h1, b1, h2, b2);
    } else if h2 < h1 {
      SameHeadingLine(m, bd, h2, b2, h1, b1);
    } else if b1 < b2 {
      SameBoundary(m, bd, h1, b1, b2);
    } else if b2 < b1 {
      SameBoundary(m, bd, h1, b2, b1);
    }
  }

  /** Two scan results cannot disagree on the heading line: if `h1 < h2`, the match at `h2`
      lies past the first result's section, so its boundary `b1` ends the scan after the match
      at `h1`, which the second result rules out. */
  lemma {:induction false} SameHeadingLine(m: seq<bool>, bd: seq<bool>, h1: int, b1: int, h2: int, b2: int)
    requires IsScanResult(m, bd, h1, b1) && IsScanResult(m, bd, h2, b2)
    requires h1 <= h2
    ensures h1 == h2
  {
  }

  /** Two scan results with the same heading line cannot disagree on the boundary. */
  lemma {:induction false} SameBoundary(m: seq<bool>, bd: seq<bool>, h: int, b1: int, b2: int)
    requires IsScanResult(m, bd, h, b1) && IsScanResult(m, bd, h, b2)
    requires b1 <= b2
    ensures b1 == b2
  {
  }

  /** What `Locate` returns meets the scan's specification. */
  lemma {:induction false} LocateSound(lines: seq<string>, heading: string)
    ensures IsSectionScan(lines, heading, Locate(lines, heading).0, Locate(lines, heading).1)
  {
    LocateFromSound(MatchFlags(lines, heading), BoundaryFlags(lines, HeadingLevel(heading)), 0, -1);
  }

  /** Any pair meeting the scan's specification is what `Locate` returns. */
  lemma {:induction false} LocateComplete(lines: seq<string>, heading: string, h: int, b: int)
    requires IsSectionScan(lines, heading, h, b)
    ensures Locate(lines, heading) == (h, b)
  {
    var m, bd := MatchFlags(lines, heading), BoundaryFlags(lines, HeadingLevel(heading));
    LocateSound(lines, heading);
    var r := Locate(lines, heading);
    ScanResultUnique(m, bd, h, b, r.0, r.1);
  }

  /** The recursive scan is exactly what the loop specification allows, in both directions. */
  lemma {:induction false} LocateCharacterized(lines: seq<string>, heading: string, h: int, b: int)
    ensures IsSectionScan(lines, heading, h, b) <==> Locate(lines, heading) == (h, b)
  {
    LocateSound(lines, heading);
    if IsSectionScan(lines, heading, h, b) {
      LocateComplete(lines, heading, h, b);
    }
  }

  /** The loop of `updateSection` (lines 21-34), with its two sentinel indices. */
  method Scan(lines: seq<string>, heading: string) returns (h: int, b: int)
    ensures (h, b) == Locate(lines, heading)
  {
    var level := HeadingLevel(heading);
    ghost var m, bd := MatchFlags(lines, heading), BoundaryFlags(lines, level);
    h, b := -1, -1;
    var i := 0;
    while i < |lines|
      invariant ScanInvariant(m, bd, i, h)
      invariant b == -1
      decreases |lines| - i
    {
      assert m[i] == (Trim(lines[i]) == heading);
      if Trim(lines[i]) == heading {
        ScanStepMatch(m, bd, i, h);
        h := i;
      } else if h != -1 {
        var current := HeadingLevel(lines[i]);
        assert bd[i] == (current.Some? && level.Some? && current.value <= level.value);
        if current.Some? && level.Some? && current.value <= level.value {
          ScanStepStop(m, bd, i, h);
          b := i;
          break;
        }
        ScanStepSkip(m, bd, i, h);
      } else {
        ScanStepSkip(m, bd, i, h);
      }
      i := i + 1;
    }
    if b == -1 {
      ScanStepEnd(m, bd, h);
    }
    LocateComplete(lines, heading, h, b);
  }

  /** A target heading that is not itself a heading never meets a boundary:
      its section runs to the end of the file. */
  lemma {:induction false} NonHeadingTargetRunsToEnd(lines: seq<string>, heading: string)
    requires HeadingLevel(heading) == None
    ensures Locate(lines, heading).1 == -1
  {
    var r := Locate(lines, heading);
    LocateSound(lines, heading);
  }

  /* ---------------- The rewrite (src/fileUtils.ts, lines 53-63) ---------------- */

  /** The text `updateSection` hands to `vault.modify`: with the heading found, the lines up to
      and including it, then the new contents, then the lines from the boundary on (none when
      there is no boundary); with the heading absent, the old lines, a blank line, the heading
      and the contents. */
  function UpdatedContents(fileContents: string, heading: string, sectionContents: string): string {
    var lines := Split(fileContents);
    var r := Locate(lines, heading);
    if r.0 != -1 then
      var suffix := if r.1 != -1 then lines[r.1..] else [];
      Join(lines[..r.0 + 1] + [sectionContents] + suffix)
    else
      Join(lines + ["", heading, sectionContents])
  }

  /** `updateSection` on the file-text path: split, scan, then splice or append. */
  method UpdateSection(fileContents: string, heading: string, sectionContents: string) returns (newContents: string)
    ensures newContents == UpdatedContents(fileContents, heading, sectionContents)
  {
    var fileLines := Split(fileContents);
    var logbookSectionLineNum, nextSectionLineNum := Scan(fileLines, heading);
    if logbookSectionLineNum != -1 {
      var prefix := fileLines[..logbookSectionLineNum + 1];
      var suffix := if nextSectionLineNum != -1 then fileLines[nextSectionLineNum..] else [];
      newContents := Join(prefix + [sectionContents] + suffix);
    } else {
      newContents := Join(fileLines + ["", heading, sectionContents]);
    }
  }

  /** No line of `text` trims to `heading` or is a boundary for its level: written as a
      section body, `text` cannot move where the section is found or where it ends. */
  ghost predicate StaysInSection(text: string, heading: string) {
    var lines := Split(text);
    forall j :: 0 <= j < |lines| ==> !Matches(lines[j], heading) && !IsBoundary(lines[j], HeadingLevel(heading))
  }

  /** The heading is absent exactly when no line of the file trims to it. */
  lemma {:induction false} HeadingAbsentIff(lines: seq<string>, heading: string)
    ensures Locate(lines, heading).0 == -1 <==> forall j :: 0 <= j < |lines| ==> !Matches(lines[j], heading)
  {
    var r := Locate(lines, heading);
    var m := MatchFlags(lines, heading);
    LocateSound(lines, heading);
    assert forall j :: 0 <= j < |lines| ==> m[j] == Matches(lines[j], heading);
  }

  /** A target heading with white space at either end never equals a trimmed line, so it
      is never found: every rewrite appends another copy of the section. */
  lemma {:induction false} UntrimmedHeadingAlwaysAppends(fileContents: string, heading: string, sectionContents: string)
    requires Trim(heading) != heading
    ensures Locate(Split(fileContents), heading) == (-1, -1)
    ensures UpdatedContents(fileContents, heading, sectionContents) ==
            fileContents + "\n\n" + heading + "\n" + sectionContents
  {
    var lines := Split(fileContents);
    forall j | 0 <= j < |lines|
      ensures !Matches(lines[j], heading)
    {
      TrimIdempotent(lines[j]);
    }
    HeadingAbsentIff(lines, heading);
    UpdateAppendsWhenAbsent(fileContents, heading, sectionContents);
  }

  /** When the first two lines that match the heading have no boundary between them, the
      scan moves past the first one: the section found is at the second match or later. */
  lemma {:induction false} FirstOccurrenceNotChosen(lines: seq<string>, heading: string, i: nat, j: nat)
    requires i < j < |lines| && Matches(lines[i], heading) && Matches(lines[j], heading)
    requires forall k :: 0 <= k < i ==> !Matches(lines[k], heading)
    requires forall k :: i < k < j ==> !IsBoundary(lines[k], HeadingLevel(heading))
    ensures Locate(lines, heading).0 >= j
  {
    var m, bd := MatchFlags(lines, heading), BoundaryFlags(lines, HeadingLevel(heading));
    LocateSound(lines, heading);
    assert m[i] && m[j];
    assert forall k :: 0 <= k < i ==> !m[k];
    assert forall k :: i < k < j ==> !bd[k];
  }

  /** Absent heading: the old text is kept as it is and followed by a blank line,
      the heading exactly as given (not trimmed) and the contents. */
  lemma {:induction false} UpdateAppendsWhenAbsent(fileContents: string, heading: string, sectionContents: string)
    requires forall j :: 0 <= j < |Split(fileContents)| ==> !Matches(Split(fileContents)[j], heading)
    ensures UpdatedContents(fileContents, heading, sectionContents) == fileContents + "\n\n" + heading + "\n" + sectionContents
  {
    var lines := Split(fileContents);
    HeadingAbsentIff(lines, heading);
    UpdatedWhenAbsent(fileContents, heading, sectionContents);
    JoinAppendedSection(lines, heading, sectionContents);
    JoinSplit(fileContents);
  }

  /** A blank line, the heading and the contents joined after some lines. */
  lemma {:induction false} JoinAppendedSection(lines: seq<string>, heading: string, sectionContents: string)
    requires |lines| >= 1
    ensures Join(lines + ["", heading, sectionContents]) == Join(lines) + "\n\n" + heading + "\n" + sectionContents
  {
    var added := ["", heading, sectionContents];
    JoinAppend(lines, added);
    assert added[1..] == [heading, sectionContents];
    assert Join([heading, sectionContents]) == heading + "\n" + sectionContents;
    assert Join(added) == "\n" + heading + "\n" + sectionContents;
  }

  /** An empty note (one empty line) gets a new section, for any non-empty heading. */
  lemma {:induction false} UpdateEmptyFile(heading: string, sectionContents: string)
    requires heading != ""
    ensures UpdatedContents("", heading, sectionContents) == "\n\n" + heading + "\n" + sectionContents
  {
    assert Split("") == [""];
    assert Trim("") == "";
    UpdateAppendsWhenAbsent("", heading, sectionContents);
  }

  /** An empty note under the empty heading: its one empty line is the heading line, so the
      found path replaces the (empty) rest of the note. */
  lemma {:induction false} UpdateEmptyFileEmptyHeading(sectionContents: string)
    ensures UpdatedContents("", "", sectionContents) == "\n" + sectionContents
  {
    var lines := Split("");
    assert lines == [""];
    assert Trim("") == "";
    var m := MatchFlags(lines, "");
    var bd := BoundaryFlags(lines, HeadingLevel(""));
    assert m[0];
    assert LocateFrom(m, bd, 1, 0) == (0, -1);
    assert Locate(lines, "") == (0, -1);
    var out := lines[..1] + [sectionContents] + [];
    assert UpdatedContents("", "", sectionContents) == Join(out);
    assert out == ["", sectionContents];
    assert Join(out) == "" + "\n" + Join(out[1..]);
    assert out[1..] == [sectionContents];
  }

  /** Replacing `lines[h + 1..e]` by one block of text, seen as lines. */
  lemma {:induction false} SpliceLines(lines: seq<string>, h: nat, e: nat, block: string)
    requires NoNewlines(lines) && h < e <= |lines|
    ensures Split(Join(lines[..h + 1] + [block] + lines[e..])) == lines[..h + 1] + Split(block) + lines[e..]
  {
    SplitJoinAround(lines[..h + 1], block, lines[e..]);
  }

  /** The lines up to `k` join to a prefix of the whole text. */
  lemma {:induction false} JoinPrefix(lines: seq<string>, k: nat)
    requires 0 < k <= |lines|
    ensures Join(lines[..k]) <= Join(lines)
  {
    if k < |lines| {
      JoinAppend(lines[..k], lines[k..]);
      assert lines[..k] + lines[k..] == lines;
    } else {
      assert lines[..k] == lines;
    }
  }

  /** Replacing `lines[h + 1..e]` by one block of text, seen as text. */
  lemma {:induction false} SpliceText(lines: seq<string>, h: nat, e: nat, block: string)
    requires h < e <= |lines|
    ensures e == |lines| ==> Join(lines[..h + 1] + [block] + lines[e..]) == Join(lines[..h + 1]) + "\n" + block
    ensures e < |lines| ==>
              Join(lines) == Join(lines[..e]) + "\n" + Join(lines[e..]) &&
              Join(lines[..h + 1] + [block] + lines[e..]) == Join(lines[..h + 1]) + "\n" + block + "\n" + Join(lines[e..])
  {
    var before, after := lines[..h + 1], lines[e..];
    JoinAppend(before, [block] + after);
    assert before + [block] + after == before + ([block] + after);
    if e < |lines| {
      JoinAppend([block], after);
      JoinAppend(lines[..e], after);
      assert lines[..e] + after == lines;
    } else {
      assert [block] + after == [block];
    }
  }

  /** Found heading: the new lines are the old lines up to and including the heading line,
      the lines of the new contents, then the old lines from the section's end on (the
      boundary line, or none when the section runs to the end of the note). */
  lemma {:induction false} UpdateReplacesSection(fileContents: string, heading: string, sectionContents: string)
    requires Locate(Split(fileContents), heading).0 != -1
    ensures var lines := Split(fileContents);
            var e := SectionEnd(lines, heading);
            e == (if Locate(lines, heading).1 != -1 then Locate(lines, heading).1 else |lines|) &&
            Split(UpdatedContents(fileContents, heading, sectionContents)) ==
              lines[..Locate(lines, heading).0 + 1] + Split(sectionContents) + lines[e..]
  {
    var lines := Split(fileContents);
    UpdatedWhenFound(fileContents, heading, sectionContents);
    SplitHasNoNewlines(fileContents);
    SpliceLines(lines, Locate(lines, heading).0, SectionEnd(lines, heading), sectionContents);
  }

  /** Found heading, as text: the old text up to the heading line and from the boundary line
      on is kept byte for byte around the new contents. */
  lemma {:induction false} UpdateKeepsSurroundingText(fileContents: string, heading: string, sectionContents: string)
    requires Locate(Split(fileContents), heading).0 != -1
    ensures var lines := Split(fileContents);
            var e := SectionEnd(lines, heading);
            var out := UpdatedContents(fileContents, heading, sectionContents);
            var before := Join(lines[..Locate(lines, heading).0 + 1]);
            before <= fileContents &&
            (e == |lines| ==> out == before + "\n" + sectionContents) &&
            (e < |lines| ==> fileContents == Join(lines[..e]) + "\n" + Join(lines[e..]) &&
                             out == before + "\n" + sectionContents + "\n" + Join(lines[e..]))
  {
    HeadingLinePrefix(fileContents, heading);
    UpdatedTextWhenFound(fileContents, heading, sectionContents);
  }

  /** The text up to and including the heading line is a prefix of the note. */
  lemma {:induction false} HeadingLinePrefix(fileContents: string, heading: string)
    requires Locate(Split(fileContents), heading).0 != -1
    ensures var lines := Split(fileContents);
            Join(lines[..Locate(lines, heading).0 + 1]) <= fileContents
  {
    JoinPrefixOfText(fileContents, Locate(Split(fileContents), heading).0 + 1);
  }

  /** The first `k` lines of a text join to a prefix of it. */
  lemma {:induction false} JoinPrefixOfText(text: string, k: nat)
    requires 0 < k <= |Split(text)|
    ensures Join(Split(text)[..k]) <= text
  {
    JoinSplit(text);
    JoinPrefix(Split(text), k);
  }

  lemma {:induction false} UpdatedTextWhenFound(fileContents: string, heading: string, sectionContents: string)
    requires Locate(Split(fileContents), heading).0 != -1
    ensures var lines := Split(fileContents);
            var e := SectionEnd(lines, heading);
            var out := UpdatedContents(fileContents, heading, sectionContents);
            var before := Join(lines[..Locate(lines, heading).0 + 1]);
            (e == |lines| ==> out == before + "\n" + sectionContents) &&
            (e < |lines| ==> fileContents == Join(lines[..e]) + "\n" + Join(lines[e..]) &&
                             out == before + "\n" + sectionContents + "\n" + Join(lines[e..]))
  {
    var lines := Split(fileContents);
    UpdatedWhenFound(fileContents, heading, sectionContents);
    SpliceTextOf(fileContents, Locate(lines, heading).0, SectionEnd(lines, heading), sectionContents);
  }

  /** `SpliceText` on the lines of a text. */
  lemma {:induction false} SpliceTextOf(text: string, h: nat, e: nat, block: string)
    requires h < e <= |Split(text)|
    ensures var lines := Split(text);
            var out := Join(lines[..h + 1] + [block] + lines[e..]);
            (e == |lines| ==> out == Join(lines[..h + 1]) + "\n" + block) &&
            (e < |lines| ==> text == Join(lines[..e]) + "\n" + Join(lines[e..]) &&
                             out == Join(lines[..h + 1]) + "\n" + block + "\n" + Join(lines[e..]))
  {
    SpliceText(Split(text), h, e, block);
    JoinSplit(text);
  }

  /* Scanning again after a rewrite, on the per-line flags. */

  lemma {:induction false} FlagsOfConcat(xs: seq<string>, ys: seq<string>, heading: string, level: Option<nat>)
    ensures MatchFlags(xs + ys, heading) == MatchFlags(xs, heading) + MatchFlags(ys, heading)
    ensures BoundaryFlags(xs + ys, level) == BoundaryFlags(xs, level) + BoundaryFlags(ys, level)
  {
    assert forall j :: 0 <= j < |xs + ys| ==> (xs + ys)[j] == if j < |xs| then xs[j] else ys[j - |xs|];
  }

  lemma {:induction false} FlagsOfSlice(lines: seq<string>, i: nat, j: nat, heading: string, level: Option<nat>)
    requires i <= j <= |lines|
    ensures MatchFlags(lines[i..j], heading) == MatchFlags(lines, heading)[i..j]
    ensures BoundaryFlags(lines[i..j], level) == BoundaryFlags(lines, level)[i..j]
  {
  }

  /** After the section's lines are replaced by lines that neither match nor are boundaries,
      the scan finds the same heading line and the same boundary line, moved along. */
  lemma {:induction false} RescanFound(m: seq<bool>, bd: seq<bool>, h: int, b: int, cm: seq<bool>, cbd: seq<bool>)
    requires IsScanResult(m, bd, h, b) && h != -1
    requires |cm| == |cbd| && forall j :: 0 <= j < |cm| ==> !cm[j] && !cbd[j]
    ensures var e := if b != -1 then b else |m|;
            IsScanResult(m[..h + 1] + cm + m[e..], bd[..h + 1] + cbd + bd[e..], h, if b != -1 then h + 1 + |cm| else -1)
  {
    var e := if b != -1 then b else |m|;
    var m' := m[..h + 1] + cm + m[e..];
    var bd' := bd[..h + 1] + cbd + bd[e..];
    assert forall j :: 0 <= j <= h ==> m'[j] == m[j] && bd'[j] == bd[j];
    assert forall j :: h < j < h + 1 + |cm| ==> m'[j] == cm[j - h - 1] && bd'[j] == cbd[j - h - 1];
    if b != -1 {
      assert m'[h + 1 + |cm|] == m[b] && bd'[h + 1 + |cm|] == bd[b];
    }
  }

  /** After a section is appended with its heading exactly as written, a new scan finds
      that appended heading line, and no boundary after it. */
  lemma {:induction false} RescanAbsent(m: seq<bool>, bd: seq<bool>, blank: bool, blankBoundary: bool, headingBoundary: bool, cm: seq<bool>, cbd: seq<bool>)
    requires IsScanResult(m, bd, -1, -1)
    requires |cm| == |cbd| && forall j :: 0 <= j < |cm| ==> !cm[j] && !cbd[j]
    ensures IsScanResult(m + [blank, true] + cm, bd + [blankBoundary, headingBoundary] + cbd, |m| + 1, -1)
  {
    var m' := m + [blank, true] + cm;
    var bd' := bd + [blankBoundary, headingBoundary] + cbd;
    assert forall j :: 0 <= j < |m| ==> m'[j] == m[j];
    assert forall j :: |m| + 1 < j < |m'| ==> m'[j] == cm[j - |m| - 2] && bd'[j] == cbd[j - |m| - 2];
  }

  /** Where the found section ends: the boundary line, or the end of the file. */
  function SectionEnd(lines: seq<string>, heading: string): (e: nat)
    requires Locate(lines, heading).0 != -1
    ensures Locate(lines, heading).0 < e <= |lines|
  {
    var r := Locate(lines, heading);
    if r.1 != -1 then r.1 else |lines|
  }

  lemma {:induction false} UpdatedWhenFound(fileContents: string, heading: string, sectionContents: string)
    requires Locate(Split(fileContents), heading).0 != -1
    ensures var lines := Split(fileContents);
            UpdatedContents(fileContents, heading, sectionContents) ==
            Join(lines[..Locate(lines, heading).0 + 1] + [sectionContents] + lines[SectionEnd(lines, heading)..])
  {
    var lines := Split(fileContents);
    if Locate(lines, heading).1 == -1 {
      assert lines[|lines|..] == [];
    }
  }

  lemma {:induction false} UpdatedWhenAbsent(fileContents: string, heading: string, sectionContents: string)
    requires Locate(Split(fileContents), heading).0 == -1
    ensures UpdatedContents(fileContents, heading, sectionContents) == Join(Split(fileContents) + ["", heading, sectionContents])
  {
  }

  /** The flags of a spliced list of lines are the spliced flags. */
  lemma {:induction false} FlagsOfSplice(lines: seq<string>, h: nat, e: nat, body: seq<string>, heading: string, level: Option<nat>)
    requires h < e <= |lines|
    ensures MatchFlags(lines[..h + 1] + body + lines[e..], heading) ==
            MatchFlags(lines, heading)[..h + 1] + MatchFlags(body, heading) + MatchFlags(lines, heading)[e..]
    ensures BoundaryFlags(lines[..h + 1] + body + lines[e..], level) ==
            BoundaryFlags(lines, level)[..h + 1] + BoundaryFlags(body, level) + BoundaryFlags(lines, level)[e..]
  {
    FlagsOfConcat(lines[..h + 1] + body, lines[e..], heading, level);
    FlagsOfConcat(lines[..h + 1], body, heading, level);
    FlagsOfSlice(lines, 0, h + 1, heading, level);
    FlagsOfSlice(lines, e, |lines|, heading, level);
  }

  /** Replacing a found section's lines by lines that stay in the section: the scan of the
      new lines finds the same heading line, and the old boundary moved along. */
  lemma {:induction false} ScanAfterSplice(lines: seq<string>, heading: string, body: seq<string>)
    requires Locate(lines, heading).0 != -1
    requires forall j :: 0 <= j < |body| ==> !Matches(body[j], heading) && !IsBoundary(body[j], HeadingLevel(heading))
    ensures var h, e := Locate(lines, heading).0, SectionEnd(lines, heading);
            var lines' := lines[..h + 1] + body + lines[e..];
            Locate(lines', heading).0 == h && SectionEnd(lines', heading) == h + 1 + |body|
  {
    var r := Locate(lines, heading);
    var h, b, e := r.0, r.1, SectionEnd(lines, heading);
    var b' := if b != -1 then h + 1 + |body| else -1;
    LocateSound(lines, heading);
    SectionScanOfSplice(lines, heading, body, h, b);
    LocateComplete(lines[..h + 1] + body + lines[e..], heading, h, b');
  }

  /** `RescanFound` on the lines themselves. */
  lemma {:induction false} SectionScanOfSplice(lines: seq<string>, heading: string, body: seq<string>, h: int, b: int)
    requires IsSectionScan(lines, heading, h, b) && h != -1
    requires forall j :: 0 <= j < |body| ==> !Matches(body[j], heading) && !IsBoundary(body[j], HeadingLevel(heading))
    ensures var e := if b != -1 then b else |lines|;
            IsSectionScan(lines[..h + 1] + body + lines[e..], heading, h, if b != -1 then h + 1 + |body| else -1)
  {
    var level := HeadingLevel(heading);
    var e := if b != -1 then b else |lines|;
    var m, bd := MatchFlags(lines, heading), BoundaryFlags(lines, level);
    var cm, cbd := MatchFlags(body, heading), BoundaryFlags(body, level);
    RescanFound(m, bd, h, b, cm, cbd);
    FlagsOfSplice(lines, h, e, body, heading, level);
  }

  /** After rewriting a found section with contents that stay in it, the scan of the new
      note finds the same heading line, and the old boundary line moved along. */
  lemma {:induction false} RescanAfterReplace(fileContents: string, heading: string, first: string)
    requires StaysInSection(first, heading)
    requires Locate(Split(fileContents), heading).0 != -1
    ensures var lines := Split(fileContents);
            var h, e := Locate(lines, heading).0, SectionEnd(lines, heading);
            var lines' := Split(UpdatedContents(fileContents, heading, first));
            lines' == lines[..h + 1] + Split(first) + lines[e..] &&
            Locate(lines', heading).0 == h &&
            SectionEnd(lines', heading) == h + 1 + |Split(first)|
  {
    var lines := Split(fileContents);
    var h, e := Locate(lines, heading).0, SectionEnd(lines, heading);
    UpdatedWhenFound(fileContents, heading, first);
    SplitHasNoNewlines(fileContents);
    SpliceLines(lines, h, e, first);
    ScanAfterSplice(lines, heading, Split(first));
  }

  /** The spliced lines keep the lines up to `h` and those from `e` on. */
  lemma {:induction false} SplicedSlices(lines: seq<string>, body: seq<string>, h: nat, e: nat)
    requires h < e <= |lines|
    ensures var spliced := lines[..h + 1] + body + lines[e..];
            spliced[..h + 1] == lines[..h + 1] && spliced[h + 1 + |body|..] == lines[e..]
  {
  }

  /** Rewriting a rewritten note: when the heading is found, the second rewrite replaces
      exactly what the first one wrote. */
  lemma {:induction false} UpdateTwiceFound(fileContents: string, heading: string, first: string, second: string)
    requires StaysInSection(first, heading)
    requires Locate(Split(fileContents), heading).0 != -1
    ensures UpdatedContents(UpdatedContents(fileContents, heading, first), heading, second) ==
            UpdatedContents(fileContents, heading, second)
  {
    var lines := Split(fileContents);
    var h, e := Locate(lines, heading).0, SectionEnd(lines, heading);
    var body := Split(first);
    var once := UpdatedContents(fileContents, heading, first);
    var lines' := Split(once);
    RescanAfterReplace(fileContents, heading, first);
    SplicedSlices(lines, body, h, e);
    UpdatedWhenFound(once, heading, second);
    UpdatedWhenFound(fileContents, heading, second);
  }

  /** Appending a blank line, the heading as written and lines that stay in the section to a
      file without the heading: the scan of the new lines finds the appended heading line. */
  lemma {:induction false} ScanAfterAppend(lines: seq<string>, heading: string, body: seq<string>)
    requires Trim(heading) == heading
    requires Locate(lines, heading).0 == -1
    requires forall j :: 0 <= j < |body| ==> !Matches(body[j], heading) && !IsBoundary(body[j], HeadingLevel(heading))
    ensures var lines' := lines + ["", heading] + body;
            Locate(lines', heading).0 == |lines| + 1 && SectionEnd(lines', heading) == |lines'|
  {
    var level := HeadingLevel(heading);
    var lines' := lines + ["", heading] + body;
    var m, bd := MatchFlags(lines, heading), BoundaryFlags(lines, level);
    var cm, cbd := MatchFlags(body, heading), BoundaryFlags(body, level);
    LocateSound(lines, heading);
    var xm, xbd := MatchFlags(["", heading], heading), BoundaryFlags(["", heading], level);
    assert xm == [xm[0], true] && xbd == [xbd[0], xbd[1]];
    RescanAbsent(m, bd, xm[0], xbd[0], xbd[1], cm, cbd);
    FlagsOfConcat(lines + ["", heading], body, heading, level);
    FlagsOfConcat(lines, ["", heading], heading, level);
    assert IsSectionScan(lines', heading, |lines| + 1, -1);
    LocateComplete(lines', heading, |lines| + 1, -1);
  }

  /** Rewriting a rewritten note when the heading was absent: the first rewrite appended the
      heading, and the second finds it and replaces what follows it. */
  lemma {:induction false} UpdateTwiceAbsent(fileContents: string, heading: string, first: string, second: string)
    requires Trim(heading) == heading && '\n' !in heading
    requires StaysInSection(first, heading)
    requires Locate(Split(fileContents), heading).0 == -1
    ensures UpdatedContents(UpdatedContents(fileContents, heading, first), heading, second) ==
            UpdatedContents(fileContents, heading, second)
  {
    var lines := Split(fileContents);
    var body := Split(first);
    var once := UpdatedContents(fileContents, heading, first);
    SplitAfterAppend(fileContents, heading, first);
    ScanAfterAppend(lines, heading, body);
    AppendedLines(lines, heading, body, second);
    UpdatedWhenFound(once, heading, second);
    UpdatedWhenAbsent(fileContents, heading, second);
  }

  /** The lines of a note after a section was appended to it. */
  lemma {:induction false} SplitAfterAppend(fileContents: string, heading: string, sectionContents: string)
    requires '\n' !in heading
    requires Locate(Split(fileContents), heading).0 == -1
    ensures Split(UpdatedContents(fileContents, heading, sectionContents)) ==
            Split(fileContents) + ["", heading] + Split(sectionContents)
  {
    var lines := Split(fileContents);
    UpdatedWhenAbsent(fileContents, heading, sectionContents);
    SplitHasNoNewlines(fileContents);
    AppendedLines(lines, heading, [], sectionContents);
    SplitJoinAround(lines + ["", heading], sectionContents, []);
  }

  /** The shapes of the appended lines, as sequences. */
  lemma {:induction false} AppendedLines(lines: seq<string>, heading: string, body: seq<string>, last: string)
    ensures lines + ["", heading] + [last] + [] == lines + ["", heading, last]
    ensures var added := lines + ["", heading] + body;
            added[..|lines| + 2] + [last] + added[|added|..] == lines + ["", heading, last]
  {
    var added := lines + ["", heading] + body;
    assert added[..|lines| + 2] == lines + ["", heading];
  }

  /** The rewrite always lets the latest contents win: rewriting the output of a rewrite
      gives what rewriting the original note would have given. */
  lemma {:induction false} UpdateTwice(fileContents: string, heading: string, first: string, second: string)
    requires Trim(heading) == heading && '\n' !in heading
    requires StaysInSection(first, heading)
    ensures UpdatedContents(UpdatedContents(fileContents, heading, first), heading, second) ==
            UpdatedContents(fileContents, heading, second)
  {
    if Locate(Split(fileContents), heading).0 != -1 {
      UpdateTwiceFound(fileContents, heading, first, second);
    } else {
      UpdateTwiceAbsent(fileContents, heading, first, second);
    }
  }

  /** Idempotence: writing the same contents a second time changes nothing. */
  lemma {:induction false} UpdateIdempotent(fileContents: string, heading: string, sectionContents: string)
    requires Trim(heading) == heading && '\n' !in heading
    requires StaysInSection(sectionContents, heading)
    ensures var once := UpdatedContents(fileContents, heading, sectionContents);
            UpdatedContents(once, heading, sectionContents) == once
  {
    UpdateTwice(fileContents, heading, sectionContents, sectionContents);
  }

  /** The lines a found section currently holds: from the heading line (excluded) to the
      boundary (excluded) or the end of the file. */
  function SectionLines(lines: seq<string>, heading: string): seq<string>
    requires Locate(lines, heading).0 != -1
  {
    lines[Locate(lines, heading).0 + 1..SectionEnd(lines, heading)]
  }

  /** Putting a run of lines back as one joined block, between two other runs, gives back
      the join of all the lines. */
  lemma {:induction false} JoinRegroup(before: seq<string>, mid: seq<string>, after: seq<string>)
    requires |before| >= 1 && |mid| >= 1
    ensures Join(before + [Join(mid)] + after) == Join(before + mid + after)
  {
    assert before + [Join(mid)] + after == before + ([Join(mid)] + after);
    assert before + mid + after == before + (mid + after);
    JoinAppend(before, [Join(mid)] + after);
    JoinAppend(before, mid + after);
    if |after| >= 1 {
      JoinAppend([Join(mid)], after);
      JoinAppend(mid, after);
    } else {
      assert mid + after == mid && [Join(mid)] + after == [Join(mid)];
    }
  }

  /** Writing back what a non-empty section already holds gives back the note unchanged. */
  lemma {:induction false} UpdateWithOwnSection(fileContents: string, heading: string)
    requires Locate(Split(fileContents), heading).0 != -1
    requires SectionLines(Split(fileContents), heading) != []
    ensures UpdatedContents(fileContents, heading, Join(SectionLines(Split(fileContents), heading))) == fileContents
  {
    var lines := Split(fileContents);
    var h, e := Locate(lines, heading).0, SectionEnd(lines, heading);
    UpdatedWhenFound(fileContents, heading, Join(SectionLines(lines, heading)));
    JoinRegroupSlices(lines, h, e);
    JoinSplit(fileContents);
  }

  /** `JoinRegroup` for three consecutive slices of one sequence of lines. */
  lemma {:induction false} JoinRegroupSlices(lines: seq<string>, h: nat, e: nat)
    requires h + 1 < e <= |lines|
    ensures Join(lines[..h + 1] + [Join(lines[h + 1..e])] + lines[e..]) == Join(lines)
  {
    JoinRegroup(lines[..h + 1], lines[h + 1..e], lines[e..]);
    assert lines[..h + 1] + lines[h + 1..e] + lines[e..] == lines;
  }

  /** Round trip: rewriting a found, non-empty section and then writing its old lines back
      restores the note byte for byte. */
  lemma {:induction false} UpdateRoundTrip(fileContents: string, heading: string, sectionContents: string)
    requires Locate(Split(fileContents), heading).0 != -1
    requires SectionLines(Split(fileContents), heading) != []
    requires StaysInSection(sectionContents, heading)
    ensures var original := Join(SectionLines(Split(fileContents), heading));
            UpdatedContents(UpdatedContents(fileContents, heading, sectionContents), heading, original) == fileContents
  {
    var original := Join(SectionLines(Split(fileContents), heading));
    UpdateTwiceFound(fileContents, heading, sectionContents, original);
    UpdateWithOwnSection(fileContents, heading);
  }
}
