/** The meeting-summary reader: the text of a summary is cut into non-blank lines, stand-alone
    marker lines that merely repeat the marker of the next line are dropped, and each line is
    classified (end note, title, date, author, section header, participant, decision, task,
    insight, follow-up, bullet or paragraph) while a current-section state is carried from
    line to line. The marker strings are the exact character sequences the component compares
    against. */
module SummaryModal {
  import opened Wrappers
  import opened Text
  import Seqs

  // ---------------------------------------------------------------------------------------
  // Marker strings, character for character

  const DateMark: string := "\U{F8FF}\U{00FC}\U{00EC}\U{00D6}"
  const AuthorMark: string := "\U{F8FF}\U{00FC}\U{00EB}\U{00A7}"
  const SummaryMark: string := "\U{F8FF}\U{00FC}\U{00EE}\U{00E7}"
  const ParticipantsMark: string := "\U{F8FF}\U{00FC}\U{00EB}\U{2022}"
  const DecisionsMark: string := "\U{201A}\U{00FA}\U{00D6}"
  const PinMark: string := "\U{F8FF}\U{00FC}\U{00EC}\U{00E5}"
  const ClipboardMark: string := "\U{F8FF}\U{00FC}\U{00EC}\U{00E3}"
  const BulbMark: string := "\U{F8FF}\U{00FC}\U{00ED}\U{00B0}"
  const NextMark: string := "\U{201A}\U{00E8}\U{2260}\U{00D4}\U{220F}\U{00E8}"
  const TitleMark: string := "\U{F8FF}\U{00FC}\U{00EC}\U{00F9}"
  const CheckMark: string := "\U{201A}\U{00FA}\U{00EC}"
  const BoxMark: string := "\U{201A}\U{00F2}\U{00EB}\U{00D4}\U{220F}\U{00E8}"
  const BulletMark: string := "\U{201A}\U{00C4}\U{00A2}"

  /** The alternatives of the stand-alone marker pattern. */
  const Markers: seq<string> :=
    [DateMark, AuthorMark, SummaryMark, ParticipantsMark, DecisionsMark, PinMark, ClipboardMark,
     BulbMark, NextMark, TitleMark]

  /** The class `[-–]` as written: a hyphen and the three characters of the dash marker. */
  predicate IsDash(c: char) {
    c == '-' || c == '\U{201A}' || c == '\U{00C4}' || c == '\U{00EC}'
  }

  /** The same class under a case-insensitive pattern: each character also matches its other
      case, so `ä` (of `Ä`) and `Ì` (of `ì`) join it; the hyphen and `‚` have no other case. */
  predicate IsDashIgnoringCase(c: char) {
    IsDash(c) || c == '\U{00E4}' || c == '\U{00CC}'
  }

  /** The class `[-•]` as written: a hyphen and the three characters of the bullet marker. */
  predicate IsBulletChar(c: char) {
    c == '-' || c == '\U{201A}' || c == '\U{00C4}' || c == '\U{00A2}'
  }

  // ---------------------------------------------------------------------------------------
  // Lines

  /** `text.split("\n").filter(line => line.trim().length > 0)` */
  function Lines(text: string): (r: seq<string>)
    ensures forall i :: 0 <= i < |r| ==> Trim(r[i]) != ""
    ensures forall i :: 0 <= i < |r| ==> '\n' !in r[i]
    ensures Seqs.IsSubsequence(r, Split(text, '\n'))
  {
    var r := Seqs.Filter(l => Trim(l) != "", Split(text, '\n'));
    assert forall i :: 0 <= i < |r| ==> r[i] in r && r[i] in Split(text, '\n');
    r
  }

  /** The line at `i` is a stand-alone marker whose marker the next line contains. */
  predicate Redundant(lines: seq<string>, i: nat)
    requires i < |lines|
  {
    Trim(lines[i]) in Markers && i + 1 < |lines| && Contains(lines[i + 1], Trim(lines[i]))
  }

  /** The de-duplication loop keeps the line at `k` unless it is redundant. */
  function KeepLine(lines: seq<string>): nat -> bool
  {
    (k: nat) => !(k < |lines| && Redundant(lines, k))
  }

  /** The positions of `lines` that hold `x` and are not redundant. */
  function KeptPositions(lines: seq<string>, x: string): set<nat>
  {
    set k: nat | k < |lines| && lines[k] == x && !Redundant(lines, k)
  }

  /** `processedLines`: the lines in order, less the redundant stand-alone markers. */
  function Dedup(lines: seq<string>): (r: seq<string>)
    ensures Seqs.IsSubsequence(r, lines)
  {
    assert lines[0..] == lines;
    Seqs.KeepFrom(lines, KeepLine(lines), 0)
  }

  /** De-duplication drops exactly the redundant stand-alone markers: every line, marker or
      not, occurs in the result once for each position that holds it and is not redundant.
      So a marker the next line repeats is dropped, and one it does not (the last line, say)
      is kept. */
  lemma DedupCounts(lines: seq<string>, x: string)
    ensures multiset(Dedup(lines))[x] == |KeptPositions(lines, x)|
  {
    assert lines[0..] == lines;
    Seqs.KeepFromCountKept(lines, KeepLine(lines), 0, x);
    assert Seqs.KeptAt(lines, KeepLine(lines), 0, x) == KeptPositions(lines, x);
  }

  /** The stand-alone marker on the last line has no next line to repeat it, so it is kept. */
  lemma DedupKeepsLastMarker(lines: seq<string>)
    requires |lines| > 0 && Trim(lines[|lines| - 1]) in Markers
    ensures lines[|lines| - 1] in Dedup(lines)
  {
    var x := lines[|lines| - 1];
    DedupCounts(lines, x);
    assert |lines| - 1 in KeptPositions(lines, x);
    assert multiset(Dedup(lines))[x] > 0;
  }

  /** A redundant line is a marker, so it is not a line that is none. */
  lemma RedundantIsMarker(lines: seq<string>, k: nat, x: string)
    requires k < |lines| && Trim(x) !in Markers
    ensures !KeepLine(lines)(k) ==> lines[k] != x
  {
  }

  /** De-duplication drops nothing but stand-alone markers: every occurrence of any other
      line is kept, in order. */
  lemma DedupKeepsOrdinaryLines(lines: seq<string>, x: string)
    requires Trim(x) !in Markers
    ensures multiset(Dedup(lines))[x] == multiset(lines)[x]
  {
    forall k | 0 <= k < |lines| && !KeepLine(lines)(k)
      ensures lines[k] != x
    {
      RedundantIsMarker(lines, k, x);
    }
    Seqs.KeepFromCount(lines, KeepLine(lines), 0, x);
    assert lines[0..] == lines;
  }

  // ---------------------------------------------------------------------------------------
  // Text clean-up

  /** `s` holds two asterisks in a row. */
  predicate HasBold(s: string) {
    exists i :: 0 <= i < |s| - 1 && s[i] == '*' && s[i + 1] == '*'
  }

  /** `cleanLine`: every double asterisk removed, scanning left to right. Whatever it returns
      has no two asterisks in a row; a result starting with another character starts as the
      line did. */
  function CleanLine(s: string): (r: string)
    ensures !HasBold(r)
    ensures |r| <= |s|
    ensures |s| > 0 && s[0] != '*' ==> |r| > 0 && r[0] == s[0]
    decreases |s|
  {
    if |s| >= 2 && s[0] == '*' && s[1] == '*' then CleanLine(s[2..])
    else if |s| == 0 then ""
    else
      var rest := CleanLine(s[1..]);
      assert |s| == 1 || s[1] != '*' || s[0] != '*';
      assert forall i :: 1 <= i < |rest| ==> ([s[0]] + rest)[i] == rest[i - 1];
      [s[0]] + rest
  }

  /** The characters of `s` other than asterisks, in order. */
  function NonStars(s: string): string
  {
    if |s| == 0 then "" else (if s[0] == '*' then "" else [s[0]]) + NonStars(s[1..])
  }

  function Stars(s: string): nat
  {
    if |s| == 0 then 0 else (if s[0] == '*' then 1 else 0) + Stars(s[1..])
  }

  /** Only asterisks are removed: every other character is kept, in order. */
  lemma {:induction false} CleanLineKeepsNonStars(s: string)
    ensures NonStars(CleanLine(s)) == NonStars(s)
    decreases |s|
  {
    if |s| >= 2 && s[0] == '*' && s[1] == '*' {
      CleanLineKeepsNonStars(s[2..]);
      assert s[1..][1..] == s[2..];
    } else if |s| > 0 {
      CleanLineKeepsNonStars(s[1..]);
      assert ([s[0]] + CleanLine(s[1..]))[1..] == CleanLine(s[1..]);
    }
  }

  /** The asterisks go in pairs: an even number of them is removed. */
  lemma {:induction false} CleanLineRemovesPairs(s: string)
    ensures Stars(CleanLine(s)) <= Stars(s) && (Stars(s) - Stars(CleanLine(s))) % 2 == 0
    decreases |s|
  {
    if |s| >= 2 && s[0] == '*' && s[1] == '*' {
      CleanLineRemovesPairs(s[2..]);
      assert s[1..][1..] == s[2..];
    } else if |s| > 0 {
      CleanLineRemovesPairs(s[1..]);
      assert ([s[0]] + CleanLine(s[1..]))[1..] == CleanLine(s[1..]);
    }
  }

  /** A line without a double asterisk comes back unchanged. */
  lemma {:induction false} CleanLinePlain(s: string)
    requires !HasBold(s)
    ensures CleanLine(s) == s
    decreases |s|
  {
    if |s| > 0 {
      assert !HasBold(s[1..]) by {
        forall i | 0 <= i < |s[1..]| - 1
          ensures !(s[1..][i] == '*' && s[1..][i + 1] == '*')
        {
          assert s[1..][i] == s[i + 1] && s[1..][i + 1] == s[i + 2];
        }
      }
      CleanLinePlain(s[1..]);
      assert !(s[0] == '*' && |s| >= 2 && s[1] == '*');
    }
  }

  /** Cleaning twice is cleaning once. */
  lemma CleanLineIdempotent(s: string)
    ensures CleanLine(CleanLine(s)) == CleanLine(s)
  {
    CleanLinePlain(CleanLine(s));
  }

  /** The length of the run of characters satisfying `p` that starts at `i`. */
  function Run(s: string, i: nat, p: char -> bool): (n: nat)
    requires i <= |s|
    ensures i + n <= |s|
    ensures forall k :: i <= k < i + n ==> p(s[k])
    ensures i + n == |s| || !p(s[i + n])
    decreases |s| - i
  {
    if i < |s| && p(s[i]) then 1 + Run(s, i + 1, p) else 0
  }

  /** The run itself. */
  function Span(s: string, i: nat, p: char -> bool): (r: string)
    requires i <= |s|
    ensures |r| == Run(s, i, p) && r == s[i..i + |r|]
    ensures forall k :: 0 <= k < |r| ==> p(r[k])
  {
    var n := Run(s, i, p);
    var r := s[i..i + n];
    assert forall k :: 0 <= k < n ==> r[k] == s[i + k];
    r
  }

  function SpaceRun(s: string, i: nat): nat
    requires i <= |s|
  {
    Run(s, i, IsSpace)
  }

  /** Removes a leading `prefix` and the white space after it; a line without the prefix is
      returned as it is. */
  function StripLead(s: string, prefix: string): (r: string)
    ensures StartsWith(s, prefix) ==> |r| <= |s| - |prefix| && r == s[|s| - |r|..]
    ensures StartsWith(s, prefix) ==> |r| == 0 || !IsSpace(r[0])
    ensures !StartsWith(s, prefix) ==> r == s
  {
    if StartsWith(s, prefix) then s[|prefix| + SpaceRun(s, |prefix|)..] else s
  }

  /** Removes a leading `prefix`, with nothing after it. */
  function DropPrefix(s: string, prefix: string): (r: string)
    ensures StartsWith(s, prefix) ==> s == prefix + r
    ensures !StartsWith(s, prefix) ==> r == s
  {
    if StartsWith(s, prefix) then s[|prefix|..] else s
  }

  /** Removes one leading character of the bullet class and the white space after it. */
  function StripBullet(s: string): string
  {
    if |s| > 0 && IsBulletChar(s[0]) then s[1 + SpaceRun(s, 1)..] else s
  }

  /** `s.replace(/^\[|\]$/g, "")` */
  function StripBrackets(s: string): (r: string)
    ensures |r| <= |s|
  {
    var a := if |s| > 0 && s[0] == '[' then s[1..] else s;
    if |a| > 0 && a[|a| - 1] == ']' then a[..|a| - 1] else a
  }

  /** A case-insensitive match of a lower-case ASCII literal at `i`. */
  predicate CiAt(s: string, i: nat, lit: string) {
    i + |lit| <= |s| && ToLower(s[i..i + |lit|]) == lit
  }

  // ---------------------------------------------------------------------------------------
  // The task-line pattern `^(?:\[)?Task\s*(\d+)(?:\])?(?:\s*[-–]\s*|\s+)(.*)` (ignoring case)

  datatype TaskHeadMatch = TaskHeadMatch(number: string, rest: string)

  /** The task number and the description, or `None` when the line does not match. Each
      greedy part can only give back characters the next part cannot take, so no backtracking
      changes the outcome: the digits are all the digits, and the description runs from the
      end of the separator to the first line terminator. */
  function TaskHead(c: string): (r: Option<TaskHeadMatch>)
    ensures r.Some? ==> |r.value.number| >= 1 && AllDigits(r.value.number)
    ensures r.Some? ==> forall k :: 0 <= k < |r.value.rest| ==> !IsLineTerminator(r.value.rest[k])
  {
    var p0 := if |c| > 0 && c[0] == '[' then 1 else 0;
    if !CiAt(c, p0, "task") then None
    else TaskNumberAt(c, p0 + 4 + SpaceRun(c, p0 + 4))
  }

  /** `(\d+)` and the rest of the task pattern from `p2`, after the word and its white space. */
  function TaskNumberAt(c: string, p2: nat): (r: Option<TaskHeadMatch>)
    requires p2 <= |c|
    ensures r.Some? ==> |r.value.number| >= 1 && AllDigits(r.value.number)
    ensures r.Some? ==> forall k :: 0 <= k < |r.value.rest| ==> !IsLineTerminator(r.value.rest[k])
  {
    var digits := Span(c, p2, IsDigit);
    if |digits| == 0 then None
    else TaskRestAt(c, p2 + |digits|, digits)
  }

  /** `(?:\])?(?:\s*[-–]\s*|\s+)(.*)` from `p3`, just after the task number `digits`. */
  function TaskRestAt(c: string, p3: nat, digits: string): (r: Option<TaskHeadMatch>)
    requires p3 <= |c|
    ensures r.Some? ==> r.value.number == digits
    ensures r.Some? ==> forall k :: 0 <= k < |r.value.rest| ==> !IsLineTerminator(r.value.rest[k])
  {
    var p4 := if p3 < |c| && c[p3] == ']' then p3 + 1 else p3;
    var s1 := p4 + SpaceRun(c, p4);
    if s1 < |c| && IsDashIgnoringCase(c[s1]) then
      var p5 := s1 + 1 + SpaceRun(c, s1 + 1);
      Some(TaskHeadMatch(digits, Span(c, p5, c => !IsLineTerminator(c))))
    else if s1 > p4 then
      Some(TaskHeadMatch(digits, Span(c, s1, c => !IsLineTerminator(c))))
    else None
  }

  // ---------------------------------------------------------------------------------------
  // The assignment pattern
  // `(.+?)(?:\s*[-–]\s*Assigned to:\s*([^(]+))?(?:\s*\(?Due:\s*([^)]+)\)?)?$` (ignoring case),
  // searched in the backtracking order of the regular-expression engine.

  /** What the optional groups captured: the assignee and the due text. */
  datatype Captures = Captures(assignee: Option<string>, due: Option<string>)

  /** What the whole pattern captured: the lazy description and the optional groups. */
  datatype InfoMatch = InfoMatch(desc: string, assignee: Option<string>, due: Option<string>)

  /** `[^)]+\)?$` after the white space of the due part ended at `q4`, trying shorter white
      space (down to `q3`) when that fails: the captured due text. */
  function DueValue(d: string, q4: nat, q3: nat): Option<string>
    requires q3 <= q4 <= |d|
    decreases q4 - q3
  {
    var e := q4 + Run(d, q4, c => c != ')');
    if e > q4 && (e == |d| || e + 1 == |d|) then Some(d[q4..e])
    else if q4 > q3 then DueValue(d, q4 - 1, q3)
    else None
  }

  /** `\s*\(?Due:\s*([^)]+)\)?$` at `q`: the due text when it matches. White space before
      the optional parenthesis can only be taken whole, since the next character must be `(`
      or `d`. */
  function DueAt(d: string, q: nat): Option<string>
    requires q <= |d|
  {
    var q1 := q + SpaceRun(d, q);
    var q2 := if q1 < |d| && d[q1] == '(' then q1 + 1 else q1;
    if !CiAt(d, q2, "due:") then None
    else
      var q3 := q2 + 4;
      DueValue(d, q3 + SpaceRun(d, q3), q3)
  }

  /** `(?:…Due…)?$` at `q`: `Some(Some(due))` with the due part, `Some(None)` at the end of
      the text without it, `None` when neither matches. */
  function DueOrEnd(d: string, q: nat): Option<Option<string>>
    requires q <= |d|
  {
    var due := DueAt(d, q);
    if due.Some? then Some(due) else if q == |d| then Some(None) else None
  }

  /** `([^(]+)` of length `m` or shorter, from `q4`, followed by the due part or the end. */
  function AssignedLength(d: string, q4: nat, m: nat): Option<Captures>
    requires q4 + m <= |d|
    decreases m
  {
    if m == 0 then None
    else
      var tail := DueOrEnd(d, q4 + m);
      if tail.Some? then Some(Captures(Some(d[q4..q4 + m]), tail.value))
      else AssignedLength(d, q4, m - 1)
  }

  /** The white space before the assignee ended at `q4`; shorter white space is tried
      down to `q3`. */
  function AssignedValue(d: string, q4: nat, q3: nat): Option<Captures>
    requires q3 <= q4 <= |d|
    decreases q4 - q3
  {
    var found := AssignedLength(d, q4, Run(d, q4, c => c != '('));
    if found.Some? then found
    else if q4 > q3 then AssignedValue(d, q4 - 1, q3)
    else None
  }

  /** `\s*[-–]\s*Assigned to:\s*([^(]+)` followed by the due part or the end, at `p`. */
  function AssignedAt(d: string, p: nat): Option<Captures>
    requires p <= |d|
  {
    var q0 := p + SpaceRun(d, p);
    if !(q0 < |d| && IsDashIgnoringCase(d[q0])) then None
    else
      var q2 := q0 + 1 + SpaceRun(d, q0 + 1);
      if !CiAt(d, q2, "assigned to:") then None
      else
        var q3 := q2 + 12;
        AssignedValue(d, q3 + SpaceRun(d, q3), q3)
  }

  /** The optional groups and the end anchor at `p`: (assignee, due). */
  function Tail(d: string, p: nat): Option<Captures>
    requires p <= |d|
  {
    var a := AssignedAt(d, p);
    if a.Some? then a
    else
      var e := DueOrEnd(d, p);
      if e.Some? then Some(Captures(None, e.value)) else None
  }

  /** The lazy `(.+?)` from `s`, currently ending at `k`. */
  function LazyFrom(d: string, s: nat, k: nat): Option<InfoMatch>
    requires s < k <= |d|
    decreases |d| - k
  {
    if IsLineTerminator(d[k - 1]) then None
    else
      var t := Tail(d, k);
      if t.Some? then Some(InfoMatch(d[s..k], t.value.assignee, t.value.due))
      else if k < |d| then LazyFrom(d, s, k + 1)
      else None
  }

  /** `desc.match(assignedPattern)`: the first start position with a match. */
  function InfoSearch(d: string, s: nat): Option<InfoMatch>
    requires s <= |d|
    decreases |d| - s
  {
    if s == |d| then None
    else
      var m := LazyFrom(d, s, s + 1);
      if m.Some? then m else InfoSearch(d, s + 1)
  }

  // ---------------------------------------------------------------------------------------
  // Cutting a description at an embedded task reference `Task\s+\d+`

  /** `\s*\d` matches at `k`: white space, then a digit. */
  predicate DigitAfterSpaces(d: string, k: nat)
    decreases |d| - k
  {
    k < |d| && if IsSpace(d[k]) then DigitAfterSpaces(d, k + 1) else IsDigit(d[k])
  }

  /** `Task\s+\d` matches at `i`. */
  predicate TaskRefAt(d: string, i: nat) {
    i + 5 <= |d| && d[i..i + 4] == "Task" && IsSpace(d[i + 4]) && DigitAfterSpaces(d, i + 5)
  }

  /** The first reference at or after `i`. */
  function FirstTaskRef(d: string, i: nat): (r: Option<nat>)
    requires i <= |d|
    ensures r.Some? ==> i <= r.value <= |d|
    decreases |d| - i
  {
    if TaskRefAt(d, i) then Some(i)
    else if i == |d| then None
    else FirstTaskRef(d, i + 1)
  }

  /** The search finds a reference, and none before it; or there is none at all. */
  lemma {:induction false} FirstTaskRefSpec(d: string, i: nat)
    requires i <= |d|
    ensures FirstTaskRef(d, i).Some? ==> TaskRefAt(d, FirstTaskRef(d, i).value)
    ensures FirstTaskRef(d, i).Some? ==> forall j :: i <= j < FirstTaskRef(d, i).value ==> !TaskRefAt(d, j)
    ensures FirstTaskRef(d, i).None? ==> forall j :: i <= j <= |d| ==> !TaskRefAt(d, j)
    decreases |d| - i
  {
    if !TaskRefAt(d, i) && i < |d| {
      FirstTaskRefSpec(d, i + 1);
    }
  }

  /** `\s*[-–]\s*$` matches at `i`. */
  predicate DashTailAt(t: string, i: nat)
    requires i <= |t|
  {
    var j := i + SpaceRun(t, i);
    j < |t| && IsDash(t[j]) && j + 1 + SpaceRun(t, j + 1) == |t|
  }

  /** The leftmost match of `\s*[-–]\s*$` at or after `i`. */
  function FirstDashTail(t: string, i: nat): (r: Option<nat>)
    requires i <= |t|
    ensures r.Some? ==> i <= r.value <= |t| && DashTailAt(t, r.value)
    decreases |t| - i
  {
    if DashTailAt(t, i) then Some(i)
    else if i == |t| then None
    else FirstDashTail(t, i + 1)
  }

  /** The search finds the leftmost match, or there is none at all. */
  lemma {:induction false} FirstDashTailSpec(t: string, i: nat)
    requires i <= |t|
    ensures FirstDashTail(t, i).Some? ==> forall j :: i <= j < FirstDashTail(t, i).value ==> !DashTailAt(t, j)
    ensures FirstDashTail(t, i).None? ==> forall j :: i <= j <= |t| ==> !DashTailAt(t, j)
    decreases |t| - i
  {
    if !DashTailAt(t, i) && i < |t| {
      FirstDashTailSpec(t, i + 1);
      var later := FirstDashTail(t, i + 1);
      assert FirstDashTail(t, i) == later;
      var bound := if later.Some? then later.value else |t| + 1;
      forall j | i <= j < bound
        ensures !DashTailAt(t, j)
      {
        // `i` itself was tested above; every later position is the recursive call's
        if j == i {
        }
      }
    }
  }

  /** Removes the first match of: white space, a dash-class character, white space, end. The
      text is unchanged exactly when nothing matches; otherwise what is left is the text up
      to the leftmost match. */
  function DropTrailingDash(t: string): (r: string)
    ensures |r| <= |t| && r == t[..|r|]
    ensures r == t <==> forall i :: 0 <= i <= |t| ==> !DashTailAt(t, i)
    ensures r != t ==> DashTailAt(t, |r|) && forall j :: 0 <= j < |r| ==> !DashTailAt(t, j)
  {
    FirstDashTailSpec(t, 0);
    match FirstDashTail(t, 0)
    case Some(i) => t[..i]
    case None => t
  }

  /** The description before the first embedded task reference, trimmed, without a trailing
      dash; unchanged when there is no reference. */
  function CutAtTaskRef(d: string): (r: string)
    ensures FirstTaskRef(d, 0).None? ==> r == d
  {
    match FirstTaskRef(d, 0)
    case Some(i) => DropTrailingDash(Trim(d[..i]))
    case None => d
  }

  // ---------------------------------------------------------------------------------------
  // Classification

  datatype Section = NoSection | SummarySection | Participants | Decisions | Actions | Insights | Followups

  datatype Element =
    | EndNote(text: string)
    | Title(text: string)
    | Date(text: string)
    | Author(text: string)
    | SectionHeader(section: Section, text: string)
    | Header(text: string)
    | Subheader(text: string)
    | Participant(text: string)
    | Decision(text: string)
    | TaskItem(number: string, description: string, assignedTo: string, due: string)
    | PlainTask(text: string)
    | Insight(text: string)
    | Followup(text: string)
    | Bullet(text: string, checked: bool)
    | Paragraph(text: string)

  /** A captured group is truthy when it took part in the match and is not empty. */
  predicate Truthy(g: Option<string>) {
    g.Some? && g.value != ""
  }

  predicate IsEndLine(line: string) {
    Contains(line, "End of summary") || Contains(line, "Generated by the Summary & Report Manager Agent")
  }

  /** The section a `##` header opens, by the first marker its cleaned title contains. */
  function HeaderSection(title: string): (r: Option<Section>)
    ensures r.Some? ==> r.value != NoSection
  {
    if Contains(title, SummaryMark) then Some(SummarySection)
    else if Contains(title, ParticipantsMark) then Some(Participants)
    else if Contains(title, DecisionsMark) then Some(Decisions)
    else if Contains(title, PinMark) || Contains(title, ClipboardMark) then Some(Actions)
    else if Contains(title, BulbMark) then Some(Insights)
    else if Contains(title, NextMark) then Some(Followups)
    else None
  }

  /** A task line of the actions section. The assignee and due date come from the line
      itself, or else from the next line mentioning `Assigned to:` and the line after it
      mentioning `Due:`. */
  function ActionItem(lines: seq<string>, i: nat): (e: Element)
    requires i < |lines|
    ensures e.TaskItem? || e.PlainTask?
  {
    var content := CleanLine(Trim(StripLead(lines[i], BoxMark)));
    var head := TaskHead(content);
    if head.None? then PlainTask(StripBrackets(content))
    else
      var number := head.value.number;
      var desc0 := head.value.rest;
      var info := InfoSearch(desc0, 0);
      var desc1 := if info.Some? then Trim(info.value.desc) else desc0;
      var assignee := if info.Some? && Truthy(info.value.assignee) then Trim(info.value.assignee.value) else "";
      var due := if info.Some? && Truthy(info.value.due) then Trim(info.value.due.value) else "";
      var assignee' :=
        if assignee == "" && i + 1 < |lines| && Contains(lines[i + 1], "Assigned to:")
        then CleanLine(Trim(StripLead(lines[i + 1], "Assigned to:"))) else assignee;
      var due' :=
        if due == "" && i + 2 < |lines| && Contains(lines[i + 2], "Due:")
        then CleanLine(Trim(StripLead(lines[i + 2], "Due:"))) else due;
      var desc2 := if Contains(desc1, "Task") && FirstTaskRef(desc1, 0).Some? then CutAtTaskRef(desc1) else desc1;
      TaskItem(number, desc2, assignee', due')
  }

  /** A line that is neither an end note, a title, a date, an author nor a header, read in
      the current section. */
  function BodyElement(lines: seq<string>, i: nat, section: Section): (e: Element)
    requires i < |lines|
    ensures !e.Subheader? && !e.SectionHeader? && !e.EndNote?
  {
    var line := lines[i];
    if section == Participants && (StartsWith(line, AuthorMark) || Trim(line) != "")
       && CleanLine(Trim(StripLead(line, AuthorMark))) != ""
    then Participant(CleanLine(Trim(StripLead(line, AuthorMark))))
    else if section == Decisions && Contains(line, CheckMark) then Decision(CleanLine(Trim(StripLead(line, CheckMark))))
    else if section == Actions && (Contains(line, "Task") || Contains(line, BoxMark)) then ActionItem(lines, i)
    else if section == Insights && Contains(line, "-") then Insight(CleanLine(Trim(StripLead(line, "-"))))
    else if section == Followups && Contains(line, "-") then Followup(CleanLine(Trim(StripLead(line, "-"))))
    else if StartsWith(line, "-") || StartsWith(line, BulletMark) then Bullet(CleanLine(Trim(StripBullet(line))), section == Decisions)
    else Paragraph(CleanLine(line))
  }

  /** One step of the rendering loop: the element for line `i` and the section after it. */
  function Classify(lines: seq<string>, i: nat, section: Section): (r: (Element, Section))
    requires i < |lines|
  {
    var line := lines[i];
    if IsEndLine(line) then (EndNote(CleanLine(DropPrefix(line, "###_"))), section)
    else if StartsWith(line, "#") && Contains(line, TitleMark) then (Title(CleanLine(StripLead(line, "#"))), section)
    else if Contains(line, TitleMark) && !StartsWith(line, "#") then (Title(CleanLine(line)), section)
    else if Contains(line, DateMark) then (Date(CleanLine(Trim(StripLead(line, DateMark)))), section)
    else if Contains(line, AuthorMark) then (Author(CleanLine(Trim(StripLead(line, AuthorMark)))), section)
    else if StartsWith(line, "##") then
      var title := CleanLine(StripLead(line, "##"));
      match HeaderSection(title)
      case Some(s) => (SectionHeader(s, title), s)
      case None => (Header(title), section)
    else if StartsWith(line, "###") then (Subheader(CleanLine(StripLead(line, "###"))), section)
    else (BodyElement(lines, i, section), section)
  }


  // ---------------------------------------------------------------------------------------
  // The section state, described without the loop

  /** The section a line opens: only a `##` header that no earlier branch catches, whose
      cleaned title carries a section marker. */
  function Opens(line: string): Option<Section>
  {
    if IsEndLine(line) || Contains(line, TitleMark) || Contains(line, DateMark) || Contains(line, AuthorMark)
       || !StartsWith(line, "##")
    then None
    else HeaderSection(CleanLine(StripLead(line, "##")))
  }

  /** The section in force at line `i`: the one opened by the last line before `i` that opens
      one, or the starting section when none does. */
  function SectionBefore(lines: seq<string>, i: nat, start: Section): Section
    requires i <= |lines|
  {
    Seqs.Iterate(OpensNext(lines), i, start)
  }

  /** The section after line `k`: the one the line opens, else the one before it. */
  function OpensNext(lines: seq<string>): (nat, Section) -> Section
  {
    (k: nat, section: Section) => if k < |lines| then Opens(lines[k]).GetOr(section) else section
  }

  /** The section in force at line `i` is the one opened by the last line before `i` that
      opens one, whatever came before that line. */
  lemma SectionBeforeIsLastOpener(lines: seq<string>, j: nat, i: nat, start: Section)
    requires j < i <= |lines| && Opens(lines[j]).Some?
    requires forall m :: j < m < i ==> Opens(lines[m]).None?
    ensures SectionBefore(lines, i, start) == Opens(lines[j]).value
  {
    forall k: nat, section: Section | j < k < i
      ensures OpensNext(lines)(k, section) == section
    {
      IdleLine(lines, k, section);
    }
    forall section: Section
      ensures OpensNext(lines)(j, section) == Opens(lines[j]).value
    {
      OpenerSets(lines, j, section);
    }
    Seqs.IterateLastSet(OpensNext(lines), j, i, start, Opens(lines[j]).value);
  }

  /** Before any line that opens a section, the starting section stays in force. */
  lemma SectionBeforeWithoutOpener(lines: seq<string>, i: nat, start: Section)
    requires i <= |lines|
    requires forall m :: 0 <= m < i ==> Opens(lines[m]).None?
    ensures SectionBefore(lines, i, start) == start
  {
    forall k: nat, section: Section | 0 <= k < i
      ensures OpensNext(lines)(k, section) == section
    {
      IdleLine(lines, k, section);
    }
    Seqs.IterateIdle(OpensNext(lines), 0, i, start);
  }
  /** A line that opens no section leaves the section as it is. */
  lemma IdleLine(lines: seq<string>, k: nat, section: Section)
    requires k < |lines| && Opens(lines[k]).None?
    ensures OpensNext(lines)(k, section) == section
  {
  }

  /** A line that opens a section sets the section after it, whatever it was. */
  lemma OpenerSets(lines: seq<string>, j: nat, section: Section)
    requires j < |lines| && Opens(lines[j]).Some?
    ensures OpensNext(lines)(j, section) == Opens(lines[j]).value
  {
  }


  /** One step keeps the section unless the line opens one. */
  lemma ClassifyNext(lines: seq<string>, i: nat, section: Section)
    requires i < |lines|
    ensures Classify(lines, i, section).1 == Opens(lines[i]).GetOr(section)
  {
  }

  /** A step never yields a sub-header, since a line starting `###` already starts `##`. */
  lemma ClassifyNoSubheader(lines: seq<string>, i: nat, section: Section)
    requires i < |lines|
    ensures !Classify(lines, i, section).0.Subheader?
  {
    var line := lines[i];
    if !StartsWith(line, "##") {
      ThreeHashes(line);
      assert Classify(lines, i, section).0 == (
        if IsEndLine(line) then EndNote(CleanLine(DropPrefix(line, "###_")))
        else if StartsWith(line, "#") && Contains(line, TitleMark) then Title(CleanLine(StripLead(line, "#")))
        else if Contains(line, TitleMark) && !StartsWith(line, "#") then Title(CleanLine(line))
        else if Contains(line, DateMark) then Date(CleanLine(Trim(StripLead(line, DateMark))))
        else if Contains(line, AuthorMark) then Author(CleanLine(Trim(StripLead(line, AuthorMark))))
        else BodyElement(lines, i, section));
    }
  }

  lemma ThreeHashes(line: string)
    requires !StartsWith(line, "##")
    ensures !StartsWith(line, "###")
  {
    if |line| >= 3 {
      assert line[..2] == line[..3][..2];
    }
  }

  /** A line mentioning the end of the summary is an end note in every section. */
  lemma ClassifyEnd(lines: seq<string>, i: nat, section: Section)
    requires i < |lines| && IsEndLine(lines[i])
    ensures Classify(lines, i, section).0.EndNote?
  {
  }

  /** A line that opens a section is shown as that section's header, with its cleaned
      title. */
  lemma ClassifyOpens(lines: seq<string>, i: nat, section: Section)
    requires i < |lines| && Opens(lines[i]).Some?
    ensures Classify(lines, i, section).0 ==
      SectionHeader(Opens(lines[i]).value, CleanLine(StripLead(lines[i], "##")))
  {
  }

  /** `Classify` over the given lines, as a step function. */
  function ClassifyStep(lines: seq<string>): (nat, Section) -> (Element, Section)
  {
    (k: nat, section: Section) => if k < |lines| then Classify(lines, k, section) else (Paragraph(""), section)
  }

  /** Carrying the section through `Classify` leaves, at each line, the section opened by the
      last line before it that opens one. */
  lemma CarriedSectionIsSectionBefore(lines: seq<string>, i: nat)
    requires i <= |lines|
    ensures Seqs.StateAfter(ClassifyStep(lines), i, NoSection) == SectionBefore(lines, i, NoSection)
  {
    forall k: nat, section: Section | k < i
      ensures ClassifyStep(lines)(k, section).1 == OpensNext(lines)(k, section)
    {
      ClassifyStepNext(lines, k, section);
    }
    Seqs.StateAfterIterates(ClassifyStep(lines), OpensNext(lines), i, NoSection);
  }

  lemma ClassifyStepNext(lines: seq<string>, k: nat, section: Section)
    requires k < |lines|
    ensures ClassifyStep(lines)(k, section).1 == Opens(lines[k]).GetOr(section)
  {
    ClassifyNext(lines, k, section);
  }

  /** The rendering loop over the lines, with the section state the source keeps beside it:
      each line is classified in the section opened by the last section header before it.
      Hence no line is ever shown as a sub-header, every line mentioning the end of the
      summary is an end note whatever the section, and a section header opens exactly the
      section of its marker. */
  method RenderLines(lines: seq<string>) returns (out: seq<Element>)
    ensures |out| == |lines|
    ensures forall i :: 0 <= i < |lines| ==> out[i] == Classify(lines, i, SectionBefore(lines, i, NoSection)).0
    ensures forall i :: 0 <= i < |lines| ==> !out[i].Subheader?
    ensures forall i :: 0 <= i < |lines| && IsEndLine(lines[i]) ==> out[i].EndNote?
    ensures forall i :: 0 <= i < |lines| && Opens(lines[i]).Some? ==>
              out[i] == SectionHeader(Opens(lines[i]).value, CleanLine(StripLead(lines[i], "##")))
  {
    out := Seqs.Scan(|lines|, NoSection, ClassifyStep(lines));
    forall k | 0 <= k < |lines|
      ensures out[k] == Classify(lines, k, SectionBefore(lines, k, NoSection)).0
    {
      CarriedSectionIsSectionBefore(lines, k);
    }
    forall k | 0 <= k < |lines|
      ensures !out[k].Subheader?
      ensures IsEndLine(lines[k]) ==> out[k].EndNote?
      ensures Opens(lines[k]).Some? ==>
                out[k] == SectionHeader(Opens(lines[k]).value, CleanLine(StripLead(lines[k], "##")))
    {
      var before := SectionBefore(lines, k, NoSection);
      ClassifyNoSubheader(lines, k, before);
      if IsEndLine(lines[k]) {
        ClassifyEnd(lines, k, before);
      }
      if Opens(lines[k]).Some? {
        ClassifyOpens(lines, k, before);
      }
    }
  }

  /** The whole reader: lines, de-duplication, then rendering with no section yet. */
  method Render(text: string) returns (out: seq<Element>)
    ensures |out| == |Dedup(Lines(text))|
    ensures forall i :: 0 <= i < |out| ==>
              out[i] == Classify(Dedup(Lines(text)), i, SectionBefore(Dedup(Lines(text)), i, NoSection)).0
    ensures forall i :: 0 <= i < |out| ==> !out[i].Subheader?
  {
    out := RenderLines(Dedup(Lines(text)));
  }

  // ---------------------------------------------------------------------------------------
  // Task lines

  lemma SpanAll(s: string, i: nat, p: char -> bool)
    requires i <= |s| && forall k :: i <= k < |s| ==> p(s[k])
    ensures Span(s, i, p) == s[i..]
  {
    var n := Run(s, i, p);
    assert i + n == |s|;
  }

  /** The task head of a line laid out as `Task`, one space, `n` digits, a dash of the
      case-insensitive class between two spaces, and a description that starts with no white
      space and holds no line terminator. */
  lemma TaskHeadDashedAt(c: string, n: nat)
    requires n >= 1 && 8 + n <= |c|
    requires c[0] != '[' && CiAt(c, 0, "task") && c[4] == ' '
    requires forall k :: 5 <= k < 5 + n ==> IsDigit(c[k])
    requires c[5 + n] == ' ' && IsDashIgnoringCase(c[6 + n]) && c[7 + n] == ' '
    requires 8 + n == |c| || !IsSpace(c[8 + n])
    requires forall k :: 8 + n <= k < |c| ==> !IsLineTerminator(c[k])
    ensures TaskHead(c) == Some(TaskHeadMatch(c[5..5 + n], c[8 + n..]))
  {
    TaskNumberDashed(c, 5, n);
    TaskWordPlain(c);
  }

  /** `Task` and one space at the start of a line hand over to the number at 5. */
  lemma TaskWordPlain(c: string)
    requires 5 < |c| && c[0] != '[' && CiAt(c, 0, "task") && c[4] == ' ' && IsDigit(c[5])
    ensures TaskHead(c) == TaskNumberAt(c, 5)
  {
    TaskWordAt(c, 0, 1);
  }

  /** `n` digits at `p2`, then ` <dash> ` and a description. */
  lemma TaskNumberDashed(c: string, p2: nat, n: nat)
    requires n >= 1 && p2 + n + 3 <= |c|
    requires forall k :: p2 <= k < p2 + n ==> IsDigit(c[k])
    requires c[p2 + n] == ' ' && IsDashIgnoringCase(c[p2 + n + 1]) && c[p2 + n + 2] == ' '
    requires p2 + n + 3 == |c| || !IsSpace(c[p2 + n + 3])
    requires forall k :: p2 + n + 3 <= k < |c| ==> !IsLineTerminator(c[k])
    ensures TaskNumberAt(c, p2) == Some(TaskHeadMatch(c[p2..p2 + n], c[p2 + n + 3..]))
  {
    TaskNumberExact(c, p2, n);
    TaskRestDashed(c, p2 + n, c[p2..p2 + n]);
  }

  /** The word `task` at `p0` followed by `w` white-space characters hands over to the number
      at `p0 + 4 + w`. */
  lemma TaskWordAt(c: string, p0: nat, w: nat)
    requires p0 == (if |c| > 0 && c[0] == '[' then 1 else 0)
    requires CiAt(c, p0, "task") && p0 + 4 + w <= |c|
    requires forall k :: p0 + 4 <= k < p0 + 4 + w ==> IsSpace(c[k])
    requires p0 + 4 + w == |c| || !IsSpace(c[p0 + 4 + w])
    ensures TaskHead(c) == TaskNumberAt(c, p0 + 4 + w)
  {
    RunExact(c, p0 + 4, w, IsSpace);
  }

  /** ` <dash> ` after the number at `p3` leaves the rest of the line, from the first
      character that is not white space, as the description. */
  lemma TaskRestDashed(c: string, p3: nat, digits: string)
    requires p3 + 3 <= |c|
    requires c[p3] == ' ' && IsDashIgnoringCase(c[p3 + 1]) && c[p3 + 2] == ' '
    requires p3 + 3 == |c| || !IsSpace(c[p3 + 3])
    requires forall k :: p3 + 3 <= k < |c| ==> !IsLineTerminator(c[k])
    ensures TaskRestAt(c, p3, digits) == Some(TaskHeadMatch(digits, c[p3 + 3..]))
  {
    DashSeparator(c, p3, digits);
    SpanAll(c, p3 + 3, c => !IsLineTerminator(c));
  }

  /** ` <dash> ` at `p3` is the separator, and the description starts after it. */
  lemma DashSeparator(c: string, p3: nat, digits: string)
    requires p3 + 3 <= |c|
    requires c[p3] == ' ' && IsDashIgnoringCase(c[p3 + 1]) && c[p3 + 2] == ' '
    requires p3 + 3 == |c| || !IsSpace(c[p3 + 3])
    ensures TaskRestAt(c, p3, digits) == Some(TaskHeadMatch(digits, Span(c, p3 + 3, c => !IsLineTerminator(c))))
  {
    assert SpaceRun(c, p3) == 1 by {
      DashNotSpace(c[p3 + 1]);
      RunExact(c, p3, 1, IsSpace);
    }
    assert SpaceRun(c, p3 + 2) == 1 by {
      RunExact(c, p3 + 2, 1, IsSpace);
    }
  }

  lemma DashNotSpace(d: char)
    requires IsDashIgnoringCase(d)
    ensures !IsSpace(d)
  {
  }

  /** `] ` after the number at `p3`, followed by neither white space nor a dash, leaves the
      rest of the line as the description. */
  lemma TaskRestBracketed(c: string, p3: nat, digits: string)
    requires p3 + 3 <= |c|
    requires c[p3] == ']' && c[p3 + 1] == ' '
    requires !IsSpace(c[p3 + 2]) && !IsDashIgnoringCase(c[p3 + 2])
    requires forall k :: p3 + 2 <= k < |c| ==> !IsLineTerminator(c[k])
    ensures TaskRestAt(c, p3, digits) == Some(TaskHeadMatch(digits, c[p3 + 2..]))
  {
    RunExact(c, p3 + 1, 1, IsSpace);
    SpanAll(c, p3 + 2, c => !IsLineTerminator(c));
  }

  /** `n` digits at `p2`, followed by a non-digit, are the task number. */
  lemma TaskNumberExact(c: string, p2: nat, n: nat)
    requires n >= 1 && p2 + n < |c|
    requires forall k :: p2 <= k < p2 + n ==> IsDigit(c[k])
    requires !IsDigit(c[p2 + n])
    ensures TaskNumberAt(c, p2) == TaskRestAt(c, p2 + n, c[p2..p2 + n])
  {
    RunExact(c, p2, n, IsDigit);
  }

  /** `Task <n> - <description>` gives the number and the description. */
  lemma TaskHeadDashed(digits: string, desc: string)
    requires |digits| >= 1 && AllDigits(digits)
    requires forall k :: 0 <= k < |desc| ==> !IsLineTerminator(desc[k])
    requires |desc| == 0 || !IsSpace(desc[0])
    ensures TaskHead("Task " + digits + " - " + desc) == Some(TaskHeadMatch(digits, desc))
  {
    var c := "Task " + digits + " - " + desc;
    var n := |digits|;
    assert c[0..4] == "Task";
    assert ToLower("Task") == "task";
    assert c[5..5 + n] == digits;
    assert c[8 + n..] == desc;
    TaskHeadDashedAt(c, n);
  }

  /** Under the case-insensitive pattern `ä` separates like a dash: `Task 1 ä fix` has the
      description `fix`, not `ä fix`. */
  lemma TaskHeadUmlautDash()
    ensures TaskHead("Task 1 \U{00E4} fix") == Some(TaskHeadMatch("1", "fix"))
  {
    var c := "Task 1 \U{00E4} fix";
    assert c[0..4] == "Task";
    assert ToLower("Task") == "task";
    assert c[5..6] == "1";
    assert c[9..] == "fix";
    TaskHeadDashedAt(c, 1);
  }

  /** The task head of a line laid out as `[Task`, one space, `n` digits, `] `, and a
      description that starts with neither white space nor a dash and holds no line
      terminator. */
  lemma TaskHeadBracketedAt(c: string, n: nat)
    requires n >= 1 && 9 + n <= |c|
    requires c[0] == '[' && CiAt(c, 1, "task") && c[5] == ' '
    requires forall k :: 6 <= k < 6 + n ==> IsDigit(c[k])
    requires c[6 + n] == ']' && c[7 + n] == ' '
    requires !IsSpace(c[8 + n]) && !IsDashIgnoringCase(c[8 + n])
    requires forall k :: 8 + n <= k < |c| ==> !IsLineTerminator(c[k])
    ensures TaskHead(c) == Some(TaskHeadMatch(c[6..6 + n], c[8 + n..]))
  {
    TaskWordAt(c, 1, 1);
    TaskNumberBracketed(c, 6, n);
  }

  /** `n` digits at `p2`, then `] ` and a description that starts with neither white space
      nor a dash. */
  lemma TaskNumberBracketed(c: string, p2: nat, n: nat)
    requires n >= 1 && p2 + n + 3 <= |c|
    requires forall k :: p2 <= k < p2 + n ==> IsDigit(c[k])
    requires c[p2 + n] == ']' && c[p2 + n + 1] == ' '
    requires !IsSpace(c[p2 + n + 2]) && !IsDashIgnoringCase(c[p2 + n + 2])
    requires forall k :: p2 + n + 2 <= k < |c| ==> !IsLineTerminator(c[k])
    ensures TaskNumberAt(c, p2) == Some(TaskHeadMatch(c[p2..p2 + n], c[p2 + n + 2..]))
  {
    TaskNumberExact(c, p2, n);
    TaskRestBracketed(c, p2 + n, c[p2..p2 + n]);
  }

  /** `[Task <n>] <description>` gives the number and the description. */
  lemma TaskHeadBracketed(digits: string, desc: string)
    requires |digits| >= 1 && AllDigits(digits)
    requires forall k :: 0 <= k < |desc| ==> !IsLineTerminator(desc[k])
    requires |desc| > 0 && !IsSpace(desc[0]) && !IsDashIgnoringCase(desc[0])
    ensures TaskHead("[Task " + digits + "] " + desc) == Some(TaskHeadMatch(digits, desc))
  {
    var c := "[Task " + digits + "] " + desc;
    var n := |digits|;
    assert c[1..5] == "Task";
    assert ToLower("Task") == "task";
    assert c[6..6 + n] == digits;
    assert c[8 + n..] == desc;
    TaskHeadBracketedAt(c, n);
  }

  /** A run is exactly `n` long when its `n` characters satisfy `p` and the next does not. */
  lemma {:induction false} RunExact(s: string, i: nat, n: nat, p: char -> bool)
    requires i + n <= |s|
    requires forall k :: i <= k < i + n ==> p(s[k])
    requires i + n == |s| || !p(s[i + n])
    ensures Run(s, i, p) == n
    decreases n
  {
    if n > 0 {
      RunExact(s, i + 1, n - 1, p);
    }
  }

  /** With neither an assignment nor a due date anywhere, the lazy description takes the
      whole text and the optional groups take no part. */
  lemma InfoOfPlainDescription(d: string)
    requires |d| > 0
    requires forall k :: 0 <= k < |d| ==> !IsLineTerminator(d[k])
    requires forall k :: !CiAt(d, k, "due:") && !CiAt(d, k, "assigned to:")
    ensures InfoSearch(d, 0) == Some(InfoMatch(d, None, None))
  {
    PlainLazy(d, 1);
  }

  lemma {:induction false} PlainLazy(d: string, k: nat)
    requires 0 < k <= |d|
    requires forall j :: 0 <= j < |d| ==> !IsLineTerminator(d[j])
    requires forall j :: !CiAt(d, j, "due:") && !CiAt(d, j, "assigned to:")
    ensures LazyFrom(d, 0, k) == Some(InfoMatch(d, None, None))
    decreases |d| - k
  {
    assert d[0..|d|] == d;
    if k < |d| {
      PlainLazy(d, k + 1);
    }
  }

  /** White space and a digit inside a slice are white space and a digit of the whole
      text, ending before the slice does. */
  lemma {:induction false} DigitAfterSpacesInSlice(d: string, a: nat, b: nat, k: nat)
    requires a <= b <= |d| && DigitAfterSpaces(d[a..b], k)
    ensures DigitAfterSpaces(d, a + k) && a + k < b
    decreases b - a - k
  {
    var t := d[a..b];
    assert t[k] == d[a + k];
    if IsSpace(t[k]) {
      DigitAfterSpacesInSlice(d, a, b, k + 1);
    }
  }

  /** An embedded reference inside a slice is a reference of the whole text, ending before
      the slice does. */
  lemma TaskRefInSlice(d: string, a: nat, b: nat, j: nat)
    requires a <= b <= |d| && TaskRefAt(d[a..b], j)
    ensures TaskRefAt(d, a + j) && a + j < b
  {
    var t := d[a..b];
    DigitAfterSpacesInSlice(d, a, b, j + 5);
    assert t[j + 4] == d[a + j + 4];
    var u := t[j..j + 4];
    var w := d[a + j..a + j + 4];
    assert forall k :: 0 <= k < 4 ==> u[k] == w[k];
  }

  /** A prefix of a suffix of a prefix is a slice of the whole. */
  lemma NestedSlice(d: string, i: nat, a: nat, m: nat, n: nat)
    requires i <= |d| && a + m <= i && n <= m
    ensures d[..i][a..][..m][..n] == d[a..a + n]
  {
    var y := d[..i][a..][..m][..n];
    assert forall k :: 0 <= k < n ==> y[k] == d[a + k];
  }

  /** The cut description is a stretch of the text before the first reference. */
  lemma CutIsSlice(d: string, i: nat) returns (a: nat)
    requires i <= |d|
    ensures a + |DropTrailingDash(Trim(d[..i]))| <= i
    ensures DropTrailingDash(Trim(d[..i])) == d[a..a + |DropTrailingDash(Trim(d[..i]))|]
  {
    var x := d[..i];
    var ts := TrimStart(x);
    var t := TrimEnd(ts);
    var r := DropTrailingDash(t);
    assert Trim(x) == t;
    a := |x| - |ts|;
    assert ts == x[a..];
    assert t == ts[..|t|];
    assert r == t[..|r|];
    NestedSlice(d, i, a, |t|, |r|);
  }

  /** A stretch ending before the first reference holds none. */
  lemma NoRefBefore(d: string, i: nat, a: nat, r: string, j: nat)
    requires FirstTaskRef(d, 0) == Some(i)
    requires a + |r| <= i && r == d[a..a + |r|]
    ensures !TaskRefAt(r, j)
  {
    FirstTaskRefSpec(d, 0);
    if TaskRefAt(r, j) {
      TaskRefInSlice(d, a, a + |r|, j);
    }
  }

  /** Cutting at the first embedded reference leaves a description without any. */
  lemma CutAtTaskRefClears(d: string)
    ensures forall j :: !TaskRefAt(CutAtTaskRef(d), j)
  {
    var first := FirstTaskRef(d, 0);
    FirstTaskRefSpec(d, 0);
    if first.None? {
      assert CutAtTaskRef(d) == d;
    } else {
      var i := first.value;
      var r := DropTrailingDash(Trim(d[..i]));
      assert CutAtTaskRef(d) == r;
      var a := CutIsSlice(d, i);
      forall j: nat
        ensures !TaskRefAt(r, j)
      {
        NoRefBefore(d, i, a, r, j);
      }
    }
  }

  // ---------------------------------------------------------------------------------------
  // Download name

  /** `${(title ? title : filename).replace(/\s+/g, "_")}_summary.txt` */
  function DownloadName(title: string, filename: string): (r: string)
    ensures |r| >= 12 && r[|r| - 12..] == "_summary.txt"
  {
    ReplaceSpaceRuns(if title != "" then title else filename, "_") + "_summary.txt"
  }

  /** The fixed suffix holds no white space. */
  lemma SuffixHasNoSpace()
    ensures forall i :: 0 <= i < |"_summary.txt"| ==> !IsSpace("_summary.txt"[i])
  {
  }

  /** The download name holds no white space. Before its suffix it is the title (or, with no
      title, the file name) read left to right with each maximal run of white space turned
      into one `_`; it keeps every other character in order, and a name without white space
      is kept as it is. */
  lemma DownloadNameSpec(title: string, filename: string, base: string)
    requires base == if title != "" then title else filename
    ensures forall i :: 0 <= i < |DownloadName(title, filename)| ==> !IsSpace(DownloadName(title, filename)[i])
    ensures Solid(DownloadName(title, filename)[..|DownloadName(title, filename)| - 12], '_') == Solid(base, '_')
    ensures (forall i :: 0 <= i < |base| ==> !IsSpace(base[i])) ==> DownloadName(title, filename) == base + "_summary.txt"
    ensures DownloadName(title, filename) == SpaceRunsRef(base, false, "_") + "_summary.txt"
  {
    ReplaceSpaceRunsIsRef(base, "_");
    ReplaceSpaceRunsSpec(base, '_');
    var b := ReplaceSpaceRuns(base, "_");
    DownloadNameParts(title, filename, base, b);
    SuffixHasNoSpace();
    NoSpaceAppend(b, "_summary.txt");
  }

  /** The download name is the replaced base followed by the fixed suffix. */
  lemma DownloadNameParts(title: string, filename: string, base: string, b: string)
    requires base == if title != "" then title else filename
    requires b == ReplaceSpaceRuns(base, "_")
    ensures DownloadName(title, filename) == b + "_summary.txt"
    ensures DownloadName(title, filename)[..|DownloadName(title, filename)| - 12] == b
  {
  }

  /** Two strings without white space join into one without. */
  lemma NoSpaceAppend(a: string, b: string)
    requires forall i :: 0 <= i < |a| ==> !IsSpace(a[i])
    requires forall i :: 0 <= i < |b| ==> !IsSpace(b[i])
    ensures forall i :: 0 <= i < |a + b| ==> !IsSpace((a + b)[i])
  {
    forall i | 0 <= i < |a + b|
      ensures !IsSpace((a + b)[i])
    {
      if i >= |a| {
        assert (a + b)[i] == b[i - |a|];
      } else {
        assert (a + b)[i] == a[i];
      }
    }
  }

}
