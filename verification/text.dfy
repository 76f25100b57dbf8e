/** The string built-ins of JavaScript that the dashboard relies on, on `string` = `seq<char>`
    (one `char` per UTF-16 code unit): `trim`, `toLowerCase`, `includes`, `startsWith`,
    `indexOf`, `replace` with a string pattern, `split` on one character, `parseInt`, and the
    decimal rendering of a non-negative integer. */
module Text {
  import opened Wrappers

  /** The characters matched by `\s` and removed by `trim()`: ECMAScript WhiteSpace and LineTerminator. */
  predicate IsSpace(c: char) {
    c == '\t' || c == '\n' || c == '\U{000B}' || c == '\U{000C}' || c == '\r' || c == ' '
    || c == '\U{00A0}' || c == '\U{1680}' || ('\U{2000}' <= c <= '\U{200A}')
    || c == '\U{2028}' || c == '\U{2029}' || c == '\U{202F}' || c == '\U{205F}'
    || c == '\U{3000}' || c == '\U{FEFF}'
  }

  /** The characters `.` in a regular expression does not match. */
  predicate IsLineTerminator(c: char) {
    c == '\n' || c == '\r' || c == '\U{2028}' || c == '\U{2029}'
  }

  /** Every character is white space (the empty string included). */
  predicate IsBlank(s: string) {
    forall i :: 0 <= i < |s| ==> IsSpace(s[i])
  }

  /** `trimStart()`: drops the leading run of white space. */
  function TrimStart(s: string): (r: string)
    ensures |r| <= |s| && r == s[|s| - |r|..]
    ensures IsBlank(s[..|s| - |r|])
    ensures |r| == 0 || !IsSpace(r[0])
  {
    if |s| > 0 && IsSpace(s[0]) then TrimStart(s[1..]) else s
  }

  /** `trimEnd()`: drops the trailing run of white space. */
  function TrimEnd(s: string): (r: string)
    ensures |r| <= |s| && r == s[..|r|]
    ensures IsBlank(s[|r|..])
    ensures |r| == 0 || !IsSpace(r[|r| - 1])
  {
    if |s| > 0 && IsSpace(s[|s| - 1]) then TrimEnd(s[..|s| - 1]) else s
  }

  /** `trim()` */
  function Trim(s: string): string
  {
    TrimEnd(TrimStart(s))
  }

  /** `trim()` yields the empty string exactly for blank strings, and otherwise a string that
      neither starts nor ends with white space. */
  lemma TrimEmptyIffBlank(s: string)
    ensures Trim(s) == "" <==> IsBlank(s)
    ensures Trim(s) != "" ==> !IsSpace(Trim(s)[0]) && !IsSpace(Trim(s)[|Trim(s)| - 1])
  {
    var t := TrimStart(s);
    var r := TrimEnd(t);
    assert |t| > 0 ==> t[0] == s[|s| - |t|];
    if r == "" {
      assert s[..|s|] == s;
    }
    if r != "" {
      assert r[0] == t[0];
    }
  }

  function LowerChar(c: char): char {
    if 'A' <= c <= 'Z' then (c as int + 32) as char else c
  }

  function UpperChar(c: char): char {
    if 'a' <= c <= 'z' then (c as int - 32) as char else c
  }

  /** `toLowerCase()`, on the ASCII letters. */
  function ToLower(s: string): (r: string)
    ensures |r| == |s|
    ensures forall i :: 0 <= i < |s| ==> r[i] == LowerChar(s[i])
  {
    seq(|s|, i requires 0 <= i < |s| => LowerChar(s[i]))
  }

  /** `toUpperCase()`, on the ASCII letters. */
  function ToUpper(s: string): (r: string)
    ensures |r| == |s|
    ensures forall i :: 0 <= i < |s| ==> r[i] == UpperChar(s[i])
  {
    seq(|s|, i requires 0 <= i < |s| => UpperChar(s[i]))
  }

  /** `s.startsWith(p)` */
  predicate StartsWith(s: string, p: string) {
    |p| <= |s| && s[..|p|] == p
  }

  /** `p` occurs in `s` starting at index `i`. */
  predicate OccursAt(s: string, p: string, i: int) {
    0 <= i && i + |p| <= |s| && s[i..i + |p|] == p
  }

  /** The first index from `from` on at which `p` occurs. */
  function IndexOfFrom(s: string, p: string, from: nat): (r: Option<nat>)
    ensures r.Some? ==> from <= r.value && OccursAt(s, p, r.value)
    decreases |s| - from
  {
    if from + |p| > |s| then None
    else if s[from..from + |p|] == p then Some(from)
    else IndexOfFrom(s, p, from + 1)
  }

  /** The search from `from` finds an occurrence and none before it, or there is none. */
  lemma {:induction false} IndexOfFromSpec(s: string, p: string, from: nat)
    ensures IndexOfFrom(s, p, from).Some? ==>
      forall j :: from <= j < IndexOfFrom(s, p, from).value ==> !OccursAt(s, p, j)
    ensures IndexOfFrom(s, p, from).None? ==> forall j :: from <= j ==> !OccursAt(s, p, j)
    decreases |s| - from
  {
    if from + |p| <= |s| && s[from..from + |p|] != p {
      IndexOfFromSpec(s, p, from + 1);
    }
  }

  /** `s.indexOf(p)`, with `None` for -1: the first index at which `p` occurs. */
  function IndexOf(s: string, p: string): (r: Option<nat>)
    ensures r.Some? ==> OccursAt(s, p, r.value)
  {
    IndexOfFrom(s, p, 0)
  }

  /** `indexOf` finds the first occurrence, and reports none exactly when there is none. */
  lemma IndexOfSpec(s: string, p: string)
    ensures IndexOf(s, p).Some? ==> forall j :: 0 <= j < IndexOf(s, p).value ==> !OccursAt(s, p, j)
    ensures IndexOf(s, p).None? <==> forall j :: !OccursAt(s, p, j)
  {
    IndexOfFromSpec(s, p, 0);
  }

  /** `s.includes(p)`: `p` occurs somewhere in `s`. */
  predicate Contains(s: string, p: string) {
    exists j | 0 <= j <= |s| :: OccursAt(s, p, j)
  }

  /** `includes` holds exactly when `indexOf` finds an occurrence. */
  lemma ContainsIffIndexOf(s: string, p: string)
    ensures Contains(s, p) <==> IndexOf(s, p).Some?
  {
    IndexOfSpec(s, p);
  }

  /** A prefix or suffix never contains more than the whole. */
  lemma ContainsOfSlice(s: string, lo: nat, hi: nat, p: string)
    requires lo <= hi <= |s|
    requires Contains(s[lo..hi], p)
    ensures Contains(s, p)
  {
    var i :| 0 <= i <= hi - lo && OccursAt(s[lo..hi], p, i);
    var inner, outer := s[lo..hi][i..i + |p|], s[lo + i..lo + i + |p|];
    assert forall k :: 0 <= k < |p| ==> inner[k] == outer[k];
    assert OccursAt(s, p, lo + i);
  }

  /** `s.replace(pattern, replacement)` with a string pattern: only the first occurrence. */
  function ReplaceFirst(s: string, pattern: string, replacement: string): (r: string)
    ensures IndexOf(s, pattern).None? ==> r == s
    ensures IndexOf(s, pattern).Some? ==>
              var i := IndexOf(s, pattern).value;
              r == s[..i] + replacement + s[i + |pattern|..]
  {
    match IndexOf(s, pattern)
    case None => s
    case Some(i) => s[..i] + replacement + s[i + |pattern|..]
  }

  predicate IsDigit(c: char) {
    '0' <= c <= '9'
  }

  predicate IsHexDigit(c: char) {
    IsDigit(c) || 'a' <= c <= 'f' || 'A' <= c <= 'F'
  }

  predicate AllDigits(s: string) {
    forall i :: 0 <= i < |s| ==> IsDigit(s[i])
  }

  predicate AllHexDigits(s: string) {
    forall i :: 0 <= i < |s| ==> IsHexDigit(s[i])
  }

  function DigitChar(d: nat): (c: char)
    requires d < 10
    ensures IsDigit(c)
  {
    (48 + d) as char
  }

  function DigitValue(c: char): nat
    requires IsHexDigit(c)
  {
    if IsDigit(c) then c as int - 48
    else if 'a' <= c <= 'f' then c as int - 87
    else c as int - 55
  }

  /** The number a string of decimal digits denotes (most significant digit first). */
  function DecimalValue(s: string): nat
    requires AllDigits(s)
  {
    if |s| == 0 then 0 else DecimalValue(s[..|s| - 1]) * 10 + DigitValue(s[|s| - 1])
  }

  /** The number a string of hexadecimal digits denotes. */
  function HexValue(s: string): nat
    requires AllHexDigits(s)
  {
    if |s| == 0 then 0 else HexValue(s[..|s| - 1]) * 16 + DigitValue(s[|s| - 1])
  }

  /** `String(n)` for a non-negative integer: its decimal digits, without leading zeros. */
  function NatToString(n: nat): (r: string)
    ensures |r| >= 1 && AllDigits(r)
    ensures r[0] == '0' ==> n == 0
    ensures n < 10 <==> |r| == 1
    ensures 10 <= n < 100 <==> |r| == 2
  {
    if n < 10 then [DigitChar(n)] else NatToString(n / 10) + [DigitChar(n % 10)]
  }

  /** `String(i)` for any integer: a minus sign before the digits of a negative one. */
  function IntToString(i: int): (r: string)
    ensures i >= 0 ==> r == NatToString(i)
    ensures i < 0 ==> r == "-" + NatToString(-i)
  {
    if i >= 0 then NatToString(i) else "-" + NatToString(-i)
  }

  /** Reading back the decimal rendering gives the number. */
  lemma {:induction false} DecimalValueOfNatToString(n: nat)
    ensures DecimalValue(NatToString(n)) == n
  {
    if n >= 10 {
      var s := NatToString(n);
      assert s[..|s| - 1] == NatToString(n / 10);
      DecimalValueOfNatToString(n / 10);
    }
  }

  /** The leading run of decimal digits. */
  function LeadingDigits(s: string): (r: string)
    ensures AllDigits(r) && |r| <= |s| && r == s[..|r|]
    ensures |r| < |s| ==> !IsDigit(s[|r|])
  {
    if |s| > 0 && IsDigit(s[0]) then [s[0]] + LeadingDigits(s[1..]) else ""
  }

  lemma {:induction false} LeadingDigitsOfDigits(s: string)
    requires AllDigits(s)
    ensures LeadingDigits(s) == s
  {
    if |s| > 0 {
      LeadingDigitsOfDigits(s[1..]);
      assert [s[0]] + s[1..] == s;
    }
  }

  /** The leading run of hexadecimal digits. */
  function LeadingHexDigits(s: string): (r: string)
    ensures AllHexDigits(r) && |r| <= |s| && r == s[..|r|]
    ensures |r| < |s| ==> !IsHexDigit(s[|r|])
  {
    if |s| > 0 && IsHexDigit(s[0]) then [s[0]] + LeadingHexDigits(s[1..]) else ""
  }

  /** `parseInt(s)` with no radix, `None` standing for `NaN`: leading white space is skipped,
      one sign is read, a `0x`/`0X` prefix switches to base 16, and the longest run of digits
      that follows is the magnitude; with no digit at all the result is `NaN`. */
  function ParseInt(s: string): Option<int>
  {
    var t := TrimStart(s);
    var negative := |t| > 0 && t[0] == '-';
    var u := if |t| > 0 && (t[0] == '-' || t[0] == '+') then t[1..] else t;
    var magnitude :=
      if |u| >= 2 && u[0] == '0' && (u[1] == 'x' || u[1] == 'X') then
        var z := LeadingHexDigits(u[2..]);
        if z == "" then None else Some(HexValue(z))
      else
        var z := LeadingDigits(u);
        if z == "" then None else Some(DecimalValue(z));
    match magnitude
    case None => None
    case Some(m) =>
      var v: int := m;
      Some(if negative then -v else v)
  }

  /** `parseInt(String(n)) === n` for every non-negative integer. */
  lemma ParseIntOfNatToString(n: nat)
    ensures ParseInt(NatToString(n)) == Some(n)
  {
    var s := NatToString(n);
    assert TrimStart(s) == s by {
      assert !IsSpace(s[0]);
    }
    LeadingDigitsOfDigits(s);
    DecimalValueOfNatToString(n);
  }

  /** `s.split(c)` for a one-character separator. */
  function Split(s: string, c: char): (r: seq<string>)
    ensures |r| >= 1
    ensures forall i :: 0 <= i < |r| ==> c !in r[i]
  {
    if |s| == 0 then [""]
    else
      var rest := Split(s[1..], c);
      if s[0] == c then [""] + rest
      else [[s[0]] + rest[0]] + rest[1..]
  }

  /** `parts.join(c)` */
  function Join(parts: seq<string>, c: char): string
    requires |parts| >= 1
  {
    if |parts| == 1 then parts[0] else parts[0] + [c] + Join(parts[1..], c)
  }

  /** Splitting and joining back on the same separator gives the original string. */
  lemma {:induction false} JoinSplit(s: string, c: char)
    ensures Join(Split(s, c), c) == s
  {
    if |s| > 0 {
      var rest := Split(s[1..], c);
      JoinSplit(s[1..], c);
      if s[0] == c {
        assert ([""] + rest)[1..] == rest;
      } else {
        var r := Split(s, c);
        assert r[0] == [s[0]] + rest[0] && r[1..] == rest[1..];
        if |rest| == 1 {
          assert s == [s[0]] + s[1..];
        } else {
          assert Join(rest, c) == rest[0] + [c] + Join(rest[1..], c);
          assert s == [s[0]] + s[1..];
        }
      }
    }
  }

  /** Splitting `a + [c] + b` where `a` holds no separator peels off `a`. */
  lemma {:induction false} SplitAtFirst(a: string, c: char, b: string)
    requires c !in a
    ensures Split(a + [c] + b, c) == [a] + Split(b, c)
  {
    if |a| == 0 {
      assert a + [c] + b == [c] + b;
      assert ([c] + b)[1..] == b;
    } else {
      assert (a + [c] + b)[1..] == a[1..] + [c] + b;
      SplitAtFirst(a[1..], c, b);
      assert [a[0]] + a[1..] == a;
    }
  }

  /** A string without the separator splits into itself alone. */
  lemma {:induction false} SplitNoSeparator(s: string, c: char)
    requires c !in s
    ensures Split(s, c) == [s]
  {
    if |s| > 0 {
      SplitNoSeparator(s[1..], c);
      assert [s[0]] + s[1..] == s;
    }
  }

  /** The first piece of a split is the part of `s` before the first separator. */
  lemma {:induction false} SplitHead(s: string, c: char)
    ensures StartsWith(s, Split(s, c)[0])
    ensures |Split(s, c)[0]| < |s| ==> s[|Split(s, c)[0]|] == c
    ensures c in s ==> |Split(s, c)[0]| < |s|
  {
    if |s| > 0 {
      SplitHead(s[1..], c);
    }
  }

  /** `s.replace(/\s+/g, rep)`: every maximal run of white space becomes `rep`. */
  function ReplaceSpaceRuns(s: string, rep: string): (r: string)
    decreases |s|
  {
    if |s| == 0 then ""
    else if IsSpace(s[0]) then rep + ReplaceSpaceRuns(TrimStart(s), rep)
    else [s[0]] + ReplaceSpaceRuns(s[1..], rep)
  }

  /** Reference definition of `replace(/\s+/g, rep)`, reading `s` left to right one character
      at a time: a character that is not white space is copied, the first white-space
      character of a run emits `rep`, and the rest of the run emits nothing. `inRun` says
      whether the character before `s` was white space. */
  function SpaceRunsRef(s: string, inRun: bool, rep: string): string
    decreases |s|
  {
    if |s| == 0 then ""
    else if !IsSpace(s[0]) then [s[0]] + SpaceRunsRef(s[1..], false, rep)
    else (if inRun then "" else rep) + SpaceRunsRef(s[1..], true, rep)
  }

  /** Inside a run, the reference skips the rest of the run and carries on as at its end. */
  lemma {:induction false} SpaceRunsRefInRun(s: string, rep: string)
    ensures SpaceRunsRef(s, true, rep) == SpaceRunsRef(TrimStart(s), false, rep)
    decreases |s|
  {
    if |s| > 0 && IsSpace(s[0]) {
      SpaceRunsRefInRun(s[1..], rep);
    }
  }

  /** `ReplaceSpaceRuns` agrees with the left-to-right reference: each maximal run of white
      space becomes one copy of `rep`, and every other character is copied in order. */
  lemma {:induction false} ReplaceSpaceRunsIsRef(s: string, rep: string)
    ensures ReplaceSpaceRuns(s, rep) == SpaceRunsRef(s, false, rep)
    decreases |s|
  {
    if |s| > 0 {
      if IsSpace(s[0]) {
        assert TrimStart(s) == TrimStart(s[1..]);
        SpaceRunsRefInRun(s[1..], rep);
        ReplaceSpaceRunsIsRef(TrimStart(s), rep);
      } else {
        ReplaceSpaceRunsIsRef(s[1..], rep);
      }
    }
  }

  /** The characters of `s` that are neither white space nor the given character, in order. */
  function Solid(s: string, c: char): string
  {
    if |s| == 0 then ""
    else if IsSpace(s[0]) || s[0] == c then Solid(s[1..], c)
    else [s[0]] + Solid(s[1..], c)
  }

  lemma {:induction false} SolidAppend(a: string, b: string, c: char)
    ensures Solid(a + b, c) == Solid(a, c) + Solid(b, c)
  {
    if |a| == 0 {
      assert a + b == b;
    } else {
      assert (a + b)[1..] == a[1..] + b;
      SolidAppend(a[1..], b, c);
    }
  }

  /** A prefix made only of white space contributes nothing to `Solid`. */
  lemma {:induction false} SolidBlankPrefix(s: string, k: nat, c: char)
    requires k <= |s| && IsBlank(s[..k])
    ensures Solid(s[k..], c) == Solid(s, c)
  {
    if k > 0 {
      assert s[..k][0] == s[0];
      assert s[1..][..k - 1] == s[..k][1..];
      SolidBlankPrefix(s[1..], k - 1, c);
      assert s[1..][k - 1..] == s[k..];
    }
  }

  /** Replacing the white-space runs of `s` by a separator that is not white space leaves no
      white space, keeps every other character in order, and changes nothing in a string that
      had no white space. */
  lemma {:induction false} ReplaceSpaceRunsSpec(s: string, sep: char)
    requires !IsSpace(sep)
    ensures RunsSpec(s, sep)
    decreases |s|, 1
  {
    if |s| > 0 {
      if IsSpace(s[0]) {
        RunsSpecAtSpace(s, sep);
      } else {
        RunsSpecAtSolid(s, sep);
      }
    }
  }

  /** What `ReplaceSpaceRunsSpec` states about one string. */
  predicate RunsSpec(s: string, sep: char) {
    var r := ReplaceSpaceRuns(s, [sep]);
    && (forall i :: 0 <= i < |r| ==> !IsSpace(r[i]))
    && Solid(r, sep) == Solid(s, sep)
    && |r| <= |s|
    && (IsBlank(s) ==> |r| <= 1)
    && ((forall i :: 0 <= i < |s| ==> !IsSpace(s[i])) ==> r == s)
  }

  /** The step of `ReplaceSpaceRunsSpec` for a string that starts with white space. */
  lemma {:induction false} RunsSpecAtSpace(s: string, sep: char)
    requires !IsSpace(sep) && |s| > 0 && IsSpace(s[0])
    ensures RunsSpec(s, sep)
    decreases |s|, 0
  {
    var t := TrimStart(s);
    ReplaceSpaceRunsSpec(t, sep);
    SolidBlankPrefix(s, |s| - |t|, sep);
    SolidAppend([sep], ReplaceSpaceRuns(t, [sep]), sep);
    if IsBlank(s) {
      BlankTrimsAway(s);
    }
  }

  /** A string made only of white space trims to nothing. */
  lemma {:induction false} BlankTrimsAway(s: string)
    requires IsBlank(s)
    ensures TrimStart(s) == ""
    decreases |s|
  {
    if |s| > 0 {
      assert IsSpace(s[0]);
      assert IsBlank(s[1..]) by {
        forall i | 0 <= i < |s| - 1 ensures IsSpace(s[1..][i]) { assert s[1..][i] == s[i + 1]; }
      }
      BlankTrimsAway(s[1..]);
    }
  }

  /** The step of `ReplaceSpaceRunsSpec` for a string that starts with a copied character. */
  lemma {:induction false} RunsSpecAtSolid(s: string, sep: char)
    requires !IsSpace(sep) && |s| > 0 && !IsSpace(s[0])
    ensures RunsSpec(s, sep)
    decreases |s|, 0
  {
    ReplaceSpaceRunsSpec(s[1..], sep);
    SolidAppend([s[0]], ReplaceSpaceRuns(s[1..], [sep]), sep);
    assert Solid(s, sep) == Solid([s[0]], sep) + Solid(s[1..], sep) by {
      SolidAppend([s[0]], s[1..], sep);
      assert [s[0]] + s[1..] == s;
    }
  }
}
