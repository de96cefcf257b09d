/** The string operations of Rust's standard library that the rule compiler uses. */
module TextTools {
  import opened Outcome


  /** `char::is_whitespace`. */
  predicate Space(c: char) {
    || '\U{9}' <= c <= '\U{D}' || c == ' ' || c == '\U{85}' || c == '\U{A0}' || c == '\U{1680}'
    || '\U{2000}' <= c <= '\U{200A}' || c == '\U{2028}' || c == '\U{2029}' || c == '\U{202F}'
    || c == '\U{205F}' || c == '\U{3000}'
  }

  /** The 25 white space characters of Unicode, by their code points. */
  lemma SpacesAre(c: char)
    ensures Space(c) <==> c as int in {
      0x9, 0xA, 0xB, 0xC, 0xD, 0x20, 0x85, 0xA0, 0x1680, 0x2000, 0x2001, 0x2002, 0x2003, 0x2004, 0x2005, 0x2006,
      0x2007, 0x2008, 0x2009, 0x200A, 0x2028, 0x2029, 0x202F, 0x205F, 0x3000}
  {
  }

  // ---- Trimming -------------------------------------------------------------

  function TrimStart(s: string): string {
    if s != [] && Space(s[0]) then TrimStart(s[1..]) else s
  }

  function TrimEnd(s: string): string {
    if s != [] && Space(s[|s| - 1]) then TrimEnd(s[..|s| - 1]) else s
  }

  /** `str::trim`. */
  function Trim(s: string): string {
    TrimEnd(TrimStart(s))
  }

  /** No white space at either end. */
  predicate Trimmed(s: string) {
    s == [] || (!Space(s[0]) && !Space(s[|s| - 1]))
  }

  predicate AllSpace(s: string) {
    forall i :: 0 <= i < |s| ==> Space(s[i])
  }

  lemma TrimTrimmed(s: string)
    requires Trimmed(s)
    ensures Trim(s) == s
  {
  }

  /** White space in front of a trimmed text goes, and nothing else. */
  lemma {:induction false} TrimPadded(pad: string, s: string)
    requires AllSpace(pad) && Trimmed(s)
    ensures Trim(pad + s) == s
  {
    if pad == [] {
      assert pad + s == s;
    } else {
      assert Space(pad[0]);
      assert (pad + s)[1..] == pad[1..] + s;
      TrimPadded(pad[1..], s);
    }
  }

  lemma {:induction false} TrimEndKeepsStart(s: string)
    ensures TrimEnd(s) <= s
    ensures TrimEnd(s) == [] || !Space(TrimEnd(s)[|TrimEnd(s)| - 1])
  {
    if s != [] && Space(s[|s| - 1]) {
      TrimEndKeepsStart(s[..|s| - 1]);
    }
  }

  lemma {:induction false} TrimStartIsBare(s: string)
    ensures TrimStart(s) == [] || !Space(TrimStart(s)[0])
  {
    if s != [] && Space(s[0]) {
      TrimStartIsBare(s[1..]);
    }
  }

  /** Trimming does not see a carriage return at the end. */
  lemma {:induction false} TrimChopped(s: string)
    ensures Trim(ChopReturn(s)) == Trim(s)
  {
    if s != [] && s[|s| - 1] == '\r' {
      TrimShorter(s);
    }
  }

  lemma {:induction false} TrimShorter(s: string)
    requires s != [] && Space(s[|s| - 1])
    ensures Trim(s[..|s| - 1]) == Trim(s)
  {
    var init := s[..|s| - 1];
    if |s| > 1 && Space(s[0]) {
      TrimShorter(s[1..]);
      assert s[1..][..|s| - 2] == init[1..] && init[0] == s[0];
      assert TrimStart(init) == TrimStart(init[1..]);
    } else if |s| > 1 {
      assert TrimStart(init) == init && TrimStart(s) == s;
    }
  }

  /** Trimming takes nothing from inside: what a text lacks its trimmed form lacks. */
  lemma {:induction false} TrimEndLacks(s: string, c: char)
    requires Lacks(s, c)
    ensures Lacks(TrimEnd(s), c)
  {
    if s != [] && Space(s[|s| - 1]) {
      TrimEndLacks(s[..|s| - 1], c);
    }
  }

  lemma {:induction false} TrimLacks(s: string, c: char)
    requires Lacks(s, c)
    ensures Lacks(Trim(s), c)
  {
    if s != [] && Space(s[0]) {
      TrimLacks(s[1..], c);
    } else {
      TrimEndLacks(s, c);
    }
  }

  lemma TrimIsTrimmed(s: string)
    ensures Trimmed(Trim(s))
  {
    TrimStartIsBare(s);
    TrimEndKeepsStart(TrimStart(s));
  }

  lemma {:induction false} TrimEndShorter(s: string)
    ensures TrimEnd(s) == s <==> s == [] || !Space(s[|s| - 1])
    ensures |TrimEnd(s)| <= |s|
  {
    if s != [] && Space(s[|s| - 1]) {
      TrimEndShorter(s[..|s| - 1]);
    }
  }

  /** A text is trimmed exactly when trimming leaves its length. */
  lemma {:induction false} TrimLength(s: string)
    ensures |Trim(s)| <= |s|
    ensures |Trim(s)| == |s| <==> Trimmed(s)
  {
    if s != [] && Space(s[0]) {
      TrimLength(s[1..]);
    } else {
      TrimEndShorter(s);
      TrimEndKeepsStart(s);
    }
  }

  lemma {:induction false} TrimSome(s: string)
    requires s != [] && !Space(s[|s| - 1])
    ensures Trim(s) != []
  {
    if Space(s[0]) {
      TrimSome(s[1..]);
    }
  }

  /** `str::trim_matches` with one character. */
  function TrimMatches(s: string, c: char): string {
    if s != [] && s[0] == c then TrimMatches(s[1..], c)
    else if s != [] && s[|s| - 1] == c then TrimMatches(s[..|s| - 1], c)
    else s
  }

  // ---- Splitting ------------------------------------------------------------

  predicate EndsWith(s: string, suffix: string) {
    |suffix| <= |s| && s[|s| - |suffix|..] == suffix
  }

  /** Where `pattern` first occurs. */
  function Find(s: string, pattern: string): (r: Option<nat>)
    ensures r.Some? ==> r.value + |pattern| <= |s| && s[r.value..][..|pattern|] == pattern
  {
    if pattern <= s then Some(0)
    else if s == [] then None
    else
      var later := Find(s[1..], pattern);
      if later.None? then None else
        assert s[1..][later.value..] == s[later.value + 1..];
        Some(later.value + 1)
  }

  /** `str::split_once`. */
  function SplitOnce(s: string, pattern: string): Option<(string, string)> {
    var at := Find(s, pattern);
    if at.None? then None else Some((s[..at.value], s[at.value + |pattern|..]))
  }

  /** `str::split`. */
  function Split(s: string, pattern: string): seq<string>
    requires pattern != []
    decreases |s|
  {
    var parts := SplitOnce(s, pattern);
    if parts.None? then [s] else [parts.value.0] + Split(parts.value.1, pattern)
  }

  predicate Lacks(s: string, c: char) {
    forall i :: 0 <= i < |s| ==> s[i] != c
  }

  /** A character that does not occur before it is first found right there. */
  lemma {:induction false} FindAfter(left: string, c: char, right: string)
    requires Lacks(left, c)
    ensures Find(left + [c] + right, [c]) == Some(|left|)
  {
    var s := left + [c] + right;
    if left == [] {
      assert s[..1] == [c];
    } else {
      assert s[0] == left[0] && left[0] != c;
      assert s[1..] == left[1..] + [c] + right;
      assert Lacks(left[1..], c);
      FindAfter(left[1..], c, right);
    }
  }

  lemma {:induction false} FindNowhere(s: string, c: char)
    requires Lacks(s, c)
    ensures Find(s, [c]) == None
  {
    if s != [] {
      assert s[0] != c;
      assert Lacks(s[1..], c);
      FindNowhere(s[1..], c);
    }
  }

  /** A pattern does not occur in a text that lacks one of its characters. */
  lemma {:induction false} FindLacking(s: string, pattern: string, c: char)
    requires c in pattern && Lacks(s, c)
    ensures Find(s, pattern) == None
  {
    if s != [] {
      FindLacking(s[1..], pattern, c);
    }
  }

  /** A pattern whose first character does not occur before it is first found right there. */
  lemma {:induction false} FindBehind(left: string, pattern: string, right: string)
    requires pattern != [] && Lacks(left, pattern[0])
    ensures Find(left + pattern + right, pattern) == Some(|left|)
  {
    var s := left + pattern + right;
    if left == [] {
      assert s == pattern + right;
    } else {
      assert s[0] == left[0] && left[0] != pattern[0];
      assert s[1..] == left[1..] + pattern + right;
      assert Lacks(left[1..], pattern[0]);
      FindBehind(left[1..], pattern, right);
    }
  }

  lemma SplitOnceBehind(left: string, pattern: string, right: string)
    requires pattern != [] && Lacks(left, pattern[0])
    ensures SplitOnce(left + pattern + right, pattern) == Some((left, right))
  {
    FindBehind(left, pattern, right);
    var s := left + pattern + right;
    assert s[..|left|] == left && s[|left| + |pattern|..] == right;
  }

  lemma SplitOnceAt(left: string, c: char, right: string)
    requires Lacks(left, c)
    ensures SplitOnce(left + [c] + right, [c]) == Some((left, right))
  {
    FindAfter(left, c, right);
    var s := left + [c] + right;
    assert s[..|left|] == left && s[|left| + 1..] == right;
  }

  lemma SplitLacking(s: string, pattern: string, c: char)
    requires c in pattern && Lacks(s, c)
    ensures Split(s, pattern) == [s]
  {
    FindLacking(s, pattern, c);
  }

  lemma {:induction false} TrimMatchesLacks(s: string, c: char, d: char)
    requires Lacks(s, d)
    ensures Lacks(TrimMatches(s, c), d)
    decreases |s|
  {
    if s != [] && s[0] == c {
      TrimMatchesLacks(s[1..], c, d);
    } else if s != [] && s[|s| - 1] == c {
      TrimMatchesLacks(s[..|s| - 1], c, d);
    }
  }

  /** The character is at neither end of the text. */
  predicate Bare(s: string, c: char) {
    s == [] || (s[0] != c && s[|s| - 1] != c)
  }

  lemma {:induction false} TrimMatchesBare(s: string, c: char)
    ensures Bare(TrimMatches(s, c), c)
    ensures TrimMatches(s, c) == s <==> Bare(s, c)
    ensures |TrimMatches(s, c)| <= |s|
    decreases |s|
  {
    if s != [] && s[0] == c {
      TrimMatchesBare(s[1..], c);
    } else if s != [] && s[|s| - 1] == c {
      TrimMatchesBare(s[..|s| - 1], c);
    }
  }

  /** The parts of a split lack the separator, and all that the text lacks. */
  lemma {:induction false} SplitLacks(s: string, c: char, d: char)
    requires Lacks(s, d)
    ensures forall i :: 0 <= i < |Split(s, [c])| ==> Lacks(Split(s, [c])[i], c) && Lacks(Split(s, [c])[i], d)
    decreases |s|
  {
    if SplitOnce(s, [c]).None? {
      FoundIfThere(s, c);
    } else {
      FoundFirst(s, c);
      SplitLacks(SplitOnce(s, [c]).value.1, c, d);
    }
  }

  // ---- Lines ----------------------------------------------------------------

  function ChopReturn(s: string): string {
    if s != [] && s[|s| - 1] == '\r' then s[..|s| - 1] else s
  }

  /** `str::lines`. */
  function Lines(s: string): seq<string>
    decreases |s|
  {
    if s == [] then []
    else
      var parts := SplitOnce(s, "\n");
      if parts.None? then [s] else [ChopReturn(parts.value.0)] + Lines(parts.value.1)
  }

  /** Every line followed by a newline. */
  function Unlines(lines: seq<string>): string {
    if lines == [] then [] else lines[0] + "\n" + Unlines(lines[1..])
  }

  predicate OneLine(s: string) {
    Lacks(s, '\n') && (s == [] || s[|s| - 1] != '\r')
  }

  /** Every line without the carriage return at its end. */
  function ChopAll(lines: seq<string>): seq<string> {
    if lines == [] then [] else [ChopReturn(lines[0])] + ChopAll(lines[1..])
  }

  /** Lines written one after the other read back up to carriage returns at their ends. */
  lemma {:induction false} LinesOfUnlines(lines: seq<string>)
    requires forall i :: 0 <= i < |lines| ==> Lacks(lines[i], '\n')
    ensures Lines(Unlines(lines)) == ChopAll(lines)
  {
    if lines != [] {
      assert Lacks(lines[0], '\n');
      SplitOnceAt(lines[0], '\n', Unlines(lines[1..]));
      LinesOfUnlines(lines[1..]);
    }
  }

  /** ... and exactly if there are none. */
  lemma {:induction false} NothingChopped(lines: seq<string>)
    requires forall i :: 0 <= i < |lines| ==> OneLine(lines[i])
    ensures ChopAll(lines) == lines
  {
    if lines != [] {
      assert OneLine(lines[0]);
      NothingChopped(lines[1..]);
    }
  }

  /** No line of a text holds a newline. */
  lemma {:induction false} LinesLackNewlines(s: string)
    ensures forall i :: 0 <= i < |Lines(s)| ==> Lacks(Lines(s)[i], '\n')
    decreases |s|
  {
    if s != [] {
      var parts := SplitOnce(s, "\n");
      if parts.None? {
        FoundIfThere(s, '\n');
      } else {
        FoundFirst(s, '\n');
        LinesLackNewlines(parts.value.1);
      }
    }
  }

  /** A character that is not found does not occur. */
  lemma {:induction false} FoundIfThere(s: string, c: char)
    requires Find(s, [c]) == None
    ensures Lacks(s, c)
  {
    if s != [] {
      FoundIfThere(s[1..], c);
    }
  }

  /** A character does not occur before it is first found. */
  lemma {:induction false} FoundFirst(s: string, c: char)
    requires Find(s, [c]).Some?
    ensures Lacks(s[..Find(s, [c]).value], c)
  {
    if !([c] <= s) && s != [] {
      FoundFirst(s[1..], c);
      var at := Find(s, [c]).value;
      assert s[..at] == [s[0]] + s[1..][..at - 1];
    }
  }

  /** `lines.join(separator)`. */
  function Join(parts: seq<string>, separator: string): string {
    if parts == [] then []
    else if |parts| == 1 then parts[0]
    else parts[0] + separator + Join(parts[1..], separator)
  }

  // ---- Numbers --------------------------------------------------------------

  function Digit(d: nat): char
    requires d < 10
  {
    (48 + d) as char
  }

  function PrintNat(n: nat): (r: string)
    ensures r != []
  {
    if n < 10 then [Digit(n)] else PrintNat(n / 10) + [Digit(n % 10)]
  }

  /** An integer as Rust prints it. */
  function PrintInt(n: int): (r: string)
    ensures r != []
  {
    if n < 0 then "-" + PrintNat(-n) else PrintNat(n)
  }

  function ParseNat(s: string): Option<nat> {
    if s == [] then None
    else
      var c := s[|s| - 1];
      if !('0' <= c <= '9') then None
      else
        var d: nat := c as int - 48;
        if |s| == 1 then Some(d)
        else
          var high := ParseNat(s[..|s| - 1]);
          if high.None? then None else Some(10 * high.value + d)
  }

  /** An optional sign, then digits, within bounds. */
  function ParseWithin(s: string, low: int, high: int): Option<int> {
    var signed := s != [] && (s[0] == '-' || s[0] == '+');
    var digits := ParseNat(if signed then s[1..] else s);
    if digits.None? then None
    else
      var size: int := digits.value;
      var n := if signed && s[0] == '-' then -size else size;
      if low <= n <= high then Some(n) else None
  }

  /** `str::parse::<i32>`. */
  function ParseI32(s: string): Option<int> {
    ParseWithin(s, -0x8000_0000, 0x7FFF_FFFF)
  }

  /** `str::parse::<i64>`. */
  function ParseI64(s: string): Option<int> {
    ParseWithin(s, -0x8000_0000_0000_0000, 0x7FFF_FFFF_FFFF_FFFF)
  }

  predicate Numeric(s: string) {
    forall i :: 0 <= i < |s| ==> '0' <= s[i] <= '9'
  }

  lemma {:induction false} ParsePrintNat(n: nat)
    ensures ParseNat(PrintNat(n)) == Some(n) && Numeric(PrintNat(n))
  {
    if n >= 10 {
      ParsePrintNat(n / 10);
      assert PrintNat(n)[..|PrintNat(n)| - 1] == PrintNat(n / 10);
    }
  }

  lemma {:induction false} NoLeadingZero(n: nat)
    ensures |PrintNat(n)| == 1 || PrintNat(n)[0] != '0'
    ensures PrintNat(n)[0] == '0' ==> n == 0
  {
    if n >= 10 {
      NoLeadingZero(n / 10);
    }
  }

  /** Only negative integers are printed with a sign, and only zero starts with a zero. */
  lemma PrintedPlainly(n: int)
    ensures PrintInt(n)[0] == '-' <==> n < 0
    ensures n > 0 ==> PrintInt(n)[0] != '0'
    ensures PrintInt(0) == "0"
  {
    if n >= 0 {
      ParsePrintNat(n);
      NoLeadingZero(n);
    }
  }

  lemma NumericIsPlain(s: string)
    requires Numeric(s) && s != []
    ensures Trimmed(s) && OneLine(s)
    ensures Trimmed("-" + s) && OneLine("-" + s)
  {
    assert '0' <= s[0] <= '9' && '0' <= s[|s| - 1] <= '9';
  }

  /** Every 32-bit integer reads back from its print, which holds no white space. */
  lemma ParsePrintI32(n: int)
    requires -0x8000_0000 <= n < 0x8000_0000
    ensures ParseI32(PrintInt(n)) == Some(n)
    ensures Trimmed(PrintInt(n)) && OneLine(PrintInt(n))
  {
    var size: nat := if n < 0 then -n else n;
    var digits := PrintNat(size);
    ParsePrintNat(size);
    NumericIsPlain(digits);
    if n < 0 {
      assert ("-" + digits)[1..] == digits;
    } else {
      assert '0' <= digits[0] <= '9';
    }
  }

  /** Every 64-bit integer reads back from its print, and none outside the range does. */
  lemma ParsePrintInt(n: int)
    ensures ParseI64(PrintInt(n)) ==
            if -0x8000_0000_0000_0000 <= n <= 0x7FFF_FFFF_FFFF_FFFF then Some(n) else None
    ensures ParseI32(PrintInt(n)) == if -0x8000_0000 <= n <= 0x7FFF_FFFF then Some(n) else None
  {
    var size: nat := if n < 0 then -n else n;
    var digits := PrintNat(size);
    ParsePrintNat(size);
    if n < 0 {
      assert ("-" + digits)[1..] == digits;
    } else {
      assert '0' <= digits[0] <= '9';
    }
  }

  // ---- Case -----------------------------------------------------------------

  function LowerChar(c: char): char {
    if 'A' <= c <= 'Z' then c + 32 as char else c
  }

  /** `str::eq_ignore_ascii_case`. */
  predicate SameIgnoringCase(s: string, t: string) {
    |s| == |t| && forall i :: 0 <= i < |s| ==> LowerChar(s[i]) == LowerChar(t[i])
  }

  // ---- Order ----------------------------------------------------------------

  /** The order of Rust strings, character by character. */
  predicate Less(a: string, b: string) {
    if b == [] then false
    else if a == [] then true
    else a[0] < b[0] || (a[0] == b[0] && Less(a[1..], b[1..]))
  }

  lemma {:induction false} LessTransitive(a: string, b: string, c: string)
    requires Less(a, b) && Less(b, c)
    ensures Less(a, c)
  {
    if a != [] && a[0] == b[0] && b[0] == c[0] {
      LessTransitive(a[1..], b[1..], c[1..]);
    }
  }

  lemma {:induction false} LessTotal(a: string, b: string)
    ensures !(Less(a, b) && Less(b, a))
    ensures Less(a, b) || Less(b, a) || a == b
  {
    if a != [] && b != [] && a[0] == b[0] {
      LessTotal(a[1..], b[1..]);
      if a[1..] == b[1..] {
        assert a == [a[0]] + a[1..] && b == [b[0]] + b[1..];
      }
    }
  }

  lemma {:induction false} LessIrreflexive(a: string)
    ensures !Less(a, a)
  {
    if a != [] {
      LessIrreflexive(a[1..]);
    }
  }

  /**
   One text comes before another exactly if, behind what they share, it ends or
   has the lesser character.
   */
  lemma {:induction false} LessIff(a: string, b: string)
    ensures Less(a, b) <==> exists k :: 0 <= k <= |a| && k < |b| && FirstDifference(a, b, k)
  {
    if a == [] && b != [] {
      assert FirstDifference(a, b, 0);
    } else if a != [] && b != [] {
      LessIff(a[1..], b[1..]);
      if a[0] < b[0] {
        assert FirstDifference(a, b, 0);
      } else if a[0] == b[0] {
        if k :| 0 <= k <= |a| - 1 && k < |b| - 1 && FirstDifference(a[1..], b[1..], k) {
          assert a[..k + 1] == [a[0]] + a[1..][..k] && b[..k + 1] == [b[0]] + b[1..][..k];
          assert FirstDifference(a, b, k + 1);
        }
        if k :| 0 <= k <= |a| && k < |b| && FirstDifference(a, b, k) {
          assert a[1..][..k - 1] == a[..k][1..] && b[1..][..k - 1] == b[..k][1..];
          assert FirstDifference(a[1..], b[1..], k - 1);
        }
      }
    }
  }

  predicate FirstDifference(a: string, b: string, k: nat)
    requires k <= |a| && k < |b|
  {
    a[..k] == b[..k] && (k == |a| || a[k] < b[k])
  }

  /** A number may carry a plus sign. */
  lemma PlusReads(n: nat)
    requires n <= 0x7FFF_FFFF
    ensures ParseI32("+" + PrintNat(n)) == Some(n) && ParseI64("+" + PrintNat(n)) == Some(n)
  {
    ParsePrintNat(n);
    assert ("+" + PrintNat(n))[1..] == PrintNat(n);
  }
}
