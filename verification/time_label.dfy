/**
 * The export range read back from the selection label.
 *
 * `saveVideo` collects every `\d{2}:\d{2}` match of the label text, reads the
 * first two with `timeToMilliseconds`, and uses them as the clip bounds. The
 * helpers below give Kotlin's `split`, `trim` and `toInt` the meaning they have
 * on the JVM, restricted to ASCII digits and ASCII whitespace.
 */
module TimeLabel {
  import opened Outcomes
  import opened KotlinNumbers

  // ---------------------------------------------------------------------------
  // Characters
  // ---------------------------------------------------------------------------

  predicate IsDigit(c: char) {
    '0' <= c <= '9'
  }

  /** The characters `Char.isWhitespace` accepts below 0x80. */
  predicate IsSpace(c: char) {
    c == ' ' || c == '\t' || c == '\n' || c == '\r' || c == '\U{B}' || c == '\U{C}'
      || ('\U{1C}' <= c <= '\U{1F}')
  }

  function DigitValue(c: char): (d: int)
    requires IsDigit(c)
    ensures 0 <= d <= 9
  {
    c as int - '0' as int
  }

  function DigitChar(d: int): (c: char)
    requires 0 <= d <= 9
    ensures IsDigit(c) && DigitValue(c) == d
  {
    ('0' as int + d) as char
  }

  predicate AllDigits(s: string) {
    forall i :: 0 <= i < |s| ==> IsDigit(s[i])
  }

  // ---------------------------------------------------------------------------
  // String.split(c) and its inverse
  // ---------------------------------------------------------------------------

  /** How many times `c` occurs in `s`. */
  function Occurrences(s: string, c: char): (n: nat)
    ensures n == 0 <==> c !in s
  {
    if |s| == 0 then 0 else (if s[0] == c then 1 else 0) + Occurrences(s[1..], c)
  }

  /** The parts put back together with `c` between neighbours. */
  function Join(parts: seq<string>, c: char): string
    requires |parts| >= 1
  {
    if |parts| == 1 then parts[0] else parts[0] + [c] + Join(parts[1..], c)
  }

  /** Gluing a character in front of the first part glues it in front of the whole. */
  lemma {:induction false} JoinConsHead(x: char, parts: seq<string>, c: char)
    requires |parts| >= 1
    ensures Join([[x] + parts[0]] + parts[1..], c) == [x] + Join(parts, c)
  {
    var glued := [[x] + parts[0]] + parts[1..];
    if |parts| > 1 {
      assert glued[1..] == parts[1..];
    }
  }

  /**
   * Kotlin's `split(c)` with no limit: one part per separator plus one, empty
   * parts kept, trailing ones included.
   */
  function Split(s: string, c: char): (r: seq<string>)
    ensures |r| == Occurrences(s, c) + 1
    ensures Join(r, c) == s
    ensures forall i :: 0 <= i < |r| ==> c !in r[i]
    decreases |s|
  {
    if |s| == 0 then [""]
    else
      var rest := Split(s[1..], c);
      assert s == [s[0]] + s[1..];
      if s[0] == c then
        assert Join([""] + rest, c) == [c] + Join(rest, c) by {
          assert ([""] + rest)[1..] == rest;
        }
        [""] + rest
      else
        JoinConsHead(s[0], rest, c);
        [[s[0]] + rest[0]] + rest[1..]
  }

  /** The first part of a join is a prefix, cut exactly at the first separator. */
  lemma JoinHead(parts: seq<string>, c: char)
    requires |parts| >= 1
    ensures |parts[0]| <= |Join(parts, c)|
    ensures Join(parts, c)[..|parts[0]|] == parts[0]
    ensures |parts| == 1 ==> Join(parts, c) == parts[0]
    ensures |parts| > 1 ==> |parts[0]| < |Join(parts, c)| && Join(parts, c)[|parts[0]|] == c
  {
  }

  /**
   * `split(" ")[0]`: the text up to the first space, or all of it when there is
   * none.
   */
  function FirstWord(s: string): (r: string)
    ensures ' ' !in r
    ensures |r| <= |s| && s[..|r|] == r
    ensures |r| < |s| ==> s[|r|] == ' '
  {
    var parts := Split(s, ' ');
    JoinHead(parts, ' ');
    parts[0]
  }

  // ---------------------------------------------------------------------------
  // String.trim()
  // ---------------------------------------------------------------------------

  /** How many whitespace characters `s` starts with. */
  function LeadingSpaces(s: string): (n: nat)
    ensures n <= |s|
    ensures forall i :: 0 <= i < n ==> IsSpace(s[i])
    ensures n < |s| ==> !IsSpace(s[n])
  {
    if |s| > 0 && IsSpace(s[0]) then 1 + LeadingSpaces(s[1..]) else 0
  }

  function TrimEnd(s: string): (r: string)
    ensures |r| <= |s| && r == s[..|r|]
    ensures |r| > 0 ==> !IsSpace(r[|r| - 1])
    ensures forall i :: |r| <= i < |s| ==> IsSpace(s[i])
  {
    if |s| > 0 && IsSpace(s[|s| - 1]) then TrimEnd(s[..|s| - 1]) else s
  }

  /**
   * `trim()`: `s` without its leading and trailing whitespace, which is the
   * longest slice of `s` that neither starts nor ends with whitespace.
   */
  function Trim(s: string): (r: string)
    ensures LeadingSpaces(s) + |r| <= |s|
    ensures r == s[LeadingSpaces(s)..LeadingSpaces(s) + |r|]
    ensures forall i :: LeadingSpaces(s) + |r| <= i < |s| ==> IsSpace(s[i])
    ensures |r| > 0 ==> !IsSpace(r[0]) && !IsSpace(r[|r| - 1])
  {
    var a := LeadingSpaces(s);
    var r := TrimEnd(s[a..]);
    assert forall i :: a + |r| <= i < |s| ==> IsSpace(s[i]) by {
      forall i | a + |r| <= i < |s|
        ensures IsSpace(s[i])
      {
        assert s[a..][i - a] == s[i];
      }
    }
    r
  }

  // ---------------------------------------------------------------------------
  // String.toInt()
  // ---------------------------------------------------------------------------

  /** The value of a run of decimal digits, most significant first. */
  function DigitsValue(s: string): (v: nat)
    requires AllDigits(s)
  {
    if |s| == 0 then 0 else DigitsValue(s[..|s| - 1]) * 10 + DigitValue(s[|s| - 1])
  }

  /** The shortest decimal rendering of a natural number. */
  function Decimal(n: nat): (s: string)
    ensures |s| >= 1 && AllDigits(s)
    ensures n > 0 ==> s[0] != '0'
  {
    if n < 10 then [DigitChar(n)] else Decimal(n / 10) + [DigitChar(n % 10)]
  }

  lemma {:induction false} DecimalRoundTrip(n: nat)
    ensures DigitsValue(Decimal(n)) == n
  {
    if n >= 10 {
      var s := Decimal(n);
      assert s[..|s| - 1] == Decimal(n / 10);
      DecimalRoundTrip(n / 10);
    }
  }

  /** The text after an optional leading sign. */
  function Unsigned(s: string): string {
    if |s| > 0 && (s[0] == '-' || s[0] == '+') then s[1..] else s
  }

  /** An optional sign followed by at least one digit and nothing else. */
  predicate IntLiteral(s: string) {
    |Unsigned(s)| > 0 && AllDigits(Unsigned(s))
  }

  /** The value an integer literal denotes, before any range check. */
  function LiteralValue(s: string): int
    requires IntLiteral(s)
  {
    if s[0] == '-' then -(DigitsValue(Unsigned(s)) as int) else DigitsValue(Unsigned(s))
  }

  /**
   * `Integer.parseInt`: an integer literal whose value lies inside the 32-bit
   * range; anything else is a NumberFormatException.
   */
  function ParseInt(s: string): (r: Result<int>)
    ensures r.Success? <==> IntLiteral(s) && IsInt(LiteralValue(s))
    ensures r.Success? ==> r.value == LiteralValue(s)
    ensures r.Failure? ==> r.error == NumberFormat
  {
    if |s| == 0 then Failure(NumberFormat)
    else
      var negative := s[0] == '-';
      var body := if s[0] == '-' || s[0] == '+' then s[1..] else s;
      if |body| == 0 || !AllDigits(body) then Failure(NumberFormat)
      else
        var v := if negative then -(DigitsValue(body) as int) else DigitsValue(body);
        if IsInt(v) then Success(v) else Failure(NumberFormat)
  }

  /** Every non-negative Int reads back from its decimal rendering. */
  lemma ParseDecimal(n: nat)
    requires n <= IntMax
    ensures ParseInt(Decimal(n)) == Success(n)
  {
    DecimalRoundTrip(n);
  }

  // ---------------------------------------------------------------------------
  // timeToMilliseconds
  // ---------------------------------------------------------------------------

  /**
   * `MM:SS` to milliseconds in 32-bit Int arithmetic (the multiplication and
   * addition wrap; wrapping each step and wrapping once agree modulo 2^32). A
   * text without exactly one colon is an IllegalArgumentException; a part
   * that is not a number is a NumberFormatException.
   */
  function TimeToMilliseconds(time: string): (r: Result<int>)
    ensures r == Failure(IllegalArgument) <==> Occurrences(time, ':') != 1
    ensures r.Success? ==> IsInt(r.value)
    ensures r.Failure? ==> r.error in {IllegalArgument, NumberFormat}
  {
    var parts := Split(time, ':');
    if |parts| != 2 then Failure(IllegalArgument) else ReadClock(parts[0], parts[1])
  }

  /**
   * The two colon-separated fields of a time: the minutes field is read as it
   * is, the seconds field up to the first space after trimming.
   */
  function ReadClock(minutesText: string, secondsText: string): (r: Result<int>)
    ensures r.Success? ==> IsInt(r.value)
    ensures r.Failure? ==> r.error == NumberFormat
  {
    var minutes :- ParseInt(minutesText);
    var seconds :- ParseInt(FirstWord(Trim(secondsText)));
    Success(WrapInt((minutes * 60 + seconds) * 1000))
  }

  // ---------------------------------------------------------------------------
  // The \d{2}:\d{2} scan
  // ---------------------------------------------------------------------------

  const MatchLength := 5

  /** `\d{2}:\d{2}` matches `s` at position `k`. */
  predicate MatchAt(s: string, k: int) {
    0 <= k && k + MatchLength <= |s|
    && IsDigit(s[k]) && IsDigit(s[k + 1]) && s[k + 2] == ':' && IsDigit(s[k + 3]) && IsDigit(s[k + 4])
  }

  /** Position `k` lies inside one of the matches starting at `starts`. */
  predicate Covered(starts: seq<nat>, k: int) {
    exists j :: 0 <= j < |starts| && starts[j] <= k < starts[j] + MatchLength
  }

  /**
   * `Regex.findAll` from position `i`: the start of every match, leftmost
   * first, each search resuming after the previous match.
   */
  function Scan(s: string, i: nat): (r: seq<nat>)
    ensures forall j :: 0 <= j < |r| ==> i <= r[j] && MatchAt(s, r[j])
    ensures forall a, b :: 0 <= a < b < |r| ==> r[a] + MatchLength <= r[b]
    decreases |s| - i
  {
    if i + MatchLength > |s| then []
    else if MatchAt(s, i) then [i] + Scan(s, i + MatchLength)
    else Scan(s, i + 1)
  }

  /** No match is missed: every match from `i` on overlaps a reported one. */
  lemma {:induction false} ScanFindsEveryMatch(s: string, i: nat, k: int)
    requires i <= k && MatchAt(s, k)
    ensures Covered(Scan(s, i), k)
    decreases |s| - i
  {
    var r := Scan(s, i);
    if MatchAt(s, i) {
      assert r == [i] + Scan(s, i + MatchLength);
      if k < i + MatchLength {
        assert r[0] <= k < r[0] + MatchLength;
      } else {
        var rest := Scan(s, i + MatchLength);
        ScanFindsEveryMatch(s, i + MatchLength, k);
        var j :| 0 <= j < |rest| && rest[j] <= k < rest[j] + MatchLength;
        assert r[j + 1] == rest[j];
      }
    } else {
      ScanFindsEveryMatch(s, i + 1, k);
    }
  }

  /** Between reported matches no other match starts: the scan is leftmost and greedy. */
  lemma NoMatchInGaps(s: string, r: seq<nat>, j: int, k: int)
    requires r == Scan(s, 0)
    requires 0 <= j < |r| - 1
    requires r[j] + MatchLength <= k < r[j + 1]
    ensures !MatchAt(s, k)
  {
    GapIsUncovered(r, j, k);
    if MatchAt(s, k) {
      ScanFindsEveryMatch(s, 0, k);
    }
  }

  lemma GapIsUncovered(r: seq<nat>, j: int, k: int)
    requires forall a, b :: 0 <= a < b < |r| ==> r[a] + MatchLength <= r[b]
    requires 0 <= j < |r| - 1 && r[j] + MatchLength <= k < r[j + 1]
    ensures !Covered(r, k)
  {
  }

  /** The text of every match, in order. */
  function FindAll(s: string): (r: seq<string>)
    ensures |r| == |Scan(s, 0)|
    ensures forall j :: 0 <= j < |r| ==> |r[j]| == MatchLength && MatchAt(r[j], 0)
  {
    var starts := Scan(s, 0);
    seq(|starts|, j requires 0 <= j < |starts| => s[starts[j]..starts[j] + MatchLength])
  }

  /** The clock a matched `MM:SS` reads, in milliseconds. */
  function ClockMillis(t: string): (ms: nat)
    requires MatchAt(t, 0)
    ensures ms <= (99 * 60 + 99) * 1000
  {
    var minutes := DigitValue(t[0]) * 10 + DigitValue(t[1]);
    var seconds := DigitValue(t[3]) * 10 + DigitValue(t[4]);
    (minutes * 60 + seconds) * 1000
  }

  /** A two-digit field reads back as its value. */
  lemma ParseTwoDigits(a: char, b: char)
    requires IsDigit(a) && IsDigit(b)
    ensures ParseInt([a, b]) == Success(DigitValue(a) * 10 + DigitValue(b))
  {
    assert [a, b][..1] == [a];
    assert [a][..0] == [];
    assert DigitsValue([a]) == DigitValue(a);
    assert DigitsValue([a, b]) == DigitValue(a) * 10 + DigitValue(b);
  }

  /** A matched label fragment always converts, to the clock it reads. */
  lemma {:induction false} MatchedTimeConverts(t: string)
    requires |t| == MatchLength && MatchAt(t, 0)
    ensures TimeToMilliseconds(t) == Success(ClockMillis(t))
  {
    MatchReadsFields(t);
    MatchFieldsConvert(t);
  }

  lemma {:induction false} MatchReadsFields(t: string)
    requires |t| == MatchLength && MatchAt(t, 0)
    ensures TimeToMilliseconds(t) == ReadClock([t[0], t[1]], [t[3], t[4]])
  {
    SplitMatch(t);
    FieldsOfTime(t);
  }

  lemma {:induction false} MatchFieldsConvert(t: string)
    requires |t| == MatchLength && MatchAt(t, 0)
    ensures ReadClock([t[0], t[1]], [t[3], t[4]]) == Success(ClockMillis(t))
  {
    TwoDigitFields(t[0], t[1], t[3], t[4]);
  }

  lemma {:induction false} FieldsOfTime(t: string)
    requires |t| == MatchLength
    requires Split(t, ':') == [[t[0], t[1]], [t[3], t[4]]]
    ensures TimeToMilliseconds(t) == ReadClock([t[0], t[1]], [t[3], t[4]])
  {
  }

  lemma {:induction false} SplitMatch(t: string)
    requires |t| == MatchLength && MatchAt(t, 0)
    ensures Split(t, ':') == [[t[0], t[1]], [t[3], t[4]]]
  {
    var minutes, seconds := [t[0], t[1]], [t[3], t[4]];
    assert t == minutes + [':'] + seconds;
    SplitAround(minutes, seconds, ':');
  }

  /** Two-digit minutes and seconds fields read as the clock they spell. */
  lemma {:induction false} TwoDigitFields(m1: char, m2: char, s1: char, s2: char)
    requires IsDigit(m1) && IsDigit(m2) && IsDigit(s1) && IsDigit(s2)
    ensures ReadClock([m1, m2], [s1, s2])
      == Success(((DigitValue(m1) * 10 + DigitValue(m2)) * 60 + DigitValue(s1) * 10 + DigitValue(s2)) * 1000)
  {
    TrimDigits([s1, s2]);
    SplitNoSeparator([s1, s2], ' ');
    assert FirstWord(Trim([s1, s2])) == [s1, s2];
    ParseTwoDigits(m1, m2);
    ParseTwoDigits(s1, s2);
    var x := ((DigitValue(m1) * 10 + DigitValue(m2)) * 60 + DigitValue(s1) * 10 + DigitValue(s2)) * 1000;
    assert WrapInt(x) == x;
  }

  lemma {:induction false} SplitNoSeparator(s: string, c: char)
    requires c !in s
    ensures Split(s, c) == [s]
  {
    if |s| > 0 {
      SplitNoSeparator(s[1..], c);
      assert [s[0]] + s[1..] == s;
    }
  }

  lemma {:induction false} SplitAround(a: string, b: string, c: char)
    requires c !in a && c !in b
    ensures Split(a + [c] + b, c) == [a, b]
  {
    var s := a + [c] + b;
    if |a| == 0 {
      assert s[1..] == b;
      SplitNoSeparator(b, c);
    } else {
      assert s[1..] == a[1..] + [c] + b;
      SplitAround(a[1..], b, c);
      assert [s[0]] + a[1..] == a;
    }
  }

  lemma TrimDigits(s: string)
    requires AllDigits(s)
    ensures Trim(s) == s
  {
    assert forall i :: 0 <= i < |s| ==> !IsSpace(s[i]);
  }

  /**
   * `saveVideo`'s clip bounds: the first two matches of the label, read as
   * times. Fewer than two matches is the IndexOutOfBoundsException of
   * `timeList[1]` (or `timeList[0]`).
   */
  function SaveRange(text: string): (r: Result<(int, int)>)
    ensures r.Success? <==> |Scan(text, 0)| >= 2
    ensures r.Failure? ==> r.error == IndexOutOfBounds
    ensures r.Success? ==>
      r.value.0 == ClockMillis(text[Scan(text, 0)[0]..])
      && r.value.1 == ClockMillis(text[Scan(text, 0)[1]..])
  {
    var times := FindAll(text);
    if |times| < 2 then Failure(IndexOutOfBounds)
    else
      MatchedTimeConverts(times[0]);
      MatchedTimeConverts(times[1]);
      match TimeToMilliseconds(times[0])
      case Failure(e) => Failure(e)
      case Success(start) =>
        match TimeToMilliseconds(times[1])
        case Failure(e) => Failure(e)
        case Success(end) => Success((start, end))
  }

  /** `MM:SS` rendered with two zero-padded fields. */
  function TwoDigits(n: int): (s: string)
    requires 0 <= n < 100
    ensures |s| == 2 && AllDigits(s)
  {
    [DigitChar(n / 10), DigitChar(n % 10)]
  }

  lemma TwoDigitsValue(n: int)
    requires 0 <= n < 100
    ensures DigitValue(TwoDigits(n)[0]) * 10 + DigitValue(TwoDigits(n)[1]) == n
  {
  }

  /** The zero-padded `MM:SS` text of a clock, which the label pattern matches. */
  function ClockText(mm: int, ss: int): (t: string)
    requires 0 <= mm < 100 && 0 <= ss < 100
    ensures |t| == MatchLength && MatchAt(t, 0)
    ensures ClockMillis(t) == (mm * 60 + ss) * 1000
  {
    var t := TwoDigits(mm) + ":" + TwoDigits(ss);
    assert t[0] == TwoDigits(mm)[0] && t[1] == TwoDigits(mm)[1];
    assert t[3] == TwoDigits(ss)[0] && t[4] == TwoDigits(ss)[1];
    TwoDigitsValue(mm);
    TwoDigitsValue(ss);
    t
  }

  /** A zero-padded `MM:SS` reads back as the time it renders. */
  lemma ClockRoundTrip(mm: int, ss: int)
    requires 0 <= mm < 100 && 0 <= ss < 100
    ensures TimeToMilliseconds(ClockText(mm, ss)) == Success((mm * 60 + ss) * 1000)
  {
    MatchedTimeConverts(ClockText(mm, ss));
  }

  /** The scan steps over text without digits, where no match can start. */
  lemma {:induction false} ScanSkipsNonDigits(s: string, i: nat, n: nat)
    requires i + n <= |s|
    requires forall k :: i <= k < i + n ==> !IsDigit(s[k])
    ensures Scan(s, i) == Scan(s, i + n)
    decreases n
  {
    if n > 0 {
      assert !MatchAt(s, i);
      ScanSkipsNonDigits(s, i + 1, n - 1);
    }
  }

  /** Two matches separated by `n` characters without digits are the first two found. */
  lemma FirstTwoMatches(text: string, n: nat)
    requires MatchAt(text, 0) && MatchAt(text, MatchLength + n)
    requires forall k :: MatchLength <= k < MatchLength + n ==> !IsDigit(text[k])
    ensures |Scan(text, 0)| >= 2
    ensures Scan(text, 0)[0] == 0 && Scan(text, 0)[1] == MatchLength + n
  {
    assert Scan(text, 0) == [0] + Scan(text, MatchLength);
    ScanSkipsNonDigits(text, MatchLength, n);
    assert Scan(text, MatchLength + n) == [MatchLength + n] + Scan(text, MatchLength + n + MatchLength);
  }

  /** A clock copied into a longer text is matched there and reads the same. */
  lemma ClockInText(text: string, at: nat, t: string)
    requires |t| == MatchLength && MatchAt(t, 0)
    requires at + MatchLength <= |text| && text[at..at + MatchLength] == t
    ensures MatchAt(text, at) && ClockMillis(text[at..]) == ClockMillis(t)
  {
    assert forall k :: 0 <= k < MatchLength ==> text[at..][k] == t[k];
  }

  /**
   * A label holding two `MM:SS` clocks separated
   * by text without digits yields those two clocks as the clip bounds,
   * whatever follows the second one.
   */
  lemma {:induction false} LabelRange(start: string, gap: string, end: string, tail: string)
    requires |start| == MatchLength && MatchAt(start, 0)
    requires |end| == MatchLength && MatchAt(end, 0)
    requires forall k :: 0 <= k < |gap| ==> !IsDigit(gap[k])
    ensures SaveRange(start + gap + end + tail) == Success((ClockMillis(start), ClockMillis(end)))
  {
    var text := start + gap + end + tail;
    var second := MatchLength + |gap|;
    LabelLayout(start, gap, end, tail);
    ClockInText(text, 0, start);
    ClockInText(text, second, end);
    FirstTwoMatches(text, |gap|);
  }

  lemma LabelLayout(start: string, gap: string, end: string, tail: string)
    requires |start| == MatchLength && |end| == MatchLength
    requires forall k :: 0 <= k < |gap| ==> !IsDigit(gap[k])
    ensures var text := start + gap + end + tail;
      && text[0..MatchLength] == start
      && text[MatchLength + |gap|..MatchLength + |gap| + MatchLength] == end
      && forall k :: MatchLength <= k < MatchLength + |gap| ==> !IsDigit(text[k])
  {
    var text := start + gap + end + tail;
    assert forall k :: MatchLength <= k < MatchLength + |gap| ==> text[k] == gap[k - MatchLength];
  }

  /** A label reading "00:05 sec - 00:15 sec" yields the clip from 5 s to 15 s. */
  lemma LabelExample()
    ensures SaveRange(ClockText(0, 5) + " sec - " + ClockText(0, 15) + " sec") == Success((5000, 15000))
  {
    LabelRange(ClockText(0, 5), " sec - ", ClockText(0, 15), " sec");
  }
}
