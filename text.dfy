/**
 * The string operations the recommendation and search post-processing relies on:
 * the global regular expression /\d+/g (maximal runs of ASCII digits), parseInt on
 * such a run, the decimal rendering of a number inside a template literal,
 * String.prototype.substring(0, n), and Array.prototype.join with its inverse.
 * Characters are Dafny chars; UTF-16 code units are not distinguished from them.
 */
module TextUtil {

  /** `\d`: the ten ASCII digits only. */
  predicate IsAsciiDigit(c: char) {
    '0' <= c <= '9'
  }

  predicate AllDigits(s: string) {
    forall i :: 0 <= i < |s| ==> IsAsciiDigit(s[i])
  }

  predicate NoDigits(s: string) {
    forall i :: 0 <= i < |s| ==> !IsAsciiDigit(s[i])
  }

  lemma NoDigitsAppend(a: string, b: string)
    requires NoDigits(a) && NoDigits(b)
    ensures NoDigits(a + b)
  {
    forall i | 0 <= i < |a + b| ensures !IsAsciiDigit((a + b)[i]) {
      if i >= |a| { assert (a + b)[i] == b[i - |a|]; }
    }
  }

  /** The digits of s in order, everything else dropped. */
  function DigitsOf(s: string): (d: string)
    ensures AllDigits(d) && |d| <= |s|
  {
    if s == [] then []
    else (if IsAsciiDigit(s[0]) then [s[0]] else []) + DigitsOf(s[1..])
  }

  /** All runs glued back together. */
  function Flatten(runs: seq<string>): string {
    if runs == [] then [] else runs[0] + Flatten(runs[1..])
  }

  /** The longest prefix of s made of ASCII digits (what a greedy `\d+` takes at s[0]). */
  function LeadingDigits(s: string): (d: string)
    ensures |d| <= |s| && d == s[..|d|]
    ensures AllDigits(d)
    ensures |d| < |s| ==> !IsAsciiDigit(s[|d|])
  {
    if s == [] || !IsAsciiDigit(s[0]) then [] else [s[0]] + LeadingDigits(s[1..])
  }

  /**
   * `s.match(/\d+/g) || []`: every maximal run of ASCII digits, left to right.
   * A string without digits gives the empty list (the `|| []` fallback for `null`).
   */
  function DigitRuns(s: string): (runs: seq<string>)
    ensures forall j :: 0 <= j < |runs| ==> |runs[j]| > 0 && AllDigits(runs[j])
    decreases |s|
  {
    if s == [] then []
    else if !IsAsciiDigit(s[0]) then DigitRuns(s[1..])
    else
      var d := LeadingDigits(s);
      [d] + DigitRuns(s[|d|..])
  }

  /** A reply has no digit run exactly when it has no digit at all. */
  lemma {:induction false} DigitRunsEmptyIff(s: string)
    ensures DigitRuns(s) == [] <==> NoDigits(s)
    decreases |s|
  {
    if s != [] {
      if !IsAsciiDigit(s[0]) {
        DigitRunsEmptyIff(s[1..]);
        assert NoDigits(s) <==> NoDigits(s[1..]) by {
          forall i | 0 <= i < |s[1..]| ensures s[1..][i] == s[i + 1] { }
          if NoDigits(s[1..]) {
            forall i | 0 <= i < |s| ensures !IsAsciiDigit(s[i]) {
              if i > 0 { assert s[i] == s[1..][i - 1]; }
            }
          }
        }
      } else {
        assert !NoDigits(s) by { assert IsAsciiDigit(s[0]); }
      }
    }
  }

  /** A non-empty run of digits is matched as one whole run. */
  lemma DigitRunsOfDigits(d: string)
    requires |d| > 0 && AllDigits(d)
    ensures DigitRuns(d) == [d]
  {
    var l := LeadingDigits(d);
    assert l == d;
    assert d[|l|..] == [];
  }

  /** A run stops at the first non-digit: a non-digit after a run leaves the run alone. */
  lemma {:induction false} LeadingDigitsStopsAt(a: string, c: char, b: string)
    requires !IsAsciiDigit(c)
    ensures LeadingDigits(a + [c] + b) == LeadingDigits(a)
    decreases |a|
  {
    if a == [] {
      assert (a + [c] + b)[0] == c;
    } else {
      assert (a + [c] + b)[0] == a[0];
      assert (a + [c] + b)[1..] == a[1..] + [c] + b;
      LeadingDigitsStopsAt(a[1..], c, b);
    }
  }

  /** A non-digit separates: the runs of `a c b` are the runs of a followed by those of b. */
  lemma {:induction false} DigitRunsSeparated(a: string, c: char, b: string)
    requires !IsAsciiDigit(c)
    ensures DigitRuns(a + [c] + b) == DigitRuns(a) + DigitRuns(b)
    decreases |a|
  {
    var s := a + [c] + b;
    if a == [] {
      assert s[0] == c && s[1..] == b;
    } else if !IsAsciiDigit(a[0]) {
      assert s[0] == a[0];
      assert s[1..] == a[1..] + [c] + b;
      DigitRunsSeparated(a[1..], c, b);
    } else {
      assert s[0] == a[0];
      var d := LeadingDigits(a);
      LeadingDigitsStopsAt(a, c, b);
      assert LeadingDigits(s) == d;
      assert s[|d|..] == a[|d|..] + [c] + b;
      DigitRunsSeparated(a[|d|..], c, b);
    }
  }

  lemma {:induction false} DigitsOfAppend(a: string, b: string)
    ensures DigitsOf(a + b) == DigitsOf(a) + DigitsOf(b)
    decreases |a|
  {
    if a == [] {
      assert a + b == b;
    } else {
      var head := if IsAsciiDigit(a[0]) then [a[0]] else [];
      assert (a + b)[0] == a[0];
      assert (a + b)[1..] == a[1..] + b;
      assert DigitsOf(a + b) == head + DigitsOf(a[1..] + b);
      DigitsOfAppend(a[1..], b);
      assert DigitsOf(a) == head + DigitsOf(a[1..]);
    }
  }

  lemma {:induction false} DigitsOfDigits(d: string)
    requires AllDigits(d)
    ensures DigitsOf(d) == d
    decreases |d|
  {
    if d != [] {
      assert IsAsciiDigit(d[0]);
      DigitsOfDigits(d[1..]);
      assert d == [d[0]] + d[1..];
    }
  }

  /** No digit is lost or invented: the runs, concatenated, are exactly the digits of s in order. */
  lemma {:induction false} DigitRunsKeepEveryDigit(s: string)
    ensures Flatten(DigitRuns(s)) == DigitsOf(s)
    decreases |s|
  {
    if s != [] {
      if !IsAsciiDigit(s[0]) {
        DigitRunsKeepEveryDigit(s[1..]);
      } else {
        var d := LeadingDigits(s);
        var rest := s[|d|..];
        assert s == d + rest;
        DigitRunsKeepEveryDigit(rest);
        DigitsOfAppend(d, rest);
        DigitsOfDigits(d);
        assert DigitRuns(s) == [d] + DigitRuns(rest);
        assert ([d] + DigitRuns(rest))[1..] == DigitRuns(rest);
      }
    }
  }

  function DigitValue(c: char): (v: nat)
    requires IsAsciiDigit(c)
    ensures v < 10
  {
    (c as int) - ('0' as int)
  }

  function DigitChar(v: nat): (c: char)
    requires v < 10
    ensures IsAsciiDigit(c) && DigitValue(c) == v
  {
    ('0' as int + v) as char
  }

  /**
   * `parseInt(run)` on a run of decimal digits: its value in base 10. It is 0 exactly
   * when every digit is '0', so a run like "00" names no artwork.
   */
  function DecimalValue(s: string): (v: nat)
    requires AllDigits(s)
    ensures v == 0 <==> forall i :: 0 <= i < |s| ==> s[i] == '0'
  {
    if s == [] then 0
    else
      var init := s[..|s| - 1];
      assert forall i :: 0 <= i < |init| ==> init[i] == s[i];
      DecimalValue(init) * 10 + DigitValue(s[|s| - 1])
  }

  /** parseInt ignores leading zeros: "07" reads as 7. */
  lemma {:induction false} DecimalValueLeadingZero(s: string)
    requires AllDigits(s)
    ensures AllDigits("0" + s)
    ensures DecimalValue("0" + s) == DecimalValue(s)
    decreases |s|
  {
    var z := "0" + s;
    assert forall i :: 0 <= i < |z| ==> z[i] == if i == 0 then '0' else s[i - 1];
    if s != [] {
      var init := s[..|s| - 1];
      assert AllDigits(init);
      DecimalValueLeadingZero(init);
      assert z[..|z| - 1] == "0" + init;
      assert z[|z| - 1] == s[|s| - 1];
    }
  }

  /**
   * The decimal rendering of a natural number, as `${n}` produces it: non-empty, all
   * digits, no leading zero, and parseInt reads the number back.
   */
  function NatToString(n: nat): (s: string)
    ensures |s| > 0 && AllDigits(s)
    ensures n > 0 ==> s[0] != '0'
    ensures DecimalValue(s) == n
  {
    if n < 10 then [DigitChar(n)]
    else
      var high := NatToString(n / 10);
      var s := high + [DigitChar(n % 10)];
      assert s[..|s| - 1] == high;
      s
  }

  /** `s.substring(0, n)` for n >= 0: the first n characters, or all of s when it is shorter. */
  function Prefix(s: string, n: nat): (p: string)
    ensures |p| == if |s| < n then |s| else n
    ensures p == s[..|p|]
  {
    if |s| <= n then s else s[..n]
  }

  /**
   * `lines.join(sep)` for a one-character separator: no line, no text; otherwise the
   * first line comes first, followed by the separator when more lines follow.
   */
  function Join(lines: seq<string>, sep: char): (s: string)
    ensures lines == [] ==> s == []
    ensures |lines| > 0 ==> |s| >= |lines[0]| && s[..|lines[0]|] == lines[0]
    ensures |lines| > 1 ==> |s| > |lines[0]| && s[|lines[0]|] == sep
    decreases |lines|
  {
    if |lines| == 0 then []
    else if |lines| == 1 then lines[0]
    else lines[0] + [sep] + Join(lines[1..], sep)
  }

  /** The position of the first occurrence of c in s. */
  function IndexOf(s: string, c: char): (i: nat)
    requires c in s
    ensures i < |s| && s[i] == c && c !in s[..i]
  {
    if s[0] == c then 0
    else
      assert c in s[1..] by { var k :| 0 <= k < |s| && s[k] == c; assert s[1..][k - 1] == c; }
      var j := IndexOf(s[1..], c);
      assert s[..j + 1] == [s[0]] + s[1..][..j];
      j + 1
  }

  /** `s.split(sep)`: the pieces between separators; never empty, as in JavaScript. */
  function Split(s: string, sep: char): (parts: seq<string>)
    ensures |parts| > 0
    ensures forall j :: 0 <= j < |parts| ==> sep !in parts[j]
    decreases |s|
  {
    if sep !in s then [s]
    else
      var i := IndexOf(s, sep);
      [s[..i]] + Split(s[i + 1..], sep)
  }

  /** Joining lines that contain no separator can be undone: splitting gives the lines back. */
  lemma {:induction false} SplitJoin(lines: seq<string>, sep: char)
    requires |lines| > 0
    requires forall j :: 0 <= j < |lines| ==> sep !in lines[j]
    ensures Split(Join(lines, sep), sep) == lines
    decreases |lines|
  {
    if |lines| > 1 {
      var head := lines[0];
      var tail := Join(lines[1..], sep);
      var s := head + [sep] + tail;
      assert s[|head|] == sep;
      assert sep in s;
      assert s[..|head|] == head;
      var i := IndexOf(s, sep);
      assert i == |head|;
      assert s[i + 1..] == tail;
      SplitJoin(lines[1..], sep);
      assert Split(s, sep) == [head] + Split(tail, sep);
    }
  }
}
