/** The few Python `str` operations the script relies on, stated over `seq<char>`:
    `in` (substring test), `split` with a one-character separator, its inverse
    `join`, `<` (code-point lexicographic order), `isdigit` and `int`. */
module Strings {

  /** Python's `p in s` for two strings: `p` occurs in `s` as a contiguous piece. */
  predicate IsInfix(p: string, s: string)
    ensures IsInfix(p, s) ==> |p| <= |s|
    decreases |s|
  {
    (|p| <= |s| && s[..|p|] == p) || (|s| > 0 && IsInfix(p, s[1..]))
  }

  /** Python's `s.split(sep)`: the pieces between separators, empty pieces kept,
      so there is always one more piece than there are separators. */
  function Split(s: string, sep: char): (parts: seq<string>)
    ensures |parts| >= 1
    ensures forall i :: 0 <= i < |parts| ==> sep !in parts[i]
    ensures |parts[0]| <= |s| && s[..|parts[0]|] == parts[0]
    decreases |s|
  {
    if |s| == 0 then [""]
    else
      var rest := Split(s[1..], sep);
      if s[0] == sep then [""] + rest
      else [[s[0]] + rest[0]] + rest[1..]
  }

  /** Python's `sep.join(parts)`. */
  function Join(parts: seq<string>, sep: char): string
    decreases |parts|
  {
    if |parts| == 0 then ""
    else if |parts| == 1 then parts[0]
    else parts[0] + [sep] + Join(parts[1..], sep)
  }

  /** Python's `s.count(c)` for a single character. */
  function Count(s: string, c: char): nat
    decreases |s|
  {
    if |s| == 0 then 0 else (if s[0] == c then 1 else 0) + Count(s[1..], c)
  }

  /** Python's `s < t` on strings: lexicographic order of code points, a proper
      prefix sorting first. */
  predicate Less(s: string, t: string)
    ensures Less(s, t) ==> s != t
    ensures |s| < |t| && t[..|s|] == s ==> Less(s, t)
    decreases |s|
  {
    if |s| == 0 then |t| > 0
    else if |t| == 0 then false
    else if s[0] != t[0] then s[0] < t[0]
    else Less(s[1..], t[1..])
  }

  predicate IsDigitChar(c: char) {
    '0' <= c <= '9'
  }

  predicate AllDigits(s: string) {
    forall i :: 0 <= i < |s| ==> IsDigitChar(s[i])
  }

  /** Python's `s.isdigit()`, restricted to the ASCII digits. */
  predicate IsDigits(s: string)
    ensures IsDigits(s) ==> |s| > 0 && '.' !in s && s[0] != '-'
  {
    |s| > 0 && AllDigits(s)
  }

  /** Python's `int(s)` on a string of decimal digits. */
  function DecimalValue(s: string): (n: nat)
    requires AllDigits(s)
    ensures n < Pow10(|s|)
    decreases |s|
  {
    if |s| == 0 then 0
    else DecimalValue(s[..|s| - 1]) * 10 + (s[|s| - 1] as int - '0' as int)
  }

  /** `10 ** k`. */
  function Pow10(k: nat): (p: nat)
    ensures p > 0
  {
    if k == 0 then 1 else 10 * Pow10(k - 1)
  }

  // ----- split and join -----

  lemma {:induction false} SplitNoSeparator(s: string, sep: char)
    requires sep !in s
    ensures Split(s, sep) == [s]
    decreases |s|
  {
    if |s| > 0 {
      SplitNoSeparator(s[1..], sep);
      assert [s[0]] + s[1..] == s;
    }
  }

  /** Splitting at one separator splits the two sides independently. */
  lemma {:induction false} SplitConcat(a: string, sep: char, b: string)
    ensures Split(a + [sep] + b, sep) == Split(a, sep) + Split(b, sep)
    decreases |a|
  {
    var s := a + [sep] + b;
    if |a| == 0 {
      assert s[1..] == b;
    } else {
      assert s[1..] == a[1..] + [sep] + b;
      SplitConcat(a[1..], sep, b);
    }
  }

  lemma {:induction false} JoinSplit(s: string, sep: char)
    ensures Join(Split(s, sep), sep) == s
    decreases |s|
  {
    if |s| > 0 {
      var rest := Split(s[1..], sep);
      JoinSplit(s[1..], sep);
      if s[0] == sep {
        assert s == [sep] + s[1..];
      } else {
        var parts := Split(s, sep);
        if |rest| == 1 {
          assert parts == [[s[0]] + rest[0]];
          assert s == [s[0]] + s[1..];
        } else {
          assert parts[1..] == rest[1..];
          assert Join(rest, sep) == rest[0] + [sep] + Join(rest[1..], sep);
          assert s == [s[0]] + s[1..];
        }
      }
    }
  }

  /** `split` undoes `join` when no piece holds the separator. */
  lemma {:induction false} SplitJoin(parts: seq<string>, sep: char)
    requires |parts| >= 1
    requires forall i :: 0 <= i < |parts| ==> sep !in parts[i]
    ensures Split(Join(parts, sep), sep) == parts
    decreases |parts|
  {
    if |parts| == 1 {
      SplitNoSeparator(parts[0], sep);
    } else {
      var tail := Join(parts[1..], sep);
      assert Join(parts, sep) == parts[0] + [sep] + tail;
      forall i | 0 <= i < |parts[1..]| ensures sep !in parts[1..][i] {
        assert parts[1..][i] == parts[i + 1];
      }
      SplitJoin(parts[1..], sep);
      SplitConcat(parts[0], sep, tail);
      SplitNoSeparator(parts[0], sep);
      assert [parts[0]] + parts[1..] == parts;
    }
  }

  /** There is one more piece than there are separators. */
  lemma {:induction false} SplitCount(s: string, sep: char)
    ensures |Split(s, sep)| == Count(s, sep) + 1
    decreases |s|
  {
    if |s| > 0 {
      SplitCount(s[1..], sep);
    }
  }

  /** The text after the last separator, Python's `s.split(sep)[-1]`, ends `s`. */
  lemma {:induction false} JoinLastIsSuffix(parts: seq<string>, sep: char)
    requires |parts| >= 1
    ensures var j := Join(parts, sep); var l := parts[|parts| - 1];
            |l| <= |j| && j[|j| - |l|..] == l
    ensures |parts| >= 2 ==> var j := Join(parts, sep); var l := parts[|parts| - 1];
            |l| < |j| && j[|j| - |l| - 1] == sep
    decreases |parts|
  {
    if |parts| >= 2 {
      JoinLastIsSuffix(parts[1..], sep);
      var l := parts[|parts| - 1];
      var tail := Join(parts[1..], sep);
      var j := Join(parts, sep);
      assert j == (parts[0] + [sep]) + tail;
      if |parts| == 2 {
        assert tail == l;
      }
    }
  }

  // ----- order and digits -----

  /** `<` on strings is a strict total order: asymmetric and connected. */
  lemma {:induction false} LessTotal(s: string, t: string)
    ensures Less(s, t) ==> !Less(t, s)
    ensures s != t ==> Less(s, t) || Less(t, s)
    decreases |s|
  {
    if |s| > 0 && |t| > 0 && s[0] == t[0] {
      LessTotal(s[1..], t[1..]);
      if s != t {
        assert s == [s[0]] + s[1..] && t == [t[0]] + t[1..];
      }
    }
  }

  /** `int` ignores a leading zero, so `int("01") == int("1")`. */
  lemma {:induction false} DecimalValueLeadingZero(s: string)
    requires AllDigits(s)
    ensures AllDigits("0" + s) && DecimalValue("0" + s) == DecimalValue(s)
    decreases |s|
  {
    var z := "0" + s;
    assert AllDigits(z) by {
      forall i | 0 <= i < |z| ensures IsDigitChar(z[i]) {
        if i > 0 { assert z[i] == s[i - 1]; }
      }
    }
    if |s| > 0 {
      DecimalValueLeadingZero(s[..|s| - 1]);
      assert z[..|z| - 1] == "0" + s[..|s| - 1];
    } else {
      assert z[..0] == "";
    }
  }
}
