/** `compare_versions`: order two version constraints by their dotted bodies,
    falling back on the difference of their operator codes. */
module VersionCompare {
  import opened Strings
  import opened VersionParse

  /** One dotted component after `int(part) if part.isdigit() else part`. */
  datatype Part = Num(n: nat) | Word(s: string)

  function ToPart(token: string): (p: Part)
    ensures p.Num? <==> IsDigits(token)
    ensures p.Word? ==> p.s == token
    ensures p.Num? ==> p.n < Pow10(|token|)
  {
    if IsDigits(token) then Num(DecimalValue(token)) else Word(token)
  }

  /** The components of a version body, `body.split(".")` with digit tokens
      turned into integers. */
  function Parts(body: string): (ps: seq<Part>)
    ensures |ps| == Count(body, '.') + 1
    ensures |ps| == |Split(body, '.')| && forall i :: 0 <= i < |ps| ==> ps[i] == ToPart(Split(body, '.')[i])
  {
    SplitCount(body, '.');
    var tokens := Split(body, '.');
    seq(|tokens|, i requires 0 <= i < |tokens| => ToPart(tokens[i]))
  }

  /** Component `i`, a missing one counting as the integer 0. */
  function PartAt(ps: seq<Part>, i: nat): Part {
    if i < |ps| then ps[i] else Num(0)
  }

  /** One position of the comparison: integers numerically, an integer below any
      string, strings by Python's string order. */
  function ComparePart(x: Part, y: Part): (c: int)
    ensures -1 <= c <= 1
    ensures c == 0 <==> x == y
    ensures x.Num? && y.Num? ==> (c < 0 <==> x.n < y.n)
    ensures x.Num? && y.Word? ==> c == -1
    ensures x.Word? && y.Num? ==> c == 1
    ensures x.Word? && y.Word? ==> (c < 0 <==> Less(x.s, y.s))
  {
    if x.Num? && y.Num? then
      (if x.n < y.n then -1 else if x.n > y.n then 1 else 0)
    else if x.Num? then -1
    else if y.Num? then 1
    else if x.s != y.s then
      LessTotal(x.s, y.s);
      (if Less(x.s, y.s) then -1 else 1)
    else
      LessTotal(x.s, x.s);
      0
  }

  function Rest(ps: seq<Part>): seq<Part> {
    if |ps| == 0 then [] else ps[1..]
  }

  /** Component-wise comparison of two bodies, the shorter padded with zeros:
      the result at the first position where they differ, 0 if none does. */
  function ComparePadded(a: seq<Part>, b: seq<Part>): (c: int)
    ensures -1 <= c <= 1
    decreases |a| + |b|
  {
    if |a| == 0 && |b| == 0 then 0
    else
      var c := ComparePart(PartAt(a, 0), PartAt(b, 0));
      if c != 0 then c else ComparePadded(Rest(a), Rest(b))
  }

  /** The value `compare_versions(v1, v2)` returns. */
  function Compare(v1: string, v2: string): (r: int)
    ensures -2 <= r <= 2
  {
    CompareParsed(ParseVersionString(v1), ParseVersionString(v2))
  }

  /** `compare_versions`: parses both sides, walks the components, and falls
      back on the operator codes when no position decides. */
  method CompareVersions(v1: string, v2: string) returns (r: int)
    ensures r == Compare(v1, v2)
  {
    var s1 := ParseVersionString(v1);
    var s2 := ParseVersionString(v2);
    var c := CompareComponents(Parts(s1.body), Parts(s2.body));
    if c != 0 {
      return c;
    }
    return s1.code - s2.code;
  }

  /** The loop of `compare_versions`: walks the positions up to the longer list
      and returns at the first one that differs, or 0 when none does. */
  method CompareComponents(p1: seq<Part>, p2: seq<Part>) returns (r: int)
    ensures r == ComparePadded(p1, p2)
  {
    var n := if |p1| > |p2| then |p1| else |p2|;
    var i := 0;
    while i < n
      invariant 0 <= i <= n
      invariant forall j :: 0 <= j < i ==> PartAt(p1, j) == PartAt(p2, j)
    {
      var x := if i < |p1| then p1[i] else Num(0);
      var y := if i < |p2| then p2[i] else Num(0);
      if x != y {
        FirstDifference(p1, p2, i);
      }
      if x.Num? && y.Num? {
        if x.n < y.n {
          return -1;
        } else if x.n > y.n {
          return 1;
        }
      } else if x.Num? {
        return -1;
      } else if y.Num? {
        return 1;
      } else if x.s != y.s {
        return if Less(x.s, y.s) then -1 else 1;
      }
      i := i + 1;
    }
    TieIffPaddedEqual(p1, p2);
    return 0;
  }

  /** `Compare` once both sides are parsed. */
  function CompareParsed(s1: VersionSpec, s2: VersionSpec): int {
    var c := ComparePadded(Parts(s1.body), Parts(s2.body));
    if c != 0 then c else s1.code - s2.code
  }

  // ----- the padded comparison -----

  lemma RestAt(ps: seq<Part>, j: nat)
    ensures PartAt(Rest(ps), j) == PartAt(ps, j + 1)
  {
  }

  /** The comparison is decided by the first position whose components differ. */
  lemma {:induction false} FirstDifference(a: seq<Part>, b: seq<Part>, i: nat)
    requires forall j :: 0 <= j < i ==> PartAt(a, j) == PartAt(b, j)
    requires PartAt(a, i) != PartAt(b, i)
    ensures ComparePadded(a, b) == ComparePart(PartAt(a, i), PartAt(b, i))
    decreases i
  {
    if i > 0 {
      assert PartAt(a, 0) == PartAt(b, 0);
      forall j | 0 <= j < i - 1 ensures PartAt(Rest(a), j) == PartAt(Rest(b), j) {
        RestAt(a, j);
        RestAt(b, j);
      }
      RestAt(a, i - 1);
      RestAt(b, i - 1);
      FirstDifference(Rest(a), Rest(b), i - 1);
    }
  }

  /** Two bodies tie exactly when they agree at every position once the shorter
      is padded with zeros. */
  lemma {:induction false} TieIffPaddedEqual(a: seq<Part>, b: seq<Part>)
    ensures ComparePadded(a, b) == 0 <==> forall j: nat :: PartAt(a, j) == PartAt(b, j)
    decreases |a| + |b|
  {
    if |a| > 0 || |b| > 0 {
      TieIffPaddedEqual(Rest(a), Rest(b));
      if ComparePart(PartAt(a, 0), PartAt(b, 0)) == 0 {
        forall j: nat ensures PartAt(Rest(a), j) == PartAt(a, j + 1) && PartAt(Rest(b), j) == PartAt(b, j + 1) {
          RestAt(a, j);
          RestAt(b, j);
        }
        if forall j: nat :: PartAt(Rest(a), j) == PartAt(Rest(b), j) {
          forall j: nat ensures PartAt(a, j) == PartAt(b, j) {
            if j > 0 {
              assert PartAt(Rest(a), j - 1) == PartAt(Rest(b), j - 1);
            }
          }
        }
      }
    }
  }

  /** Bodies that agree at every padded position compare alike against any other. */
  lemma {:induction false} PaddedEqualCompareAlike(a: seq<Part>, a': seq<Part>, b: seq<Part>)
    requires forall j: nat :: PartAt(a, j) == PartAt(a', j)
    ensures ComparePadded(a, b) == ComparePadded(a', b)
    decreases |a| + |a'| + |b|
  {
    if |a| == 0 && |b| == 0 {
      TieIffPaddedEqual(a', b);
    } else if |a'| == 0 && |b| == 0 {
      TieIffPaddedEqual(a, b);
    } else {
      forall j: nat ensures PartAt(Rest(a), j) == PartAt(Rest(a'), j) {
        RestAt(a, j);
        RestAt(a', j);
      }
      assert PartAt(a, 0) == PartAt(a', 0);
      PaddedEqualCompareAlike(Rest(a), Rest(a'), Rest(b));
    }
  }

  /** A trailing zero component changes nothing: `1.2` compares like `1.2.0`. */
  lemma TrailingZeroNeutral(a: seq<Part>, b: seq<Part>)
    ensures ComparePadded(a + [Num(0)], b) == ComparePadded(a, b)
  {
    forall j: nat ensures PartAt(a + [Num(0)], j) == PartAt(a, j) {
    }
    PaddedEqualCompareAlike(a + [Num(0)], a, b);
  }

  lemma {:induction false} ComparePaddedAntisymmetric(a: seq<Part>, b: seq<Part>)
    ensures ComparePadded(b, a) == -ComparePadded(a, b)
    decreases |a| + |b|
  {
    if |a| > 0 || |b| > 0 {
      ComparePartAntisymmetric(PartAt(a, 0), PartAt(b, 0));
      ComparePaddedAntisymmetric(Rest(a), Rest(b));
    }
  }

  lemma ComparePartAntisymmetric(x: Part, y: Part)
    ensures ComparePart(y, x) == -ComparePart(x, y)
  {
    if x.Word? && y.Word? {
      LessTotal(x.s, y.s);
    }
  }

  // ----- compare_versions -----

  /** Every version compares equal to itself. */
  lemma CompareReflexive(v: string)
    ensures Compare(v, v) == 0
  {
    var p := Parts(ParseVersionString(v).body);
    TieIffPaddedEqual(p, p);
  }

  /** Swapping the arguments negates the result exactly, the operator-code
      tie-break included. */
  lemma CompareAntisymmetric(v1: string, v2: string)
    ensures Compare(v2, v1) == -Compare(v1, v2)
  {
    ComparePaddedAntisymmetric(Parts(ParseVersionString(v1).body), Parts(ParseVersionString(v2).body));
  }

  /** Where the bodies differ the result is -1 or 1, decided by the first
      differing component; where they do not, it is the difference of the
      operator codes. */
  lemma CompareCases(v1: string, v2: string)
    ensures var s1 := ParseVersionString(v1); var s2 := ParseVersionString(v2);
            var p1 := Parts(s1.body); var p2 := Parts(s2.body);
            && ((forall j: nat :: PartAt(p1, j) == PartAt(p2, j)) ==> Compare(v1, v2) == s1.code - s2.code)
            && (forall i: nat ::
                  (forall j :: 0 <= j < i ==> PartAt(p1, j) == PartAt(p2, j)) && PartAt(p1, i) != PartAt(p2, i) ==>
                  Compare(v1, v2) == ComparePart(PartAt(p1, i), PartAt(p2, i)) && Compare(v1, v2) != 0)
  {
    var p1 := Parts(ParseVersionString(v1).body);
    var p2 := Parts(ParseVersionString(v2).body);
    TieIffPaddedEqual(p1, p2);
    forall i: nat | (forall j :: 0 <= j < i ==> PartAt(p1, j) == PartAt(p2, j)) && PartAt(p1, i) != PartAt(p2, i)
      ensures Compare(v1, v2) == ComparePart(PartAt(p1, i), PartAt(p2, i))
    {
      FirstDifference(p1, p2, i);
    }
  }

  /** Appending a `.0` component to a version without operator characters does
      not change how it compares, on either side. */
  lemma TrailingZeroComponentNeutral(v: string, w: string)
    requires |v| == 0 || !IsOperatorChar(v[0])
    ensures Compare(v + ".0", w) == Compare(v, w)
    ensures Compare(w, v + ".0") == Compare(w, v)
  {
    var v0 := v + ".0";
    assert |v| > 0 ==> v0[0] == v[0];
    UnprefixedParsesToItself(v);
    UnprefixedParsesToItself(v0);
    PartsWithTrailingZero(v);
    TrailingZeroParsed(v, v0, ParseVersionString(w));
  }

  lemma TrailingZeroParsed(v: string, v0: string, s: VersionSpec)
    requires Parts(v0) == Parts(v) + [Num(0)]
    ensures CompareParsed(VersionSpec(0, v0), s) == CompareParsed(VersionSpec(0, v), s)
    ensures CompareParsed(s, VersionSpec(0, v0)) == CompareParsed(s, VersionSpec(0, v))
  {
    var q := Parts(s.body);
    TrailingZeroNeutral(Parts(v), q);
    ComparePaddedAntisymmetric(Parts(v0), q);
    ComparePaddedAntisymmetric(Parts(v), q);
  }

  /** `.0` appended to a body adds the integer component 0. */
  lemma PartsWithTrailingZero(v: string)
    ensures Parts(v + ".0") == Parts(v) + [Num(0)]
  {
    var v0 := v + ".0";
    assert v0 == v + ['.'] + "0";
    SplitConcat(v, '.', "0");
    SplitNoSeparator("0", '.');
    OneDigitValue("0");
    var t := Split(v, '.');
    assert Split(v0, '.') == t + ["0"];
    forall i | 0 <= i < |Parts(v0)| ensures Parts(v0)[i] == (Parts(v) + [Num(0)])[i] {
      if i < |t| {
        assert Split(v0, '.')[i] == t[i];
      }
    }
  }

  /** When neither version starts with an operator character, the first
      position where the bodies differ decides the comparison. */
  lemma CompareAtFirstDifference(v1: string, v2: string, i: nat)
    requires |v1| == 0 || !IsOperatorChar(v1[0])
    requires |v2| == 0 || !IsOperatorChar(v2[0])
    requires forall j :: 0 <= j < i ==> PartAt(Parts(v1), j) == PartAt(Parts(v2), j)
    requires PartAt(Parts(v1), i) != PartAt(Parts(v2), i)
    ensures Compare(v1, v2) == ComparePart(PartAt(Parts(v1), i), PartAt(Parts(v2), i))
  {
    UnprefixedParsesToItself(v1);
    UnprefixedParsesToItself(v2);
    FirstDifference(Parts(v1), Parts(v2), i);
  }

  /** When neither version starts with an operator character and their bodies
      have the same components, they compare equal. */
  lemma CompareSameParts(v1: string, v2: string)
    requires |v1| == 0 || !IsOperatorChar(v1[0])
    requires |v2| == 0 || !IsOperatorChar(v2[0])
    requires Parts(v1) == Parts(v2)
    ensures Compare(v1, v2) == 0
  {
    UnprefixedParsesToItself(v1);
    UnprefixedParsesToItself(v2);
    TieIffPaddedEqual(Parts(v1), Parts(v2));
  }

  // ----- worked examples -----

  /** The parts of a body given as its tokens. */
  lemma PartsOfTokens(body: string, tokens: seq<string>)
    requires |tokens| >= 1 && forall i :: 0 <= i < |tokens| ==> '.' !in tokens[i]
    requires Join(tokens, '.') == body
    ensures Parts(body) == seq(|tokens|, i requires 0 <= i < |tokens| => ToPart(tokens[i]))
  {
    SplitJoin(tokens, '.');
  }

  /** The parts of a two-component body. */
  lemma PartsOfTwo(x: string, y: string)
    requires '.' !in x && '.' !in y
    ensures Parts(x + "." + y) == [ToPart(x), ToPart(y)]
  {
    assert x + "." + y == x + ['.'] + y;
    SplitConcat(x, '.', y);
    SplitNoSeparator(x, '.');
    SplitNoSeparator(y, '.');
  }

  /** The parts of a three-component body. */
  lemma PartsOfThree(x: string, y: string, z: string)
    requires '.' !in x && '.' !in y && '.' !in z
    ensures Parts(x + "." + y + "." + z) == [ToPart(x), ToPart(y), ToPart(z)]
  {
    assert x + "." + y + "." + z == x + ['.'] + (y + ['.'] + z);
    SplitConcat(x, '.', y + ['.'] + z);
    SplitConcat(y, '.', z);
    SplitNoSeparator(x, '.');
    SplitNoSeparator(y, '.');
    SplitNoSeparator(z, '.');
  }

  /** The value of a one-digit component. */
  lemma OneDigitValue(t: string)
    requires |t| == 1 && IsDigitChar(t[0])
    ensures ToPart(t) == Num(t[0] as int - '0' as int)
  {
    assert IsDigits(t);
    assert t[..|t| - 1] == "";
    assert DecimalValue(t[..|t| - 1]) == 0;
  }

  /** The value of a two-digit component. */
  lemma TwoDigitValue(t: string)
    requires |t| == 2 && IsDigitChar(t[0]) && IsDigitChar(t[1])
    ensures ToPart(t) == Num((t[0] as int - '0' as int) * 10 + (t[1] as int - '0' as int))
  {
    assert IsDigits(t);
    var d := t[..1];
    assert |d| == 1 && d[0] == t[0] && d[..0] == "";
    assert DecimalValue(d) == t[0] as int - '0' as int;
    assert t[..|t| - 1] == d;
  }

  /** `1.2` and `1.2.0` are equal. */
  lemma ExampleMissingComponentIsZero()
    ensures Compare("1.2", "1.2.0") == 0
  {
    assert "1.2" + ".0" == "1.2.0";
    TrailingZeroComponentNeutral("1.2", "1.2");
    CompareReflexive("1.2");
  }

  /** `1.2.3` is below `1.2.10`: digit components compare as integers. */
  lemma ExampleNumericComponents()
    ensures Compare("1.2.3", "1.2.10") == -1
  {
    PartsOfOneTwoThree();
    PartsOfOneTwoTen();
    CompareAtFirstDifference("1.2.3", "1.2.10", 2);
  }

  lemma PartsOfOneTwoThree()
    ensures Parts("1.2.3") == [Num(1), Num(2), Num(3)]
  {
    assert "1.2.3" == "1" + "." + "2" + "." + "3";
    PartsOfThree("1", "2", "3");
    OneDigitValue("1");
    OneDigitValue("2");
    OneDigitValue("3");
  }

  lemma PartsOfOneTwoTen()
    ensures Parts("1.2.10") == [Num(1), Num(2), Num(10)]
  {
    assert "1.2.10" == "1" + "." + "2" + "." + "10";
    PartsOfThree("1", "2", "10");
    OneDigitValue("1");
    OneDigitValue("2");
    TwoDigitValue("10");
  }

  /** `1.01` equals `1.1`: `int` drops the leading zero. */
  lemma ExampleLeadingZero()
    ensures Compare("1.01", "1.1") == 0
  {
    assert "1.01" == "1" + "." + "01";
    assert "1.1" == "1" + "." + "1";
    PartsOfTwo("1", "01");
    PartsOfTwo("1", "1");
    OneDigitValue("1");
    TwoDigitValue("01");
    CompareSameParts("1.01", "1.1");
  }

  /** `>=1.0.0` against `1.0.0`: the bodies tie and the codes decide, 1 - 0. */
  lemma ExampleOperatorBreaksTie()
    ensures Compare(">=1.0.0", "1.0.0") == 1
  {
    assert ">=1.0.0" == ">=" + "1.0.0";
    OperatorPrefixParses(">=", "1.0.0");
    UnprefixedParsesToItself("1.0.0");
    TieIffPaddedEqual(Parts("1.0.0"), Parts("1.0.0"));
  }

  /** `>1` against `<1` gives 2, outside the -1/0/1 the docstring promises. */
  lemma ExampleResultTwo()
    ensures Compare(">1", "<1") == 2
  {
    assert ">1" == ">" + "1" && "<1" == "<" + "1";
    OperatorPrefixParses(">", "1");
    OperatorPrefixParses("<", "1");
    TieIffPaddedEqual(Parts("1"), Parts("1"));
  }

  /** An integer component sorts below a word. */
  lemma ExampleNumberBelowWord()
    ensures Compare("1.2", "1.a") == -1
  {
    assert "1.2" == "1" + "." + "2";
    assert "1.a" == "1" + "." + "a";
    PartsOfTwo("1", "2");
    PartsOfTwo("1", "a");
    OneDigitValue("1");
    OneDigitValue("2");
    assert !IsDigits("a");
    CompareAtFirstDifference("1.2", "1.a", 1);
  }

  /** A missing component counts as the integer 0, so it too sorts below a word. */
  lemma ExamplePaddingBelowWord()
    ensures Compare("1", "1.a") == -1
  {
    assert "1.a" == "1" + "." + "a";
    PartsOfTwo("1", "a");
    SplitNoSeparator("1", '.');
    OneDigitValue("1");
    assert !IsDigits("a");
    assert Parts("1") == [Num(1)];
    CompareAtFirstDifference("1", "1.a", 1);
  }

  /** Two words compare as strings. */
  lemma ExampleWordsCompareAsStrings()
    ensures Compare("1.a", "1.b") == -1
  {
    assert "1.a" == "1" + "." + "a";
    assert "1.b" == "1" + "." + "b";
    PartsOfTwo("1", "a");
    PartsOfTwo("1", "b");
    OneDigitValue("1");
    assert !IsDigits("a") && !IsDigits("b");
    CompareAtFirstDifference("1.a", "1.b", 1);
  }
}
