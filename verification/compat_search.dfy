/** `extract_compatible_vscode_version`: walk an extension's published versions in
    the order given (newest first) and keep the first one whose manifest declares
    a minimum host version the target host version satisfies. */
module CompatSearch {
  import opened Wrappers
  import opened Strings
  import opened VersionCompare
  import opened Gallery
  import opened VersionParse

  /** `code_version`, the host version the script targets by default. */
  const DefaultHostVersion := "1.77.3"

  /** What downloading one version and reading its `extension/package.json` gives:
      `None` when the download fails or the manifest cannot be read or parsed,
      `Some(None)` when the manifest has no `engines.vscode`, and
      `Some(Some(c))` when that field is the string `c`. */
  type ManifestOracle = string -> Option<Option<string>>

  /** `declared.split("^")[-1]`: the text after the last caret. */
  function AfterLastCaret(declared: string): (v: string)
    ensures '^' !in v
    ensures |v| <= |declared| && declared[|declared| - |v|..] == v
    ensures v == declared || declared[|declared| - |v| - 1] == '^'
  {
    var pieces := Split(declared, '^');
    JoinSplit(declared, '^');
    JoinLastIsSuffix(pieces, '^');
    pieces[|pieces| - 1]
  }

  /** The test at the heart of the loop: the manifest could be read, declares
      `engines.vscode`, and `compare_versions(host, declared) >= 0`. */
  predicate Accepts(host: string, manifest: Option<Option<string>>)
    ensures Accepts(host, manifest) ==> manifest.Some? && manifest.value.Some?
    ensures manifest.Some? && manifest.value.Some? && '^' !in manifest.value.value ==>
              (Accepts(host, manifest) <==> Compare(host, manifest.value.value) >= 0)
  {
    manifest.Some? && manifest.value.Some? && Compare(host, AfterLastCaret(manifest.value.value)) >= 0
  }

  /** The first element of `xs`, in order, that `ok` holds of. */
  function FirstWhere(xs: seq<string>, ok: string -> bool): (r: Option<string>)
    ensures r.Some? ==> r.value in xs && ok(r.value)
    decreases |xs|
  {
    if |xs| == 0 then None
    else if ok(xs[0]) then Some(xs[0])
    else FirstWhere(xs[1..], ok)
  }

  /** The first version, in list order, whose manifest is accepted. */
  function FirstCompatible(host: string, versions: seq<string>, manifestOf: ManifestOracle): (r: Option<string>)
    ensures r.Some? ==> r.value in versions && Accepts(host, manifestOf(r.value))
  {
    FirstWhere(versions, v => Accepts(host, manifestOf(v)))
  }

  /** What the search returns: the URL of the first version is built before
      anything is downloaded, so a name without exactly one dot raises as soon
      as there is a version to try. */
  function Search(host: string, extension: string, versions: seq<string>, manifestOf: ManifestOracle): (r: Result<Option<string>, UrlError>)
    ensures r.Failure? <==> |versions| > 0 && !WellFormedExtension(extension)
    ensures r.Failure? ==> r.error == MalformedExtension(extension)
    ensures r.Success? && r.value.Some? ==> r.value.value in versions && Accepts(host, manifestOf(r.value.value))
  {
    if |versions| > 0 && !WellFormedExtension(extension) then Failure(MalformedExtension(extension))
    else Success(FirstCompatible(host, versions, manifestOf))
  }

  /** `extract_compatible_vscode_version`, with the target host version as a
      parameter and the download and manifest read as `manifestOf`. */
  method ExtractCompatibleVersion(host: string, extension: string, versions: seq<string>, manifestOf: ManifestOracle)
    returns (r: Result<Option<string>, UrlError>)
    ensures r == Search(host, extension, versions, manifestOf)
  {
    var compatible: Option<string> := None;
    var i := 0;
    assert versions[i..] == versions;
    while i < |versions|
      invariant 0 <= i <= |versions|
      invariant compatible == None
      invariant i > 0 ==> WellFormedExtension(extension)
      invariant FirstCompatible(host, versions, manifestOf) == FirstWhere(versions[i..], v => Accepts(host, manifestOf(v)))
    {
      var url := PackageUrl(extension, versions[i]);
      if url.Failure? {
        assert Search(host, extension, versions, manifestOf) == Failure(MalformedExtension(extension));
        return Failure(url.error);
      }
      assert versions[i..][0] == versions[i];
      var manifest := manifestOf(versions[i]);
      if manifest.Some? && manifest.value.Some? {
        var declared := AfterLastCaret(manifest.value.value);
        var c := CompareVersions(host, declared);
        if c >= 0 {
          assert Accepts(host, manifestOf(versions[i]));
          compatible := Some(versions[i]);
          break;
        }
      }
      assert versions[i..][1..] == versions[i + 1..];
      i := i + 1;
    }
    assert i == |versions| ==> versions[i..] == [];
    assert Search(host, extension, versions, manifestOf) == Success(FirstCompatible(host, versions, manifestOf));
    return Success(compatible);
  }

  // ----- properties of the search -----

  // ----- the first element satisfying a test -----

  lemma {:induction false} FirstWhereIsFirst(xs: seq<string>, ok: string -> bool, k: nat)
    requires k < |xs| && ok(xs[k])
    requires forall j :: 0 <= j < k ==> !ok(xs[j])
    ensures FirstWhere(xs, ok) == Some(xs[k])
    decreases k
  {
    if k > 0 {
      assert !ok(xs[0]);
      forall j | 0 <= j < k - 1 ensures !ok(xs[1..][j]) {
        assert xs[1..][j] == xs[j + 1];
      }
      FirstWhereIsFirst(xs[1..], ok, k - 1);
    }
  }

  lemma {:induction false} FirstWhereNone(xs: seq<string>, ok: string -> bool)
    ensures FirstWhere(xs, ok) == None <==> forall j :: 0 <= j < |xs| ==> !ok(xs[j])
    decreases |xs|
  {
    if |xs| > 0 {
      FirstWhereNone(xs[1..], ok);
      if !ok(xs[0]) {
        forall j | 0 < j < |xs| ensures xs[j] == xs[1..][j - 1] {}
      }
    }
  }

  lemma {:induction false} FirstWhereFound(xs: seq<string>, ok: string -> bool)
    ensures var r := FirstWhere(xs, ok);
            r.Some? ==> exists k :: 0 <= k < |xs| && xs[k] == r.value && ok(xs[k])
                         && forall j :: 0 <= j < k ==> !ok(xs[j])
    decreases |xs|
  {
    if |xs| > 0 {
      var r := FirstWhere(xs, ok);
      if ok(xs[0]) {
        assert xs[0] == r.value;
      } else {
        var tail := xs[1..];
        FirstWhereFound(tail, ok);
        if r.Some? {
          var k :| 0 <= k < |tail| && tail[k] == r.value && ok(tail[k])
                   && forall j :: 0 <= j < k ==> !ok(tail[j]);
          assert xs[k + 1] == tail[k];
          forall j | 0 <= j < k + 1 ensures !ok(xs[j]) {
            if j > 0 { assert xs[j] == tail[j - 1]; }
          }
        }
      }
    }
  }

  // ----- properties of the search -----

  /** The search returns the version at index k when k is the first index whose
      manifest is accepted. */
  lemma FirstCompatibleIsFirst(host: string, versions: seq<string>, manifestOf: ManifestOracle, k: nat)
    requires k < |versions| && Accepts(host, manifestOf(versions[k]))
    requires forall j :: 0 <= j < k ==> !Accepts(host, manifestOf(versions[j]))
    ensures FirstCompatible(host, versions, manifestOf) == Some(versions[k])
  {
    FirstWhereIsFirst(versions, v => Accepts(host, manifestOf(v)), k);
  }

  /** The search finds nothing exactly when no version's manifest is accepted. */
  lemma NoneWhenNoneAccepted(host: string, versions: seq<string>, manifestOf: ManifestOracle)
    ensures FirstCompatible(host, versions, manifestOf) == None
        <==> forall j :: 0 <= j < |versions| ==> !Accepts(host, manifestOf(versions[j]))
  {
    FirstWhereNone(versions, v => Accepts(host, manifestOf(v)));
  }

  /** What the search finds is a version of the list, accepted, with every
      earlier version rejected. */
  lemma FoundIsFirstAccepted(host: string, versions: seq<string>, manifestOf: ManifestOracle)
    ensures var r := FirstCompatible(host, versions, manifestOf);
            r.Some? ==> exists k :: 0 <= k < |versions| && versions[k] == r.value
                         && Accepts(host, manifestOf(versions[k]))
                         && forall j :: 0 <= j < k ==> !Accepts(host, manifestOf(versions[j]))
  {
    FirstWhereFound(versions, v => Accepts(host, manifestOf(v)));
  }

  /** Versions after the match are never looked at: any two oracles that agree
      up to and including the match give the same answer. */
  lemma LaterVersionsNotExamined(host: string, versions: seq<string>, m1: ManifestOracle, m2: ManifestOracle, k: nat)
    requires k < |versions| && Accepts(host, m1(versions[k]))
    requires forall j :: 0 <= j < k ==> !Accepts(host, m1(versions[j]))
    requires forall j :: 0 <= j <= k ==> m1(versions[j]) == m2(versions[j])
    ensures FirstCompatible(host, versions, m2) == FirstCompatible(host, versions, m1) == Some(versions[k])
  {
    FirstCompatibleIsFirst(host, versions, m1, k);
    FirstCompatibleIsFirst(host, versions, m2, k);
  }

  /** A version whose download or manifest read fails is skipped: the search
      goes on with the rest of the list. */
  lemma FailedDownloadSkipped(host: string, versions: seq<string>, manifestOf: ManifestOracle)
    requires |versions| > 0 && manifestOf(versions[0]).None?
    ensures FirstCompatible(host, versions, manifestOf) == FirstCompatible(host, versions[1..], manifestOf)
  {
  }

  /** A found version implies the name was well formed, so that building its
      download URL afterwards cannot fail. */
  lemma FoundImpliesWellFormed(host: string, extension: string, versions: seq<string>, manifestOf: ManifestOracle)
    requires Search(host, extension, versions, manifestOf).Success?
    requires Search(host, extension, versions, manifestOf).value.Some?
    ensures WellFormedExtension(extension)
  {
  }

  // ----- the caret -----

  /** A constraint without a caret is used as it is. */
  lemma AfterLastCaretNoCaret(declared: string)
    requires '^' !in declared
    ensures AfterLastCaret(declared) == declared
  {
    SplitNoSeparator(declared, '^');
  }

  /** Only the text after the last caret counts: `^1.70.0` is read as `1.70.0`. */
  lemma AfterLastCaretOfCaret(front: string, back: string)
    ensures AfterLastCaret(front + "^" + back) == AfterLastCaret(back)
  {
    assert front + "^" + back == front + ['^'] + back;
    SplitConcat(front, '^', back);
  }

  /** A single leading caret is dropped. */
  lemma AfterLeadingCaret(v: string)
    requires '^' !in v
    ensures AfterLastCaret("^" + v) == v
  {
    assert "^" + v == "" + ['^'] + v;
    SplitConcat("", '^', v);
    SplitNoSeparator(v, '^');
  }

  // ----- a worked search -----

  lemma HostBelowNewerRequirement()
    ensures Compare(DefaultHostVersion, "1.80.0") == -1
  {
    HostAgainst("80", "1.80.0");
  }

  lemma HostAboveOlderRequirement()
    ensures Compare(DefaultHostVersion, "1.70.0") == 1
  {
    HostAgainst("70", "1.70.0");
  }

  /** The host version 1.77.3 against a requirement `1.{minor}.0`. */
  lemma HostAgainst(minor: string, required: string)
    requires |minor| == 2 && IsDigitChar(minor[0]) && IsDigitChar(minor[1])
    requires required == "1" + "." + minor + "." + "0"
    ensures var m := (minor[0] as int - '0' as int) * 10 + (minor[1] as int - '0' as int);
            (m < 77 ==> Compare(DefaultHostVersion, required) == 1) && (m > 77 ==> Compare(DefaultHostVersion, required) == -1)
  {
    var m := (minor[0] as int - '0' as int) * 10 + (minor[1] as int - '0' as int);
    PartsOfHostVersion();
    PartsOfRequirement(minor, required);
    if m != 77 {
      CompareAtFirstDifference(DefaultHostVersion, required, 1);
    }
  }

  lemma PartsOfHostVersion()
    ensures |Parts(DefaultHostVersion)| == 3
    ensures Parts(DefaultHostVersion)[0] == Num(1) && Parts(DefaultHostVersion)[1] == Num(77)
  {
    assert DefaultHostVersion == "1" + "." + "77" + "." + "3";
    PartsOfThree("1", "77", "3");
    OneDigitValue("1");
    TwoDigitValue("77");
  }

  lemma PartsOfRequirement(minor: string, required: string)
    requires |minor| == 2 && IsDigitChar(minor[0]) && IsDigitChar(minor[1])
    requires required == "1" + "." + minor + "." + "0"
    ensures Parts(required) == [Num(1), Num((minor[0] as int - '0' as int) * 10 + (minor[1] as int - '0' as int)), Num(0)]
  {
    PartsOfThree("1", minor, "0");
    OneDigitValue("1");
    OneDigitValue("0");
    TwoDigitValue(minor);
  }

  /** Versions `2.0.0`, `1.5.0`, `1.0.0`: the first cannot be downloaded or asks
      for host 1.80.0, the second asks for `^1.70.0`; the search for host
      1.77.3 returns `1.5.0`, whatever `1.0.0` would have said. */
  lemma ExampleSearch(manifestOf: ManifestOracle)
    requires manifestOf("2.0.0") == None || manifestOf("2.0.0") == Some(Some("^1.80.0"))
    requires manifestOf("1.5.0") == Some(Some("^1.70.0"))
    ensures FirstCompatible(DefaultHostVersion, ["2.0.0", "1.5.0", "1.0.0"], manifestOf) == Some("1.5.0")
  {
    CaretRequirements();
    HostBelowNewerRequirement();
    HostAboveOlderRequirement();
    SecondAccepted(DefaultHostVersion, "2.0.0", "1.5.0", "1.0.0", manifestOf);
  }

  lemma SecondAccepted(host: string, v0: string, v1: string, v2: string, manifestOf: ManifestOracle)
    requires !Accepts(host, manifestOf(v0)) && Accepts(host, manifestOf(v1))
    ensures FirstCompatible(host, [v0, v1, v2], manifestOf) == Some(v1)
  {
    SecondWhere(v0, v1, v2, v => Accepts(host, manifestOf(v)));
  }

  lemma SecondWhere(v0: string, v1: string, v2: string, ok: string -> bool)
    requires !ok(v0) && ok(v1)
    ensures FirstWhere([v0, v1, v2], ok) == Some(v1)
  {
    assert [v0, v1, v2][1..] == [v1, v2];
  }

  lemma CaretRequirements()
    ensures AfterLastCaret("^1.80.0") == "1.80.0"
    ensures AfterLastCaret("^1.70.0") == "1.70.0"
  {
    assert "^1.80.0" == "^" + "1.80.0";
    AfterLeadingCaret("1.80.0");
    assert "^1.70.0" == "^" + "1.70.0";
    AfterLeadingCaret("1.70.0");
  }
}
