/** `check_compat` and the script's main block: read extension names from the
    `code --list-extensions --show-versions` listing, build one record per name
    from the compatibility search, and choose what to download. */
module Driver {
  import opened Wrappers
  import opened Strings
  import opened Gallery
  import opened CompatSearch

  /** One entry of the list `check_compat` returns and the cache file stores:
      `{"name": ..., "version": ..., "url": ...}`, `None` standing for `null`. */
  datatype ExtensionRecord = ExtensionRecord(name: string, version: Option<string>, url: Option<string>)

  /** Python truthiness of an optional string: present and not empty. */
  predicate Truthy(v: Option<string>) {
    v.Some? && v.value != ""
  }

  /** What `check_compat` can raise: the `ValueError` of a name without exactly
      one dot (from `vsix_url`, or from the URL built inside the search), or a
      failure of the search tooling itself (`vsce show` exiting with an error,
      or output that is not the expected JSON). */
  datatype CompatError = UrlFailure(error: UrlError) | ToolFailure(extension: string)

  /** The record for one name, given what the search found for it: a URL only
      when the found version is truthy, built with `vsix_url`, which raises on a
      name without exactly one dot. */
  function BuildRecord(name: string, found: Option<string>): (r: Result<ExtensionRecord, CompatError>)
    ensures r.Failure? <==> Truthy(found) && !WellFormedExtension(name)
    ensures r.Failure? ==> r.error == UrlFailure(MalformedExtension(name))
    ensures r.Success? ==> r.value.name == name && r.value.version == found
    ensures r.Success? ==> (r.value.url.Some? <==> Truthy(found))
    ensures r.Success? && r.value.url.Some? ==> Success(r.value.url.value) == VsixUrl(name, found.value)
  {
    if Truthy(found) then
      match VsixUrl(name, found.value)
      case Success(url) => Success(ExtensionRecord(name, found, Some(url)))
      case Failure(e) => Failure(UrlFailure(e))
    else
      Success(ExtensionRecord(name, found, None))
  }

  /** The per-name search of `get_compatible_version`, which may raise. */
  type SearchOracle = string -> Result<Option<string>, CompatError>

  /** What the real search gives back to `check_compat` when the tooling works:
      the result of `Search`, its `ValueError` passed on. */
  function FromSearch(r: Result<Option<string>, UrlError>): Result<Option<string>, CompatError> {
    match r
    case Success(found) => Success(found)
    case Failure(e) => Failure(UrlFailure(e))
  }

  /** One iteration of the loop in `check_compat`: the search, then the record. */
  function RecordFor(name: string, search: SearchOracle): (r: Result<ExtensionRecord, CompatError>)
    ensures r.Success? <==> search(name).Success? && (!Truthy(search(name).value) || WellFormedExtension(name))
    ensures search(name).Failure? ==> r == Failure(search(name).error)
    ensures r.Success? ==> r.value.name == name && r.value.version == search(name).value
  {
    match search(name)
    case Failure(e) => Failure(e)
    case Success(found) => BuildRecord(name, found)
  }

  /** Items already produced, put in front of the outcome for the remaining input. */
  function Then<T, E>(done: seq<T>, rest: Result<seq<T>, E>): Result<seq<T>, E> {
    match rest
    case Success(items) => Success(done + items)
    case Failure(e) => Failure(e)
  }

  lemma ThenNothing<T, E>(rest: Result<seq<T>, E>)
    ensures Then([], rest) == rest
  {
    if rest.Success? { assert [] + rest.value == rest.value; }
  }

  lemma ThenStep<T, E>(done: seq<T>, item: T, rest: Result<seq<T>, E>)
    ensures Then(done, Then([item], rest)) == Then(done + [item], rest)
  {
    if rest.Success? { assert done + ([item] + rest.value) == (done + [item]) + rest.value; }
  }

  /** What `check_compat(names)` returns or raises: the records in name order, or
      the first exception. */
  function CheckCompatResult(names: seq<string>, search: SearchOracle): (r: Result<seq<ExtensionRecord>, CompatError>)
    ensures r.Success? ==> |r.value| == |names|
    decreases |names|
  {
    if |names| == 0 then Success([])
    else
      match RecordFor(names[0], search)
      case Failure(e) => Failure(e)
      case Success(record) => Then([record], CheckCompatResult(names[1..], search))
  }

  /** `check_compat`, with the per-name search as `search`. */
  method CheckCompat(names: seq<string>, search: SearchOracle) returns (r: Result<seq<ExtensionRecord>, CompatError>)
    ensures r == CheckCompatResult(names, search)
  {
    var records: seq<ExtensionRecord> := [];
    var i := 0;
    assert names[i..] == names;
    ThenNothing(CheckCompatResult(names, search));
    while i < |names|
      invariant 0 <= i <= |names|
      invariant CheckCompatResult(names, search) == Then(records, CheckCompatResult(names[i..], search))
    {
      assert names[i..][1..] == names[i + 1..];
      var found := search(names[i]);
      if found.Failure? {
        return Failure(found.error);
      }
      var url: Option<string> := None;
      if Truthy(found.value) {
        var u := VsixUrl(names[i], found.value.value);
        if u.Failure? {
          return Failure(UrlFailure(u.error));
        }
        url := Some(u.value);
      }
      ThenStep(records, ExtensionRecord(names[i], found.value, url), CheckCompatResult(names[i + 1..], search));
      records := records + [ExtensionRecord(names[i], found.value, url)];
      i := i + 1;
    }
    assert names[i..] == [];
    assert records + [] == records;
    return Success(records);
  }

  // ----- properties of check_compat -----

  /** `check_compat` succeeds exactly when every name's step does, and then
      returns one record per name, in order, duplicates kept. */
  lemma {:induction false} OneRecordPerName(names: seq<string>, search: SearchOracle)
    ensures CheckCompatResult(names, search).Success? <==> forall i :: 0 <= i < |names| ==> RecordFor(names[i], search).Success?
    ensures CheckCompatResult(names, search).Success? ==>
              |CheckCompatResult(names, search).value| == |names| &&
              forall i :: 0 <= i < |names| ==> CheckCompatResult(names, search).value[i] == RecordFor(names[i], search).value
    decreases |names|
  {
    if |names| > 0 {
      OneRecordPerName(names[1..], search);
      forall i | 1 <= i < |names| ensures names[i] == names[1..][i - 1] {}
    }
  }

  /** When `check_compat` raises, it is with the error of the first name whose
      step fails. */
  lemma {:induction false} FirstFailureRaised(names: seq<string>, search: SearchOracle, k: nat)
    requires k < |names| && RecordFor(names[k], search).Failure?
    requires forall j :: 0 <= j < k ==> RecordFor(names[j], search).Success?
    ensures CheckCompatResult(names, search) == Failure(RecordFor(names[k], search).error)
    decreases k
  {
    if k > 0 {
      FirstFailureRaised(names[1..], search, k - 1);
    }
  }

  /** Every record holds the name, what the search found, and a URL exactly when
      the found version is truthy; that URL reads back as the name and the
      version when the package part of the name holds no slash. */
  lemma RecordContents(names: seq<string>, search: SearchOracle, i: nat)
    requires CheckCompatResult(names, search).Success? && i < |names|
    ensures |CheckCompatResult(names, search).value| == |names|
    ensures var rec := CheckCompatResult(names, search).value[i];
            && search(names[i]).Success?
            && rec.name == names[i] && rec.version == search(names[i]).value
            && (rec.url.Some? <==> Truthy(rec.version))
            && (rec.url.Some? ==> WellFormedExtension(names[i]))
            && (rec.url.Some? && WellFormedExtension(names[i]) && '/' !in Split(names[i], '.')[1] ==>
                  DecodeGalleryUrl(rec.url.value) == Some((names[i], rec.version.value)))
  {
    OneRecordPerName(names, search);
    var rec := CheckCompatResult(names, search).value[i];
    if rec.url.Some? && '/' !in Split(names[i], '.')[1] {
      PackageUrlIsVsixUrl(names[i], rec.version.value);
      PackageUrlRoundTrip(names[i], rec.version.value);
    }
  }

  /** With the real search behind it, `vsix_url` inside `check_compat` never
      raises: a found version means the name was well formed. So building a
      record fails exactly when the search itself fails, whether the search
      tooling failed or the search raised for the name. */
  lemma RealSearchRecordsDoNotRaise(host: string, name: string, versions: seq<string>, manifestOf: ManifestOracle, search: SearchOracle)
    requires search(name).Success? ==> search(name) == FromSearch(Search(host, name, versions, manifestOf))
    ensures RecordFor(name, search).Success? <==> search(name).Success?
  {
    if search(name).Success? && search(name).value.Some? {
      FoundImpliesWellFormed(host, name, versions, manifestOf);
    }
  }

  // ----- the installed-extension listing -----

  /** What the main block raises while reading the listing: `pop(0)` on an empty
      listing, or a line that does not split into exactly two pieces at `@`. */
  datatype ListingError = EmptyListing | MalformedLine(line: string)

  /** `ext_temp, _ = ext.split('@')`: the text before the `@`, or a raise when
      the line does not hold exactly one. */
  function NameOf(line: string): (r: Result<string, ListingError>)
    ensures r.Success? <==> Count(line, '@') == 1
    ensures r.Failure? ==> r.error == MalformedLine(line)
    ensures r.Success? ==> '@' !in r.value && |r.value| < |line| && line[..|r.value|] == r.value && line[|r.value|] == '@'
  {
    SplitCount(line, '@');
    var pieces := Split(line, '@');
    if |pieces| == 2 then
      JoinSplit(line, '@');
      assert pieces[1..] == [pieces[1]];
      assert line == pieces[0] + ['@'] + pieces[1];
      Success(pieces[0])
    else Failure(MalformedLine(line))
  }

  /** The names of the listing lines, or the first line that does not parse. */
  function NamesOf(lines: seq<string>): (r: Result<seq<string>, ListingError>)
    ensures r.Success? ==> |r.value| == |lines|
    decreases |lines|
  {
    if |lines| == 0 then Success([])
    else
      match NameOf(lines[0])
      case Failure(e) => Failure(e)
      case Success(name) => Then([name], NamesOf(lines[1..]))
  }

  /** The header line is dropped, the rest read as `name@version`. */
  function InstalledNames(listing: seq<string>): (r: Result<seq<string>, ListingError>)
    ensures |listing| == 0 ==> r == Failure(EmptyListing)
    ensures r.Success? ==> |r.value| == |listing| - 1
  {
    if |listing| == 0 then Failure(EmptyListing) else NamesOf(listing[1..])
  }

  /** Lines 239-248 of the main block, with the listing as input. */
  method ExtensionNames(listing: seq<string>) returns (r: Result<seq<string>, ListingError>)
    ensures r == InstalledNames(listing)
  {
    if |listing| == 0 {
      return Failure(EmptyListing);
    }
    var lines := listing[1..];
    var names: seq<string> := [];
    var i := 0;
    assert lines[i..] == lines;
    ThenNothing(NamesOf(lines));
    while i < |lines|
      invariant 0 <= i <= |lines|
      invariant NamesOf(lines) == Then(names, NamesOf(lines[i..]))
    {
      assert lines[i..][1..] == lines[i + 1..];
      assert lines[i..][0] == lines[i];
      var pieces := Split(lines[i], '@');
      if |pieces| != 2 {
        return Failure(MalformedLine(lines[i]));
      }
      ThenStep(names, pieces[0], NamesOf(lines[i + 1..]));
      names := names + [pieces[0]];
      i := i + 1;
    }
    assert lines[i..] == [];
    assert names + [] == names;
    return Success(names);
  }

  /** The `name@version` line of one installed extension. */
  function ListingLine(name: string, version: string): string {
    name + "@" + version
  }

  /** Reading a listing written as a header and `name@version` lines gives the
      names back, in order, as long as no name or version holds an `@`. */
  lemma {:induction false} ListingRoundTrip(header: string, names: seq<string>, versions: seq<string>)
    requires |names| == |versions|
    requires forall i :: 0 <= i < |names| ==> '@' !in names[i] && '@' !in versions[i]
    ensures InstalledNames([header] + seq(|names|, i requires 0 <= i < |names| => ListingLine(names[i], versions[i])))
         == Success(names)
  {
    var lines := seq(|names|, i requires 0 <= i < |names| => ListingLine(names[i], versions[i]));
    assert ([header] + lines)[1..] == lines;
    NamesOfLines(names, versions);
  }

  lemma {:induction false} NamesOfLines(names: seq<string>, versions: seq<string>)
    requires |names| == |versions|
    requires forall i :: 0 <= i < |names| ==> '@' !in names[i] && '@' !in versions[i]
    ensures NamesOf(seq(|names|, i requires 0 <= i < |names| => ListingLine(names[i], versions[i]))) == Success(names)
    decreases |names|
  {
    var lines := seq(|names|, i requires 0 <= i < |names| => ListingLine(names[i], versions[i]));
    if |names| > 0 {
      var tail := seq(|names| - 1, i requires 0 <= i < |names| - 1 => ListingLine(names[1..][i], versions[1..][i]));
      assert lines[1..] == tail;
      NamesOfLines(names[1..], versions[1..]);
      assert ListingLine(names[0], versions[0]) == names[0] + ['@'] + versions[0];
      SplitConcat(names[0], '@', versions[0]);
      SplitNoSeparator(names[0], '@');
      SplitNoSeparator(versions[0], '@');
      assert [names[0]] + names[1..] == names;
    }
  }

  /** The lines after the header read without error exactly when every one of
      them holds exactly one `@`, and then each gives one name. */
  lemma {:induction false} NamesOfSucceeds(lines: seq<string>)
    ensures NamesOf(lines).Success? <==> forall i :: 0 <= i < |lines| ==> Count(lines[i], '@') == 1
    ensures NamesOf(lines).Success? ==> |NamesOf(lines).value| == |lines|
    decreases |lines|
  {
    if |lines| > 0 {
      SplitCount(lines[0], '@');
      NamesOfSucceeds(lines[1..]);
      forall i | 1 <= i < |lines| ensures lines[i] == lines[1..][i - 1] {}
    }
  }

  // ----- the download loop -----

  /** What the last loop of the main block does for one record: a curl command
      for a truthy version, a warning otherwise. */
  datatype Action = Download(name: string, command: string) | Warn(name: string)

  /** `str.format` of an optional URL: `None` prints as `None`. */
  function UrlText(url: Option<string>): string {
    match url
    case Some(u) => u
    case None => "None"
  }

  /** The download loop, with running curl and printing left out: the action
      taken for each record, in order. */
  method PlanDownloads(records: seq<ExtensionRecord>, outputDir: string) returns (plan: seq<Action>)
    ensures |plan| == |records|
    ensures forall i :: 0 <= i < |records| ==>
              plan[i] == if Truthy(records[i].version)
                         then Download(records[i].name, VsixCurl(records[i].name, UrlText(records[i].url), outputDir))
                         else Warn(records[i].name)
  {
    plan := [];
    for i := 0 to |records|
      invariant |plan| == i
      invariant forall j :: 0 <= j < i ==>
                  plan[j] == if Truthy(records[j].version)
                             then Download(records[j].name, VsixCurl(records[j].name, UrlText(records[j].url), outputDir))
                             else Warn(records[j].name)
    {
      if Truthy(records[i].version) {
        plan := plan + [Download(records[i].name, VsixCurl(records[i].name, UrlText(records[i].url), outputDir))];
      } else {
        plan := plan + [Warn(records[i].name)];
      }
    }
  }

  /** For records built by `check_compat`, every download command carries the
      real URL of the found version, never the text `None`. */
  lemma DownloadsUseFoundUrl(names: seq<string>, search: SearchOracle, i: nat)
    requires CheckCompatResult(names, search).Success? && i < |names|
    requires Truthy(CheckCompatResult(names, search).value[i].version)
    ensures var rec := CheckCompatResult(names, search).value[i];
            VsixUrl(names[i], rec.version.value).Success? &&
            UrlText(rec.url) == VsixUrl(names[i], rec.version.value).value
  {
    RecordContents(names, search, i);
    OneRecordPerName(names, search);
  }
}
