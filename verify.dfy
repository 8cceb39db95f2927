/** The package verifier: for every `package` element at any depth of the
    descriptor it downloads the installer the element points to, hashes it,
    and compares the digest with the declared one, ignoring case. The run
    succeeds only when there is at least one package and every digest
    matches. */
module Verify {

  import opened Wrappers
  import opened Xml
  import opened Strings

  type Bytes = seq<bv8>

  /** `download_file(url, filename)` followed by reading the file back: the
      bytes `GET url` served and that were written to `filename`, or `None`
      when the request raises (connection failure, an error status, an
      invalid URL) or the file cannot be opened for writing (a name such as
      `a/b` whose directory does not exist). */
  type Transport = (string, string) -> Option<Bytes>

  /** `calculate_sha256` of a file holding these bytes: the SHA-256 digest
      in hexadecimal. */
  type Hasher = Bytes -> string

  /** The exceptions that escape `verify_package` or `main`; none is caught. */
  datatype Fault =
    | MissingElement(tag: string)  // `.text` of a child that is not there
    | MissingText(tag: string)     // `.lower()` of a `None` text
    | DownloadFailed(url: string)  // `requests` or `open` raised
    | TreeUnbound                  // `tree` used after the parse failed

  /** What `verify_package` prints about one package, and its verdict. */
  datatype Report = Report(packageName: string, url: string, installer: string,
                           expected: string, actual: string, matched: bool)

  /** The outcome of `main`: an exception after the reports printed so far,
      the "no packages" error, or the reports of every package. */
  datatype Outcome =
    | Crashed(reports: seq<Report>, fault: Fault)
    | NoPackages
    | Finished(reports: seq<Report>)

  // ---------------------------------------------------------------------
  // verify_package
  // ---------------------------------------------------------------------

  const InstallerSuffix := "_installer.exe"

  /** The local name the installer is downloaded to. */
  function InstallerFilename(packageName: string): (r: string)
    ensures |r| == |packageName| + |InstallerSuffix|
    ensures r[..|packageName|] == packageName && r[|packageName|..] == InstallerSuffix
  {
    packageName + InstallerSuffix
  }

  /** Different package names never share an installer file. */
  lemma InstallerFilenameInjective(a: string, b: string)
    ensures InstallerFilename(a) == InstallerFilename(b) <==> a == b
  {
    if InstallerFilename(a) == InstallerFilename(b) {
      assert |a| == |b|;
      assert a == InstallerFilename(a)[..|a|];
    }
  }

  /** `actual.lower() == expected.lower()`. */
  predicate DigestsMatch(actual: string, expected: string)
  {
    Lower(actual) == Lower(expected)
  }

  /** Two digests match exactly when they have the same length and agree
      character by character up to the case of ASCII letters. */
  lemma DigestsMatchIff(actual: string, expected: string)
    ensures DigestsMatch(actual, expected)
            <==> |actual| == |expected|
                 && forall i :: 0 <= i < |actual| ==> LowerChar(actual[i]) == LowerChar(expected[i])
  {
    if |actual| == |expected| && forall i :: 0 <= i < |actual| ==> LowerChar(actual[i]) == LowerChar(expected[i]) {
      assert Lower(actual) == Lower(expected);
    }
    if DigestsMatch(actual, expected) {
      forall i | 0 <= i < |actual|
        ensures LowerChar(actual[i]) == LowerChar(expected[i])
      {
        assert Lower(actual)[i] == Lower(expected)[i];
      }
    }
  }

  /** The verdict does not depend on the case either digest is written in. */
  lemma DigestsMatchIgnoresCase(actual: string, expected: string)
    ensures DigestsMatch(Upper(actual), expected) == DigestsMatch(actual, expected)
    ensures DigestsMatch(Lower(actual), expected) == DigestsMatch(actual, expected)
    ensures DigestsMatch(actual, Upper(expected)) == DigestsMatch(actual, expected)
    ensures DigestsMatch(actual, Lower(expected)) == DigestsMatch(actual, expected)
  {
    LowerForgetsCase(actual);
    LowerForgetsCase(expected);
  }

  /** Between digests free of upper-case letters (such as `hexdigest()`
      gives) matching is plain equality. */
  lemma LowerCaseDigestsMatchIffEqual(actual: string, expected: string)
    requires forall i :: 0 <= i < |actual| ==> !('A' <= actual[i] <= 'Z')
    requires forall i :: 0 <= i < |expected| ==> !('A' <= expected[i] <= 'Z')
    ensures DigestsMatch(actual, expected) <==> actual == expected
  {
    assert Lower(actual) == actual;
    assert Lower(expected) == expected;
  }

  /** `verify_package`: reads `packageName`, `url` and `sha256`, downloads
      the installer to `<packageName>_installer.exe`, hashes it and compares
      the digests. Reading a missing child, downloading, and lower-casing a
      missing `sha256` text can each raise. */
  function VerifyPackage(package: Element, transport: Transport, hasher: Hasher): (r: Result<Report, Fault>)
    ensures r.Ok? ==>
              && Find(package, "packageName").Some?
              && Find(package, "url").Some? && Find(package, "url").value.text == Some(r.value.url)
              && Find(package, "sha256").Some? && Find(package, "sha256").value.text == Some(r.value.expected)
              && r.value.packageName == Display(Find(package, "packageName").value.text)
              && r.value.installer == InstallerFilename(r.value.packageName)
              && transport(r.value.url, r.value.installer).Some?
              && r.value.actual == hasher(transport(r.value.url, r.value.installer).value)
              && (r.value.matched <==> DigestsMatch(r.value.actual, r.value.expected))
    ensures r.Err? <==>
              || Find(package, "packageName").None?
              || Find(package, "url").None?
              || Find(package, "sha256").None?
              || Find(package, "url").value.text.None?
              || transport(Find(package, "url").value.text.value,
                           InstallerFilename(Display(Find(package, "packageName").value.text))).None?
              || Find(package, "sha256").value.text.None?
  {
    match Find(package, "packageName")
    case None => Err(MissingElement("packageName"))
    case Some(nameElement) =>
      match Find(package, "url")
      case None => Err(MissingElement("url"))
      case Some(urlElement) =>
        match Find(package, "sha256")
        case None => Err(MissingElement("sha256"))
        case Some(shaElement) =>
          var name := Display(nameElement.text);
          var installer := InstallerFilename(name);
          match urlElement.text
          case None => Err(DownloadFailed(Display(None)))
          case Some(url) =>
            match transport(url, installer)
            case None => Err(DownloadFailed(url))
            case Some(body) =>
              var actual := hasher(body);
              match shaElement.text
              case None => Err(MissingText("sha256"))
              case Some(expected) =>
                Ok(Report(name, url, installer, expected, actual, DigestsMatch(actual, expected)))
  }

  // ---------------------------------------------------------------------
  // main
  // ---------------------------------------------------------------------

  /** The packages `main` verifies: `root.findall(".//package")`. */
  function Packages(root: Element): seq<Element>
  {
    FindAllDeep(root, "package")
  }

  /** The reports for `packages` in order, or the reports printed before
      the first exception together with that exception. */
  function Reports(packages: seq<Element>, transport: Transport, hasher: Hasher): Result<seq<Report>, (seq<Report>, Fault)>
  {
    if |packages| == 0 then Ok([])
    else match Reports(packages[..|packages| - 1], transport, hasher)
      case Err(e) => Err(e)
      case Ok(front) =>
        match VerifyPackage(packages[|packages| - 1], transport, hasher)
        case Err(f) => Err((front, f))
        case Ok(r) => Ok(front + [r])
  }

  /** What `main` does with the parsed descriptor: `tree` is unbound when
      parsing failed, an empty package list is an error, and otherwise
      every package is verified in document order. */
  function Verification(doc: Document, transport: Transport, hasher: Hasher): Outcome
  {
    match doc
    case Malformed(_) => Crashed([], TreeUnbound)
    case Parsed(root) =>
      var packages := Packages(root);
      if |packages| == 0 then NoPackages
      else match Reports(packages, transport, hasher)
        case Err((done, f)) => Crashed(done, f)
        case Ok(reports) => Finished(reports)
  }

  predicate AllMatched(reports: seq<Report>)
  {
    forall i :: 0 <= i < |reports| ==> reports[i].matched
  }

  /** A package that is checked without an exception and whose digest
      matches. */
  predicate Verifies(package: Element, transport: Transport, hasher: Hasher)
  {
    VerifyPackage(package, transport, hasher).Ok? && VerifyPackage(package, transport, hasher).value.matched
  }

  lemma AllMatchedStep(reports: seq<Report>, r: Report)
    ensures AllMatched(reports + [r]) <==> AllMatched(reports) && r.matched
  {
    assert (reports + [r])[|reports|] == r;
    assert forall i :: 0 <= i < |reports| ==> (reports + [r])[i] == reports[i];
  }

  lemma ReportsStep(front: seq<Element>, package: Element, transport: Transport, hasher: Hasher, done: seq<Report>)
    requires Reports(front, transport, hasher) == Ok(done)
    ensures Reports(front + [package], transport, hasher)
            == match VerifyPackage(package, transport, hasher)
               case Err(f) => Err((done, f))
               case Ok(r) => Ok(done + [r])
  {
    assert (front + [package])[..|front|] == front;
  }

  /** Once a package raises, the reports of a longer list end the same way. */
  lemma {:induction false} ReportsFaultPersists(packages: seq<Element>, transport: Transport, hasher: Hasher, p: nat)
    requires p <= |packages| && Reports(packages[..p], transport, hasher).Err?
    ensures Reports(packages, transport, hasher) == Reports(packages[..p], transport, hasher)
    decreases |packages| - p
  {
    if p < |packages| {
      assert packages[..p + 1][..p] == packages[..p];
      ReportsFaultPersists(packages, transport, hasher, p + 1);
    } else {
      assert packages[..p] == packages;
    }
  }

  /** Without an exception there is one report per package, in order: an
      earlier mismatch does not stop later packages being verified. */
  lemma {:induction false} ReportsMeaning(packages: seq<Element>, transport: Transport, hasher: Hasher)
    ensures Reports(packages, transport, hasher).Ok?
            <==> forall k :: 0 <= k < |packages| ==> VerifyPackage(packages[k], transport, hasher).Ok?
    ensures Reports(packages, transport, hasher).Ok? ==>
              && |Reports(packages, transport, hasher).value| == |packages|
              && forall k :: 0 <= k < |packages| ==>
                   Reports(packages, transport, hasher).value[k] == VerifyPackage(packages[k], transport, hasher).value
  {
    var n := |packages|;
    if n > 0 {
      var front := packages[..n - 1];
      assert packages == front + [packages[n - 1]];
      assert forall k :: 0 <= k < n - 1 ==> front[k] == packages[k];
      ReportsMeaning(front, transport, hasher);
      if Reports(front, transport, hasher).Ok? {
        var done := Reports(front, transport, hasher).value;
        ReportsStep(front, packages[n - 1], transport, hasher, done);
      }
    }
  }

  /** `main` exits with status 0 exactly when the descriptor parsed, holds at
      least one package at some depth, and every package verifies. */
  lemma VerificationPassesIff(doc: Document, transport: Transport, hasher: Hasher)
    ensures (Verification(doc, transport, hasher).Finished? && AllMatched(Verification(doc, transport, hasher).reports))
            <==> doc.Parsed? && |Packages(doc.root)| > 0
                 && forall k :: 0 <= k < |Packages(doc.root)| ==> Verifies(Packages(doc.root)[k], transport, hasher)
  {
    if doc.Parsed? {
      var packages := Packages(doc.root);
      ReportsMeaning(packages, transport, hasher);
    }
  }

  /** An empty package list is a failure, never a vacuous success. */
  lemma NoPackagesFails(doc: Document, transport: Transport, hasher: Hasher)
    requires doc.Parsed? && Packages(doc.root) == []
    ensures Verification(doc, transport, hasher) == NoPackages
  {
  }

  /** A package nested one level down is verified, but not linted: the
      linter's `findall('package')` sees direct children only. */
  lemma NestedPackagesAreVerifiedButNotLinted()
    ensures var package := Element("package", [], None);
            var root := Element("packages", [Element("group", [package], None)], None);
            FindAll(root, "package") == [] && Packages(root) == [package]
  {
    var package := Element("package", [], None);
    var group := Element("group", [package], None);
    var root := Element("packages", [group], None);
    assert Descendants(package) == [] by {
      assert DescendantsFrom(package, 0) == [];
    }
    assert Descendants(group) == [package] by {
      assert DescendantsFrom(group, 1) == [];
      assert DescendantsFrom(group, 0) == [package] + Descendants(package) + DescendantsFrom(group, 1);
    }
    assert Descendants(root) == [group, package] by {
      assert DescendantsFrom(root, 1) == [];
      assert DescendantsFrom(root, 0) == [group] + Descendants(group) + DescendantsFrom(root, 1);
    }
  }

  /** `main` of the verifier after the file checks: the loop keeps going after
      a failed package, clearing `all_verified`, and the exit status is 1
      unless every package verified. */
  method RunVerification(doc: Document, transport: Transport, hasher: Hasher) returns (outcome: Outcome, status: int)
    ensures outcome == Verification(doc, transport, hasher)
    ensures status == (if outcome.Finished? && AllMatched(outcome.reports) then 0 else 1)
  {
    if doc.Malformed? {
      return Crashed([], TreeUnbound), 1;
    }
    var packages := Packages(doc.root);
    if |packages| == 0 {
      return NoPackages, 1;
    }
    var allVerified := true;
    var reports: seq<Report> := [];
    for i := 0 to |packages|
      invariant Reports(packages[..i], transport, hasher) == Ok(reports)
      invariant allVerified <==> AllMatched(reports)
    {
      assert packages[..i + 1] == packages[..i] + [packages[i]];
      ReportsStep(packages[..i], packages[i], transport, hasher, reports);
      var result := VerifyPackage(packages[i], transport, hasher);
      if result.Err? {
        ReportsFaultPersists(packages, transport, hasher, i + 1);
        return Crashed(reports, result.error), 1;
      }
      AllMatchedStep(reports, result.value);
      reports := reports + [result.value];
      if !result.value.matched {
        allVerified := false;
      }
    }
    assert packages[..|packages|] == packages;
    outcome := Finished(reports);
    status := if allVerified then 0 else 1;
  }
}
