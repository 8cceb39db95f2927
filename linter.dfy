/** The descriptor linter: for every descriptor file it logs one finding for
    the root tag, four for each direct `package` child (one per required
    child element), and one freshness finding per package; the run fails
    when any finding is an error. */
module Linter {

  import opened Wrappers
  import opened Xml
  import opened Strings

  /** A descriptor file as the linter sees it: its path and what parsing it
      gives. */
  datatype DescriptorFile = DescriptorFile(path: string, doc: Document)

  /** The Python exceptions the date check can raise; none is caught, so
      each one ends the whole run. */
  datatype Fault =
    | ParseError(path: string, reason: string)   // re-parsing a malformed file
    | AttributeError(path: string, tag: string)  // `.text` of a missing child
    | TypeError(path: string, tag: string)       // `in` applied to a `None` text

  /** One line the linter logs. The log keeps which line it is; `Text`
      gives the exact characters printed. */
  datatype Message =
    | ParseFailed(path: string, reason: string)
    | RootWrong(path: string)
    | RootRight(path: string)
    | Missing(element: string, path: string)
    | Found(element: string, path: string)
    | Stale(name: string, path: string)
    | Fresh(name: string, path: string)

  /** The printed text of a message, as the f-strings of the source build it. */
  function Text(m: Message): string
  {
    match m
    case ParseFailed(path, reason) => "Error: " + ("XML parsing error in " + path + ": " + reason)
    case RootWrong(path) => "Error: " + ("Root element should be 'packages' in " + path)
    case RootRight(path) => "Success: " + ("Root element is 'packages' in " + path)
    case Missing(element, path) => "Error: " + ("Missing '" + element + "' in a package in " + path)
    case Found(element, path) => "Success: " + ("Found '" + element + "' in a package in " + path)
    case Stale(name, path) =>
      "Error: " + ("Version does not contain current date for package '" + name + "' in " + path)
    case Fresh(name, path) =>
      "Success: " + ("Version contains current date for package '" + name + "' in " + path)
  }

  /** `message.startswith("Error")`. */
  predicate IsError(m: Message)
  {
    StartsWith(Text(m), "Error")
  }

  /** Exactly the failure messages start with "Error". */
  lemma ErrorMessages(m: Message)
    ensures IsError(m) <==> Fails(m)
  {
    var t := Text(m);
    if m.ParseFailed? || m.RootWrong? || m.Missing? || m.Stale? {
      assert t == "Error: " + t[7..];
      assert t[..5] == "Error";
    } else {
      assert t[0] == 'S';
    }
  }

  /** The messages that report a failed check. */
  predicate Fails(m: Message)
  {
    m.ParseFailed? || m.RootWrong? || m.Missing? || m.Stale?
  }

  /** No message of `log` reports a failed check. */
  predicate NoErrors(log: seq<Message>)
  {
    forall i :: 0 <= i < |log| ==> !Fails(log[i])
  }

  /** `NoErrors` is the source's test: no printed line starts with "Error". */
  lemma NoErrorsIsNoErrorLine(log: seq<Message>)
    ensures NoErrors(log) <==> forall i :: 0 <= i < |log| ==> !IsError(log[i])
  {
    forall i | 0 <= i < |log| {
      ErrorMessages(log[i]);
    }
  }

  /** What a run logs, and the exception that ended it early, if any. */
  datatype LintRun = LintRun(log: seq<Message>, fault: Option<Fault>)

  /** The child elements every package must have, in the order checked. */
  const Required: seq<string> := ["packageName", "version", "sha256", "url"]

  // ---------------------------------------------------------------------
  // Structure check (validate_xml_structure)
  // ---------------------------------------------------------------------

  function RootMessage(path: string, root: Element): Message
  {
    if root.tag != "packages" then RootWrong(path) else RootRight(path)
  }

  function FieldMessage(path: string, package: Element, element: string): Message
  {
    if Find(package, element).None? then Missing(element, path) else Found(element, path)
  }

  /** The presence findings for `elements` of one package, in order. */
  function FieldMessages(path: string, package: Element, elements: seq<string>): seq<Message>
  {
    if |elements| == 0 then []
    else FieldMessages(path, package, elements[..|elements| - 1])
         + [FieldMessage(path, package, elements[|elements| - 1])]
  }

  /** The presence findings for a list of packages, package by package. */
  function PackageMessages(path: string, packages: seq<Element>): seq<Message>
  {
    if |packages| == 0 then []
    else PackageMessages(path, packages[..|packages| - 1])
         + FieldMessages(path, packages[|packages| - 1], Required)
  }

  /** The findings of the structure check of one file. */
  function StructureMessages(path: string, doc: Document): seq<Message>
  {
    match doc
    case Malformed(reason) => [ParseFailed(path, reason)]
    case Parsed(root) => [RootMessage(path, root)] + PackageMessages(path, FindAll(root, "package"))
  }

  lemma {:induction false} FieldMessagesAt(path: string, package: Element, elements: seq<string>, j: nat)
    requires j < |elements|
    ensures |FieldMessages(path, package, elements)| == |elements|
    ensures FieldMessages(path, package, elements)[j] == FieldMessage(path, package, elements[j])
  {
    var n := |elements|;
    if j < n - 1 {
      FieldMessagesAt(path, package, elements[..n - 1], j);
    } else if n > 1 {
      FieldMessagesAt(path, package, elements[..n - 1], 0);
    }
  }

  lemma {:induction false} PackageMessagesLength(path: string, packages: seq<Element>)
    ensures |PackageMessages(path, packages)| == 4 * |packages|
  {
    var n := |packages|;
    if n > 0 {
      PackageMessagesLength(path, packages[..n - 1]);
      FieldMessagesAt(path, packages[n - 1], Required, 0);
    }
  }

  lemma {:induction false} PackageMessagesAt(path: string, packages: seq<Element>, k: nat, j: nat)
    requires k < |packages| && j < 4
    ensures |PackageMessages(path, packages)| == 4 * |packages|
    ensures PackageMessages(path, packages)[4 * k + j]
            == FieldMessage(path, packages[k], Required[j])
  {
    var n := |packages|;
    var front := packages[..n - 1];
    var last := FieldMessages(path, packages[n - 1], Required);
    PackageMessagesLength(path, packages);
    PackageMessagesLength(path, front);
    assert PackageMessages(path, packages) == PackageMessages(path, front) + last;
    if k < n - 1 {
      PackageMessagesAt(path, front, k, j);
      assert front[k] == packages[k];
    } else {
      FieldMessagesAt(path, packages[n - 1], Required, j);
    }
  }

  lemma FieldMessagesStep(path: string, package: Element, elements: seq<string>, k: nat)
    requires k < |elements|
    ensures FieldMessages(path, package, elements[..k + 1])
            == FieldMessages(path, package, elements[..k]) + [FieldMessage(path, package, elements[k])]
  {
    assert elements[..k + 1][..k] == elements[..k];
  }

  lemma PackageMessagesStep(path: string, packages: seq<Element>, p: nat)
    requires p < |packages|
    ensures PackageMessages(path, packages[..p + 1])
            == PackageMessages(path, packages[..p]) + FieldMessages(path, packages[p], Required)
  {
    assert packages[..p + 1][..p] == packages[..p];
  }

  /** Four presence findings per direct package child, one root finding. */
  lemma StructureMessageCount(path: string, root: Element)
    ensures |StructureMessages(path, Parsed(root))| == 1 + 4 * |FindAll(root, "package")|
  {
    var packages := FindAll(root, "package");
    if |packages| > 0 {
      PackageMessagesAt(path, packages, 0, 0);
    }
  }

  /** Finding `1 + 4k + j` is about required element `j` of the `k`-th direct
      package child, and it is an error exactly when that child is missing;
      an element that is present counts whatever its text. */
  lemma StructureMessageAt(path: string, root: Element, k: nat, j: nat)
    requires k < |FindAll(root, "package")| && j < 4
    ensures 1 + 4 * k + j < |StructureMessages(path, Parsed(root))|
    ensures StructureMessages(path, Parsed(root))[1 + 4 * k + j]
            == FieldMessage(path, FindAll(root, "package")[k], Required[j])
    ensures IsError(StructureMessages(path, Parsed(root))[1 + 4 * k + j])
            <==> Find(FindAll(root, "package")[k], Required[j]).None?
  {
    var packages := FindAll(root, "package");
    PackageMessagesAt(path, packages, k, j);
    ErrorMessages(StructureMessages(path, Parsed(root))[1 + 4 * k + j]);
  }

  /** The root tag decides the first finding and nothing else: the package
      checks run whatever the root tag is. */
  lemma RootTagOnlyAffectsFirst(path: string, root: Element, tag: string)
    ensures StructureMessages(path, Parsed(root.(tag := tag)))[1..]
            == StructureMessages(path, Parsed(root))[1..]
            == PackageMessages(path, FindAll(root, "package"))
  {
  }

  /** The inner loop of `validate_xml_structure`: one presence finding per
      required element of `package`, appended to `before` in order. */
  method CheckRequired(path: string, package: Element, before: seq<Message>) returns (log: seq<Message>)
    ensures log == before + FieldMessages(path, package, Required)
  {
    log := before;
    for k := 0 to |Required|
      invariant log == before + FieldMessages(path, package, Required[..k])
    {
      var element := Required[k];
      FieldMessagesStep(path, package, Required, k);
      if Find(package, element).None? {
        log := log + [Missing(element, path)];
      } else {
        log := log + [Found(element, path)];
      }
    }
    assert Required[..|Required|] == Required;
  }

  /** `validate_xml_structure`: the findings are appended one by one, the
      package loop running after the root check whatever its outcome. */
  method ValidateXmlStructure(path: string, doc: Document) returns (log: seq<Message>)
    ensures log == StructureMessages(path, doc)
    ensures doc.Malformed? ==> |log| == 1 && IsError(log[0])
    ensures doc.Parsed? ==> |log| == 1 + 4 * |FindAll(doc.root, "package")|
    ensures doc.Parsed? ==> (IsError(log[0]) <==> doc.root.tag != "packages")
  {
    match doc
    case Malformed(reason) =>
      log := [ParseFailed(path, reason)];
      ErrorMessages(log[0]);
    case Parsed(root) =>
      log := [];
      if root.tag != "packages" {
        log := log + [RootWrong(path)];
      } else {
        log := log + [RootRight(path)];
      }
      var packages := FindAll(root, "package");
      for p := 0 to |packages|
        invariant log == [RootMessage(path, root)] + PackageMessages(path, packages[..p])
      {
        log := CheckRequired(path, packages[p], log);
        PackageMessagesStep(path, packages, p);
      }
      assert packages[..|packages|] == packages;
      StructureMessageCount(path, root);
      ErrorMessages(log[0]);
  }

  // ---------------------------------------------------------------------
  // Freshness check (validate_version_date)
  // ---------------------------------------------------------------------

  /** The freshness finding for one package, or the exception reading its
      `packageName` or `version` raises. */
  function FreshnessMessage(path: string, package: Element, today: string): Result<Message, Fault>
  {
    match Find(package, "packageName")
    case None => Err(AttributeError(path, "packageName"))
    case Some(nameElement) =>
      var name := Display(nameElement.text);
      match Find(package, "version")
      case None => Err(AttributeError(path, "version"))
      case Some(versionElement) =>
        match versionElement.text
        case None => Err(TypeError(path, "version"))
        case Some(version) =>
          if !Contains(version, today) then Ok(Stale(name, path)) else Ok(Fresh(name, path))
  }

  /** The freshness findings for a list of packages, or the first exception. */
  function FreshnessMessages(path: string, packages: seq<Element>, today: string): Result<seq<Message>, Fault>
  {
    if |packages| == 0 then Ok([])
    else match FreshnessMessages(path, packages[..|packages| - 1], today)
      case Err(f) => Err(f)
      case Ok(front) =>
        match FreshnessMessage(path, packages[|packages| - 1], today)
        case Err(f) => Err(f)
        case Ok(m) => Ok(front + [m])
  }

  /** Once some package raises, the check of a longer list raises the same. */
  lemma {:induction false} FreshnessFaultPersists(path: string, packages: seq<Element>, today: string, p: nat)
    requires p <= |packages| && FreshnessMessages(path, packages[..p], today).Err?
    ensures FreshnessMessages(path, packages, today) == FreshnessMessages(path, packages[..p], today)
    decreases |packages| - p
  {
    if p < |packages| {
      assert packages[..p + 1][..p] == packages[..p];
      FreshnessFaultPersists(path, packages, today, p + 1);
    } else {
      assert packages[..p] == packages;
    }
  }

  /** The findings of the freshness check of one file; it parses the file
      again and does not catch the parser's exception. */
  function DateMessages(path: string, doc: Document, today: string): Result<seq<Message>, Fault>
  {
    match doc
    case Malformed(reason) => Err(ParseError(path, reason))
    case Parsed(root) => FreshnessMessages(path, FindAll(root, "package"), today)
  }

  /** The version text of a package whose freshness check does not raise. */
  predicate Readable(package: Element)
  {
    && Find(package, "packageName").Some?
    && Find(package, "version").Some?
    && Find(package, "version").value.text.Some?
  }

  function VersionText(package: Element): string
    requires Readable(package)
  {
    Find(package, "version").value.text.value
  }

  lemma FreshnessMessageMeaning(path: string, package: Element, today: string)
    ensures FreshnessMessage(path, package, today).Ok? <==> Readable(package)
    ensures Readable(package) ==>
              (IsError(FreshnessMessage(path, package, today).value) <==> !Contains(VersionText(package), today))
  {
    if Readable(package) {
      ErrorMessages(FreshnessMessage(path, package, today).value);
    }
  }

  /** The freshness check raises exactly when some package cannot be read,
      and otherwise gives one finding per package, in order, which is an
      error exactly when the version does not contain `today`. */
  lemma {:induction false} FreshnessMessagesMeaning(path: string, packages: seq<Element>, today: string)
    ensures FreshnessMessages(path, packages, today).Ok?
            <==> forall k :: 0 <= k < |packages| ==> Readable(packages[k])
    ensures FreshnessMessages(path, packages, today).Ok? ==>
              && |FreshnessMessages(path, packages, today).value| == |packages|
              && forall k :: 0 <= k < |packages| ==>
                   (IsError(FreshnessMessages(path, packages, today).value[k])
                    <==> !Contains(VersionText(packages[k]), today))
  {
    var n := |packages|;
    if n > 0 {
      var front := packages[..n - 1];
      var last := packages[n - 1];
      FreshnessMessagesMeaning(path, front, today);
      FreshnessMessageMeaning(path, last, today);
      var r := FreshnessMessages(path, packages, today);
      if r.Ok? {
        var earlier := FreshnessMessages(path, front, today).value;
        var m := FreshnessMessage(path, last, today).value;
        assert r.value == earlier + [m];
        forall k | 0 <= k < n
          ensures Readable(packages[k])
          ensures IsError(r.value[k]) <==> !Contains(VersionText(packages[k]), today)
        {
          if k < n - 1 {
            assert front[k] == packages[k];
            assert r.value[k] == earlier[k];
          }
        }
      }
    }
  }

  /** One finding per direct package child, an error exactly when its
      version does not contain today's date; a malformed file raises. */
  lemma DateMessagesMeaning(path: string, doc: Document, today: string)
    ensures doc.Malformed? ==> DateMessages(path, doc, today).Err?
    ensures doc.Parsed? ==>
              var packages := FindAll(doc.root, "package");
              && (DateMessages(path, doc, today).Ok? <==> forall k :: 0 <= k < |packages| ==> Readable(packages[k]))
              && (DateMessages(path, doc, today).Ok? ==>
                    && |DateMessages(path, doc, today).value| == |packages|
                    && forall k :: 0 <= k < |packages| ==>
                         (IsError(DateMessages(path, doc, today).value[k])
                          <==> !Contains(VersionText(packages[k]), today)))
  {
    if doc.Parsed? {
      FreshnessMessagesMeaning(path, FindAll(doc.root, "package"), today);
    }
  }

  /** `validate_version_date`, with the clock read once before the loop and
      passed in as `today` (`%Y%m%d` of the current date). */
  method ValidateVersionDate(path: string, doc: Document, today: string) returns (r: Result<seq<Message>, Fault>)
    ensures r == DateMessages(path, doc, today)
    ensures r.Ok? ==> doc.Parsed? && |r.value| == |FindAll(doc.root, "package")|
  {
    if doc.Malformed? {
      return Err(ParseError(path, doc.reason));
    }
    var root := doc.root;
    var packages := FindAll(root, "package");
    var log := [];
    for p := 0 to |packages|
      invariant FreshnessMessages(path, packages[..p], today) == Ok(log)
      invariant |log| == p
    {
      var package := packages[p];
      assert packages[..p + 1][..p] == packages[..p];
      var nameElement := Find(package, "packageName");
      if nameElement.None? {
        FreshnessFaultPersists(path, packages, today, p + 1);
        return Err(AttributeError(path, "packageName"));
      }
      var name := Display(nameElement.value.text);
      var versionElement := Find(package, "version");
      if versionElement.None? {
        FreshnessFaultPersists(path, packages, today, p + 1);
        return Err(AttributeError(path, "version"));
      }
      if versionElement.value.text.None? {
        FreshnessFaultPersists(path, packages, today, p + 1);
        return Err(TypeError(path, "version"));
      }
      var version := versionElement.value.text.value;
      if !Contains(version, today) {
        log := log + [Stale(name, path)];
      } else {
        log := log + [Fresh(name, path)];
      }
    }
    assert packages[..|packages|] == packages;
    return Ok(log);
  }

  /** With the date fixed, both checks give the same findings when run
      twice on the same file. The model keeps no state between calls, so
      this holds by construction: it follows from the two methods'
      contracts and says nothing about hidden state. */
  method RevalidateIsIdentical(path: string, doc: Document, today: string)
    returns (first: seq<Message>, second: seq<Message>, firstDates: Result<seq<Message>, Fault>, secondDates: Result<seq<Message>, Fault>)
    ensures first == second && firstDates == secondDates
  {
    first := ValidateXmlStructure(path, doc);
    firstDates := ValidateVersionDate(path, doc, today);
    second := ValidateXmlStructure(path, doc);
    secondDates := ValidateVersionDate(path, doc, today);
  }

  // ---------------------------------------------------------------------
  // The batch (main)
  // ---------------------------------------------------------------------

  /** The run over `files` in order: each file's structure findings, then
      its freshness findings, until the freshness check of some file raises. */
  function Lint(files: seq<DescriptorFile>, today: string): LintRun
  {
    if |files| == 0 then LintRun([], None)
    else
      var earlier := Lint(files[..|files| - 1], today);
      if earlier.fault.Some? then earlier
      else
        var f := files[|files| - 1];
        var structure := StructureMessages(f.path, f.doc);
        match DateMessages(f.path, f.doc, today)
        case Err(e) => LintRun(earlier.log + structure, Some(e))
        case Ok(dates) => LintRun(earlier.log + structure + dates, None)
  }

  lemma NoErrorsAppend(a: seq<Message>, b: seq<Message>)
    ensures NoErrors(a + b) <==> NoErrors(a) && NoErrors(b)
  {
    if NoErrors(a) && NoErrors(b) {
      forall i | 0 <= i < |a + b|
        ensures !Fails((a + b)[i])
      {
        if i < |a| {
          assert (a + b)[i] == a[i];
        } else {
          assert (a + b)[i] == b[i - |a|];
        }
      }
    }
    if NoErrors(a + b) {
      forall i | 0 <= i < |a|
        ensures !Fails(a[i])
      {
        assert (a + b)[i] == a[i];
      }
      forall i | 0 <= i < |b|
        ensures !Fails(b[i])
      {
        assert (a + b)[|a| + i] == b[i];
      }
    }
  }

  lemma NoErrorsSingle(m: Message)
    ensures NoErrors([m]) <==> !Fails(m)
  {
    assert [m][0] == m;
  }

  lemma NoErrorsStep(log: seq<Message>, more: seq<Message>, j: nat)
    requires j < |more|
    ensures NoErrors(log + more[..j + 1]) <==> NoErrors(log + more[..j]) && !Fails(more[j])
  {
    assert log + more[..j + 1] == (log + more[..j]) + [more[j]];
    NoErrorsAppend(log + more[..j], [more[j]]);
    assert [more[j]][0] == more[j];
    assert NoErrors([more[j]]) <==> !Fails(more[j]);
  }

  lemma LintStep(files: seq<DescriptorFile>, today: string, i: nat, log: seq<Message>)
    requires i < |files| && Lint(files[..i], today) == LintRun(log, None)
    ensures var f := files[i];
            var structure := StructureMessages(f.path, f.doc);
            Lint(files[..i + 1], today)
            == match DateMessages(f.path, f.doc, today)
               case Err(e) => LintRun(log + structure, Some(e))
               case Ok(dates) => LintRun(log + structure + dates, None)
  {
    assert files[..i + 1][..i] == files[..i];
  }

  /** Once the run has raised, later files change nothing. */
  lemma {:induction false} LintFaultPersists(files: seq<DescriptorFile>, today: string, i: nat)
    requires i <= |files| && Lint(files[..i], today).fault.Some?
    ensures Lint(files, today) == Lint(files[..i], today)
    decreases |files| - i
  {
    if i < |files| {
      assert files[..i + 1][..i] == files[..i];
      LintFaultPersists(files, today, i + 1);
    } else {
      assert files[..i] == files;
    }
  }

  // ---------------------------------------------------------------------
  // What a passing run means
  // ---------------------------------------------------------------------

  /** A package with every required child. */
  predicate Complete(package: Element)
  {
    forall j :: 0 <= j < |Required| ==> Find(package, Required[j]).Some?
  }

  /** A package with every required child, whose version text contains
      `today`. */
  predicate PackageAcceptable(package: Element, today: string)
  {
    && Complete(package)
    && Readable(package)
    && Contains(VersionText(package), today)
  }

  /** A file that passes every check: well-formed, rooted at `packages`, and
      every direct package child acceptable. */
  predicate Acceptable(f: DescriptorFile, today: string)
  {
    && f.doc.Parsed?
    && f.doc.root.tag == "packages"
    && var packages := FindAll(f.doc.root, "package");
       forall k :: 0 <= k < |packages| ==> PackageAcceptable(packages[k], today)
  }

  /** A file whose checks raise nothing and report no failure. */
  predicate FileClean(f: DescriptorFile, today: string)
  {
    && DateMessages(f.path, f.doc, today).Ok?
    && NoErrors(StructureMessages(f.path, f.doc) + DateMessages(f.path, f.doc, today).value)
  }

  lemma {:induction false} FieldMessagesClean(path: string, package: Element, elements: seq<string>)
    ensures NoErrors(FieldMessages(path, package, elements))
            <==> forall j :: 0 <= j < |elements| ==> Find(package, elements[j]).Some?
  {
    var n := |elements|;
    if n > 0 {
      var front := elements[..n - 1];
      var last := FieldMessage(path, package, elements[n - 1]);
      FieldMessagesClean(path, package, front);
      NoErrorsAppend(FieldMessages(path, package, front), [last]);
      NoErrorsSingle(last);
      assert Fails(last) <==> Find(package, elements[n - 1]).None?;
      assert forall j :: 0 <= j < n - 1 ==> front[j] == elements[j];
    }
  }

  lemma {:induction false} PackageMessagesClean(path: string, packages: seq<Element>)
    ensures NoErrors(PackageMessages(path, packages))
            <==> forall k :: 0 <= k < |packages| ==> Complete(packages[k])
  {
    var n := |packages|;
    if n > 0 {
      var front := packages[..n - 1];
      var a := PackageMessages(path, front);
      var b := FieldMessages(path, packages[n - 1], Required);
      assert PackageMessages(path, packages) == a + b;
      assert NoErrors(a + b) <==> NoErrors(a) && NoErrors(b) by {
        NoErrorsAppend(a, b);
      }
      assert NoErrors(a) <==> forall k :: 0 <= k < n - 1 ==> Complete(front[k]) by {
        PackageMessagesClean(path, front);
      }
      assert NoErrors(b) <==> Complete(packages[n - 1]) by {
        FieldMessagesClean(path, packages[n - 1], Required);
      }
      assert forall k :: 0 <= k < n - 1 ==> front[k] == packages[k];
    }
  }

  lemma DateMessagesClean(path: string, root: Element, today: string)
    requires DateMessages(path, Parsed(root), today).Ok?
    ensures var packages := FindAll(root, "package");
            && (forall k :: 0 <= k < |packages| ==> Readable(packages[k]))
            && (NoErrors(DateMessages(path, Parsed(root), today).value)
                <==> forall k :: 0 <= k < |packages| ==> Contains(VersionText(packages[k]), today))
  {
    var d := DateMessages(path, Parsed(root), today).value;
    DateMessagesMeaning(path, Parsed(root), today);
    NoErrorsIsNoErrorLine(d);
  }

  /** One file passes every check (no exception, no "Error" line) exactly
      when it is acceptable. */
  lemma FileCleanIff(f: DescriptorFile, today: string)
    ensures FileClean(f, today) <==> Acceptable(f, today)
  {
    if f.doc.Parsed? {
      var root := f.doc.root;
      var packages := FindAll(root, "package");
      var rootLine := RootMessage(f.path, root);
      var checks := PackageMessages(f.path, packages);
      var structure := StructureMessages(f.path, f.doc);
      assert structure == [rootLine] + checks;
      assert NoErrors(structure)
             <==> root.tag == "packages" && forall k :: 0 <= k < |packages| ==> Complete(packages[k]) by {
        NoErrorsAppend([rootLine], checks);
        NoErrorsSingle(rootLine);
        PackageMessagesClean(f.path, packages);
      }
      assert DateMessages(f.path, f.doc, today).Ok? <==> forall k :: 0 <= k < |packages| ==> Readable(packages[k]) by {
        DateMessagesMeaning(f.path, f.doc, today);
      }
      if DateMessages(f.path, f.doc, today).Ok? {
        var d := DateMessages(f.path, f.doc, today).value;
        assert NoErrors(structure + d) <==> NoErrors(structure) && NoErrors(d) by {
          NoErrorsAppend(structure, d);
        }
        assert NoErrors(d) <==> forall k :: 0 <= k < |packages| ==> Contains(VersionText(packages[k]), today) by {
          DateMessagesClean(f.path, root, today);
        }
      }
    }
  }

  /** The run so far stays clean over one more file exactly when that file
      is clean. */
  lemma LintCleanStep(files: seq<DescriptorFile>, today: string)
    requires |files| > 0
    ensures var earlier := Lint(files[..|files| - 1], today);
            var whole := Lint(files, today);
            (whole.fault.None? && NoErrors(whole.log))
            <==> (earlier.fault.None? && NoErrors(earlier.log) && FileClean(files[|files| - 1], today))
  {
    var earlier := Lint(files[..|files| - 1], today);
    var f := files[|files| - 1];
    if earlier.fault.None? {
      var structure := StructureMessages(f.path, f.doc);
      if DateMessages(f.path, f.doc, today).Ok? {
        var d := DateMessages(f.path, f.doc, today).value;
        assert Lint(files, today).log == earlier.log + (structure + d);
        NoErrorsAppend(earlier.log, structure + d);
      }
    }
  }

  /** The linter exits with status 0 exactly when every file is acceptable;
      it never passes vacuously on a file it could not check. */
  lemma {:induction false} LintPassesIff(files: seq<DescriptorFile>, today: string)
    ensures Lint(files, today).fault.None? && NoErrors(Lint(files, today).log)
            <==> forall i :: 0 <= i < |files| ==> Acceptable(files[i], today)
  {
    var n := |files|;
    if n > 0 {
      var front := files[..n - 1];
      var f := files[n - 1];
      var earlier := Lint(front, today);
      assert (forall i :: 0 <= i < n ==> Acceptable(files[i], today))
             <==> (forall i :: 0 <= i < n - 1 ==> Acceptable(front[i], today)) && Acceptable(f, today) by {
        assert forall i :: 0 <= i < n - 1 ==> front[i] == files[i];
      }
      assert earlier.fault.None? && NoErrors(earlier.log)
             <==> forall i :: 0 <= i < n - 1 ==> Acceptable(front[i], today) by {
        LintPassesIff(front, today);
      }
      assert FileClean(f, today) <==> Acceptable(f, today) by {
        FileCleanIff(f, today);
      }
      LintCleanStep(files, today);
    }
  }

  /** The number of findings a file contributes when neither check raises:
      one root finding, and five per direct package child (four presence
      findings and one freshness finding). */
  function FileCount(f: DescriptorFile): nat
  {
    match f.doc
    case Malformed(_) => 1
    case Parsed(root) => 1 + 5 * |FindAll(root, "package")|
  }

  function TotalCount(files: seq<DescriptorFile>): nat
  {
    if |files| == 0 then 0 else TotalCount(files[..|files| - 1]) + FileCount(files[|files| - 1])
  }

  /** A run that raises nothing has visited every file and logged every
      finding of each: nothing is skipped after an earlier error. */
  lemma {:induction false} LintVisitsEveryFile(files: seq<DescriptorFile>, today: string)
    requires Lint(files, today).fault.None?
    ensures forall i :: 0 <= i < |files| ==> files[i].doc.Parsed?
    ensures |Lint(files, today).log| == TotalCount(files)
  {
    var n := |files|;
    if n > 0 {
      var front := files[..n - 1];
      var f := files[n - 1];
      assert files == front + [f];
      assert Lint(front, today).fault.None?;
      LintVisitsEveryFile(front, today);
      assert forall i :: 0 <= i < n - 1 ==> front[i] == files[i];
      assert DateMessages(f.path, f.doc, today).Ok?;
      var d := DateMessages(f.path, f.doc, today).value;
      assert |Lint(files, today).log| == |Lint(front, today).log| + |StructureMessages(f.path, f.doc)| + |d|;
      StructureMessageCount(f.path, f.doc.root);
      DateMessagesMeaning(f.path, f.doc, today);
    }
  }

  // ---------------------------------------------------------------------
  // A malformed file ends the run
  // ---------------------------------------------------------------------

  /** As written, the freshness check re-parses a file whose parse error the
      structure check has just reported, and the parser's exception escapes
      `main`: no file after a malformed one is checked. */
  lemma MalformedFileStopsRun(files: seq<DescriptorFile>, today: string, i: nat)
    requires i < |files| && files[i].doc.Malformed?
    ensures Lint(files, today).fault.Some?
    ensures Lint(files, today) == Lint(files[..i + 1], today)
  {
    assert files[..i + 1][..i] == files[..i];
    LintFaultPersists(files, today, i + 1);
  }

  /** Two files, the first malformed: the second one's findings never
      appear, although it would pass on its own. */
  lemma MalformedFileHidesNext()
    ensures var good := DescriptorFile("b.xml", Parsed(Element("packages", [], None)));
            var files := [DescriptorFile("a.xml", Malformed("syntax error")), good];
            && Lint([good], "20240101") == LintRun([RootRight("b.xml")], None)
            && Lint(files, "20240101")
               == LintRun([ParseFailed("a.xml", "syntax error")], Some(ParseError("a.xml", "syntax error")))
  {
    var good := DescriptorFile("b.xml", Parsed(Element("packages", [], None)));
    var files := [DescriptorFile("a.xml", Malformed("syntax error")), good];
    assert [good][..0] == [];
    assert files[..1] == [files[0]];
    assert files[..1][..0] == [];
  }

  /** The run as evidently intended: the freshness check is not attempted on
      a file whose parse already failed, so that file contributes its one
      parse error and the run goes on. */
  function LintCorrected(files: seq<DescriptorFile>, today: string): LintRun
  {
    if |files| == 0 then LintRun([], None)
    else
      var earlier := LintCorrected(files[..|files| - 1], today);
      if earlier.fault.Some? then earlier
      else
        var f := files[|files| - 1];
        var structure := StructureMessages(f.path, f.doc);
        if f.doc.Malformed? then LintRun(earlier.log + structure, None)
        else match DateMessages(f.path, f.doc, today)
          case Err(e) => LintRun(earlier.log + structure, Some(e))
          case Ok(dates) => LintRun(earlier.log + structure + dates, None)
  }

  /** In the corrected run malformed files never stop the run: when every
      well-formed file can be read, every file is visited, each malformed
      one is reported by its parse error, and the run fails. */
  lemma CorrectedStep(front: seq<DescriptorFile>, f: DescriptorFile, today: string)
    requires LintCorrected(front, today).fault.None?
    requires f.doc.Parsed? ==> DateMessages(f.path, f.doc, today).Ok?
    ensures LintCorrected(front + [f], today).fault.None?
    ensures LintCorrected(front + [f], today).log[..|LintCorrected(front, today).log|]
            == LintCorrected(front, today).log
    ensures f.doc.Malformed? ==>
              |LintCorrected(front + [f], today).log| > |LintCorrected(front, today).log|
              && LintCorrected(front + [f], today).log[|LintCorrected(front, today).log|]
                 == ParseFailed(f.path, f.doc.reason)
  {
    var files := front + [f];
    assert files[..|files| - 1] == front;
    var earlier := LintCorrected(front, today).log;
    var log := LintCorrected(files, today).log;
    var rest: seq<Message>;
    if f.doc.Malformed? {
      rest := [ParseFailed(f.path, f.doc.reason)];
    } else {
      rest := StructureMessages(f.path, f.doc) + DateMessages(f.path, f.doc, today).value;
    }
    assert log == earlier + rest;
    assert log[..|earlier|] == earlier;
  }

  lemma {:induction false} CorrectedVisitsEveryFile(files: seq<DescriptorFile>, today: string)
    requires forall i :: 0 <= i < |files| && files[i].doc.Parsed? ==> DateMessages(files[i].path, files[i].doc, today).Ok?
    ensures LintCorrected(files, today).fault.None?
    ensures forall i :: 0 <= i < |files| && files[i].doc.Malformed? ==>
              ParseFailed(files[i].path, files[i].doc.reason) in LintCorrected(files, today).log
    ensures (exists i :: 0 <= i < |files| && files[i].doc.Malformed?) ==> !NoErrors(LintCorrected(files, today).log)
  {
    var n := |files|;
    if n > 0 {
      var front := files[..n - 1];
      var earlier := LintCorrected(front, today).log;
      var log := LintCorrected(files, today).log;
      assert LintCorrected(front, today).fault.None?
             && forall i :: 0 <= i < n - 1 && files[i].doc.Malformed? ==>
                  ParseFailed(files[i].path, files[i].doc.reason) in earlier by {
        assert forall i :: 0 <= i < n - 1 ==> front[i] == files[i];
        CorrectedVisitsEveryFile(front, today);
      }
      assert files == front + [files[n - 1]];
      CorrectedStep(front, files[n - 1], today);
      forall i | 0 <= i < n && files[i].doc.Malformed?
        ensures ParseFailed(files[i].path, files[i].doc.reason) in log
      {
        if i < n - 1 {
          var m := ParseFailed(files[i].path, files[i].doc.reason);
          assert m in log[..|earlier|];
        } else {
          assert log[|earlier|] == ParseFailed(files[i].path, files[i].doc.reason);
        }
      }
    }
    var log := LintCorrected(files, today).log;
    if exists i :: 0 <= i < n && files[i].doc.Malformed? {
      var i :| 0 <= i < n && files[i].doc.Malformed?;
      var m := ParseFailed(files[i].path, files[i].doc.reason);
      var k :| 0 <= k < |log| && log[k] == m;
      assert Fails(log[k]);
    }
  }

  /** The loop `main` runs over the messages of each check: print each one
      (here: append it to the log) and clear `all_valid` on each that starts
      with "Error". */
  method Echo(log: seq<Message>, allValid: bool, messages: seq<Message>)
    returns (printed: seq<Message>, stillValid: bool)
    requires allValid <==> NoErrors(log)
    ensures printed == log + messages
    ensures stillValid <==> NoErrors(printed)
  {
    printed, stillValid := log, allValid;
    for j := 0 to |messages|
      invariant printed == log + messages[..j]
      invariant stillValid <==> NoErrors(printed)
    {
      NoErrorsStep(log, messages, j);
      assert log + messages[..j + 1] == printed + [messages[j]];
      printed := printed + [messages[j]];
      ErrorMessages(messages[j]);
      if IsError(messages[j]) {
        stillValid := false;
      }
    }
    assert messages[..|messages|] == messages;
  }

  /** `main` of the linter: prints every finding, clears `all_valid` on each
      one that starts with "Error", and exits with status 1 when it is clear
      (or when an exception escapes), 0 otherwise. */
  method RunLinter(files: seq<DescriptorFile>, today: string) returns (run: LintRun, status: int)
    ensures run == Lint(files, today)
    ensures status == (if run.fault.None? && NoErrors(run.log) then 0 else 1)
  {
    var allValid := true;
    var log: seq<Message> := [];
    for i := 0 to |files|
      invariant Lint(files[..i], today) == LintRun(log, None)
      invariant allValid <==> NoErrors(log)
    {
      var file := files[i];
      LintStep(files, today, i, log);
      var structure := ValidateXmlStructure(file.path, file.doc);
      log, allValid := Echo(log, allValid, structure);
      var dates := ValidateVersionDate(file.path, file.doc, today);
      if dates.Err? {
        run, status := LintRun(log, Some(dates.error)), 1;
        LintFaultPersists(files, today, i + 1);
        return;
      }
      log, allValid := Echo(log, allValid, dates.value);
    }
    assert files[..|files|] == files;
    run := LintRun(log, None);
    status := if allValid then 0 else 1;
  }
}
