# Release-integrity gate for XML package descriptors

A package descriptor is an XML document. Its root is `packages`, and it holds
`package` entries. Each entry carries `packageName`, `version`, `sha256` and
`url`. Two scripts guard a release:

- **The linter** (`linter.py`) checks each descriptor file and prints one line
  per finding, in a fixed order:
  - one finding for the root tag;
  - four presence findings for every direct `package` child, one per required
    child element, in the order `packageName`, `version`, `sha256`, `url`;
  - one freshness finding per package, which is an error unless today's
    `YYYYMMDD` date occurs in the version text.

  The run fails (exit status 1) when any printed line starts with `Error`.
- **The verifier** (`verify.py`) handles every `package` element at any depth
  below the root. For each one it:
  - downloads the installer to `<packageName>_installer.exe`;
  - hashes it;
  - compares the digest with the declared `sha256`, ignoring case.

  It fails when there is no package at all, and when any digest differs.

The model is in five modules:

- `Wrappers` (`wrappers.dfy`): `Option` and `Result`.
- `Xml` (`xml.dfy`): the parsed element tree and ElementTree's three queries.
  `find(tag)` is `Find`, `findall(tag)` is `FindAll` and `findall('.//tag')` is
  `FindAllDeep` over the pre-order `Descendants`.
- `Strings` (`strings.dfy`): `startswith`, `in` on strings, and ASCII
  `lower`/`upper`.
- `Linter` (`linter.dfy`): `validate_xml_structure`, `validate_version_date`
  and the batch loop of `main`. Each is a method with loops over the
  accumulated log, proved equal to a specification function. Lemmas about those
  functions give the counts, the order, the error conditions and the verdict.
  A logged line is a `Message` value. `Text` gives its exact printed
  characters, and `IsError` is `Text(m)` starting with `"Error"`.
- `Verify` (`verify.py`'s model, `verify.dfy`): `verify_package` is a
  function, because it is straight-line code once download and hashing are
  abstracted. The package loop of `main` is a method proved equal to the
  function `Verification`.

The Python exceptions the scripts never catch are modelled as `Fault` values
that end the run, not as preconditions:

- `validate_version_date` re-parses the file.
- `.text` is read on a missing child.
- `in` is applied to a `None` version text.
- `.lower()` is applied to a `None` digest text.
- A download can fail.
- `tree` is unbound after a parse error.

An uncaught exception exits with status 1, and so does a `Fault` here.

Inputs that the source reads from the environment are parameters:

- the parsed document (`Document`: the parser's error text, or the root
  element);
- the list of descriptor files;
- today's date string;
- the transport (`Transport`: given the URL and the installer file name, the
  bytes downloaded and written to that file, or `None` when the request raises
  or the file cannot be opened for writing);
- the hash function (`Hasher`).

The model follows the code in these details:

- A package is fresh when today's date occurs anywhere in its `version`
  text. The version's trailing date segment is never parsed.
- A present but empty required element counts as found.
- A malformed file does not just end its own checks: it ends the whole run.
  See Findings.

## Model

| member | source | states |
|---|---|---|
| `Xml.FindIsFirst` | linter.py:21 | `find` gives `None` exactly when no direct child has the tag, and otherwise the first child that has it |
| `Xml.FindAllMembers` | linter.py:18 | `findall('package')` gives exactly the direct children tagged `package` |
| `Xml.FindAllDeepMembers` | verify.py:83 | `findall('.//package')` gives exactly the elements tagged `package` at any depth strictly below the root |
| `Xml.FlatDeepIsDirect` | verify.py:83 | when no child holds a nested `package`, the deep search and the direct search give the same list |
| `Linter.ErrorMessages` | linter.py:62 | a printed line starts with "Error" exactly for the parse-failure, wrong-root, missing-element and stale-version messages |
| `Linter.NoErrorsIsNoErrorLine` | linter.py:60-63 | "no failure message" is the same as "no printed line starts with Error" |
| `Linter.ValidateXmlStructure` | linter.py:6-28 | the log equals the specified structure findings; a parse failure gives exactly one line, which is an error; a parsed file gives 1 + 4 × (direct packages) lines, and the first line is an error iff the root tag is not `packages` |
| `Linter.CheckRequired` | linter.py:19-24 | the inner loop appends exactly the four presence findings of one package, in the order packageName, version, sha256, url, after the findings logged so far |
| `Linter.StructureMessageCount` | linter.py:18-24 | one root finding plus four findings per direct `package` child |
| `Linter.StructureMessageAt` | linter.py:19-24 | finding 1 + 4k + j concerns required element j (order packageName, version, sha256, url) of the k-th direct package, and it is an error iff that child is missing; its text does not matter |
| `Linter.RootTagOnlyAffectsFirst` | linter.py:13-18 | changing the root tag changes only the first finding: the package checks run whatever the root tag is |
| `Linter.FreshnessMessagesMeaning` | linter.py:37-43 | the date check raises iff some package lacks `packageName` or `version`, or has no version text; otherwise it gives one finding per package, in order, and finding k is an error iff today's date is not a substring of the version |
| `Linter.DateMessagesMeaning` | linter.py:30-45 | the same for one file, over its direct `package` children; a malformed file makes it raise |
| `Linter.ValidateVersionDate` | linter.py:30-45 | the loop's result equals the specified freshness findings or exception, with one finding per direct package |
| `Linter.RevalidateIsIdentical` | linter.py:6-45 | with the date fixed, running both checks twice on a file gives identical results |
| `Linter.Echo` | linter.py:60-63 | printing a check's messages appends them all to the log, and `all_valid` stays true iff no line in the log so far is a failure |
| `Linter.RunLinter` | linter.py:54-75 | the run's log and exception equal `Lint`; the exit status is 0 iff nothing raised and no logged line is an error, and 1 otherwise |
| `Linter.LintVisitsEveryFile` | linter.py:56-69 | a run that raises nothing has parsed every file and logged 1 + 5 × (direct packages) findings for each one: no file or message is skipped after an error |
| `Linter.FileCleanIff` | linter.py:6-45 | a file passes both checks iff it parses, its root is `packages`, and every direct package has all four children and a version text containing today's date |
| `Linter.LintPassesIff` | linter.py:54-75 | the linter exits 0 iff every file is acceptable in the sense above |
| `Linter.MalformedFileStopsRun` | linter.py:65 | as written, a malformed file makes the run raise, and no file after it is checked |
| `Linter.MalformedFileHidesNext` | linter.py:31 | a malformed file followed by a passing file logs only the parse error, and the second file's findings never appear |
| `Linter.CorrectedVisitsEveryFile` | linter.py:56-69 | with the freshness check skipped for unparsable files, malformed files never end the run; each one is reported by its parse error, and the run fails |
| `Verify.InstallerFilename` | verify.py:30 | the installer name is the package name followed by `_installer.exe` |
| `Verify.InstallerFilenameInjective` | verify.py:30 | two packages share an installer file iff their names are equal |
| `Verify.DigestsMatchIff` | verify.py:42 | two digests match iff they have the same length and agree character by character up to ASCII case |
| `Verify.DigestsMatchIgnoresCase` | verify.py:42 | upper- or lower-casing either digest does not change the verdict |
| `Verify.LowerCaseDigestsMatchIffEqual` | verify.py:42 | for digests without upper-case letters, matching is plain equality |
| `Strings.LowerForgetsCase` | verify.py:42 | lower-casing a string that was already lower-cased or upper-cased gives its lower-cased form |
| `Verify.VerifyPackage` | verify.py:22-47 | on success: the report's name, URL and declared digest come from the package's children; the installer name is derived from the name; the actual digest is the hash of the downloaded bytes; and `matched` holds iff the digests match ignoring case. The check raises iff a required child is missing, the URL text is missing, the download to the installer file fails (the request raises or the file cannot be opened), or the digest text is missing |
| `Verify.ReportsMeaning` | verify.py:88-92 | the loop raises iff some package's check raises; otherwise it gives one report per package, in document order, so an earlier mismatch does not stop later packages being verified |
| `Verify.VerificationPassesIff` | verify.py:83-98 | the verifier's success condition holds iff the document parsed, it holds at least one package at some depth, and every package verifies |
| `Verify.NoPackagesFails` | verify.py:84-86 | an empty package list is the "no packages" failure, never vacuous success |
| `Verify.NestedPackagesAreVerifiedButNotLinted` | verify.py:83 | a package nested below a grouping element is verified, but the linter's direct `findall('package')` never sees it |
| `Verify.RunVerification` | verify.py:72-98 | the loop's outcome equals `Verification`; the exit status is 0 iff it finished and every report matched, and 1 otherwise (also on an unbound tree, no packages, or an exception) |

## Left out

- `download_file` (verify.py:8-13) is not modelled. It streams over HTTP through `requests` into the installer file. It is the `Transport` parameter, which sees both the URL and the file name: the bytes written, or `None` when the request raises or `open` fails. The installer files it leaves on disk are not modelled, so state shared between packages with the same file name is not either.
- `calculate_sha256` (verify.py:15-20) is not modelled. It reads the file in blocks and calls `hashlib` for SHA-256 (FIPS 180-4). It is the `Hasher` parameter, which is uninterpreted, so nothing is proved about how the digest depends on the bytes.
- XML parsing (`ET.parse`, `etree.parse`) is not modelled. The parse result is given as a `Document`. Namespaces, tails, comments and lxml's `remove_blank_text` are not modelled.
- `datetime.now().strftime("%Y%m%d")` (linter.py:33) is the `today` parameter. The source reads the clock once per file, while the model uses one `today` for the whole run, so a run that crosses midnight is not modelled.
- Directory globbing (linter.py:48-52) is not modelled. The list of files is an input.
- The file-existence, size and read checks of verify.py `main`, and the printing of the file contents (verify.py:50-69), are filesystem I/O. Their early `return`s exit with status 0.
- `print` is not modelled. The linter's log is the sequence of messages it prints, and `Text` gives each line's characters. These lines are not modelled: the "Validating …" headers, the verifier's progress lines and both final verdict lines. A `Report` keeps both digests that `verify_package` prints.
- `Verify.DigestsMatchIff`: `Strings.Lower` maps only the ASCII letters A-Z. Python's `str.lower` also maps other Unicode letters. Hexadecimal digests contain only ASCII.
- `packageName` is used unsanitised as the installer file-name prefix (verify.py:30), so a name such as `../x` names a file outside the working directory; whether that write succeeds is up to `Transport`.

## Findings

| source | as written | input that shows it | evidently intended | confidence | as-written member | corrected member |
|---|---|---|---|---|---|---|
| linter.py:65 | `main` calls `validate_version_date` even on a file whose parse error `validate_xml_structure` just reported. That function parses again (linter.py:31) without catching `ParseError`, so the exception escapes `main` and no later file is checked | files `[a.xml` (malformed)`, b.xml` (`<packages/>`)`]`: only a.xml's parse error is logged, then the run raises | a parse failure gives one error finding for that file, and the run goes on with the next file | not executed; medium | `Linter.MalformedFileStopsRun` | `Linter.CorrectedVisitsEveryFile` |
