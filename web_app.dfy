/** The web application's upload handler: the extension filter applied to uploaded
    file names, and the response assembled from one validator run (the verdict, the
    HTTP status, the status summary and the plain-text report shown to the user). */
module WebApp {
  import opened Text
  import opened ValidationRules
  import opened Validator

  // ---------------------------------------------------------------------------------
  // allowed_file

  /** Only a name whose text after its last '.' is "zip", in any letter case, is
      accepted: equivalently, the name ends in '.' followed by three characters that
      lower-case to "zip". */
  function AllowedFile(filename: string): (r: bool)
    ensures r <==> |filename| >= 4 && filename[|filename| - 4] == '.' && Lower(filename[|filename| - 3..]) == "zip"
  {
    var dot := LastIndexOf(filename, '.');
    ZipSuffixIsLastDot(filename);
    if dot >= 0 && Lower(filename[dot + 1..]) == "zip" then
      ZipTailIsSuffix(filename);
      true
    else
      false
  }

  /** Text after the last '.' that lower-cases to "zip" is the last three characters. */
  lemma ZipTailIsSuffix(filename: string)
    requires LastIndexOf(filename, '.') >= 0 && Lower(filename[LastIndexOf(filename, '.') + 1..]) == "zip"
    ensures |filename| >= 4 && filename[|filename| - 4] == '.' && Lower(filename[|filename| - 3..]) == "zip"
  {
    var dot := LastIndexOf(filename, '.');
    var tail := filename[dot + 1..];
    assert |Lower(tail)| == |tail| == 3;
    assert dot == |filename| - 4;
    assert filename[|filename| - 3..] == tail;
  }

  /** The '.' before a trailing "zip" (in any case) is the last '.' of the name. */
  lemma ZipSuffixIsLastDot(filename: string)
    ensures |filename| >= 4 && filename[|filename| - 4] == '.' && Lower(filename[|filename| - 3..]) == "zip"
            ==> LastIndexOf(filename, '.') == |filename| - 4
  {
    if |filename| >= 4 && filename[|filename| - 4] == '.' && Lower(filename[|filename| - 3..]) == "zip" {
      ZipSuffixHasNoDot(filename);
      LastIndexOfUnique(filename, '.', |filename| - 4);
    }
  }

  /** No character of a name that lower-cases to "zip" is a '.'. */
  lemma ZipSuffixHasNoDot(filename: string)
    requires |filename| >= 4 && Lower(filename[|filename| - 3..]) == "zip"
    ensures forall i :: |filename| - 4 < i < |filename| ==> filename[i] != '.'
  {
    var n := |filename|;
    var tail := filename[n - 3..];
    assert LowerChar(tail[0]) == 'z' && LowerChar(tail[1]) == 'i' && LowerChar(tail[2]) == 'p';
    assert tail[0] != '.' && tail[1] != '.' && tail[2] != '.';
    assert filename[n - 3] == tail[0] && filename[n - 2] == tail[1] && filename[n - 1] == tail[2];
  }

  // ---------------------------------------------------------------------------------
  // The response of validate_shapefile once the upload is saved

  datatype Response = Response(
    valid: bool,
    report: string,
    shapefiles: seq<string>,
    errors: seq<string>,
    warnings: seq<string>,
    filename: string,
    summary: string,
    statusCode: int)

  /** An upload whose secured name is empty is called "upload.zip". */
  function UploadName(securedName: string): (r: string)
    ensures r != []
    ensures securedName != [] ==> r == securedName
  {
    if securedName == [] then "upload.zip" else securedName
  }

  /** `str(file.content_length)`: the request may carry no length at all. */
  function SizeText(contentLength: Option<int>): string
  {
    match contentLength
    case None => "None"
    case Some(n) => IntToString(n)
  }

  function StatusCode(valid: bool): int
  {
    if valid then 200 else 422
  }

  // The long sentences below are written as two literals: the verifier then sees their
  // characters one by one, which the proofs that tell the summaries apart rely on.
  const PassedSummary := "All validation checks " + "passed successfully!"
  const FailedPrefix := "Validation failed "
  const CountedFailureSuffix := " error(s). See details above."
  const UnknownFailureSummary := FailedPrefix + "for unknown reasons."

  /** The one-line summary returned with the report: success, a failure stating how
      many errors there are, or a failure with no recorded error. */
  function StatusSummary(valid: bool, errorCount: nat): (r: string)
    ensures r == PassedSummary <==> valid
    ensures r == UnknownFailureSummary <==> !valid && errorCount == 0
    ensures !valid ==> StartsWith(r, FailedPrefix)
  {
    if valid then PassedSummary
    else if errorCount > 0 then
      var r := FailedPrefix + "with " + NatToString(errorCount) + CountedFailureSuffix;
      assert r[0] == 'V' && PassedSummary[0] == 'A';
      assert r[|FailedPrefix|] == 'w' && UnknownFailureSummary[|FailedPrefix|] == 'f';
      assert r[..|FailedPrefix|] == FailedPrefix;
      r
    else
      assert UnknownFailureSummary[0] == 'V' && PassedSummary[0] == 'A';
      assert UnknownFailureSummary[..|FailedPrefix|] == FailedPrefix;
      UnknownFailureSummary
  }

  /** A failure summary with errors states their number in decimal, and reading that
      number back gives the number of errors. */
  lemma StatusSummaryCount(errorCount: nat)
    requires errorCount > 0
    ensures exists digits ::
              && StatusSummary(false, errorCount) == FailedPrefix + "with " + digits + CountedFailureSuffix
              && (forall i :: 0 <= i < |digits| ==> IsDigit(digits[i]))
              && ParseNat(digits) == errorCount
  {
    ParseNatToString(errorCount);
    var digits := NatToString(errorCount);
    assert StatusSummary(false, errorCount) == FailedPrefix + "with " + digits + CountedFailureSuffix;
  }

  function FinalStatus(valid: bool, filename: string): string
  {
    if valid then "\U{2705} VALIDATION PASSED for " + filename else "\U{274C} VALIDATION FAILED for " + filename
  }

  const NoShapefilesLine := "\U{274C} No shapefiles found in ZIP archive"
  const ShapefileBullet := "  - "

  /** What the report says about discovery: the count and one line per base name, or
      that none was found; a blank line either way. */
  function DiscoveryLines(shapefiles: seq<string>): seq<string>
  {
    if shapefiles != [] then ["Found " + NatToString(|shapefiles|) + " shapefile(s):"] + Bulleted(ShapefileBullet, shapefiles) + [""]
    else [NoShapefilesLine, ""]
  }

  /** The closing block: a rule, the heading, a rule, the verdict, a blank line and
      the summary. */
  function FinalLines(valid: bool, filename: string, summary: string): seq<string>
  {
    [Repeat('=', 50), "FINAL RESULT", Repeat('=', 50), FinalStatus(valid, filename), "", summary]
  }

  lemma FinalLinesAppended(before: seq<string>, valid: bool, filename: string, summary: string)
    ensures before + [Repeat('=', 50)] + ["FINAL RESULT"] + [Repeat('=', 50)] + [FinalStatus(valid, filename)] + [""] + [summary]
            == before + FinalLines(valid, filename, summary)
  {
  }

  /** The validator's report is included (followed by a blank line) unless it is blank. */
  function ValidatorSection(validationReport: string): seq<string>
  {
    if HasNonSpace(validationReport) then [validationReport, ""] else []
  }

  function ReportSections(filename: string, contentLength: Option<int>, shapefiles: seq<string>,
                          validationReport: string, valid: bool, summary: string): seq<string>
  {
    ["Processing file: " + filename, "File size: " + SizeText(contentLength) + " bytes", ""]
    + DiscoveryLines(shapefiles)
    + ValidatorSection(validationReport)
    + FinalLines(valid, filename, summary)
  }

  /** The response built from what the validator returned. */
  function ResponseFrom(filename: string, contentLength: Option<int>, valid: bool, shapefiles: seq<string>,
                        errors: seq<string>, warnings: seq<string>, validationReport: string): Response
  {
    var summary := StatusSummary(valid, |errors|);
    Response(valid,
             Join(ReportSections(filename, contentLength, shapefiles, validationReport, valid, summary), "\n"),
             shapefiles, errors, warnings, filename, summary, StatusCode(valid))
  }

  /** The response for a saved upload, from a fresh validator whose required-extension
      iteration order is `order`. */
  function ResponseFor(securedName: string, contentLength: Option<int>, order: seq<string>, a: Archive): Response
  {
    var r := Run(order, a);
    ResponseFrom(UploadName(securedName), contentLength, r.valid, r.shapefiles, r.errors, [],
                 ValidationReport(r.details, r.errors, []))
  }

  /** validate_shapefile from the saved upload onwards: runs a fresh validator, asks it
      for its report and assembles the response. */
  method ValidateShapefile(securedName: string, contentLength: Option<int>, order: seq<string>, a: Archive)
    returns (response: Response)
    requires IsRequiredOrder(order)
    ensures response == ResponseFor(securedName, contentLength, order, a)
  {
    var filename := securedName;
    if filename == [] {
      filename := "upload.zip";
    }
    var validator := new ShapefileValidator(order);
    var isValid, shapefiles := validator.ValidateZipArchive(a);
    var validationReport := validator.GetValidationReport();
    response := AssembleResponse(filename, contentLength, isValid, shapefiles, validator.errors, validator.warnings, validationReport);
  }

  /** The report of validate_shapefile, built section by section, and the response
      around it. The validator's report is asked for once the run is over; asking for it
      changes nothing, so where it happens among the appends does not matter. */
  method AssembleResponse(filename: string, contentLength: Option<int>, isValid: bool, shapefiles: seq<string>,
                          errors: seq<string>, warnings: seq<string>, validationReport: string)
    returns (response: Response)
    ensures response == ResponseFrom(filename, contentLength, isValid, shapefiles, errors, warnings, validationReport)
  {
    var reportSections: seq<string> := [];
    reportSections := reportSections + ["Processing file: " + filename];
    reportSections := reportSections + ["File size: " + SizeText(contentLength) + " bytes"];
    reportSections := reportSections + [""];

    ghost var beforeDiscovery := reportSections;
    assert beforeDiscovery == ["Processing file: " + filename, "File size: " + SizeText(contentLength) + " bytes", ""];
    if shapefiles != [] {
      var foundLine := "Found " + NatToString(|shapefiles|) + " shapefile(s):";
      reportSections := reportSections + [foundLine];
      var i := 0;
      while i < |shapefiles|
        invariant 0 <= i <= |shapefiles|
        invariant reportSections == beforeDiscovery + [foundLine] + Bulleted(ShapefileBullet, shapefiles[..i])
      {
        AppendTwo(beforeDiscovery + [foundLine], Bulleted(ShapefileBullet, shapefiles[..i]), [ShapefileBullet + shapefiles[i]]);
        reportSections := reportSections + [ShapefileBullet + shapefiles[i]];
        assert shapefiles[..i + 1][..i] == shapefiles[..i];
        i := i + 1;
      }
      assert shapefiles[..i] == shapefiles;
      reportSections := reportSections + [""];
      AppendThree(beforeDiscovery, [foundLine], Bulleted(ShapefileBullet, shapefiles), [""]);
    } else {
      reportSections := reportSections + [NoShapefilesLine];
      reportSections := reportSections + [""];
      AppendPair(beforeDiscovery, NoShapefilesLine, "");
    }
    assert reportSections == beforeDiscovery + DiscoveryLines(shapefiles);

    ghost var beforeValidator := reportSections;
    if HasNonSpace(validationReport) {
      reportSections := reportSections + [validationReport];
      reportSections := reportSections + [""];
      AppendPair(beforeValidator, validationReport, "");
    }
    assert reportSections == beforeValidator + ValidatorSection(validationReport);

    var finalStatus, statusSummary;
    if isValid {
      finalStatus := "\U{2705} VALIDATION PASSED for " + filename;
      statusSummary := PassedSummary;
    } else {
      finalStatus := "\U{274C} VALIDATION FAILED for " + filename;
      if errors != [] {
        var errorCount := |errors|;
        statusSummary := FailedPrefix + "with " + NatToString(errorCount) + CountedFailureSuffix;
      } else {
        statusSummary := UnknownFailureSummary;
      }
    }
    assert finalStatus == FinalStatus(isValid, filename);
    assert statusSummary == StatusSummary(isValid, |errors|);

    ghost var beforeFinal := reportSections;
    var rule := Repeat('=', 50);
    reportSections := reportSections + [rule];
    reportSections := reportSections + ["FINAL RESULT"];
    reportSections := reportSections + [rule];
    reportSections := reportSections + [finalStatus];
    reportSections := reportSections + [""];
    reportSections := reportSections + [statusSummary];
    FinalLinesAppended(beforeFinal, isValid, filename, statusSummary);

    var fullReport := Join(reportSections, "\n");
    var statusCode := if isValid then 200 else 422;
    response := Response(isValid, fullReport, shapefiles, errors, warnings, filename, statusSummary, statusCode);
  }

  // ---------------------------------------------------------------------------------
  // What a response promises

  /** The status and summary of a response, from the validator's verdict and errors. */
  lemma ResponseFromStatus(filename: string, contentLength: Option<int>, valid: bool, shapefiles: seq<string>,
                           errors: seq<string>, warnings: seq<string>, validationReport: string)
    requires valid ==> errors == []
    ensures var resp := ResponseFrom(filename, contentLength, valid, shapefiles, errors, warnings, validationReport);
            && (resp.statusCode == 200 <==> resp.valid)
            && (resp.statusCode == 422 <==> !resp.valid)
            && (resp.valid ==> resp.errors == [] && resp.summary == PassedSummary)
            && (!resp.valid && resp.errors != [] ==> StartsWith(resp.summary, FailedPrefix + "with "))
            && resp.warnings == warnings
  {
    if !valid && errors != [] {
      var s := FailedPrefix + "with ";
      var summary := StatusSummary(valid, |errors|);
      assert summary == s + NatToString(|errors|) + CountedFailureSuffix;
      assert summary[..|s|] == s;
    }
  }

  /** The HTTP status is 200 exactly for a valid upload and 422 otherwise; a valid
      upload carries no error and the success summary; warnings are never reported. */
  lemma ResponseStatus(securedName: string, contentLength: Option<int>, order: seq<string>, a: Archive)
    ensures var resp := ResponseFor(securedName, contentLength, order, a);
            && (resp.statusCode == 200 <==> resp.valid)
            && (resp.statusCode == 422 <==> !resp.valid)
            && (resp.valid ==> resp.errors == [] && resp.summary == PassedSummary)
            && (!resp.valid && resp.errors != [] ==> StartsWith(resp.summary, FailedPrefix + "with "))
            && resp.warnings == []
  {
    RunValidHasNoErrors(order, a);
    var r := Run(order, a);
    ResponseFromStatus(UploadName(securedName), contentLength, r.valid, r.shapefiles, r.errors, [],
                       ValidationReport(r.details, r.errors, []));
  }

  /** A valid response lists the discovered base names, which are exactly the `.shp`
      members of the archive. */
  lemma ResponseShapefiles(securedName: string, contentLength: Option<int>, order: seq<string>, a: Archive)
    ensures var resp := ResponseFor(securedName, contentLength, order, a);
            resp.valid ==> resp.shapefiles == ShapefileBases(a.members) && resp.shapefiles != []
  {
  }

  /** The last three sections are the verdict line, a blank line and the summary. */
  lemma LastSections(filename: string, contentLength: Option<int>, shapefiles: seq<string>,
                     validationReport: string, valid: bool, summary: string)
    ensures var sections := ReportSections(filename, contentLength, shapefiles, validationReport, valid, summary);
            var n := |sections|;
            && n >= 6
            && sections[n - 3] == FinalStatus(valid, filename)
            && sections[n - 2] == ""
            && sections[n - 1] == summary
  {
    var prefix := ["Processing file: " + filename, "File size: " + SizeText(contentLength) + " bytes", ""]
                  + DiscoveryLines(shapefiles) + ValidatorSection(validationReport);
    var sections := prefix + FinalLines(valid, filename, summary);
    assert sections[|sections| - 3] == FinalLines(valid, filename, summary)[3];
  }

  lemma BlankBetween(a: string, c: string)
    ensures "\n" + a + "\n" + "" + "\n" + c == "\n" + a + "\n\n" + c
  {
    assert "\n" + "" == "\n";
    assert "\n" + a + "\n" + "" == "\n" + a + "\n";
    AppendTwo("\n" + a, "\n", "\n");
    AppendTwo("\n" + a + "\n", "\n", c);
  }

  /** The joined report ends with the verdict line, a blank line and the summary. */
  lemma ReportEndsWithFinal(filename: string, contentLength: Option<int>, shapefiles: seq<string>,
                            validationReport: string, valid: bool, summary: string)
    ensures EndsWith(Join(ReportSections(filename, contentLength, shapefiles, validationReport, valid, summary), "\n"),
                     "\n" + FinalStatus(valid, filename) + "\n\n" + summary)
  {
    var sections := ReportSections(filename, contentLength, shapefiles, validationReport, valid, summary);
    LastSections(filename, contentLength, shapefiles, validationReport, valid, summary);
    JoinEndsWithLastThree(sections, "\n");
    BlankBetween(FinalStatus(valid, filename), summary);
  }

  /** The report ends with the verdict line, a blank line and the summary, so the last
      line of every report is the summary returned beside it. */
  lemma ResponseReportEnds(filename: string, contentLength: Option<int>, valid: bool, shapefiles: seq<string>,
                           errors: seq<string>, warnings: seq<string>, validationReport: string)
    ensures var resp := ResponseFrom(filename, contentLength, valid, shapefiles, errors, warnings, validationReport);
            EndsWith(resp.report, "\n" + FinalStatus(resp.valid, resp.filename) + "\n\n" + resp.summary)
  {
    ReportEndsWithFinal(filename, contentLength, shapefiles, validationReport, valid, StatusSummary(valid, |errors|));
  }

  /** The validator's own report is never blank, so it always appears in the response,
      right after the discovery lines. */
  lemma ResponseIncludesValidatorReport(filename: string, contentLength: Option<int>, shapefiles: seq<string>,
                                        details: seq<string>, errors: seq<string>, warnings: seq<string>,
                                        valid: bool, summary: string)
    ensures var validationReport := ValidationReport(details, errors, warnings);
            var sections := ReportSections(filename, contentLength, shapefiles, validationReport, valid, summary);
            var at := 3 + |DiscoveryLines(shapefiles)|;
            |sections| > at + 1 && sections[at] == validationReport && sections[at + 1] == ""
  {
    ReportEndsWithSummary(details, errors, warnings);
  }

  /** The discovery block states the number of base names and then lists each one, in
      order; with no base name it says that none was found. A blank line ends it. */
  lemma DiscoveryListsEveryShapefile(shapefiles: seq<string>)
    ensures var lines := DiscoveryLines(shapefiles);
            && (shapefiles == [] ==> lines == [NoShapefilesLine, ""])
            && (shapefiles != [] ==>
                  && |lines| == |shapefiles| + 2
                  && lines[0] == "Found " + NatToString(|shapefiles|) + " shapefile(s):"
                  && (forall k :: 0 <= k < |shapefiles| ==> lines[1 + k] == ShapefileBullet + shapefiles[k]))
            && lines[|lines| - 1] == ""
  {
    BulletedSpec(ShapefileBullet, shapefiles);
  }

  /** The report opens with the file name, the size and a blank line, followed by the
      discovery block. */
  lemma ReportShowsDiscovery(filename: string, contentLength: Option<int>, shapefiles: seq<string>,
                             validationReport: string, valid: bool, summary: string)
    ensures var sections := ReportSections(filename, contentLength, shapefiles, validationReport, valid, summary);
            var d := DiscoveryLines(shapefiles);
            && |sections| >= 3 + |d|
            && sections[..3] == ["Processing file: " + filename, "File size: " + SizeText(contentLength) + " bytes", ""]
            && sections[3..3 + |d|] == d
  {
    var head := ["Processing file: " + filename, "File size: " + SizeText(contentLength) + " bytes", ""];
    var d := DiscoveryLines(shapefiles);
    var rest := ValidatorSection(validationReport) + FinalLines(valid, filename, summary);
    AppendThree(head, d, ValidatorSection(validationReport), FinalLines(valid, filename, summary));
    var sections := head + (d + rest);
    assert sections[..3] == head;
    assert sections[3..3 + |d|] == d;
  }

  /** Once the archive has been opened, extracted and cleaned up without an exception,
      the response lists every discovered base name, whether the upload passed or not. */
  lemma ResponseListsProcessedShapefiles(securedName: string, contentLength: Option<int>, order: seq<string>, a: Archive)
    requires a.pathExists && a.isZip && a.openError.None? && a.extractError.None? && a.cleanupError.None?
    ensures ResponseFor(securedName, contentLength, order, a).shapefiles == ShapefileBases(a.members)
  {
  }

  /** The "unknown reasons" summary is returned only when some discovered dataset had
      all its files and a WGS84 reference but its geometry or extent could not be read. */
  lemma UnknownFailureIsSilent(securedName: string, contentLength: Option<int>, order: seq<string>, a: Archive)
    ensures var resp := ResponseFor(securedName, contentLength, order, a);
            resp.summary == UnknownFailureSummary ==>
              && !resp.valid && resp.errors == []
              && exists i :: 0 <= i < |resp.shapefiles| && SilentFailure(order, a, resp.shapefiles[i])
  {
    var r := Run(order, a);
    if !r.valid && r.errors == [] {
      RunFailsSilently(order, a);
    }
  }
}
