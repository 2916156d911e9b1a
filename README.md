# Shapefile validator: a verified model

The system checks ZIP archives uploaded by users. It looks for ESRI shapefiles in each
archive and accepts the archive only if every shapefile it finds:

- ships with its companion files (`.shp`, `.shx`, `.dbf`, `.prj`);
- uses WGS84 (EPSG:4326);
- has no Z or M geometry;
- has an extent that fits in longitude [-180, 180] and latitude [-90, 90].

The class `ShapefileValidator` gathers error lines and step-by-step detail lines in
lists, and renders them as a plain-text report. The Flask handler wraps that report in
a JSON response: the verdict, the discovered datasets, the errors, a one-line summary,
and HTTP status 200 or 422.

The model has five modules:

- `Text`: the Python string built-ins the code relies on. These are
  `str.lower` (on ASCII letters), `endswith`, `rfind`, `"\n".join`, `str.strip`
  (as "has a non-space character"), `str(int)` and `format(x, '.6f')` (exact value,
  ties to even).
- `PosixPath`: `os.path.join` and `os.path.splitext`, written out as posixpath
  defines them.
- `ValidationRules`: everything the validator learns from outside, as values. An
  `Archive` covers the path, the ZIP status, the member names, the extraction
  directory, the files that then exist, and exceptions raised while opening,
  extracting or cleaning up. Each GDAL/OGR query is a `Probe`: a value, "no
  datasource", or an exception message. Each check is a pure `Step`: its verdict plus
  the lines it appends to `errors` and to `validation_details`. The lemmas state what
  each check means.
- `Validator`: the class `ShapefileValidator`. Its fields are `errors`, `warnings`
  and `validationDetails`, and its methods append to them step by step, as the source
  does. Each method is proved to append exactly the lines of its `ValidationRules`
  step and nothing else. `GetValidationReport` is proved equal to `ValidationReport`.
- `WebApp`: `allowed_file`, and the response that `validate_shapefile` assembles once
  the upload is saved.

`REQUIRED_EXTENSIONS` is a Python `set` of strings, so its iteration order depends on
the interpreter's hash seed. The model fixes that order per validator as
`requiredOrder`, which may be any ordering of the four extensions
(`IsRequiredOrder`). As a result, the order in which missing extensions are listed is
deterministic only for a given interpreter run. `OnlyOneMissing` shows that the order
does not matter when a single file is missing.

## Model

| member | source | states |
|---|---|---|
| `Validator.ShapefileValidator.constructor` | shapefile_validator.py:40-43 | a new validator starts with empty error, warning and detail lists, and its fixed iteration order of the required extensions is an ordering of all four (`Valid`) |
| `Validator.ShapefileValidator.ValidateZipArchive` | shapefile_validator.py:45-99 | clears the three lists, then returns the verdict and datasets of `Run` and leaves `errors`/`validationDetails` equal to Run's lines; `warnings` ends empty |
| `ValidationRules.Run` | shapefile_validator.py:45-99 | the datasets returned are either none or all the `.shp` members' base names; a run that opened, extracted and cleaned up without an exception returns all of them, whether it passed or not; a valid run found at least one; a missing path, a non-ZIP file, an open error, an archive without `.shp` members or an extraction error fails with exactly one error, no detail line and no datasets; a clean-up error fails with no datasets |
| `ValidationRules.RunVerdict` | shapefile_validator.py:45-99 | the archive is valid iff it exists, is a readable ZIP with at least one `.shp` member, extraction and clean-up raise nothing, and every discovered dataset passes |
| `ValidationRules.RunStepsPassed` | shapefile_validator.py:80-93 | the overall flag is the conjunction of the per-dataset verdicts |
| `ValidationRules.RunStepsConcat` | shapefile_validator.py:86-93 | validating two lists of datasets in turn is validating their concatenation: verdicts combine by conjunction, and the error and detail lines of the second follow those of the first |
| `ValidationRules.RunStepsEveryDataset` | shapefile_validator.py:86-93 | no dataset is skipped, even after one fails: the full error and detail lines of the i-th dataset sit between those of the datasets before and after it |
| `ValidationRules.RunStepsShape` | shapefile_validator.py:86-93 | each dataset adds at least its header line to the details; a passing sequence of datasets records no error |
| `ValidationRules.RunValidHasNoErrors` | shapefile_validator.py:45-99 | a valid archive never comes with an error line |
| `ValidationRules.DatasetSilentFailure` | shapefile_validator.py:199-202 | a dataset that fails without recording an error had all its files and a WGS84 reference, but its geometry or extent check found no datasource |
| `ValidationRules.RunStepsSilentFailure` | shapefile_validator.py:86-93 | if a sequence of datasets fails with no error line, one of them failed silently |
| `ValidationRules.RunFailsSilently` | shapefile_validator.py:45-99 | a failing run with an empty error list has a discovered dataset that failed silently |
| `Validator.ShapefileValidator.FindShapefilesInZip` | shapefile_validator.py:101-112 | returns `ShapefileBases` of the member list, whose every entry has a stem (a last path component that is not all dots) |
| `ValidationRules.ShapefileBasesConcat` | shapefile_validator.py:104-110 | discovery works member by member: the bases of a concatenation are the concatenated bases, in member order |
| `ValidationRules.ShapefileBasesSingle` | shapefile_validator.py:104-110 | one member gives one entry iff its lower-cased name ends in ".shp", and that entry is its splitext stem |
| `ValidationRules.ShpMemberBase` | shapefile_validator.py:104-110 | the entry for a `.shp` member (any case) is the name without its last four characters, directories kept, unless the file name is only dots before the extension, in which case splitext keeps the whole name |
| `ValidationRules.ShapefileBasesHaveStems` | shapefile_validator.py:101-112 | every discovered base name has a stem |
| `PosixPath.SplitExt` | shapefile_validator.py:109 | `os.path.splitext`: root plus extension gives the path back, and the extension is empty or a '.' followed by characters that are neither '.' nor '/' |
| `PosixPath.SplitExtOfSuffix` | shapefile_validator.py:142 | splitting the extension off `name + ext` gives `name` back when the name has a stem |
| `PosixPath.PathJoinKeepsStem` | shapefile_validator.py:87 | joining a name onto the extraction directory keeps its stem |
| `PosixPath.PathJoinShp` | shapefile_validator.py:87 | joining `base + ".shp"` is joining `base` and then appending ".shp" |
| `ValidationRules.RequiredFilesBasePath` | shapefile_validator.py:87-142 | the base path the required-file check derives from the joined `.shp` path is the discovered base joined onto the extraction directory |
| `ValidationRules.MissingExtensionsSpec` | shapefile_validator.py:143-148 | an extension is reported missing iff it is required and its file is absent, and none is listed twice |
| `ValidationRules.RequiredFilesStep` | shapefile_validator.py:140-155 | the check passes iff it records no error; on success it adds only the "all required files present" line, on failure exactly one error and no detail |
| `Validator.ShapefileValidator.CheckRequiredFiles` | shapefile_validator.py:140-155 | walks the required extensions in iteration order and appends exactly RequiredFilesStep's lines, returning its verdict |
| `ValidationRules.RequiredFilesCheck` | shapefile_validator.py:140-155 | for a discovered dataset, the check passes iff all four companion files exist next to it; the failure message names the base and exactly the missing extensions |
| `ValidationRules.OnlyOneMissing` | shapefile_validator.py:145-152 | when exactly one required file is missing, the error is "<base>: Missing required files: <ext>" for every iteration order |
| `ValidationRules.UpperCaseShpMember` | shapefile_validator.py:104-148 | a member "<base>.SHP" is discovered as "<base>", but without a lower-case "<base>.shp" the dataset fails with ".shp" listed as missing |
| `ValidationRules.CrsStep` | shapefile_validator.py:157-192 | passes iff the layer has a spatial reference with authority code "4326"; success adds the WGS84 line; every failure (no datasource, exception, no reference, other code) adds exactly one error |
| `Validator.ShapefileValidator.CheckCoordinateSystem` | shapefile_validator.py:157-192 | appends exactly CrsStep's lines and returns its verdict |
| `ValidationRules.GeometryStep` | shapefile_validator.py:194-230 | passes iff the geometry type has neither Z nor M; Z is reported before M, each with its message; at most one error, none when the datasource does not open and exactly one for an exception |
| `Validator.ShapefileValidator.CheckGeometryTypes` | shapefile_validator.py:194-230 | appends exactly GeometryStep's lines and returns its verdict |
| `ValidationRules.CoordinateStep` | shapefile_validator.py:232-266 | passes iff both x bounds lie in [-180, 180] and both y bounds in [-90, 90]; an out-of-range longitude gives the longitude error, otherwise an out-of-range latitude gives the latitude error; at most one error, none when the datasource does not open and exactly one for an exception |
| `Validator.ShapefileValidator.CheckCoordinateFormat` | shapefile_validator.py:232-266 | appends exactly CoordinateStep's lines and returns its verdict |
| `ValidationRules.IndividualStepIncomplete` | shapefile_validator.py:114-125 | an incomplete dataset fails with only the required-file error, after its header line |
| `ValidationRules.IndividualStepComplete` | shapefile_validator.py:124-138 | a complete dataset runs all three rules, passes iff all three pass, and keeps their lines in order after the "all files present" line |
| `ValidationRules.IndividualStepSpec` | shapefile_validator.py:114-138 | the header line comes first; an incomplete dataset fails with only the required-file error; a complete one runs all three rules, none skipped, and passes iff all three pass |
| `ValidationRules.IncompleteSkipsRules` | shapefile_validator.py:124-125 | when companion files are missing, what GDAL would report has no influence on the outcome |
| `Validator.ShapefileValidator.ValidateIndividualShapefile` | shapefile_validator.py:114-138 | appends exactly IndividualStep's lines and returns its verdict |
| `ValidationRules.BulletedSpec` | shapefile_validator.py:280-288 | one bullet per item, the k-th being the bullet prefix followed by the k-th item |
| `ValidationRules.SummaryLine` | shapefile_validator.py:291-303 | the closing line is the success sentence iff there is neither an error nor a warning; otherwise it is the sentence stating the error count, the error and warning counts, or the warning count with "but no errors" |
| `ValidationRules.SummaryLineCount` | shapefile_validator.py:294-300 | with errors, the summary states their number in decimal digits, and reading the digits back gives the error count |
| `ValidationRules.ErrorSectionShape` | shapefile_validator.py:278-282 | a non-empty error section is the "ERRORS:" heading, one bullet per error, and a blank line |
| `ValidationRules.WarningSectionHasNoErrorHeading` | shapefile_validator.py:285-289 | no line of the warnings section reads "ERRORS:" |
| `ValidationRules.ReportErrorSection` | shapefile_validator.py:268-289 | the report has an "ERRORS:" line iff there is an error; it comes right after the details and their blank line and is followed by one bullet per error, in order |
| `ValidationRules.DatasetDetailLines` | shapefile_validator.py:114-258 | every detail line a dataset adds starts with a newline (its header) or a check mark |
| `ValidationRules.RunStepsDetailLines` | shapefile_validator.py:86-93 | every detail line a sequence of datasets adds starts with a newline or a check mark |
| `ValidationRules.RunDetailsHaveNoErrorHeading` | shapefile_validator.py:268-289 | no detail line of a run is "ERRORS:", so the report of a run has an "ERRORS:" line iff the run recorded an error |
| `ValidationRules.ReportEndsWithSummary` | shapefile_validator.py:291-305 | the report ends with the summary line and is never blank |
| `Validator.ShapefileValidator.GetValidationReport` | shapefile_validator.py:268-305 | builds the report line by line and returns ValidationReport of the current lists |
| `WebApp.AllowedFile` | app.py:60-63 | a name is accepted iff its text after the last '.' is "zip" in any letter case, that is iff it ends in '.' followed by three characters that lower-case to "zip" |
| `WebApp.UploadName` | app.py:144-146 | the name used is never empty, and is the secured name whenever that is non-empty |
| `WebApp.StatusSummary` | app.py:188-197 | the summary is the success sentence iff the upload is valid, the "unknown reasons" sentence iff it failed with no error, and otherwise starts "Validation failed " |
| `WebApp.StatusSummaryCount` | app.py:193-195 | a failure with errors states their number in decimal digits, and reading the digits back gives the error count |
| `WebApp.ValidateShapefile` | app.py:143-235 | runs a fresh validator and returns ResponseFor of the saved upload |
| `WebApp.AssembleResponse` | app.py:163-235 | builds the report sections line by line and returns ResponseFrom of what the validator returned |
| `WebApp.ResponseFromStatus` | app.py:188-233 | for any verdict that comes with no error when valid: status 200 iff valid and 422 iff not, the success summary when valid, a "Validation failed with" summary when failing with errors, and the warnings passed through |
| `WebApp.ResponseStatus` | app.py:188-233 | status is 200 iff valid and 422 iff not; a valid response has no errors and the success summary; a failure with errors has a "Validation failed with" summary; warnings are always empty |
| `WebApp.ResponseShapefiles` | app.py:161-225 | a valid response lists exactly the base names of the archive's `.shp` members, at least one |
| `WebApp.ReportEndsWithFinal` | app.py:199-207 | the joined report sections end with the verdict line, a blank line and the summary |
| `WebApp.ResponseReportEnds` | app.py:187-207 | the report ends with the verdict line, a blank line and the summary returned beside it |
| `WebApp.ResponseIncludesValidatorReport` | app.py:181-185 | the validator's report is never blank, so it always appears right after the discovery lines, followed by a blank line |
| `WebApp.DiscoveryListsEveryShapefile` | app.py:171-179 | the discovery block states the number of datasets and lists each base name in order, or is the "No shapefiles found" line when there is none; a blank line ends it |
| `WebApp.ReportShowsDiscovery` | app.py:164-179 | the report opens with the file name, the size and a blank line, followed by the discovery block |
| `WebApp.ResponseListsProcessedShapefiles` | app.py:161-225 | when the archive was opened, extracted and cleaned up without an exception, the response lists every discovered base name, whether the upload passed or not |
| `WebApp.UnknownFailureIsSilent` | app.py:196-197 | the "unknown reasons" summary occurs only when some discovered dataset failed silently |

## Left out

- File system, ZIP and GDAL/OGR access are not performed. What they report becomes fields of `Archive` and `DatasetFacts`. Existence is a set of paths, `zipfile.is_zipfile` is a boolean, and an exception is its message.
- Exceptions raised inside the per-dataset loop other than the GDAL queries are not modelled. An example is `os.path.exists` raising. Exceptions from opening the archive, extracting it and removing the temporary directory are modelled. For the removal case, the lines already recorded are kept and the processing error is appended.
- GDAL's actual semantics (`GetAuthorityCode`, `GT_HasZ`, `GeometryTypeToName`, `GetExtent`) are inputs, not computed.
- Extents are exact reals. NaN and infinite bounds, and the floating-point comparison on them, are not modelled.
- `Text.Fixed6`: reals have no negative zero, so an extent bound of -0.0 prints as `0.000000` in the model, where Python prints `-0.000000`. This can only show in the "Coordinates are in decimal degrees" detail line.
- `Text.Lower` lower-cases ASCII letters only. No other character lower-cases to one of the letters compared against, so discovery and `allowed_file` are unaffected.
- `Text.Fixed6` renders the exact value of a finite number. It does not model the binary value of a decimal literal.
- `OPTIONAL_EXTENSIONS` is declared in the source but never read, so it is not modelled.
- `warnings` is never appended to in the source. The model keeps the field and the report's warnings section, and proves the list stays empty.
- The module's `main()` command-line entry point is not modelled. This covers argument parsing, batch mode and printing.
- These `app.py` parts are not modelled: the Flask routes other than the body of `validate_shapefile`, the 400 responses for a missing, unselected or non-ZIP upload, the 413 handler, the 500 path for exceptions during processing, `cleanup_old_files`, logging, and `main`.
- `secure_filename` is not modelled: its result is the parameter `securedName`. The timestamped storage name, `file.save` and `os.remove` of the upload are not modelled either. `file.content_length` is a parameter that may be absent.
- The source does not guard against path traversal or very large archives in `extractall`, and the model does not add such a guard.
- Paths are POSIX paths with '/' as the only separator.
- `WebApp.ValidateShapefile`: the source asks the validator for its report after appending the discovery lines. The model asks for it beforehand. Reading the report changes nothing, so the response is the same.
