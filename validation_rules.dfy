/** What ShapefileValidator computes, as functions of the facts it gathers from the ZIP
    archive, the file system and GDAL/OGR. Each check is a `Step`: whether it passed and
    the lines it appends to `errors` and to `validation_details`. The class in module
    Validator performs these steps imperatively and is proved to append exactly these
    lines; the lemmas here state what the steps mean. */
module ValidationRules {
  import opened Text
  import opened PosixPath

  datatype Option<T> = None | Some(value: T)

  /** The outcome of one GDAL/OGR query made by a check: a value, `driver.Open`
      returning None, or an exception carrying `str(e)`. Each check opens the
      datasource on its own, so each has its own probe. */
  datatype Probe<T> = Got(value: T) | NoDataSource | Raised(message: string)

  /** `layer.GetSpatialRef()` when it is not None: `GetAuthorityCode(None)` and
      `GetAttrValue("GEOGCS")`, each possibly None. */
  datatype SpatialRef = SpatialRef(authorityCode: Option<string>, geogcs: Option<string>)

  /** `GeometryTypeToName`, `GT_HasZ` and `GT_HasM` of `layer.GetGeomType()`. */
  datatype GeometryType = GeometryType(name: string, hasZ: bool, hasM: bool)

  /** `layer.GetExtent()`: (min_x, max_x, min_y, max_y), finite values. */
  datatype Extent = Extent(minX: real, maxX: real, minY: real, maxY: real)

  /** What GDAL reports for one shapefile path, per check. */
  datatype DatasetFacts = DatasetFacts(
    spatialRef: Probe<Option<SpatialRef>>,
    geometry: Probe<GeometryType>,
    extent: Probe<Extent>)

  /** Everything `validate_zip_archive` learns from outside: whether the path exists and
      is a ZIP file, the exception (if any) raised while opening it or reading its member
      list, the member names, the temporary directory, the exception (if any) raised by
      creating it or extracting into it, the paths that then exist, what GDAL reports for
      each shapefile path, and the exception (if any) raised when the directory is removed. */
  datatype Archive = Archive(
    path: string,
    pathExists: bool,
    isZip: bool,
    openError: Option<string>,
    members: seq<string>,
    workspace: string,
    extractError: Option<string>,
    existing: set<string>,
    datasets: string -> DatasetFacts,
    cleanupError: Option<string>)

  /** The effect of one check: its verdict and the lines it appends. */
  datatype Step = Step(passed: bool, errors: seq<string>, details: seq<string>)

  /** The effect of one `validate_zip_archive` call: its return value and the final
      contents of `errors` and `validation_details` (`warnings` always ends empty). */
  datatype RunResult = RunResult(valid: bool, shapefiles: seq<string>, errors: seq<string>, details: seq<string>)

  const RequiredExtensions: set<string> := {".shp", ".shx", ".dbf", ".prj"}
  const Wgs84Code := "4326"

  // The detail lines start with a separate one-character literal, so that the verifier
  // sees their first character.
  const AllFilesPresentLine := "\U{2713}" + " All required files present (.shp, .shx, .dbf, .prj)"
  const Wgs84Line := "\U{2713}" + " Coordinate system is WGS84 (EPSG:4326)"
  const NoShapefilesError := "No shapefiles found in ZIP archive"
  const NoSpatialRefError := "No spatial reference system found"
  // Written as two literals so that the verifier sees its characters one by one.
  const SuccessSummaryLine := "All validation" + " checks completed successfully."
  const ErrorBullet := "  \U{274C} "
  const WarningBullet := "  \U{26A0}\U{FE0F}  "

  predicate Distinct(s: seq<string>)
  {
    forall i, j :: 0 <= i < j < |s| ==> s[i] != s[j]
  }

  /** An iteration order of the set REQUIRED_EXTENSIONS. Python's order for a set of
      strings depends on the interpreter's hash seed, so any of the 24 orders can occur. */
  predicate IsRequiredOrder(order: seq<string>)
  {
    && |order| == 4 && Distinct(order)
    && (forall i :: 0 <= i < |order| ==> order[i] in RequiredExtensions)
    && (forall e :: e in RequiredExtensions ==> e in order)
  }

  // ---------------------------------------------------------------------------------
  // Shapefile discovery (_find_shapefiles_in_zip)

  /** `f.lower().endswith('.shp')`. */
  predicate IsShpMember(f: string)
  {
    EndsWith(Lower(f), ".shp")
  }

  /** The base names of the `.shp` members, in member order. */
  function ShapefileBases(members: seq<string>): seq<string>
  {
    if members == [] then []
    else
      var f := members[|members| - 1];
      ShapefileBases(members[..|members| - 1]) + (if IsShpMember(f) then [SplitExt(f).0] else [])
  }

  /** Discovery works member by member: the result for a concatenation is the
      concatenation of the results, so the entries keep the members' order. */
  lemma {:induction false} ShapefileBasesConcat(a: seq<string>, b: seq<string>)
    ensures ShapefileBases(a + b) == ShapefileBases(a) + ShapefileBases(b)
  {
    if b != [] {
      assert (a + b)[..|a + b| - 1] == a + b[..|b| - 1];
      assert (a + b)[|a + b| - 1] == b[|b| - 1];
      ShapefileBasesConcat(a, b[..|b| - 1]);
    } else {
      assert a + b == a;
    }
  }

  /** One member yields one entry exactly when its lower-cased name ends in ".shp". */
  lemma ShapefileBasesSingle(f: string)
    ensures ShapefileBases([f]) == if IsShpMember(f) then [SplitExt(f).0] else []
  {
    assert [f][..0] == [];
  }

  /** The entry for a `.shp` member is the member without its last four characters
      (directory prefix kept), unless the file name is only dots before ".shp"
      (".shp", "dir/..SHP"), in which case `os.path.splitext` keeps the whole name. */
  lemma ShpMemberBase(f: string)
    requires IsShpMember(f)
    ensures |f| >= 4 && Lower(f[|f| - 4..]) == ".shp"
    ensures SplitExt(f).0 == if HasStem(f[..|f| - 4]) then f[..|f| - 4] else f
  {
    var n := |f|;
    ShpSuffixChars(f);
    LastIndexOfUnique(f, '.', n - 4);
    var q := f[..n - 4];
    var sep := LastIndexOf(f, '/');
    assert sep < n - 4;
    LastIndexOfUnique(q, '/', sep);
    if HasStem(q) {
      var i :| sep < i < |q| && q[i] != '.';
      assert f[i] == q[i];
      assert NonDotBetween(f, sep + 1, n - 4);
    }
  }

  /** A `.shp` member ends in a '.' followed by three characters that are neither '.'
      nor '/'. */
  lemma ShpSuffixChars(f: string)
    requires IsShpMember(f)
    ensures |f| >= 4 && Lower(f[|f| - 4..]) == ".shp" && f[|f| - 4] == '.'
    ensures forall i :: |f| - 4 < i < |f| ==> f[i] != '.' && f[i] != '/'
  {
    var n := |f|;
    var low := Lower(f);
    assert low[n - 4..] == ".shp";
    assert low[n - 4] == '.' && low[n - 3] == 's' && low[n - 2] == 'h' && low[n - 1] == 'p';
    assert Lower(f[n - 4..]) == ".shp";
  }

  /** Every discovered base name has a stem: a last path component that is not all dots. */
  lemma {:induction false} ShapefileBasesHaveStems(members: seq<string>)
    ensures forall b :: b in ShapefileBases(members) ==> HasStem(b)
  {
    if members != [] {
      var f := members[|members| - 1];
      ShapefileBasesHaveStems(members[..|members| - 1]);
      if IsShpMember(f) {
        ShpMemberBase(f);
        var n := |f|;
        if !HasStem(f[..n - 4]) {
          assert Lower(f[n - 4..])[3] == 'p';
          assert f[n - 1] != '.' && f[n - 1] != '/';
          assert LastIndexOf(f, '/') < n - 1;
        }
      }
    }
  }

  // ---------------------------------------------------------------------------------
  // The required-file check (_check_required_files)

  /** The extensions, in iteration order, whose file next to `basePath` does not exist. */
  function MissingExtensions(order: seq<string>, basePath: string, existing: set<string>): seq<string>
  {
    if order == [] then []
    else
      var e := order[|order| - 1];
      MissingExtensions(order[..|order| - 1], basePath, existing) + (if basePath + e in existing then [] else [e])
  }

  /** The missing list holds exactly the extensions whose file is absent, each once. */
  lemma {:induction false} MissingExtensionsSpec(order: seq<string>, basePath: string, existing: set<string>)
    ensures forall e :: e in MissingExtensions(order, basePath, existing) <==> e in order && basePath + e !in existing
    ensures Distinct(order) ==> Distinct(MissingExtensions(order, basePath, existing))
  {
    if order != [] {
      var init := order[..|order| - 1];
      var e := order[|order| - 1];
      MissingExtensionsSpec(init, basePath, existing);
      assert order == init + [e];
      if Distinct(order) {
        assert Distinct(init);
        assert e !in init;
      }
    }
  }

  function RequiredFilesStep(order: seq<string>, existing: set<string>, shapefilePath: string, baseName: string): (s: Step)
    ensures s.passed <==> s.errors == []
    ensures s.passed ==> s.details == [AllFilesPresentLine]
    ensures !s.passed ==> |s.errors| == 1 && s.details == []
  {
    var missing := MissingExtensions(order, SplitExt(shapefilePath).0, existing);
    if missing != [] then Step(false, [baseName + ": Missing required files: " + Join(missing, ", ")], [])
    else Step(true, [], [AllFilesPresentLine])
  }

  /** The base path the check derives from the joined shapefile path is the discovered
      base name joined onto the extraction directory. */
  lemma RequiredFilesBasePath(workspace: string, base: string)
    requires HasStem(base)
    ensures SplitExt(PathJoin(workspace, base + ".shp")).0 == PathJoin(workspace, base)
  {
    PathJoinShp(workspace, base);
    PathJoinKeepsStem(workspace, base);
    SplitExtOfSuffix(PathJoin(workspace, base), ".shp");
  }

  /** For a discovered base name, the check passes iff all four companion files exist
      next to it in the extraction directory; on failure its one error names the base
      and exactly the missing extensions, each once. */
  lemma RequiredFilesCheck(order: seq<string>, existing: set<string>, workspace: string, base: string)
    requires IsRequiredOrder(order) && HasStem(base)
    ensures var s := RequiredFilesStep(order, existing, PathJoin(workspace, base + ".shp"), base);
            var missing := MissingExtensions(order, PathJoin(workspace, base), existing);
            && (s.passed <==> forall e :: e in RequiredExtensions ==> PathJoin(workspace, base) + e in existing)
            && (forall e :: e in missing <==> e in RequiredExtensions && PathJoin(workspace, base) + e !in existing)
            && Distinct(missing)
            && (!s.passed ==> s.errors == [base + ": Missing required files: " + Join(missing, ", ")])
  {
    var basePath := PathJoin(workspace, base);
    RequiredFilesBasePath(workspace, base);
    var missing := MissingExtensions(order, basePath, existing);
    MissingExtensionsSpec(order, basePath, existing);
    assert forall e :: e in order <==> e in RequiredExtensions;
    var s := RequiredFilesStep(order, existing, PathJoin(workspace, base + ".shp"), base);
    assert s == if missing != [] then Step(false, [base + ": Missing required files: " + Join(missing, ", ")], [])
                else Step(true, [], [AllFilesPresentLine]);
    if missing == [] {
      assert forall e :: e in RequiredExtensions ==> basePath + e in existing;
    } else {
      assert missing[0] in RequiredExtensions && basePath + missing[0] !in existing;
    }
  }

  /** A dataset missing exactly one required file gets the single error
      "<base>: Missing required files: <ext>", whatever the iteration order. */
  lemma OnlyOneMissing(order: seq<string>, existing: set<string>, workspace: string, base: string, x: string)
    requires IsRequiredOrder(order) && HasStem(base)
    requires x in RequiredExtensions && PathJoin(workspace, base) + x !in existing
    requires forall e :: e in RequiredExtensions && e != x ==> PathJoin(workspace, base) + e in existing
    ensures RequiredFilesStep(order, existing, PathJoin(workspace, base + ".shp"), base).errors
            == [base + ": Missing required files: " + x]
  {
    RequiredFilesCheck(order, existing, workspace, base);
    var missing := MissingExtensions(order, PathJoin(workspace, base), existing);
    DistinctSingleton(missing, x);
    assert Join(missing, ", ") == x;
  }

  /** A member `<base>.SHP` is discovered as `<base>`, but the required-file check looks
      for the lower-case `<base>.shp`, so without that file the dataset fails with ".shp"
      among the missing extensions. */
  lemma UpperCaseShpMember(order: seq<string>, existing: set<string>, workspace: string, base: string)
    requires IsRequiredOrder(order) && HasStem(base)
    requires PathJoin(workspace, base) + ".shp" !in existing
    ensures ShapefileBases([base + ".SHP"]) == [base]
    ensures var s := RequiredFilesStep(order, existing, PathJoin(workspace, base + ".shp"), base);
            !s.passed && ".shp" in MissingExtensions(order, PathJoin(workspace, base), existing)
  {
    var f := base + ".SHP";
    assert Lower(f)[|f| - 4..] == ".shp";
    ShapefileBasesSingle(f);
    SplitExtOfSuffix(base, ".SHP");
    RequiredFilesCheck(order, existing, workspace, base);
  }

  lemma DistinctSingleton(s: seq<string>, x: string)
    requires Distinct(s) && x in s && forall e :: e in s ==> e == x
    ensures s == [x]
  {
    assert s[0] in s;
    assert s[|s| - 1] in s;
  }

  // ---------------------------------------------------------------------------------
  // The per-dataset rules

  /** `GetAttrValue("GEOGCS") or "Unknown"`. */
  function CrsName(geogcs: Option<string>): string
  {
    if geogcs.None? || geogcs.value == "" then "Unknown" else geogcs.value
  }

  /** How an authority code prints in an f-string; None prints as "None". */
  function AuthorityText(code: Option<string>): string
  {
    if code.None? then "None" else code.value
  }

  /** _check_coordinate_system: passes iff the layer has a spatial reference whose
      authority code is "4326"; every failure (no datasource, an exception, no spatial
      reference, another code) appends exactly one error. */
  function CrsStep(shapefilePath: string, probe: Probe<Option<SpatialRef>>): (s: Step)
    ensures s.passed <==> probe.Got? && probe.value.Some? && probe.value.value.authorityCode == Some(Wgs84Code)
    ensures s.passed ==> s.errors == [] && s.details == [Wgs84Line]
    ensures !s.passed ==> |s.errors| == 1 && s.details == []
    ensures probe == Got(None) ==> s.errors == [NoSpatialRefError]
  {
    match probe
    case NoDataSource => Step(false, ["Cannot open shapefile: " + shapefilePath], [])
    case Raised(m) => Step(false, ["Error checking coordinate system: " + m], [])
    case Got(None) => Step(false, [NoSpatialRefError], [])
    case Got(Some(sr)) =>
      if sr.authorityCode == Some(Wgs84Code) then Step(true, [], [Wgs84Line])
      else Step(false, ["Coordinate system is not WGS84. Found: " + CrsName(sr.geogcs) + " (EPSG:" + AuthorityText(sr.authorityCode) + ")"], [])
  }

  function GeometryLine(name: string): string { "\U{2713}" + " Geometry type is valid: " + name }
  function ZError(name: string): string { "3D geometry (Z values) detected: " + name }
  function MError(name: string): string { "Measured geometry (M values) detected: " + name }

  /** _check_geometry_types: passes iff the geometry type has neither Z nor M; Z is
      reported in preference to M; at most one error, and none when the datasource
      does not open. */
  function GeometryStep(probe: Probe<GeometryType>): (s: Step)
    ensures s.passed <==> probe.Got? && !probe.value.hasZ && !probe.value.hasM
    ensures s.passed ==> s.errors == [] && |s.details| == 1
    ensures !s.passed ==> |s.errors| <= 1 && s.details == []
    ensures probe.Got? && probe.value.hasZ ==> s.errors == [ZError(probe.value.name)]
    ensures probe.Got? && !probe.value.hasZ && probe.value.hasM ==> s.errors == [MError(probe.value.name)]
    ensures probe.NoDataSource? ==> s.errors == []
    ensures probe.Raised? ==> |s.errors| == 1
  {
    match probe
    case NoDataSource => Step(false, [], [])
    case Raised(m) => Step(false, ["Error checking geometry types: " + m], [])
    case Got(g) =>
      if g.hasZ then Step(false, [ZError(g.name)], [])
      else if g.hasM then Step(false, [MError(g.name)], [])
      else Step(true, [], [GeometryLine(g.name)])
  }

  function ExtentLine(e: Extent): string
  {
    "\U{2713}" + " Coordinates are in decimal degrees (Extent: " + Fixed6(e.minX) + ", "
    + Fixed6(e.minY) + ", " + Fixed6(e.maxX) + ", " + Fixed6(e.maxY) + ")"
  }

  predicate InLongitudeRange(x: real) { -180.0 <= x <= 180.0 }
  predicate InLatitudeRange(y: real) { -90.0 <= y <= 90.0 }

  function LongitudeError(e: Extent): string
  {
    "Longitude values outside valid range: " + Fixed6(e.minX) + " to " + Fixed6(e.maxX)
  }

  function LatitudeError(e: Extent): string
  {
    "Latitude values outside valid range: " + Fixed6(e.minY) + " to " + Fixed6(e.maxY)
  }

  /** _check_coordinate_format: passes iff both x bounds lie in [-180, 180] and both y
      bounds in [-90, 90]; longitude is reported before latitude; at most one error,
      and none when the datasource does not open. */
  function CoordinateStep(probe: Probe<Extent>): (s: Step)
    ensures s.passed <==> probe.Got?
                          && InLongitudeRange(probe.value.minX) && InLongitudeRange(probe.value.maxX)
                          && InLatitudeRange(probe.value.minY) && InLatitudeRange(probe.value.maxY)
    ensures s.passed ==> s.errors == [] && |s.details| == 1
    ensures !s.passed ==> |s.errors| <= 1 && s.details == []
    ensures probe.Got? && !(InLongitudeRange(probe.value.minX) && InLongitudeRange(probe.value.maxX))
            ==> s.errors == [LongitudeError(probe.value)]
    ensures probe.Got? && InLongitudeRange(probe.value.minX) && InLongitudeRange(probe.value.maxX)
            && !(InLatitudeRange(probe.value.minY) && InLatitudeRange(probe.value.maxY))
            ==> s.errors == [LatitudeError(probe.value)]
    ensures probe.NoDataSource? ==> s.errors == []
    ensures probe.Raised? ==> |s.errors| == 1
  {
    match probe
    case NoDataSource => Step(false, [], [])
    case Raised(m) => Step(false, ["Error checking coordinate format: " + m], [])
    case Got(e) =>
      if !(InLongitudeRange(e.minX) && InLongitudeRange(e.maxX)) then Step(false, [LongitudeError(e)], [])
      else if !(InLatitudeRange(e.minY) && InLatitudeRange(e.maxY)) then Step(false, [LatitudeError(e)], [])
      else Step(true, [], [ExtentLine(e)])
  }

  // ---------------------------------------------------------------------------------
  // One dataset (_validate_individual_shapefile) and the whole archive (validate_zip_archive)

  function Header(baseName: string): string
  {
    "\n" + "--- Validating: " + baseName + " ---"
  }

  /** _validate_individual_shapefile: a header line, then the required-file check and,
      only if it passes, all three rules. */
  function IndividualStep(order: seq<string>, existing: set<string>, shapefilePath: string, baseName: string, facts: DatasetFacts): Step
  {
    var required := RequiredFilesStep(order, existing, shapefilePath, baseName);
    if !required.passed then Step(false, required.errors, [Header(baseName)] + required.details)
    else
      var crs := CrsStep(shapefilePath, facts.spatialRef);
      var geometry := GeometryStep(facts.geometry);
      var coordinates := CoordinateStep(facts.extent);
      Step(crs.passed && geometry.passed && coordinates.passed,
           required.errors + crs.errors + geometry.errors + coordinates.errors,
           [Header(baseName)] + required.details + crs.details + geometry.details + coordinates.details)
  }

  /** An incomplete dataset fails with only the required-file error and the header. */
  lemma IndividualStepIncomplete(order: seq<string>, existing: set<string>, shapefilePath: string, baseName: string, facts: DatasetFacts)
    requires !RequiredFilesStep(order, existing, shapefilePath, baseName).passed
    ensures var s := IndividualStep(order, existing, shapefilePath, baseName, facts);
            && !s.passed && s.details == [Header(baseName)]
            && s.errors == RequiredFilesStep(order, existing, shapefilePath, baseName).errors
  {
  }

  /** A complete dataset runs all three rules and keeps their lines in order. */
  lemma IndividualStepComplete(order: seq<string>, existing: set<string>, shapefilePath: string, baseName: string, facts: DatasetFacts)
    requires RequiredFilesStep(order, existing, shapefilePath, baseName).passed
    ensures var s := IndividualStep(order, existing, shapefilePath, baseName, facts);
            var crs := CrsStep(shapefilePath, facts.spatialRef);
            var geometry := GeometryStep(facts.geometry);
            var coordinates := CoordinateStep(facts.extent);
            && (s.passed <==> crs.passed && geometry.passed && coordinates.passed)
            && s.errors == crs.errors + geometry.errors + coordinates.errors
            && s.details == [Header(baseName), AllFilesPresentLine] + crs.details + geometry.details + coordinates.details
  {
    var crs := CrsStep(shapefilePath, facts.spatialRef);
    var geometry := GeometryStep(facts.geometry);
    var coordinates := CoordinateStep(facts.extent);
    assert [] + crs.errors == crs.errors;
    assert [Header(baseName)] + [AllFilesPresentLine] == [Header(baseName), AllFilesPresentLine];
  }

  /** The header line comes first; an incomplete dataset fails with only the
      required-file error; a complete one runs all three rules, none skipped when
      another fails, and passes iff all three pass. A passing dataset records no error. */
  lemma IndividualStepSpec(order: seq<string>, existing: set<string>, shapefilePath: string, baseName: string, facts: DatasetFacts)
    ensures var s := IndividualStep(order, existing, shapefilePath, baseName, facts);
            var required := RequiredFilesStep(order, existing, shapefilePath, baseName);
            var crs := CrsStep(shapefilePath, facts.spatialRef);
            var geometry := GeometryStep(facts.geometry);
            var coordinates := CoordinateStep(facts.extent);
            && |s.details| >= 1 && s.details[0] == Header(baseName)
            && (s.passed ==> s.errors == [])
            && (!required.passed ==> !s.passed && s.details == [Header(baseName)] && s.errors == required.errors)
            && (required.passed ==>
                  && (s.passed <==> crs.passed && geometry.passed && coordinates.passed)
                  && s.errors == crs.errors + geometry.errors + coordinates.errors
                  && s.details == [Header(baseName), AllFilesPresentLine] + crs.details + geometry.details + coordinates.details)
  {
    if RequiredFilesStep(order, existing, shapefilePath, baseName).passed {
      IndividualStepComplete(order, existing, shapefilePath, baseName, facts);
    } else {
      IndividualStepIncomplete(order, existing, shapefilePath, baseName, facts);
    }
  }

  /** When the companion files are incomplete, GDAL is never consulted: the outcome is
      the same whatever the dataset reports. */
  lemma IncompleteSkipsRules(order: seq<string>, existing: set<string>, shapefilePath: string, baseName: string, facts: DatasetFacts, other: DatasetFacts)
    requires !RequiredFilesStep(order, existing, shapefilePath, baseName).passed
    ensures IndividualStep(order, existing, shapefilePath, baseName, facts)
            == IndividualStep(order, existing, shapefilePath, baseName, other)
  {
  }

  function ShapefilePath(a: Archive, base: string): string
  {
    PathJoin(a.workspace, base + ".shp")
  }

  function DatasetStep(order: seq<string>, a: Archive, base: string): Step
  {
    var path := ShapefilePath(a, base);
    IndividualStep(order, a.existing, path, base, a.datasets(path))
  }

  /** The datasets validated in turn: the verdict is the conjunction, the lines are
      appended in order. */
  function RunSteps(order: seq<string>, a: Archive, bases: seq<string>): Step
  {
    if bases == [] then Step(true, [], [])
    else
      var previous := RunSteps(order, a, bases[..|bases| - 1]);
      var last := DatasetStep(order, a, bases[|bases| - 1]);
      Step(previous.passed && last.passed, previous.errors + last.errors, previous.details + last.details)
  }

  function ProcessingError(message: string): string
  {
    "Error processing ZIP file: " + message
  }

  /** validate_zip_archive, from freshly cleared lists. */
  function Run(order: seq<string>, a: Archive): (r: RunResult)
    ensures r.shapefiles == [] || r.shapefiles == ShapefileBases(a.members)
    ensures r.valid ==> r.shapefiles != []
    ensures (!a.pathExists || !a.isZip || a.openError.Some? || ShapefileBases(a.members) == [] || a.extractError.Some?)
            ==> !r.valid && r.shapefiles == [] && |r.errors| == 1 && r.details == []
    ensures a.pathExists && a.isZip && a.openError.None? && a.extractError.None? && a.cleanupError.None?
            ==> r.shapefiles == ShapefileBases(a.members)
    ensures a.cleanupError.Some? ==> !r.valid && r.shapefiles == []
  {
    if !a.pathExists then RunResult(false, [], ["File not found: " + a.path], [])
    else if !a.isZip then RunResult(false, [], ["File is not a valid ZIP archive: " + a.path], [])
    else if a.openError.Some? then RunResult(false, [], [ProcessingError(a.openError.value)], [])
    else
      var bases := ShapefileBases(a.members);
      if bases == [] then RunResult(false, [], [NoShapefilesError], [])
      else if a.extractError.Some? then RunResult(false, [], [ProcessingError(a.extractError.value)], [])
      else
        var steps := RunSteps(order, a, bases);
        if a.cleanupError.Some? then RunResult(false, [], steps.errors + [ProcessingError(a.cleanupError.value)], steps.details)
        else RunResult(steps.passed, bases, steps.errors, steps.details)
  }

  /** The datasets' verdicts combine by conjunction, with no dataset skipped. */
  lemma {:induction false} RunStepsPassed(order: seq<string>, a: Archive, bases: seq<string>)
    ensures RunSteps(order, a, bases).passed <==> forall b :: b in bases ==> DatasetStep(order, a, b).passed
  {
    if bases != [] {
      var init := bases[..|bases| - 1];
      var last := bases[|bases| - 1];
      RunStepsPassed(order, a, init);
      assert RunSteps(order, a, bases).passed == (RunSteps(order, a, init).passed && DatasetStep(order, a, last).passed);
      assert forall b :: b in bases <==> b in init || b == last;
    }
  }

  /** Validating `xs` and then `ys` is validating `xs + ys`: the verdicts combine by
      conjunction and the lines of `ys` follow those of `xs`. */
  lemma {:induction false} RunStepsConcat(order: seq<string>, a: Archive, xs: seq<string>, ys: seq<string>)
    ensures RunSteps(order, a, xs + ys).passed == (RunSteps(order, a, xs).passed && RunSteps(order, a, ys).passed)
    ensures RunSteps(order, a, xs + ys).errors == RunSteps(order, a, xs).errors + RunSteps(order, a, ys).errors
    ensures RunSteps(order, a, xs + ys).details == RunSteps(order, a, xs).details + RunSteps(order, a, ys).details
  {
    if ys == [] {
      assert xs + ys == xs;
    } else {
      var init := ys[..|ys| - 1];
      var last := DatasetStep(order, a, ys[|ys| - 1]);
      assert (xs + ys)[..|xs + ys| - 1] == xs + init;
      assert (xs + ys)[|xs + ys| - 1] == ys[|ys| - 1];
      RunStepsConcat(order, a, xs, init);
      var x, i := RunSteps(order, a, xs), RunSteps(order, a, init);
      AppendTwo(x.errors, i.errors, last.errors);
      AppendTwo(x.details, i.details, last.details);
    }
  }

  /** No dataset is skipped: the lines of the i-th dataset sit, in full, between those
      of the datasets before it and those after it. */
  lemma RunStepsEveryDataset(order: seq<string>, a: Archive, bases: seq<string>, i: nat)
    requires i < |bases|
    ensures var before, s, after := RunSteps(order, a, bases[..i]), DatasetStep(order, a, bases[i]), RunSteps(order, a, bases[i + 1..]);
            && RunSteps(order, a, bases).errors == before.errors + s.errors + after.errors
            && RunSteps(order, a, bases).details == before.details + s.details + after.details
  {
    var single := [bases[i]];
    assert bases == bases[..i] + single + bases[i + 1..];
    RunStepsConcat(order, a, bases[..i] + single, bases[i + 1..]);
    RunStepsConcat(order, a, bases[..i], single);
    assert single[..0] == [];
    assert RunSteps(order, a, single) == Step(true && DatasetStep(order, a, bases[i]).passed,
                                              [] + DatasetStep(order, a, bases[i]).errors,
                                              [] + DatasetStep(order, a, bases[i]).details);
  }

  /** Every dataset contributes its header, so the details hold at least one line per
      dataset; and a passing sequence of datasets records no error. */
  lemma {:induction false} RunStepsShape(order: seq<string>, a: Archive, bases: seq<string>)
    ensures |RunSteps(order, a, bases).details| >= |bases|
    ensures RunSteps(order, a, bases).passed ==> RunSteps(order, a, bases).errors == []
  {
    if bases != [] {
      RunStepsShape(order, a, bases[..|bases| - 1]);
    }
  }

  /** A detail line: each starts with a newline (a dataset header) or a check mark, so
      none of them is the "ERRORS:" heading of the report. */
  predicate DetailLine(line: string)
  {
    |line| > 0 && (line[0] == '\n' || line[0] == '\U{2713}')
  }

  /** Every line a dataset adds to the details is a detail line. */
  lemma DatasetDetailLines(order: seq<string>, a: Archive, base: string)
    ensures forall line :: line in DatasetStep(order, a, base).details ==> DetailLine(line)
  {
    var path := ShapefilePath(a, base);
    var facts := a.datasets(path);
    var required := RequiredFilesStep(order, a.existing, path, base);
    var h := Header(base);
    assert h[0] == '\n';
    assert AllFilesPresentLine[0] == '\U{2713}';
    assert Wgs84Line[0] == '\U{2713}';
    var g := GeometryStep(facts.geometry);
    var c := CoordinateStep(facts.extent);
    assert forall line :: line in g.details ==> DetailLine(line);
    assert forall line :: line in c.details ==> DetailLine(line);
  }

  /** Every line a sequence of datasets adds to the details is a detail line. */
  lemma {:induction false} RunStepsDetailLines(order: seq<string>, a: Archive, bases: seq<string>)
    ensures forall line :: line in RunSteps(order, a, bases).details ==> DetailLine(line)
  {
    if bases != [] {
      RunStepsDetailLines(order, a, bases[..|bases| - 1]);
      DatasetDetailLines(order, a, bases[|bases| - 1]);
    }
  }

  /** No detail line of a run is the "ERRORS:" heading, so the report of a run shows
      that heading iff the run recorded an error. */
  lemma RunDetailsHaveNoErrorHeading(order: seq<string>, a: Archive)
    ensures "ERRORS:" !in Run(order, a).details
    ensures "ERRORS:" in ReportLines(Run(order, a).details, Run(order, a).errors, []) <==> Run(order, a).errors != []
  {
    var r := Run(order, a);
    if r.details != [] {
      RunStepsDetailLines(order, a, ShapefileBases(a.members));
      assert "ERRORS:"[0] == 'E';
    }
    ReportErrorSection(r.details, r.errors, []);
  }

  /** A dataset that failed without recording any error: all four files were present and
      the CRS check passed, but the geometry or the extent check found no datasource. */
  predicate SilentFailure(order: seq<string>, a: Archive, base: string)
  {
    var path := ShapefilePath(a, base);
    var facts := a.datasets(path);
    && RequiredFilesStep(order, a.existing, path, base).passed
    && CrsStep(path, facts.spatialRef).passed
    && (facts.geometry.NoDataSource? || facts.extent.NoDataSource?)
  }

  /** A single dataset that fails without recording an error failed silently. */
  lemma DatasetSilentFailure(order: seq<string>, a: Archive, base: string)
    requires !DatasetStep(order, a, base).passed && DatasetStep(order, a, base).errors == []
    ensures SilentFailure(order, a, base)
  {
    var path := ShapefilePath(a, base);
    var facts := a.datasets(path);
    var g := GeometryStep(facts.geometry);
    var c := CoordinateStep(facts.extent);
    assert !g.passed || !c.passed;
  }

  lemma {:induction false} RunStepsSilentFailure(order: seq<string>, a: Archive, bases: seq<string>)
    ensures !RunSteps(order, a, bases).passed && RunSteps(order, a, bases).errors == []
            ==> exists i :: 0 <= i < |bases| && SilentFailure(order, a, bases[i])
  {
    if bases != [] {
      var init := bases[..|bases| - 1];
      var last := bases[|bases| - 1];
      var previous := RunSteps(order, a, init);
      var s := DatasetStep(order, a, last);
      if !RunSteps(order, a, bases).passed && previous.errors + s.errors == [] {
        assert previous.errors == [] && s.errors == [];
        if previous.passed {
          DatasetSilentFailure(order, a, last);
          assert SilentFailure(order, a, bases[|bases| - 1]);
        } else {
          RunStepsSilentFailure(order, a, init);
          var i :| 0 <= i < |init| && SilentFailure(order, a, init[i]);
          assert bases[i] == init[i];
        }
      }
    }
  }

  /** validate_zip_archive returns True exactly when the archive exists, is a readable
      ZIP archive with at least one `.shp` member, extraction and clean-up raise
      nothing, and every discovered dataset passes its validation. */
  lemma RunVerdict(order: seq<string>, a: Archive)
    ensures var bases := ShapefileBases(a.members);
            Run(order, a).valid <==>
              && a.pathExists && a.isZip && a.openError.None? && bases != []
              && a.extractError.None? && a.cleanupError.None?
              && forall b :: b in bases ==> DatasetStep(order, a, b).passed
  {
    RunStepsPassed(order, a, ShapefileBases(a.members));
  }

  /** A passing run records no error, so the response never pairs success with errors. */
  lemma RunValidHasNoErrors(order: seq<string>, a: Archive)
    ensures Run(order, a).valid ==> Run(order, a).errors == []
  {
    RunStepsShape(order, a, ShapefileBases(a.members));
  }

  /** A failing run with an empty error list (the "unknown reasons" case of the web
      application) happens only through a silent failure of some dataset. */
  lemma RunFailsSilently(order: seq<string>, a: Archive)
    requires !Run(order, a).valid && Run(order, a).errors == []
    ensures exists i :: 0 <= i < |Run(order, a).shapefiles| && SilentFailure(order, a, Run(order, a).shapefiles[i])
  {
    RunStepsSilentFailure(order, a, ShapefileBases(a.members));
  }

  // ---------------------------------------------------------------------------------
  // The report (get_validation_report)

  /** Each item with a fixed prefix, in order. */
  function Bulleted(prefix: string, items: seq<string>): seq<string>
  {
    if items == [] then [] else Bulleted(prefix, items[..|items| - 1]) + [prefix + items[|items| - 1]]
  }

  /** One bullet per item, the k-th being the prefix followed by the k-th item. */
  lemma {:induction false} BulletedSpec(prefix: string, items: seq<string>)
    ensures |Bulleted(prefix, items)| == |items|
    ensures forall k :: 0 <= k < |items| ==> Bulleted(prefix, items)[k] == prefix + items[k]
  {
    if items != [] {
      BulletedSpec(prefix, items[..|items| - 1]);
    }
  }

  /** The closing summary line: the success sentence iff there is neither an error nor
      a warning; otherwise a sentence stating the counts. */
  function SummaryLine(errorCount: nat, warningCount: nat): (r: string)
    ensures r == SuccessSummaryLine <==> errorCount == 0 && warningCount == 0
    ensures r != SuccessSummaryLine ==> StartsWith(r, "Validation completed with ")
    ensures errorCount > 0 && warningCount == 0
            ==> r == "Validation completed with " + NatToString(errorCount) + " error(s)."
    ensures errorCount > 0 && warningCount > 0
            ==> r == "Validation completed with " + NatToString(errorCount) + " error(s) and "
                     + NatToString(warningCount) + " warning(s)."
    ensures errorCount == 0 && warningCount > 0
            ==> r == "Validation completed with " + NatToString(warningCount) + " warning(s) but no errors."
    ensures |r| > 0 && (r[0] == 'A' || r[0] == 'V')
  {
    if errorCount == 0 && warningCount == 0 then SuccessSummaryLine
    else
      var r :=
        if errorCount > 0 then
          if warningCount > 0 then
            "Validation completed with " + NatToString(errorCount) + " error(s) and " + NatToString(warningCount) + " warning(s)."
          else "Validation completed with " + NatToString(errorCount) + " error(s)."
        else "Validation completed with " + NatToString(warningCount) + " warning(s) but no errors.";
      assert r[0] == 'V' && SuccessSummaryLine[0] == 'A';
      r
  }

  /** When there are errors, the summary line states their number in decimal digits,
      and reading the digits back gives the error count. */
  lemma SummaryLineCount(errorCount: nat, warningCount: nat)
    requires errorCount > 0
    ensures exists digits ::
              && StartsWith(SummaryLine(errorCount, warningCount), "Validation completed with " + digits + " error(s)")
              && (forall i :: 0 <= i < |digits| ==> IsDigit(digits[i]))
              && ParseNat(digits) == errorCount
  {
    ParseNatToString(errorCount);
    var digits := NatToString(errorCount);
    var head := "Validation completed with " + digits + " error(s)";
    var r := SummaryLine(errorCount, warningCount);
    if warningCount > 0 {
      assert r == head + " and " + NatToString(warningCount) + " warning(s).";
    } else {
      assert r == head + ".";
    }
    assert r[..|head|] == head;
  }

  /** A non-empty list of lines followed by a blank line; nothing for an empty list. */
  function DetailsSection(details: seq<string>): seq<string>
  {
    if details != [] then details + [""] else []
  }

  /** A heading, one bullet per item and a blank line; nothing for an empty list. */
  function Section(heading: string, bullet: string, items: seq<string>): seq<string>
  {
    if items != [] then [heading] + Bulleted(bullet, items) + [""] else []
  }

  function ReportLines(details: seq<string>, errors: seq<string>, warnings: seq<string>): seq<string>
  {
    DetailsSection(details)
    + Section("ERRORS:", ErrorBullet, errors)
    + Section("WARNINGS:", WarningBullet, warnings)
    + [SummaryLine(|errors|, |warnings|)]
  }

  function ValidationReport(details: seq<string>, errors: seq<string>, warnings: seq<string>): string
  {
    Join(ReportLines(details, errors, warnings), "\n")
  }

  /** A non-empty error section is the heading followed by one bullet per error. */
  lemma ErrorSectionShape(errors: seq<string>)
    requires errors != []
    ensures var e := Section("ERRORS:", ErrorBullet, errors);
            && |e| == |errors| + 2
            && e[0] == "ERRORS:"
            && forall k :: 0 <= k < |errors| ==> e[1 + k] == ErrorBullet + errors[k]
  {
    BulletedSpec(ErrorBullet, errors);
  }

  /** No line of the warning section reads "ERRORS:". */
  lemma WarningSectionHasNoErrorHeading(warnings: seq<string>)
    ensures "ERRORS:" !in Section("WARNINGS:", WarningBullet, warnings)
  {
    BulletedSpec(WarningBullet, warnings);
    forall k | 0 <= k < |warnings|
      ensures Bulleted(WarningBullet, warnings)[k] != "ERRORS:"
    {
      assert Bulleted(WarningBullet, warnings)[k][0] == ' ';
    }
  }

  /** The report lines as the details part, the error section and the rest. */
  lemma ReportLinesSplit(details: seq<string>, errors: seq<string>, warnings: seq<string>)
    ensures ReportLines(details, errors, warnings)
            == DetailsSection(details) + Section("ERRORS:", ErrorBullet, errors)
               + (Section("WARNINGS:", WarningBullet, warnings) + [SummaryLine(|errors|, |warnings|)])
  {
    AppendTwo(DetailsSection(details) + Section("ERRORS:", ErrorBullet, errors),
              Section("WARNINGS:", WarningBullet, warnings), [SummaryLine(|errors|, |warnings|)]);
  }

  lemma ReportHasErrorHeading(details: seq<string>, errors: seq<string>, warnings: seq<string>)
    requires "ERRORS:" !in details
    ensures "ERRORS:" in ReportLines(details, errors, warnings) <==> errors != []
  {
    var d := DetailsSection(details);
    var e := Section("ERRORS:", ErrorBullet, errors);
    var rest := Section("WARNINGS:", WarningBullet, warnings) + [SummaryLine(|errors|, |warnings|)];
    ReportLinesSplit(details, errors, warnings);
    WarningSectionHasNoErrorHeading(warnings);
    assert "ERRORS:" !in d;
    assert "ERRORS:" !in rest;
    if errors != [] {
      ErrorSectionShape(errors);
      assert "ERRORS:" in e;
    }
  }

  /** Wherever a non-empty error section sits, its heading and bullets keep their order. */
  lemma ErrorSectionAt(lines: seq<string>, before: seq<string>, errors: seq<string>, after: seq<string>, at: nat)
    requires errors != [] && at == |before|
    requires lines == before + Section("ERRORS:", ErrorBullet, errors) + after
    ensures |lines| > at + |errors|
    ensures lines[at] == "ERRORS:"
    ensures forall k :: 0 <= k < |errors| ==> lines[at + 1 + k] == ErrorBullet + errors[k]
  {
    ErrorSectionShape(errors);
  }

  lemma ReportErrorLayout(details: seq<string>, errors: seq<string>, warnings: seq<string>)
    requires errors != []
    ensures var at := if details == [] then 0 else |details| + 1;
            var lines := ReportLines(details, errors, warnings);
            && |lines| > at + |errors|
            && lines[at] == "ERRORS:"
            && forall k :: 0 <= k < |errors| ==> lines[at + 1 + k] == ErrorBullet + errors[k]
  {
    var lines := ReportLines(details, errors, warnings);
    var before := DetailsSection(details);
    var after := Section("WARNINGS:", WarningBullet, warnings) + [SummaryLine(|errors|, |warnings|)];
    var at := if details == [] then 0 else |details| + 1;
    ReportLinesSplit(details, errors, warnings);
    ErrorSectionAt(lines, before, errors, after, at);
  }

  /** The "ERRORS:" heading appears iff there is an error (given no detail line is that
      heading), and it is followed by one bullet per error, in order. */
  lemma ReportErrorSection(details: seq<string>, errors: seq<string>, warnings: seq<string>)
    requires "ERRORS:" !in details
    ensures "ERRORS:" in ReportLines(details, errors, warnings) <==> errors != []
    ensures errors != [] ==>
              var at := if details == [] then 0 else |details| + 1;
              var lines := ReportLines(details, errors, warnings);
              && |lines| > at + |errors|
              && lines[at] == "ERRORS:"
              && forall k :: 0 <= k < |errors| ==> lines[at + 1 + k] == ErrorBullet + errors[k]
  {
    ReportHasErrorHeading(details, errors, warnings);
    if errors != [] {
      ReportErrorLayout(details, errors, warnings);
    }
  }

  /** The report ends with the summary line, so the success sentence closes it iff
      there is neither an error nor a warning, and it is never blank. */
  lemma ReportEndsWithSummary(details: seq<string>, errors: seq<string>, warnings: seq<string>)
    ensures EndsWith(ValidationReport(details, errors, warnings), SummaryLine(|errors|, |warnings|))
    ensures HasNonSpace(ValidationReport(details, errors, warnings))
  {
    var lines := ReportLines(details, errors, warnings);
    JoinEndsWithLast(lines, "\n");
    var r := ValidationReport(details, errors, warnings);
    var summary := SummaryLine(|errors|, |warnings|);
    assert r[|r| - |summary|] == summary[0];
    assert !IsSpace(r[|r| - |summary|]);
  }
}
