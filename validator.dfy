/** The ShapefileValidator class: three lists that its methods append to, step by step.
    Every method is proved to append exactly the lines its ValidationRules step
    describes, and to leave the other lists alone. */
module Validator {
  import opened Text
  import opened PosixPath
  import opened ValidationRules

  class ShapefileValidator {
    var errors: seq<string>
    var warnings: seq<string>
    var validationDetails: seq<string>

    /** The iteration order of REQUIRED_EXTENSIONS in this interpreter. */
    const requiredOrder: seq<string>

    /** The fixed iteration order is an ordering of the four required extensions. */
    ghost predicate Valid()
    {
      IsRequiredOrder(requiredOrder)
    }

    constructor (order: seq<string>)
      requires IsRequiredOrder(order)
      ensures Valid() && requiredOrder == order
      ensures errors == [] && warnings == [] && validationDetails == []
    {
      requiredOrder := order;
      errors := [];
      warnings := [];
      validationDetails := [];
    }

    /** validate_zip_archive: clears the three lists, so nothing from an earlier call
        survives, then handles the early exits and validates every discovered dataset. */
    method ValidateZipArchive(archive: Archive) returns (valid: bool, shapefiles: seq<string>)
      modifies this
      ensures var r := Run(requiredOrder, archive);
              valid == r.valid && shapefiles == r.shapefiles
              && errors == r.errors && validationDetails == r.details
      ensures warnings == []
    {
      errors := [];
      warnings := [];
      validationDetails := [];
      if !archive.pathExists {
        errors := errors + ["File not found: " + archive.path];
        return false, [];
      }
      if !archive.isZip {
        errors := errors + ["File is not a valid ZIP archive: " + archive.path];
        return false, [];
      }
      if archive.openError.Some? {
        errors := errors + [ProcessingError(archive.openError.value)];
        return false, [];
      }
      var found := FindShapefilesInZip(archive.members);
      if found == [] {
        errors := errors + [NoShapefilesError];
        return false, [];
      }
      var allValid := true;
      if archive.extractError.Some? {
        errors := errors + [ProcessingError(archive.extractError.value)];
        return false, [];
      }
      var i := 0;
      while i < |found|
        invariant 0 <= i <= |found|
        invariant var s := RunSteps(requiredOrder, archive, found[..i]);
                  allValid == s.passed && errors == s.errors && validationDetails == s.details
        invariant warnings == []
      {
        var shapefilePath := PathJoin(archive.workspace, found[i] + ".shp");
        var ok := ValidateIndividualShapefile(shapefilePath, found[i], archive.existing, archive.datasets(shapefilePath));
        if !ok {
          allValid := false;
        }
        assert found[..i + 1][..i] == found[..i];
        i := i + 1;
      }
      assert found[..i] == found;
      if archive.cleanupError.Some? {
        errors := errors + [ProcessingError(archive.cleanupError.value)];
        return false, [];
      }
      return allValid, found;
    }

    /** _find_shapefiles_in_zip: the base names of the `.shp` members, in member order. */
    method FindShapefilesInZip(fileList: seq<string>) returns (shapefiles: seq<string>)
      ensures shapefiles == ShapefileBases(fileList)
      ensures forall b :: b in shapefiles ==> HasStem(b)
    {
      shapefiles := [];
      var i := 0;
      while i < |fileList|
        invariant 0 <= i <= |fileList|
        invariant shapefiles == ShapefileBases(fileList[..i])
      {
        var f := fileList[i];
        if IsShpMember(f) {
          shapefiles := shapefiles + [SplitExt(f).0];
        }
        assert fileList[..i + 1][..i] == fileList[..i];
        i := i + 1;
      }
      assert fileList[..i] == fileList;
      ShapefileBasesHaveStems(fileList);
    }

    /** _validate_individual_shapefile. */
    method ValidateIndividualShapefile(shapefilePath: string, baseName: string, existing: set<string>, facts: DatasetFacts)
      returns (shapefileValid: bool)
      modifies this`errors, this`validationDetails
      ensures var s := IndividualStep(requiredOrder, existing, shapefilePath, baseName, facts);
              shapefileValid == s.passed
              && errors == old(errors) + s.errors
              && validationDetails == old(validationDetails) + s.details
    {
      ghost var errors0, details0 := errors, validationDetails;
      IndividualStepSpec(requiredOrder, existing, shapefilePath, baseName, facts);
      shapefileValid := true;
      validationDetails := validationDetails + [Header(baseName)];
      var present := CheckRequiredFiles(shapefilePath, baseName, existing);
      if !present {
        shapefileValid := false;
      }
      if shapefileValid {
        assert errors == errors0;
        assert validationDetails == details0 + [Header(baseName), AllFilesPresentLine];
        var crsOk := CheckCoordinateSystem(shapefilePath, facts.spatialRef);
        shapefileValid := shapefileValid && crsOk;
        var geometryOk := CheckGeometryTypes(facts.geometry);
        shapefileValid := shapefileValid && geometryOk;
        var coordinatesOk := CheckCoordinateFormat(facts.extent);
        shapefileValid := shapefileValid && coordinatesOk;
        ghost var crs, geometry, coordinates := CrsStep(shapefilePath, facts.spatialRef), GeometryStep(facts.geometry), CoordinateStep(facts.extent);
        AppendThree(errors0, crs.errors, geometry.errors, coordinates.errors);
        AppendFour(details0, [Header(baseName), AllFilesPresentLine], crs.details, geometry.details, coordinates.details);
      }
    }

    /** _check_required_files: looks for each required extension next to the base path,
        in the set's iteration order. */
    method CheckRequiredFiles(shapefilePath: string, baseName: string, existing: set<string>) returns (present: bool)
      modifies this`errors, this`validationDetails
      ensures var s := RequiredFilesStep(requiredOrder, existing, shapefilePath, baseName);
              present == s.passed
              && errors == old(errors) + s.errors
              && validationDetails == old(validationDetails) + s.details
    {
      var basePath := SplitExt(shapefilePath).0;
      var missingFiles: seq<string> := [];
      var i := 0;
      while i < |requiredOrder|
        invariant 0 <= i <= |requiredOrder|
        invariant missingFiles == MissingExtensions(requiredOrder[..i], basePath, existing)
      {
        var ext := requiredOrder[i];
        if basePath + ext !in existing {
          missingFiles := missingFiles + [ext];
        }
        assert requiredOrder[..i + 1][..i] == requiredOrder[..i];
        i := i + 1;
      }
      assert requiredOrder[..i] == requiredOrder;
      if missingFiles != [] {
        errors := errors + [baseName + ": Missing required files: " + Join(missingFiles, ", ")];
        return false;
      }
      validationDetails := validationDetails + [AllFilesPresentLine];
      return true;
    }

    /** _check_coordinate_system. */
    method CheckCoordinateSystem(shapefilePath: string, probe: Probe<Option<SpatialRef>>) returns (ok: bool)
      modifies this`errors, this`validationDetails
      ensures var s := CrsStep(shapefilePath, probe);
              ok == s.passed
              && errors == old(errors) + s.errors
              && validationDetails == old(validationDetails) + s.details
    {
      match probe
      case NoDataSource =>
        errors := errors + ["Cannot open shapefile: " + shapefilePath];
        return false;
      case Raised(m) =>
        errors := errors + ["Error checking coordinate system: " + m];
        return false;
      case Got(spatialRef) =>
        if spatialRef.None? {
          errors := errors + [NoSpatialRefError];
          return false;
        }
        var authorityCode := spatialRef.value.authorityCode;
        if authorityCode == Some(Wgs84Code) {
          validationDetails := validationDetails + [Wgs84Line];
          return true;
        }
        var crsName := CrsName(spatialRef.value.geogcs);
        errors := errors + ["Coordinate system is not WGS84. Found: " + crsName + " (EPSG:" + AuthorityText(authorityCode) + ")"];
        return false;
    }

    /** _check_geometry_types. */
    method CheckGeometryTypes(probe: Probe<GeometryType>) returns (ok: bool)
      modifies this`errors, this`validationDetails
      ensures var s := GeometryStep(probe);
              ok == s.passed
              && errors == old(errors) + s.errors
              && validationDetails == old(validationDetails) + s.details
    {
      match probe
      case NoDataSource =>
        return false;
      case Raised(m) =>
        errors := errors + ["Error checking geometry types: " + m];
        return false;
      case Got(geometry) =>
        if geometry.hasZ {
          errors := errors + [ZError(geometry.name)];
          return false;
        }
        if geometry.hasM {
          errors := errors + [MError(geometry.name)];
          return false;
        }
        validationDetails := validationDetails + [GeometryLine(geometry.name)];
        return true;
    }

    /** _check_coordinate_format. */
    method CheckCoordinateFormat(probe: Probe<Extent>) returns (ok: bool)
      modifies this`errors, this`validationDetails
      ensures var s := CoordinateStep(probe);
              ok == s.passed
              && errors == old(errors) + s.errors
              && validationDetails == old(validationDetails) + s.details
    {
      match probe
      case NoDataSource =>
        return false;
      case Raised(m) =>
        errors := errors + ["Error checking coordinate format: " + m];
        return false;
      case Got(extent) =>
        if !(InLongitudeRange(extent.minX) && InLongitudeRange(extent.maxX)) {
          errors := errors + [LongitudeError(extent)];
          return false;
        }
        if !(InLatitudeRange(extent.minY) && InLatitudeRange(extent.maxY)) {
          errors := errors + [LatitudeError(extent)];
          return false;
        }
        validationDetails := validationDetails + [ExtentLine(extent)];
        return true;
    }

    /** get_validation_report: the details, an ERRORS section, a WARNINGS section and
        the summary line, joined with newlines. */
    method GetValidationReport() returns (report: string)
      ensures report == ValidationReport(validationDetails, errors, warnings)
    {
      var lines: seq<string> := [];
      if validationDetails != [] {
        lines := lines + validationDetails;
        lines := lines + [""];
      }
      assert lines == DetailsSection(validationDetails);
      ghost var beforeErrors := lines;
      if errors != [] {
        lines := lines + ["ERRORS:"];
        var i := 0;
        while i < |errors|
          invariant 0 <= i <= |errors|
          invariant lines == beforeErrors + ["ERRORS:"] + Bulleted(ErrorBullet, errors[..i])
        {
          lines := lines + [ErrorBullet + errors[i]];
          assert errors[..i + 1][..i] == errors[..i];
          i := i + 1;
        }
        assert errors[..i] == errors;
        lines := lines + [""];
        AppendThree(beforeErrors, ["ERRORS:"], Bulleted(ErrorBullet, errors), [""]);
      }
      assert lines == beforeErrors + Section("ERRORS:", ErrorBullet, errors);
      ghost var beforeWarnings := lines;
      if warnings != [] {
        lines := lines + ["WARNINGS:"];
        var i := 0;
        while i < |warnings|
          invariant 0 <= i <= |warnings|
          invariant lines == beforeWarnings + ["WARNINGS:"] + Bulleted(WarningBullet, warnings[..i])
        {
          lines := lines + [WarningBullet + warnings[i]];
          assert warnings[..i + 1][..i] == warnings[..i];
          i := i + 1;
        }
        assert warnings[..i] == warnings;
        lines := lines + [""];
        AppendThree(beforeWarnings, ["WARNINGS:"], Bulleted(WarningBullet, warnings), [""]);
      }
      assert lines == beforeWarnings + Section("WARNINGS:", WarningBullet, warnings);
      lines := lines + [SummaryLine(|errors|, |warnings|)];
      report := Join(lines, "\n");
    }
  }
}
