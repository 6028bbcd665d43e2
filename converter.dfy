/**
  * `convert_xml_to_gcp` as a whole: derive the output path, resolve the
  * projection, build the marker and camera tables, open the output file,
  * write the header and then the joined rows, and return the output path.
  */
module Converter {
  import opened Wrappers
  import opened MarkerExport
  import opened GcpFormat
  import opened Joiner
  import Projection
  import OutputPath

  /** The `ValueError` of `float()` on a marker's reference or on a location's pixel coordinate. */
  datatype Failure = MalformedMarkerCoordinate | MalformedPixelCoordinate

  /**
    * What a conversion leaves behind: the path it returns or the exception
    * it raises, and the lines of the output file if it got as far as opening it.
    */
  datatype Conversion = Conversion(result: Result<string, Failure>, written: Option<seq<string>>)

  /** The conversion of `doc`, step by step as the source does it. */
  function ConversionOf(doc: Export, xmlFile: string, outputFile: Option<string>,
                        code: Option<int>, lib: Projection.Library, fmt: Formatter): Conversion
  {
    var path := OutputPath.OutputFile(xmlFile, outputFile);
    var projection := Projection.Resolve(code, lib);
    match MarkerTableOf(doc.markers)
    case None => Conversion(Err(MalformedMarkerCoordinate), None)
    case Some(markers) =>
      var e := Emit(Observations(doc.frameMarkers), markers, CameraTableOf(doc.cameras));
      Conversion(if e.complete then Ok(path) else Err(MalformedPixelCoordinate),
                 Some([HeaderLine(projection.definition)] + RowLines(e.rows, fmt)))
  }

  /**
    * The conversion as the source runs it. The document is given already
    * parsed; the file is an object that receives the lines written to it.
    * On a malformed marker coordinate nothing is opened; on a malformed pixel
    * coordinate the file keeps the header and the rows written before it.
    */
  method Convert(doc: Export, xmlFile: string, outputFile: Option<string>,
                 code: Option<int>, lib: Projection.Library, fmt: Formatter)
    returns (result: Result<string, Failure>, file: GcpFile?)
    ensures var c := ConversionOf(doc, xmlFile, outputFile, code, lib, fmt);
            result == c.result &&
            (file == null <==> c.written.None?) &&
            (file != null ==> fresh(file) && file.lines == c.written.value)
  {
    var path := OutputPath.OutputFile(xmlFile, outputFile);
    var projection := Projection.Resolve(code, lib);
    var markers := BuildMarkerTable(doc.markers);
    if markers.None? {
      return Err(MalformedMarkerCoordinate), null;
    }
    var cameras := BuildCameraTable(doc.cameras);
    OpenedConversion(doc, xmlFile, outputFile, code, lib, fmt, markers.value);
    file := new GcpFile.Open();
    file.Write(HeaderLine(projection.definition));
    var complete := WriteRows(file, doc.frameMarkers, markers.value, cameras, fmt);
    if !complete {
      return Err(MalformedPixelCoordinate), file;
    }
    result := Ok(path);
  }

  /** A conversion whose marker table is built: `ConversionOf` unfolded once. */
  lemma OpenedConversion(doc: Export, xmlFile: string, outputFile: Option<string>,
                         code: Option<int>, lib: Projection.Library, fmt: Formatter, markers: MarkerTable)
    requires MarkerTableOf(doc.markers) == Some(markers)
    ensures var e := Emit(Observations(doc.frameMarkers), markers, CameraTableOf(doc.cameras));
            ConversionOf(doc, xmlFile, outputFile, code, lib, fmt) ==
              Conversion(if e.complete then Ok(OutputPath.OutputFile(xmlFile, outputFile)) else Err(MalformedPixelCoordinate),
                         Some([HeaderLine(Projection.Resolve(code, lib).definition)] + RowLines(e.rows, fmt)))
  {
  }

  /**
    * The conversion succeeds exactly when no marker reference and no
    * joinable location has a coordinate `float()` rejects, and then it
    * returns the output path; unknown marker or camera ids are never an error.
    */
  lemma ConversionSucceedsIff(doc: Export, xmlFile: string, outputFile: Option<string>,
                              code: Option<int>, lib: Projection.Library, fmt: Formatter)
    ensures var c := ConversionOf(doc, xmlFile, outputFile, code, lib, fmt);
            var markers := MarkerTableOf(doc.markers);
            (c.result == Err(MalformedMarkerCoordinate) <==> exists i :: MalformedReference(doc.markers, i)) &&
            (c.written.None? <==> c.result == Err(MalformedMarkerCoordinate)) &&
            (markers.Some? ==>
               (c.result.Ok? <==> PixelsReadable(Observations(doc.frameMarkers), markers.value, CameraTableOf(doc.cameras)))) &&
            (c.result.Ok? ==> c.result.value == OutputPath.OutputFile(xmlFile, outputFile))
  {
    MarkerTableFailure(doc.markers);
    if MarkerTableOf(doc.markers).Some? {
      var markers, cameras := MarkerTableOf(doc.markers).value, CameraTableOf(doc.cameras);
      var obs := Observations(doc.frameMarkers);
      EmitCompleteIff(obs, markers, cameras);
      assert ConversionOf(doc, xmlFile, outputFile, code, lib, fmt).result.Ok? == Emit(obs, markers, cameras).complete;
    }
  }

  /** The lines of an opened output file: the header, then the rows of the walk. */
  lemma WrittenLines(doc: Export, xmlFile: string, outputFile: Option<string>,
                     code: Option<int>, lib: Projection.Library, fmt: Formatter)
    requires ConversionOf(doc, xmlFile, outputFile, code, lib, fmt).written.Some?
    ensures MarkerTableOf(doc.markers).Some?
    ensures ConversionOf(doc, xmlFile, outputFile, code, lib, fmt).written.value ==
              [HeaderLine(Projection.Resolve(code, lib).definition)] +
              RowLines(Emit(Observations(doc.frameMarkers), MarkerTableOf(doc.markers).value, CameraTableOf(doc.cameras)).rows, fmt)
  {
  }

  /**
    * The file opened by a conversion starts with the projection header and
    * has at most one more line per `location` element.
    */
  lemma OutputHeader(doc: Export, xmlFile: string, outputFile: Option<string>,
                     code: Option<int>, lib: Projection.Library, fmt: Formatter)
    requires ConversionOf(doc, xmlFile, outputFile, code, lib, fmt).written.Some?
    ensures var lines := ConversionOf(doc, xmlFile, outputFile, code, lib, fmt).written.value;
            1 <= |lines| <= 1 + TotalLocations(doc.frameMarkers) &&
            lines[0] == HeaderLine(Projection.Resolve(code, lib).definition)
  {
    WrittenLines(doc, xmlFile, outputFile, code, lib, fmt);
    var markers := MarkerTableOf(doc.markers).value;
    EmitIsSelectedRows(Observations(doc.frameMarkers), markers, CameraTableOf(doc.cameras));
  }

  /** Every row's image name is the image name of some camera's label. */
  lemma RowImageName(doc: Export, markers: MarkerTable, k: int)
    requires 0 <= k < |Emit(Observations(doc.frameMarkers), markers, CameraTableOf(doc.cameras)).rows|
    ensures exists i :: 0 <= i < |doc.cameras| &&
              Emit(Observations(doc.frameMarkers), markers, CameraTableOf(doc.cameras)).rows[k].imageName ==
              ImageName(doc.cameras[i].cameraLabel.GetOr(""))
  {
    var cameras := CameraTableOf(doc.cameras);
    var obs := Observations(doc.frameMarkers);
    EmitCarriesTables(obs, markers, cameras, k);
    CameraTableValues(doc.cameras, Selected(obs, markers, cameras)[k].location.cameraId);
  }

  /**
    * Row line `k` reads back as the stored point of the `k`-th joinable
    * observation's marker, that observation's pixel coordinates and its own
    * camera's image name, which is the image name of some camera's label.
    */
  lemma EmittedLineFields(doc: Export, markers: MarkerTable, fmt: Formatter, k: int)
    requires TabFree(fmt)
    requires forall i :: 0 <= i < |doc.cameras| ==> '\t' !in doc.cameras[i].cameraLabel.GetOr("")
    requires 0 <= k < |Emit(Observations(doc.frameMarkers), markers, CameraTableOf(doc.cameras)).rows|
    ensures var cameras := CameraTableOf(doc.cameras);
            var sel := Selected(Observations(doc.frameMarkers), markers, cameras);
            var fields := Fields(RowLines(Emit(Observations(doc.frameMarkers), markers, cameras).rows, fmt)[k]);
            k < |sel| && ToFloat(sel[k].location.x).Some? && ToFloat(sel[k].location.y).Some? &&
            var o := sel[k];
            var p := markers[o.markerId];
            fields == [fmt(p.x, WorldDigits), fmt(p.y, WorldDigits), fmt(p.z, WorldDigits),
                       fmt(ToFloat(o.location.x).value, PixelDigits), fmt(ToFloat(o.location.y).value, PixelDigits),
                       cameras[o.location.cameraId]] &&
            exists i :: 0 <= i < |doc.cameras| && fields[5] == ImageName(doc.cameras[i].cameraLabel.GetOr(""))
  {
    var cameras := CameraTableOf(doc.cameras);
    var obs := Observations(doc.frameMarkers);
    var row := Emit(obs, markers, cameras).rows[k];
    EmitCarriesTables(obs, markers, cameras, k);
    RowImageName(doc, markers, k);
    var i :| 0 <= i < |doc.cameras| && row.imageName == ImageName(doc.cameras[i].cameraLabel.GetOr(""));
    assert '\t' !in row.imageName by {
      assert '\t' !in Joiner.JpgExtension;
    }
    RowLineFields(row, fmt);
  }

  /**
    * Each line after the header reads back as six fields: the stored point
    * of its observation's marker, the observation's pixel coordinates and
    * the image name of the observation's own camera (which derives from
    * some camera's label), provided formatted numbers and labels hold no tab.
    */
  lemma OutputRowFields(doc: Export, xmlFile: string, outputFile: Option<string>,
                        code: Option<int>, lib: Projection.Library, fmt: Formatter, k: int)
    requires TabFree(fmt)
    requires forall i :: 0 <= i < |doc.cameras| ==> '\t' !in doc.cameras[i].cameraLabel.GetOr("")
    requires ConversionOf(doc, xmlFile, outputFile, code, lib, fmt).written.Some?
    requires 1 <= k < |ConversionOf(doc, xmlFile, outputFile, code, lib, fmt).written.value|
    ensures MarkerTableOf(doc.markers).Some?
    ensures var markers, cameras := MarkerTableOf(doc.markers).value, CameraTableOf(doc.cameras);
            var sel := Selected(Observations(doc.frameMarkers), markers, cameras);
            var fields := Fields(ConversionOf(doc, xmlFile, outputFile, code, lib, fmt).written.value[k]);
            k - 1 < |sel| && ToFloat(sel[k - 1].location.x).Some? && ToFloat(sel[k - 1].location.y).Some? &&
            var o := sel[k - 1];
            var p := markers[o.markerId];
            fields == [fmt(p.x, WorldDigits), fmt(p.y, WorldDigits), fmt(p.z, WorldDigits),
                       fmt(ToFloat(o.location.x).value, PixelDigits), fmt(ToFloat(o.location.y).value, PixelDigits),
                       cameras[o.location.cameraId]] &&
            exists i :: 0 <= i < |doc.cameras| && fields[5] == ImageName(doc.cameras[i].cameraLabel.GetOr(""))
  {
    WrittenLines(doc, xmlFile, outputFile, code, lib, fmt);
    var markers := MarkerTableOf(doc.markers).value;
    var rows := Emit(Observations(doc.frameMarkers), markers, CameraTableOf(doc.cameras)).rows;
    var lines := ConversionOf(doc, xmlFile, outputFile, code, lib, fmt).written.value;
    assert lines[k] == RowLines(rows, fmt)[k - 1];
    EmittedLineFields(doc, markers, fmt, k - 1);
  }

  /** The marker table of the worked example: marker `1` at its reference point. */
  lemma WorkedExampleMarkers(ms: seq<Marker>)
    requires ms == [Marker(Some("1"), Some(Reference(Number(100.123456789), Number(200.2), Number(0.0)))),
                    Marker(None, None)]
    ensures MarkerTableOf(ms) == Some(map[Some("1") := Point(100.123456789, 200.2, 0.0)])
  {
    var point := Point(100.123456789, 200.2, 0.0);
    assert ReadPoint(ms[0].reference.value) == Some(point);
    assert ms[..1][..0] == [];
    assert MarkerTableOf(ms[..1]) == Some(map[Some("1") := point]);
    assert ms[..|ms| - 1] == ms[..1];
  }

  /** The camera table of the worked example: camera `10` names image `cam1.JPG`. */
  lemma WorkedExampleCameras(cs: seq<Camera>)
    requires cs == [Camera(Some("10"), Some("cam1"))]
    ensures CameraTableOf(cs) == map[Some("10") := "cam1.JPG"]
  {
    ImageNameExamples();
    assert cs[..0] == [];
  }

  /** The walk of the worked example: its one observation becomes one row. */
  lemma WorkedExampleRows(fms: seq<FrameMarker>, markers: MarkerTable, cameras: CameraTable)
    requires fms == [FrameMarker(Some("1"), [Location(Some("10"), Number(50.5), Number(60.25))])]
    requires markers == map[Some("1") := Point(100.123456789, 200.2, 0.0)]
    requires cameras == map[Some("10") := "cam1.JPG"]
    ensures Emit(Observations(fms), markers, cameras) ==
              Emission([Row(100.123456789, 200.2, 0.0, 50.5, 60.25, "cam1.JPG")], true)
  {
    var o := Observation(Some("1"), Location(Some("10"), Number(50.5), Number(60.25)));
    assert fms[..0] == [];
    assert FrameObservations(fms[0]) == [o];
    assert Observations(fms) == [o];
    assert [o][..0] == [];
  }

  /**
    * The worked example of the export format: one marker `1` at
    * (100.123456789, 200.2, 0), one camera `10` labelled `cam1`, and one
    * location of marker `1` in camera `10` at pixel (50.5, 60.25). The
    * `.//markers/marker` search also meets the frame's `marker` element,
    * which has no `id` and no reference and so adds nothing.
    */
  lemma WorkedExample(doc: Export, xmlFile: string, outputFile: Option<string>,
                      code: Option<int>, lib: Projection.Library, fmt: Formatter)
    requires doc == Export(
               [Marker(Some("1"), Some(Reference(Number(100.123456789), Number(200.2), Number(0.0)))),
                Marker(None, None)],
               [Camera(Some("10"), Some("cam1"))],
               [FrameMarker(Some("1"), [Location(Some("10"), Number(50.5), Number(60.25))])])
    ensures ConversionOf(doc, xmlFile, outputFile, code, lib, fmt) ==
              Conversion(Ok(OutputPath.OutputFile(xmlFile, outputFile)),
                         Some([HeaderLine(Projection.Resolve(code, lib).definition),
                               RowLine(Row(100.123456789, 200.2, 0.0, 50.5, 60.25, "cam1.JPG"), fmt)]))
  {
    var markers := map[Some("1") := Point(100.123456789, 200.2, 0.0)];
    var cameras := map[Some("10") := "cam1.JPG"];
    var row := Row(100.123456789, 200.2, 0.0, 50.5, 60.25, "cam1.JPG");
    WorkedExampleMarkers(doc.markers);
    WorkedExampleCameras(doc.cameras);
    WorkedExampleRows(doc.frameMarkers, markers, cameras);
    OpenedConversion(doc, xmlFile, outputFile, code, lib, fmt, markers);
    var header := HeaderLine(Projection.Resolve(code, lib).definition);
    assert [header] + RowLines([row], fmt) == [header, RowLine(row, fmt)];
  }
}
