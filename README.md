# A verified model of the simple XML to GCP converter

`simple_xml_converter.py` converts an Agisoft Metashape marker export (XML)
into a ground-control-point (GCP) text file. That file has a header line
holding a PROJ projection definition, then one tab-separated line per
marker observation:

```
x  y  z  pixel_x  pixel_y  image_name
```

This Dafny project models the converter's core:

- **Projection resolution.** `get_projection_string` turns an optional EPSG
  code into a PROJ definition and the identifier of the code it stands for.
  It falls back to RD New (EPSG:28992) when there is no code, no reference
  library, or a failed lookup.
- **The output path.** An explicit path is used as given. Otherwise the path
  comes from `xml_file.replace('.xml', '_converted.txt')`.
- **The body of `convert_xml_to_gcp`.** It builds the marker table
  (id → world point) and the camera table (id → image name) with two
  loops. It opens the output file and writes the header. A nested loop then
  writes one row per frame-marker location whose marker and camera are both
  known.

## Modules

- `Wrappers`: `Option` and `Result`.
- `Strings`: the Python string operations the code relies on:
  - `str.endswith`;
  - `str.replace` (`ReplaceAll`);
  - `str(int)`.

  `Join` renders the tab-separated fields of the row f-string at lines
  103-104. The source never splits a line. `Split` is the reader's side,
  used only to state that a row line reads back as its six fields.
- `Projection`: `get_projection_string`. The pyproj library is the
  parameter `Library`. It is either `Unavailable` (the import failed) or a
  lookup that yields `None` where `CRS.from_epsg(..).to_proj4(4)` raises.
- `OutputPath`: the output path rule.
- `MarkerExport`: the parsed document. It is the three element sequences the
  code walks, each in document order, with only the attributes it reads. A
  coordinate attribute is `Absent`, `Number(v)` or `NotANumber`. The last is
  text on which `float()` raises `ValueError`.
- `GcpFormat`: rows, header and row lines, and the output file. The file is
  a class whose `lines` grow with each `Write`. Numbers go through a
  formatter parameter standing for `:.9f` and `:.6f`.
- `Joiner`: the loops.
  - `BuildMarkerTable` is proved equal to the fold `MarkerTableOf`, and
    `BuildCameraTable` to the fold `CameraTableOf`.
  - `WriteRows` and its inner loop `WriteLocations` append exactly
    `RowLines(Emit(..).rows)` to the file.
  - Lemmas say what those folds mean.
- `Converter`: `convert_xml_to_gcp` as one method, `Convert`. It is proved
  equal to the function `ConversionOf`. Both give the returned path or
  raised error, and the lines left in the file.

## Model

| member | source | states |
|---|---|---|
| Projection.Resolve | simple_xml_converter.py:22-47 | No code gives the RD New default definition and "28992". A successful lookup gives the lookup's definition and the code in decimal, which reads back as the code. Every other case gives the default. |
| Projection.DefaultIdentifierIsDefaultCode | simple_xml_converter.py:24-28 | The default identifier "28992" is the decimal form of EPSG code 28992 and parses back to it. |
| Projection.IdentifierNamesUsedCode | simple_xml_converter.py:27-47 | In every case the identifier parses back to the code whose definition was returned: the requested code after a successful lookup, 28992 otherwise. |
| Projection.FailureIsAbsentCode | simple_xml_converter.py:30-47 | A missing library or a failed lookup yields exactly what an absent code yields, whatever the library. The failure is never propagated. |
| Projection.DefaultIdentifierIffFallbackOrDefaultCode | simple_xml_converter.py:27-47 | The identifier is "28992" exactly when resolution fell back, or when code 28992 itself was resolved. |
| Strings.IntToDecimalRoundTrip | simple_xml_converter.py:43 | `str(epsg_code)` loses nothing: parsing the decimal form gives back the integer, negative ones included. |
| Strings.IntToDecimalInjective | simple_xml_converter.py:43 | Distinct codes have distinct identifiers. |
| Strings.ReplaceAllAbsent | simple_xml_converter.py:53 | `str.replace` leaves a string without the pattern unchanged. |
| Strings.SplitJoin | simple_xml_converter.py:103-104 | Splitting the tab-separated fields of a row line on tabs gives back those fields, when no field holds a tab. |
| OutputPath.OutputFile | simple_xml_converter.py:52-53 | An explicit output path is returned unchanged. Without one, an input with no `.xml` is its own output path, and the derived path never contains `.xml`. |
| OutputPath.DerivedHasNoXml | simple_xml_converter.py:53 | After replacing every `.xml` by `_converted.txt`, no `.xml` remains, including across the boundaries of the replacements. |
| OutputPath.DerivedSplits | simple_xml_converter.py:53 | Replacement runs left to right through every occurrence. A stem without `.xml`, then `.xml`, then any rest becomes the stem, then `_converted.txt`, then the rest with its own occurrences replaced. |
| OutputPath.DoubleExtension | simple_xml_converter.py:53 | A later `.xml` is replaced too: a stem followed by `.xml.xml` becomes the stem followed by `_converted.txt` twice. |
| OutputPath.DerivedFromStem | simple_xml_converter.py:53 | A path whose only `.xml` is its final extension gets exactly that extension swapped for `_converted.txt`. |
| OutputPath.FooExample | simple_xml_converter.py:52-53 | `foo.xml` with no explicit output yields `foo_converted.txt`. |
| OutputPath.DerivedIdempotent | simple_xml_converter.py:53 | Deriving the path twice is deriving it once. |
| Joiner.ImageName | simple_xml_converter.py:80-83 | The image name is empty iff the label is. A label ending in `.JPG` is unchanged, and any other non-empty label gets `.JPG` appended, so every non-empty result ends in `.JPG`. |
| Joiner.ImageNameIdempotent | simple_xml_converter.py:81-82 | Applying the label rule twice equals applying it once. |
| Joiner.ImageNameExamples | simple_xml_converter.py:81-82 | The check is case-sensitive: `name.jpg` becomes `name.jpg.JPG`, while `name.JPG` is kept. `cam1` becomes `cam1.JPG` and the empty label stays empty. |
| Joiner.ReadPoint | simple_xml_converter.py:70-74 | A reference is read iff none of x, y, z is text `float()` rejects. The values are the attributes' values, and a missing x, y or z counts as 0. |
| Joiner.MarkerTableFailure | simple_xml_converter.py:65-74 | Building the marker table raises exactly when some marker with a reference has a malformed coordinate. |
| Joiner.MarkerTableContents | simple_xml_converter.py:65-74 | The table holds an id exactly when some marker with that id has a reference. Its point is read from the last such marker. |
| Joiner.MarkerTableFailureStays | simple_xml_converter.py:66-74 | A failure part-way through the loop fails the whole table. |
| Joiner.BuildMarkerTable | simple_xml_converter.py:65-74 | The loop computes `MarkerTableOf` of the markers. It stops with `None` at the first malformed coordinate. |
| Joiner.CameraTableKeys | simple_xml_converter.py:77-83 | The camera table holds an id exactly when some camera has it. |
| Joiner.CameraTableValue | simple_xml_converter.py:77-83 | An id maps to the image name of the last camera with that id. A missing label counts as empty. |
| Joiner.CameraTableValues | simple_xml_converter.py:77-83 | Every image name in the camera table is the image name of some camera's label. |
| Joiner.BuildCameraTable | simple_xml_converter.py:77-83 | The loop computes `CameraTableOf` of the cameras. |
| Joiner.Observations | simple_xml_converter.py:90-96 | There is one observation per `location` element under the frame markers. |
| Joiner.ObservationAt | simple_xml_converter.py:90-96 | Location `j` of frame marker `i` is observation number "locations before frame marker `i`" + `j`, tagged with that frame marker's `marker_id`: the observations follow document order. |
| Joiner.Selected | simple_xml_converter.py:93-98 | The selected observations are no more than the observations, and all are joinable: the marker id is in the marker table and the camera id in the camera table. |
| Joiner.SelectedAppend | simple_xml_converter.py:93-98 | Selection keeps order: one more observation appends itself to the selection when joinable, and adds nothing otherwise. |
| Joiner.SelectedKeepsJoinable | simple_xml_converter.py:93-98 | Every joinable observation is selected. Only unknown marker or camera ids drop a location. |
| Joiner.EmitIsSelectedRows | simple_xml_converter.py:90-104 | Row k is the row of the k-th joinable observation. A complete walk has one row per joinable observation. A stopped walk stopped at the first joinable observation with an unreadable pixel coordinate. |
| Joiner.EmitCompleteIff | simple_xml_converter.py:90-104 | The walk completes exactly when every joinable observation has pixel coordinates that `float()` accepts. |
| Joiner.EmitCarriesTables | simple_xml_converter.py:93-104 | Each row carries unchanged the stored point of its marker, its location's pixel coordinates (0 when missing) and its camera's image name. There are at most as many rows as locations. |
| Joiner.EmitStopped | simple_xml_converter.py:99-100 | Once `float()` has raised, later locations add no rows. |
| Joiner.EmitSkips | simple_xml_converter.py:93-98 | Locations whose marker or camera is unknown add no rows. |
| Joiner.WriteLocations | simple_xml_converter.py:96-104 | The inner loop appends to the file exactly the row lines the walk over this frame marker's locations adds. It reports whether the walk is still complete. |
| Joiner.WriteRows | simple_xml_converter.py:90-104 | The nested loop appends `RowLines` of the walk's rows to the file. It returns `false` exactly when `float()` raised on a pixel coordinate. |
| GcpFormat.RowLineFields | simple_xml_converter.py:103-104 | With tab-free number formatting and a tab-free image name, a row line reads back as exactly its six fields in order. |
| GcpFormat.HeaderLineFields | simple_xml_converter.py:87 | The header reads back as the projection definition followed by one empty field. |
| GcpFormat.GcpFile.Open | simple_xml_converter.py:86 | `open(output_file, 'w')` starts an empty file. |
| GcpFormat.GcpFile.Write | simple_xml_converter.py:87 | `f.write` appends one line and changes nothing else. |
| Converter.Convert | simple_xml_converter.py:49-107 | The conversion returns what `ConversionOf` says. No file is opened iff the marker table failed, and an opened file holds exactly the lines `ConversionOf` lists. |
| Converter.ConversionSucceedsIff | simple_xml_converter.py:49-107 | A conversion raises on a marker coordinate exactly when some reference is malformed, and only then opens no file. Otherwise it succeeds exactly when every joinable location's pixels are readable. A success returns the output path. |
| Converter.OutputHeader | simple_xml_converter.py:86-104 | An opened output file starts with the projection definition followed by a tab and a newline. It has at most one more line per `location` element. |
| Converter.OutputRowFields | simple_xml_converter.py:96-104 | Line k after the header reads back as six fields: the stored point of the k-th joinable observation's marker, unchanged, then that observation's pixel coordinates, then the image name of that observation's own camera. That name derives from some camera's label. |
| Converter.WorkedExample | simple_xml_converter.py:64-104 | The sample export: one marker at (100.123456789, 200.2, 0), a camera labelled `cam1`, and one location at (50.5, 60.25). It yields the header and the single row `100.123456789 200.2 0 50.5 60.25 cam1.JPG`, and returns the output path. |

## Left out

- XML parsing (`ET.parse`, `findall`) is not modelled. The document is given
  as the sequences `findall` would return, in document order. A malformed
  XML document, which raises before anything else happens, is not modelled.
- `.//markers/marker` also matches the `marker` elements under
  `frames/frame/markers`. Callers represent them as markers with no `id`.
  The model admits them, and the worked example includes one.
- `float()` text parsing is not modelled. An attribute is its parsed value or
  `NotANumber`, so any text `float()` accepts (including `nan` and `inf`) is
  just a value.
- The `:.9f` and `:.6f` formatting is the parameter `fmt`. Properties about
  fields assume only that it produces no tab.
- The pyproj import probe and `CRS.from_epsg(..).to_proj4(4)` are the
  parameter `Library`. The contents of the returned definitions are not
  modelled.
- All `print` logging is left out. It is output only and changes no result.
- Opening and writing the file is modelled as a `GcpFile` object collecting
  lines. I/O errors and the closing of the file by `with` are not modelled.
- The GUI (`XMLConverterGUI`, `run_gui`, `auto_detect_files`, the conversion
  worker thread) and the command-line handling are not part of this model.
  They are UI, filesystem and concurrency code. The GUI's own copies of the
  path rule (lines 197 and 217) are the same expression as `OutputPath.Derived`.
- The derived output path replaces every `.xml`, not only
  a trailing one. An input without `.xml` is returned unchanged, so the
  output would overwrite the input. The model follows the code here, not a
  reading of the rule as "swap the extension".
- A pixel coordinate rejected by `float()` leaves the
  file holding the header and the rows written before it. The model states
  exactly this partial content rather than an all-or-nothing write.
