/**
  * The joiner of `convert_xml_to_gcp`: the marker table (id to world
  * coordinates), the camera table (id to image name), and the walk over the
  * frame markers that writes one row per location whose marker and camera
  * are both known. Each loop of the source is a method proved equal to a
  * function that folds over the same elements; the lemmas say what those
  * functions mean.
  */
module Joiner {
  import opened Wrappers
  import opened MarkerExport
  import opened GcpFormat
  import Strings

  // ---------------------------------------------------------------------
  // Image names

  const JpgExtension: string := ".JPG"

  /**
    * The image name of a camera label: `.JPG` appended unless the label is
    * empty or already ends in `.JPG` (case-sensitive, so `a.jpg` becomes
    * `a.jpg.JPG`).
    */
  function ImageName(text: string): (r: string)
    ensures r == [] <==> text == []
    ensures r != [] ==> Strings.EndsWith(r, JpgExtension)
    ensures Strings.EndsWith(text, JpgExtension) ==> r == text
    ensures text != [] && !Strings.EndsWith(text, JpgExtension) ==> r == text + JpgExtension
  {
    if text != [] && !Strings.EndsWith(text, JpgExtension) then text + JpgExtension else text
  }

  /** Normalising an image name again changes nothing. */
  lemma ImageNameIdempotent(text: string)
    ensures ImageName(ImageName(text)) == ImageName(text)
  {
  }

  /** Only the upper-case extension counts as present. */
  lemma ImageNameExamples()
    ensures ImageName("name.jpg") == "name.jpg.JPG"
    ensures ImageName("name.JPG") == "name.JPG"
    ensures ImageName("cam1") == "cam1.JPG"
    ensures ImageName("") == ""
  {
    var lower, upper := "name.jpg", "name.JPG";
    assert lower[4..][1] != JpgExtension[1];
    assert !Strings.EndsWith(lower, JpgExtension);
    assert lower + JpgExtension == "name.jpg.JPG";
    assert upper[4..] == JpgExtension;
    assert !Strings.EndsWith("cam1", JpgExtension);
  }

  // ---------------------------------------------------------------------
  // Marker table

  /** World coordinates of a marker, as stored in the marker table. */
  datatype Point = Point(x: real, y: real, z: real)

  type MarkerTable = map<Option<string>, Point>

  /** The coordinates of a `reference` element: `None` when `float()` raises on one of them. */
  function ReadPoint(r: Reference): (p: Option<Point>)
    ensures p.Some? <==> !r.x.NotANumber? && !r.y.NotANumber? && !r.z.NotANumber?
    ensures p.Some? ==> Some(p.value.x) == ToFloat(r.x) && Some(p.value.y) == ToFloat(r.y) && Some(p.value.z) == ToFloat(r.z)
    ensures p.Some? && r.x.Absent? ==> p.value.x == 0.0
    ensures p.Some? && r.y.Absent? ==> p.value.y == 0.0
    ensures p.Some? && r.z.Absent? ==> p.value.z == 0.0
  {
    match (ToFloat(r.x), ToFloat(r.y), ToFloat(r.z))
    case (Some(x), Some(y), Some(z)) => Some(Point(x, y, z))
    case _ => None
  }

  /**
    * The marker table after the loop over `ms`, each marker with a reference
    * overwriting any earlier entry for its id; `None` when the loop raised.
    */
  function MarkerTableOf(ms: seq<Marker>): Option<MarkerTable>
    decreases |ms|
  {
    if ms == [] then Some(map[])
    else
      var before := MarkerTableOf(ms[..|ms| - 1]);
      var m := ms[|ms| - 1];
      if before.None? || m.reference.None? then before
      else
        match ReadPoint(m.reference.value)
        case None => None
        case Some(p) => Some(before.value[m.id := p])
  }

  /** Marker `i` of `ms` has id `id` and a reference. */
  predicate HasReference(ms: seq<Marker>, id: Option<string>, i: int) {
    0 <= i < |ms| && ms[i].id == id && ms[i].reference.Some?
  }

  /** Marker `i` is the last one with id `id` and a reference. */
  predicate LastReference(ms: seq<Marker>, id: Option<string>, i: int) {
    HasReference(ms, id, i) && forall j :: i < j < |ms| ==> !HasReference(ms, id, j)
  }

  /** Marker `i` has a reference that `float()` rejects. */
  predicate MalformedReference(ms: seq<Marker>, i: int) {
    0 <= i < |ms| && ms[i].reference.Some? && ReadPoint(ms[i].reference.value).None?
  }

  /** Building the table raises exactly when some marker with a reference has a malformed coordinate. */
  lemma {:induction false} MarkerTableFailure(ms: seq<Marker>)
    ensures MarkerTableOf(ms).None? <==> exists i :: MalformedReference(ms, i)
    decreases |ms|
  {
    if ms != [] {
      var n := |ms| - 1;
      var before := ms[..n];
      MarkerTableFailure(before);
      forall i | 0 <= i < n ensures MalformedReference(ms, i) == MalformedReference(before, i) {
        assert ms[i] == before[i];
      }
      if MarkerTableOf(before).Some? {
        assert forall i :: !MalformedReference(before, i);
        assert forall i :: MalformedReference(ms, i) ==> i == n;
        assert MarkerTableOf(ms).None? <==> MalformedReference(ms, n);
      } else {
        var i :| MalformedReference(before, i);
        assert MalformedReference(ms, i);
      }
    }
  }

  /**
    * The marker table holds an id exactly when some marker with that id has
    * a reference, and its point is read from the last such marker.
    */
  lemma {:induction false} MarkerTableContents(ms: seq<Marker>, id: Option<string>)
    requires MarkerTableOf(ms).Some?
    ensures id in MarkerTableOf(ms).value <==> exists i :: HasReference(ms, id, i)
    ensures forall i :: LastReference(ms, id, i) ==>
              Some(MarkerTableOf(ms).value[id]) == ReadPoint(ms[i].reference.value)
    decreases |ms|
  {
    if ms != [] {
      var n := |ms| - 1;
      var before := ms[..n];
      var m := ms[n];
      MarkerTableContents(before, id);
      forall i | 0 <= i < n ensures HasReference(ms, id, i) == HasReference(before, id, i) {
        assert ms[i] == before[i];
      }
      var table := MarkerTableOf(ms).value;
      if m.reference.None? || m.id != id {
        assert !HasReference(ms, id, n);
        assert id in table <==> id in MarkerTableOf(before).value;
        forall i | LastReference(ms, id, i)
          ensures Some(table[id]) == ReadPoint(ms[i].reference.value)
        {
          assert LastReference(before, id, i);
        }
      } else {
        assert HasReference(ms, id, n);
        assert table[id] == ReadPoint(m.reference.value).value;
        assert forall i :: LastReference(ms, id, i) ==> i == n;
      }
    }
  }

  /** A failure part-way through leaves the whole table failed: the exception ends the loop. */
  lemma {:induction false} MarkerTableFailureStays(ms: seq<Marker>, k: nat)
    requires k <= |ms| && MarkerTableOf(ms[..k]).None?
    ensures MarkerTableOf(ms).None?
    decreases |ms| - k
  {
    if k < |ms| {
      assert ms[..k + 1][..k] == ms[..k];
      MarkerTableFailureStays(ms, k + 1);
    } else {
      assert ms[..k] == ms;
    }
  }

  /**
    * The loop at lines 65-74: walk the markers in order and, for each one
    * with a reference, store its coordinates under its id; stops with `None`
    * at the first coordinate `float()` rejects.
    */
  method BuildMarkerTable(ms: seq<Marker>) returns (markers: Option<MarkerTable>)
    ensures markers == MarkerTableOf(ms)
  {
    var table: MarkerTable := map[];
    var i := 0;
    while i < |ms|
      invariant 0 <= i <= |ms|
      invariant MarkerTableOf(ms[..i]) == Some(table)
    {
      var marker := ms[i];
      assert ms[..i + 1][..i] == ms[..i];
      if marker.reference.Some? {
        var ref := marker.reference.value;
        var x, y, z := ToFloat(ref.x), ToFloat(ref.y), ToFloat(ref.z);
        if x.None? || y.None? || z.None? {
          MarkerTableFailureStays(ms, i + 1);
          return None;
        }
        table := table[marker.id := Point(x.value, y.value, z.value)];
      }
      i := i + 1;
    }
    assert ms[..i] == ms;
    markers := Some(table);
  }

  // ---------------------------------------------------------------------
  // Camera table

  type CameraTable = map<Option<string>, string>

  /** The camera table after the loop over `cs`: each camera's image name under its id, later ones overwriting. */
  function CameraTableOf(cs: seq<Camera>): CameraTable
    decreases |cs|
  {
    if cs == [] then map[]
    else
      var c := cs[|cs| - 1];
      CameraTableOf(cs[..|cs| - 1])[c.id := ImageName(c.cameraLabel.GetOr(""))]
  }

  /** Camera `i` is the last one with id `id`. */
  predicate LastCamera(cs: seq<Camera>, id: Option<string>, i: int) {
    0 <= i < |cs| && cs[i].id == id && forall j :: i < j < |cs| ==> cs[j].id != id
  }

  /** The camera table holds an id exactly when some camera has it. */
  lemma {:induction false} CameraTableKeys(cs: seq<Camera>, id: Option<string>)
    ensures id in CameraTableOf(cs) <==> exists i :: 0 <= i < |cs| && cs[i].id == id
    decreases |cs|
  {
    if cs != [] {
      var n := |cs| - 1;
      var before := cs[..n];
      CameraTableKeys(before, id);
      if cs[n].id != id {
        if id in CameraTableOf(before) {
          var i :| 0 <= i < |before| && before[i].id == id;
          assert cs[i] == before[i];
        }
        forall i | 0 <= i < |cs| && cs[i].id == id ensures 0 <= i < |before| && before[i].id == id {
          assert cs[i] == before[i];
        }
      }
    }
  }

  /**
    * The camera table maps an id to the image name of the last camera with
    * that id (a missing label counts as empty).
    */
  lemma {:induction false} CameraTableValue(cs: seq<Camera>, id: Option<string>, i: int)
    requires LastCamera(cs, id, i)
    ensures id in CameraTableOf(cs) && CameraTableOf(cs)[id] == ImageName(cs[i].cameraLabel.GetOr(""))
    decreases |cs|
  {
    var n := |cs| - 1;
    if i < n {
      var before := cs[..n];
      assert cs[n].id != id;
      assert cs[i] == before[i];
      assert LastCamera(before, id, i);
      CameraTableValue(before, id, i);
    }
  }

  /** Every value of the camera table is the image name of some camera's label. */
  lemma {:induction false} CameraTableValues(cs: seq<Camera>, id: Option<string>)
    requires id in CameraTableOf(cs)
    ensures exists i :: 0 <= i < |cs| && CameraTableOf(cs)[id] == ImageName(cs[i].cameraLabel.GetOr(""))
    decreases |cs|
  {
    var n := |cs| - 1;
    if cs[n].id != id {
      var before := cs[..n];
      CameraTableValues(before, id);
      var i :| 0 <= i < |before| && CameraTableOf(before)[id] == ImageName(before[i].cameraLabel.GetOr(""));
      assert cs[i] == before[i];
    }
  }

  /**
    * The loop at lines 77-83: walk the cameras in order and store each one's
    * image name under its id.
    */
  method BuildCameraTable(cs: seq<Camera>) returns (cameras: CameraTable)
    ensures cameras == CameraTableOf(cs)
  {
    cameras := map[];
    var i := 0;
    while i < |cs|
      invariant 0 <= i <= |cs|
      invariant cameras == CameraTableOf(cs[..i])
    {
      var camera := cs[i];
      assert cs[..i + 1][..i] == cs[..i];
      var name := camera.cameraLabel.GetOr("");
      if name != [] && !Strings.EndsWith(name, JpgExtension) {
        name := name + JpgExtension;
      }
      cameras := cameras[camera.id := name];
      i := i + 1;
    }
    assert cs[..i] == cs;
  }

  // ---------------------------------------------------------------------
  // Observations and rows

  /** One `location` of a frame marker, with the marker id it belongs to. */
  datatype Observation = Observation(markerId: Option<string>, location: Location)

  /** The locations of one frame marker, in order. */
  function FrameObservations(fm: FrameMarker): seq<Observation> {
    seq(|fm.locations|, k requires 0 <= k < |fm.locations| => Observation(fm.markerId, fm.locations[k]))
  }

  /** The number of `location` elements under all frame markers. */
  function TotalLocations(fms: seq<FrameMarker>): nat
    decreases |fms|
  {
    if fms == [] then 0 else TotalLocations(fms[..|fms| - 1]) + |fms[|fms| - 1].locations|
  }

  /** Every location of every frame marker, in document order. */
  function Observations(fms: seq<FrameMarker>): (obs: seq<Observation>)
    ensures |obs| == TotalLocations(fms)
    decreases |fms|
  {
    if fms == [] then [] else Observations(fms[..|fms| - 1]) + FrameObservations(fms[|fms| - 1])
  }

  /**
    * Location `j` of frame marker `i` is observation number
    * `TotalLocations(fms[..i]) + j`: the observations follow document order.
    */
  lemma {:induction false} ObservationAt(fms: seq<FrameMarker>, i: int, j: int)
    requires 0 <= i < |fms| && 0 <= j < |fms[i].locations|
    ensures TotalLocations(fms[..i]) + j < |Observations(fms)|
    ensures Observations(fms)[TotalLocations(fms[..i]) + j] == Observation(fms[i].markerId, fms[i].locations[j])
    decreases |fms|
  {
    var n := |fms| - 1;
    var before := fms[..n];
    if i < n {
      assert before[..i] == fms[..i];
      ObservationAt(before, i, j);
      assert before[i] == fms[i];
    } else {
      assert before == fms[..i];
    }
  }

  /** Observations of consecutive frame markers concatenate. */
  lemma {:induction false} ObservationsAppend(a: seq<FrameMarker>, b: seq<FrameMarker>)
    ensures Observations(a + b) == Observations(a) + Observations(b)
    decreases |b|
  {
    if b != [] {
      var n := |b| - 1;
      assert (a + b)[..|a + b| - 1] == a + b[..n];
      ObservationsAppend(a, b[..n]);
    } else {
      assert a + b == a;
    }
  }

  /** Both the observed marker and the camera of the location are in their tables. */
  predicate Joinable(o: Observation, markers: MarkerTable, cameras: CameraTable) {
    o.markerId in markers && o.location.cameraId in cameras
  }

  /**
    * The row for a joinable observation: the marker's stored point, the
    * location's pixel coordinates and the camera's image name; `None` when
    * `float()` rejects a pixel coordinate.
    */
  function RowFor(o: Observation, markers: MarkerTable, cameras: CameraTable): Option<Row>
    requires Joinable(o, markers, cameras)
  {
    var p := markers[o.markerId];
    match (ToFloat(o.location.x), ToFloat(o.location.y))
    case (Some(px), Some(py)) => Some(Row(p.x, p.y, p.z, px, py, cameras[o.location.cameraId]))
    case _ => None
  }

  /** The joinable observations, in order (a plain filter). */
  function Selected(obs: seq<Observation>, markers: MarkerTable, cameras: CameraTable): (sel: seq<Observation>)
    ensures |sel| <= |obs|
    ensures forall k :: 0 <= k < |sel| ==> Joinable(sel[k], markers, cameras)
    decreases |obs|
  {
    if obs == [] then []
    else (if Joinable(obs[0], markers, cameras) then [obs[0]] else []) + Selected(obs[1..], markers, cameras)
  }

  lemma {:induction false} SelectedAppend(a: seq<Observation>, o: Observation, markers: MarkerTable, cameras: CameraTable)
    ensures Selected(a + [o], markers, cameras) ==
              Selected(a, markers, cameras) + (if Joinable(o, markers, cameras) then [o] else [])
    decreases |a|
  {
    if a == [] {
      assert [o][1..] == [];
    } else {
      assert (a + [o])[1..] == a[1..] + [o];
      SelectedAppend(a[1..], o, markers, cameras);
    }
  }

  /** No joinable observation is dropped: each one is among the selected. */
  lemma {:induction false} SelectedKeepsJoinable(obs: seq<Observation>, i: int, markers: MarkerTable, cameras: CameraTable)
    requires 0 <= i < |obs| && Joinable(obs[i], markers, cameras)
    ensures obs[i] in Selected(obs, markers, cameras)
    decreases |obs|
  {
    if i > 0 {
      assert obs[1..][i - 1] == obs[i];
      SelectedKeepsJoinable(obs[1..], i - 1, markers, cameras);
    }
  }

  /** The rows written so far and whether the walk finished (it stops when `float()` raises). */
  datatype Emission = Emission(rows: seq<Row>, complete: bool)

  /** The rows the walk writes for `obs`, in order. */
  function Emit(obs: seq<Observation>, markers: MarkerTable, cameras: CameraTable): Emission
    decreases |obs|
  {
    if obs == [] then Emission([], true)
    else
      var before := Emit(obs[..|obs| - 1], markers, cameras);
      var o := obs[|obs| - 1];
      if !before.complete || !Joinable(o, markers, cameras) then before
      else
        match RowFor(o, markers, cameras)
        case None => Emission(before.rows, false)
        case Some(row) => Emission(before.rows + [row], true)
  }

  /**
    * Row `k` is the row of the `k`-th joinable observation. The walk is
    * complete exactly when every joinable observation has readable pixel
    * coordinates, and then there is one row per joinable observation; when
    * it stops, it stops at the first one that has not.
    */
  lemma {:induction false} EmitIsSelectedRows(obs: seq<Observation>, markers: MarkerTable, cameras: CameraTable)
    ensures var e, sel := Emit(obs, markers, cameras), Selected(obs, markers, cameras);
            |e.rows| <= |sel| &&
            (forall k :: 0 <= k < |e.rows| ==> RowFor(sel[k], markers, cameras) == Some(e.rows[k])) &&
            (e.complete ==> |e.rows| == |sel|) &&
            (!e.complete ==> |e.rows| < |sel| && RowFor(sel[|e.rows|], markers, cameras).None?)
    decreases |obs|
  {
    if obs != [] {
      var a, o := obs[..|obs| - 1], obs[|obs| - 1];
      assert obs == a + [o];
      EmitIsSelectedRows(a, markers, cameras);
      SelectedAppend(a, o, markers, cameras);
      var before, selBefore := Emit(a, markers, cameras), Selected(a, markers, cameras);
      var e, sel := Emit(obs, markers, cameras), Selected(obs, markers, cameras);
      assert forall k :: 0 <= k < |selBefore| ==> sel[k] == selBefore[k];
      if before.complete && Joinable(o, markers, cameras) {
        assert sel == selBefore + [o];
        assert sel[|selBefore|] == o;
      }
    }
  }

  /** Every joinable observation has pixel coordinates that `float()` accepts. */
  predicate PixelsReadable(obs: seq<Observation>, markers: MarkerTable, cameras: CameraTable) {
    var sel := Selected(obs, markers, cameras);
    forall k :: 0 <= k < |sel| ==> RowFor(sel[k], markers, cameras).Some?
  }

  /** The walk completes exactly when every joinable observation yields a row. */
  lemma EmitCompleteIff(obs: seq<Observation>, markers: MarkerTable, cameras: CameraTable)
    ensures Emit(obs, markers, cameras).complete <==> PixelsReadable(obs, markers, cameras)
  {
    EmitIsSelectedRows(obs, markers, cameras);
  }

  /**
    * Each row carries the stored point of the observation's marker unchanged,
    * its pixel coordinates and its camera's image name; at most one row per
    * observation.
    */
  lemma EmitCarriesTables(obs: seq<Observation>, markers: MarkerTable, cameras: CameraTable, k: int)
    requires 0 <= k < |Emit(obs, markers, cameras).rows|
    ensures |Emit(obs, markers, cameras).rows| <= |Selected(obs, markers, cameras)| <= |obs|
    ensures var row, o := Emit(obs, markers, cameras).rows[k], Selected(obs, markers, cameras)[k];
            o.markerId in markers && o.location.cameraId in cameras &&
            row.x == markers[o.markerId].x && row.y == markers[o.markerId].y && row.z == markers[o.markerId].z &&
            Some(row.pixelX) == ToFloat(o.location.x) && Some(row.pixelY) == ToFloat(o.location.y) &&
            row.imageName == cameras[o.location.cameraId]
  {
    EmitIsSelectedRows(obs, markers, cameras);
  }

  /** Once the walk has stopped, later observations add nothing. */
  lemma {:induction false} EmitStopped(a: seq<Observation>, b: seq<Observation>, markers: MarkerTable, cameras: CameraTable)
    requires !Emit(a, markers, cameras).complete
    ensures Emit(a + b, markers, cameras) == Emit(a, markers, cameras)
    decreases |b|
  {
    if b == [] {
      assert a + b == a;
    } else {
      var n := |b| - 1;
      assert (a + b)[..|a + b| - 1] == a + b[..n];
      EmitStopped(a, b[..n], markers, cameras);
    }
  }

  /** Observations that cannot be joined add nothing. */
  lemma {:induction false} EmitSkips(a: seq<Observation>, b: seq<Observation>, markers: MarkerTable, cameras: CameraTable)
    requires forall k :: 0 <= k < |b| ==> !Joinable(b[k], markers, cameras)
    ensures Emit(a + b, markers, cameras) == Emit(a, markers, cameras)
    decreases |b|
  {
    if b == [] {
      assert a + b == a;
    } else {
      var n := |b| - 1;
      assert (a + b)[..|a + b| - 1] == a + b[..n];
      EmitSkips(a, b[..n], markers, cameras);
    }
  }

  /** One more observation: `Emit` unfolded once at the end. */
  lemma EmitAppendOne(done: seq<Observation>, o: Observation, markers: MarkerTable, cameras: CameraTable)
    ensures var before := Emit(done, markers, cameras);
            Emit(done + [o], markers, cameras) ==
              if !before.complete || !Joinable(o, markers, cameras) then before
              else match RowFor(o, markers, cameras)
                case None => Emission(before.rows, false)
                case Some(row) => Emission(before.rows + [row], true)
  {
    assert (done + [o])[..|done|] == done;
  }

  /** The walk over one more location of a frame marker whose marker is known, while it has not stopped. */
  lemma EmitNextLocation(done: seq<Observation>, fm: FrameMarker, j: int, markers: MarkerTable, cameras: CameraTable,
                         rows: seq<Row>)
    requires 0 <= j < |fm.locations| && fm.markerId in markers
    requires Emit(done + FrameObservations(fm)[..j], markers, cameras) == Emission(rows, true)
    ensures var loc, now := fm.locations[j], Emit(done + FrameObservations(fm)[..j + 1], markers, cameras);
            var p := markers[fm.markerId];
            (loc.cameraId !in cameras ==> now == Emission(rows, true)) &&
            (loc.cameraId in cameras && (ToFloat(loc.x).None? || ToFloat(loc.y).None?) ==>
               now == Emission(rows, false)) &&
            (loc.cameraId in cameras && ToFloat(loc.x).Some? && ToFloat(loc.y).Some? ==>
               now == Emission(rows + [Row(p.x, p.y, p.z, ToFloat(loc.x).value, ToFloat(loc.y).value, cameras[loc.cameraId])], true))
  {
    var frame := FrameObservations(fm);
    var o := frame[j];
    assert o == Observation(fm.markerId, fm.locations[j]);
    assert done + frame[..j + 1] == (done + frame[..j]) + [o];
    EmitAppendOne(done + frame[..j], o, markers, cameras);
  }

  /** When the walk stops at location `j` of a frame marker, the rest of that frame marker adds nothing. */
  lemma StoppedAtLocation(done: seq<Observation>, fm: FrameMarker, j: int, markers: MarkerTable, cameras: CameraTable)
    requires 0 <= j < |fm.locations|
    requires !Emit(done + FrameObservations(fm)[..j + 1], markers, cameras).complete
    ensures Emit(done + FrameObservations(fm), markers, cameras) == Emit(done + FrameObservations(fm)[..j + 1], markers, cameras)
  {
    var frame := FrameObservations(fm);
    assert done + frame == (done + frame[..j + 1]) + frame[j + 1..];
    EmitStopped(done + frame[..j + 1], frame[j + 1..], markers, cameras);
  }

  /** When the walk stops within frame marker `i`, the whole walk ends there. */
  lemma StoppedInFrame(fms: seq<FrameMarker>, i: int, markers: MarkerTable, cameras: CameraTable)
    requires 0 <= i < |fms|
    requires !Emit(Observations(fms[..i + 1]), markers, cameras).complete
    ensures Emit(Observations(fms), markers, cameras) == Emit(Observations(fms[..i + 1]), markers, cameras)
  {
    ObservationsAppend(fms[..i + 1], fms[i + 1..]);
    assert fms[..i + 1] + fms[i + 1..] == fms;
    EmitStopped(Observations(fms[..i + 1]), Observations(fms[i + 1..]), markers, cameras);
  }

  /** Writing one more row line appends it to the rendered lines. */
  lemma RowLinesAppend(rows: seq<Row>, row: Row, fmt: Formatter)
    ensures RowLines(rows + [row], fmt) == RowLines(rows, fmt) + [RowLine(row, fmt)]
  {
  }

  /**
    * The inner loop at lines 96-104, for a frame marker whose marker is known:
    * for each location whose camera is known, write the row; stops (returning
    * `false`) at the first pixel coordinate `float()` rejects. `done` are the
    * observations walked before this frame marker and `written` the lines
    * written before their rows.
    */
  method WriteLocations(file: GcpFile, frameMarker: FrameMarker, marker: Point, markers: MarkerTable, cameras: CameraTable,
                        fmt: Formatter, ghost done: seq<Observation>, ghost written: seq<string>)
    returns (complete: bool)
    requires frameMarker.markerId in markers && markers[frameMarker.markerId] == marker
    requires Emit(done, markers, cameras).complete
    requires file.lines == written + RowLines(Emit(done, markers, cameras).rows, fmt)
    modifies file
    ensures var e := Emit(done + FrameObservations(frameMarker), markers, cameras);
            complete == e.complete && file.lines == written + RowLines(e.rows, fmt)
  {
    ghost var frame := FrameObservations(frameMarker);
    assert |frame| == |frameMarker.locations|;
    ghost var rows := Emit(done, markers, cameras).rows;
    var j := 0;
    assert done + frame[..j] == done;
    while j < |frameMarker.locations|
      invariant 0 <= j <= |frameMarker.locations|
      invariant Emit(done + frame[..j], markers, cameras) == Emission(rows, true)
      invariant file.lines == written + RowLines(rows, fmt)
    {
      var location := frameMarker.locations[j];
      EmitNextLocation(done, frameMarker, j, markers, cameras, rows);
      if location.cameraId in cameras {
        var pixelX, pixelY := ToFloat(location.x), ToFloat(location.y);
        if pixelX.None? || pixelY.None? {
          StoppedAtLocation(done, frameMarker, j, markers, cameras);
          return false;
        }
        var row := Row(marker.x, marker.y, marker.z, pixelX.value, pixelY.value, cameras[location.cameraId]);
        RowLinesAppend(rows, row, fmt);
        file.Write(RowLine(row, fmt));
        rows := rows + [row];
      }
      j := j + 1;
    }
    assert frame[..j] == frame;
    complete := true;
  }

  /**
    * The nested loop at lines 90-104: for each frame marker whose marker is
    * known, write the rows of its locations whose camera is known; stops
    * (returning `false`) at the first pixel coordinate `float()` rejects,
    * leaving the rows written before it in the file.
    */
  method WriteRows(file: GcpFile, fms: seq<FrameMarker>, markers: MarkerTable, cameras: CameraTable, fmt: Formatter)
    returns (complete: bool)
    modifies file
    ensures var e := Emit(Observations(fms), markers, cameras);
            complete == e.complete && file.lines == old(file.lines) + RowLines(e.rows, fmt)
  {
    var i := 0;
    while i < |fms|
      invariant 0 <= i <= |fms|
      invariant Emit(Observations(fms[..i]), markers, cameras).complete
      invariant file.lines == old(file.lines) + RowLines(Emit(Observations(fms[..i]), markers, cameras).rows, fmt)
    {
      var frameMarker := fms[i];
      ghost var before := Observations(fms[..i]);
      assert fms[..i + 1][..i] == fms[..i];
      assert Observations(fms[..i + 1]) == before + FrameObservations(frameMarker);
      if frameMarker.markerId in markers {
        var marker := markers[frameMarker.markerId];
        var frameComplete := WriteLocations(file, frameMarker, marker, markers, cameras, fmt, before, old(file.lines));
        if !frameComplete {
          StoppedInFrame(fms, i, markers, cameras);
          return false;
        }
      } else {
        EmitSkips(before, FrameObservations(frameMarker), markers, cameras);
      }
      i := i + 1;
    }
    assert fms[..i] == fms;
    complete := true;
  }
}
