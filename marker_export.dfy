/**
  * A Metashape marker export after XML parsing: the elements the converter
  * reads, in document order, with only the attributes it looks at.
  */
module MarkerExport {
  import opened Wrappers

  /**
    * A coordinate attribute: missing, text that `float()` accepts (given by
    * its value), or text that `float()` rejects with a `ValueError`.
    */
  datatype NumberAttr = Absent | Number(value: real) | NotANumber

  /** `float(element.get(name, 0))`: 0 for a missing attribute, `None` where `float()` raises. */
  function ToFloat(a: NumberAttr): Option<real> {
    match a
    case Absent => Some(0.0)
    case Number(v) => Some(v)
    case NotANumber => None
  }

  /** The first `reference` child of a marker: its `x`, `y` and `z` attributes. */
  datatype Reference = Reference(x: NumberAttr, y: NumberAttr, z: NumberAttr)

  /**
    * An element matched by `.//markers/marker`: its `id` attribute and its
    * first `reference` child, if any. The search is over the whole tree, so
    * the `marker` elements under `frames/frame/markers` are among them too;
    * those carry `marker_id` instead of `id`, so their `id` is `None`.
    */
  datatype Marker = Marker(id: Option<string>, reference: Option<Reference>)

  /** An element matched by `.//cameras/camera`: its `id` and `label` attributes (`label` is a Dafny keyword, hence `cameraLabel`). */
  datatype Camera = Camera(id: Option<string>, cameraLabel: Option<string>)

  /** A `location` child of a frame marker: the camera it was seen in and its pixel position. */
  datatype Location = Location(cameraId: Option<string>, x: NumberAttr, y: NumberAttr)

  /** An element matched by `.//frames/frame/markers/marker`: the marker it observes and its locations. */
  datatype FrameMarker = FrameMarker(markerId: Option<string>, locations: seq<Location>)

  /** The three element sequences the converter walks, each in document order. */
  datatype Export = Export(markers: seq<Marker>, cameras: seq<Camera>, frameMarkers: seq<FrameMarker>)
}
