/**
  * The GCP text file: a header line holding the projection definition, then
  * one tab-separated line per marker observation, written to a file opened
  * for writing.
  */
module GcpFormat {
  import Strings

  /**
    * Fixed-point formatting of a coordinate with the given number of digits
    * after the point (Python's `f"{v:.9f}"`, `f"{v:.6f}"`).
    */
  type Formatter = (real, nat) -> string

  /** Digits after the point for world coordinates and for pixel coordinates. */
  const WorldDigits: nat := 9
  const PixelDigits: nat := 6

  /** A formatted number never contains a tab, so it stays one field. */
  ghost predicate TabFree(fmt: Formatter) {
    forall v, digits :: '\t' !in fmt(v, digits)
  }

  /** One output row: the marker's world coordinates, the pixel position and the image name. */
  datatype Row = Row(x: real, y: real, z: real, pixelX: real, pixelY: real, imageName: string)

  /** The first line: the projection definition, a tab and a newline. */
  function HeaderLine(definition: string): string {
    definition + "\t\n"
  }

  /** The six fields of a row in output order, each number formatted. */
  function RowFields(row: Row, fmt: Formatter): seq<string> {
    [fmt(row.x, WorldDigits), fmt(row.y, WorldDigits), fmt(row.z, WorldDigits),
     fmt(row.pixelX, PixelDigits), fmt(row.pixelY, PixelDigits), row.imageName]
  }

  /** A row as a line: the six fields separated by tabs, and a newline. */
  function RowLine(row: Row, fmt: Formatter): string {
    Strings.Join(RowFields(row, fmt), '\t') + "\n"
  }

  function RowLines(rows: seq<Row>, fmt: Formatter): seq<string> {
    seq(|rows|, i requires 0 <= i < |rows| => RowLine(rows[i], fmt))
  }

  /** The fields of a line as a reader splits them: one trailing newline removed, then split at each tab. */
  function Fields(line: string): seq<string> {
    if |line| > 0 && line[|line| - 1] == '\n' then Strings.Split(line[..|line| - 1], '\t')
    else Strings.Split(line, '\t')
  }

  /**
    * A row line reads back as exactly six fields: the three world
    * coordinates, the two pixel coordinates and the image name, when the
    * image name holds no tab.
    */
  lemma RowLineFields(row: Row, fmt: Formatter)
    requires TabFree(fmt) && '\t' !in row.imageName
    ensures Fields(RowLine(row, fmt)) ==
              [fmt(row.x, WorldDigits), fmt(row.y, WorldDigits), fmt(row.z, WorldDigits),
               fmt(row.pixelX, PixelDigits), fmt(row.pixelY, PixelDigits), row.imageName]
  {
    var line := RowLine(row, fmt);
    assert line[..|line| - 1] == Strings.Join(RowFields(row, fmt), '\t');
    Strings.SplitJoin(RowFields(row, fmt), '\t');
  }

  /** The header reads back as the definition and an empty second field, when the definition holds no tab. */
  lemma HeaderLineFields(definition: string)
    requires '\t' !in definition
    ensures Fields(HeaderLine(definition)) == [definition, ""]
  {
    var line := HeaderLine(definition);
    assert line[..|line| - 1] == definition + "\t" + "";
    Strings.SplitLeadingField(definition, '\t', "");
  }

  /** The output file, opened for writing: the lines written to it so far. */
  class GcpFile {
    var lines: seq<string>

    /** `open(path, 'w')`: the file starts out empty. */
    constructor Open()
      ensures lines == []
    {
      lines := [];
    }

    /** `f.write(line)`: appends one line. */
    method Write(line: string)
      modifies this
      ensures lines == old(lines) + [line]
    {
      lines := lines + [line];
    }
  }
}
