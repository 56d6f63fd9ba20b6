/** A whole file, sequential or progressive: which blocks of which planes decoding it
    leaves, from its first byte to the last marker. */
module JpegFile {
  import opened Bits
  import opened Picture
  import opened ProgressivePicture
  import M = Markers
  import F = Frames

  /** Progressive images keep their coefficients until the end, in planes that are not
      cleared at first. */
  datatype Mode = Sequential | Progressive(mem: Memory)

  datatype Outcome =
    | Picture(planes: seq<Plane>)   // the blocks that the inverse transform gets
    | NoPicture
    | Vague                         // undefined tables, or data that ends inside a scan

  ghost function NextScan(mode: Mode, d: seq<Byte>, p: nat, t: M.Tables, m: F.Image, planes: seq<Plane>): (r: ScanStep)
    requires GoodImage(m) && |planes| == |m.planes|
    ensures r.Placed? ==> |r.planes| == |planes| && p < |d| && p < r.pos <= |d|
  {
    match mode
    case Sequential => DecodeScan(d, p, t, m, planes)
    case Progressive(mem) => DecodePass(d, p, t, m, mem, planes)
  }

  /** The blocks at the end of the image. */
  ghost function AtEnd(mode: Mode, t: M.Tables, m: F.Image, planes: seq<Plane>): (r: seq<Plane>)
    requires GoodImage(m) && M.Shaped(t) && |planes| == |m.planes|
    ensures |r| == |planes|
  {
    match mode
    case Sequential => planes
    case Progressive(mem) => FinishedPlanes(planes, mem, m, t)
  }

  /** The blocks when a segment is refused: a progressive image has none yet. */
  ghost function AtRefusal(mode: Mode, planes: seq<Plane>): (r: seq<Plane>)
    ensures |r| == |planes|
  {
    if mode.Sequential? then planes else NoBlocks(|planes|)
  }

  function NoBlocks(n: nat): (r: seq<Plane>)
    ensures |r| == n
  {
    seq(n, _ => map[])
  }

  /** The loop of stbi__decode_jpeg_image over scans, tables and line counts, from
      marker m on.  A segment that is refused ends the image without an error. */
  ghost function ScansFrom(d: seq<Byte>, p: nat, m: Byte, t: M.Tables, image: F.Image, mode: Mode, planes: seq<Plane>): Outcome
    requires M.Shaped(t) && GoodImage(image) && |planes| == |image.planes|
    decreases |d| - p
  {
    if m == 0xd9 then Picture(AtEnd(mode, t, image, planes))
    else if m == 0xda then
      var r := NextScan(mode, d, p, t, image, planes);
      match r
      case BadScan => NoPicture
      case VagueScan => Vague
      case Placed(next, mark, pos) => ScansFrom(d, pos, mark, t, image, mode, next)
    else if m == 0xdc then
      if M.Word(d, p) != 4 || M.Word(d, p + 2) != image.y then NoPicture else
      var (mark, pos) := M.MarkerAt(d, M.Adv(d, p, 4));
      ScansFrom(d, pos, mark, t, image, mode, planes)
    else
      var s := M.Process(d, p, m, t);
      if s.Fail? then Picture(AtRefusal(mode, planes)) else
      M.SegmentIsFramed(d, p, m, t);
      var (mark, pos) := M.MarkerAt(d, s.pos);
      ScansFrom(d, pos, mark, s.tables, image, mode, planes)
  }

  lemma AcceptedIsGood(d: seq<Byte>, p: nat)
    requires F.FrameReadable(d, p)
    ensures GoodImage(F.ImageAt(d, p))
  {
    var m := F.ImageAt(d, p);
    forall i | 0 <= i < |m.planes|
      ensures AxisX(m, i).Valid() && AxisY(m, i).Valid()
    {
      F.AcceptedAxes(d, p, i);
    }
  }

  /** A file from its first byte: start marker, segments, frame, scans. */
  ghost function DecodeFile(d: seq<Byte>, mem: Memory): Outcome
  {
    var (soi, p) := M.MarkerAt(d, 0);
    if soi != 0xd8 then NoPicture else
    var (first, q) := M.MarkerAt(d, p);
    var h := M.HeaderFrom(d, q, first, M.NoTables());
    if h.NoFrame? then NoPicture
    else if !F.FrameReadable(d, h.pos) then NoPicture
    else
      AcceptedIsGood(d, h.pos);
      var m := F.ImageAt(d, h.pos);
      var (mark, pos) := M.MarkerAt(d, M.Adv(d, h.pos, 8 + 3 * |m.planes|));
      ScansFrom(d, pos, mark, h.tables, m, if h.kind == 0xc2 then Progressive(mem) else Sequential, NoBlocks(|m.planes|))
  }
}
