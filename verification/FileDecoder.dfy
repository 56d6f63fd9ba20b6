/** The decoder's run over a whole file, from its first byte to the planes. */
module FileDecoder {
  import opened Picture
  import opened ProgressivePicture
  import opened JpegFile
  import opened PictureDecoder
  import opened ProgressiveDecoder
  import opened Bits
  import M = Markers
  import F = Frames

  /** The next scan, by the kind of the image. */
  method OneOf(j: M.Decoder, m: F.Image, mode: Mode, planes: seq<Plane>) returns (v: Verdict, next: seq<Plane>, mark: Byte)
    requires GoodImage(m) && |planes| == |m.planes|
    modifies j`pos, j`marker
    ensures match NextScan(mode, j.data, old(j.pos), j.tables, m, planes)
            case BadScan => v.Refused?
            case VagueScan => true
            case Placed(ps, mk, pos) => v.Accepted? && next == ps && mark == mk && j.pos == pos
    ensures v.Accepted? ==> j.marker == M.NONE && |next| == |planes| && old(j.pos) < |j.data| && old(j.pos) < j.pos
  {
    hide GoodImage, DecodeScan, DecodePass;
    match mode {
      case Sequential => v, next, mark := OneScan(j, m, planes);
      case Progressive(mem) => v, next, mark := OnePass(j, m, mem, planes);
    }
  }

  /** The loop over the scans of an image. */
  method ScanLoop(j: M.Decoder, image: F.Image, mode: Mode, first: Byte, empty: seq<Plane>) returns (v: Verdict, planes: seq<Plane>)
    requires M.Shaped(j.tables) && GoodImage(image) && |empty| == |image.planes| && j.marker == M.NONE
    modifies j`pos, j`marker, j`tables
    ensures match ScansFrom(j.data, old(j.pos), first, old(j.tables), image, mode, empty)
            case Picture(ps) => v.Accepted? && planes == ps
            case NoPicture => v.Refused?
            case Vague => true
  {
    hide M.Shaped, GoodImage, NextScan, FinishedPlanes, M.Process, M.MarkerAt;
    planes := empty;
    var mark := first;
    ghost var goal := ScansFrom(j.data, j.pos, first, j.tables, image, mode, empty);
    while mark != 0xd9
      invariant M.Shaped(j.tables) && |planes| == |image.planes| && j.marker == M.NONE
      invariant goal.Vague? || goal == ScansFrom(j.data, j.pos, mark, j.tables, image, mode, planes)
      decreases |j.data| - j.pos
    {
      ghost var p := j.pos;
      if mark == 0xda {
        v, planes, mark := OneOf(j, image, mode, planes);
        if !v.Accepted? {
          return;
        }
      } else if mark == 0xdc {
        CountFields(j.data, p);
        var announced := j.Get16();
        var lines := j.Get16();
        if announced != 4 {
          return Refused, planes;
        }
        if lines != image.y {
          return Refused, planes;
        }
        mark := j.GetMarker();
        MarkMoves(j.data, M.Adv(j.data, p, 4));
      } else {
        ghost var t := j.tables;
        var ok := j.ProcessMarker(mark);
        if !ok {
          if mode.Progressive? {
            planes := NoBlocks(|planes|);
          }
          return Accepted, planes;
        }
        M.Progress(j.data, p, mark, t);
        ghost var q := j.pos;
        mark := j.GetMarker();
        MarkMoves(j.data, q);
      }
    }
    v := Accepted;
    if mode.Progressive? {
      planes := Finish(planes, mode.mem, image, j.tables);
    }
  }

  lemma MarkMoves(d: seq<Byte>, p: nat)
    ensures M.MarkerAt(d, p).1 >= p
  {
  }

  lemma CountFields(d: seq<Byte>, p: nat)
    ensures M.Word(d, M.Adv(d, p, 2)) == M.Word(d, p + 2) && M.Adv(d, M.Adv(d, p, 2), 2) == M.Adv(d, p, 4)
    ensures M.Word(d, p) == 4 ==> p < |d| && M.Adv(d, p, 4) > p
  {
    M.AdvFacts(d, p, 2, 2);
    M.AdvFacts(d, p, 2, 0);
    M.AdvFacts(d, p, 2, 1);
  }

  /** A whole file: decoding agrees with the specification on every byte sequence,
      and fails where it does. */
  method DecodePicture(d: seq<Byte>, mem: Memory) returns (v: Verdict, planes: seq<Plane>)
    ensures match DecodeFile(d, mem)
            case Picture(ps) => v.Accepted? && planes == ps
            case NoPicture => v.Refused?
            case Vague => true
  {
    hide M.Shaped, M.HeaderFrom, ScansFrom, F.FrameReadable, F.ImageAt, M.MarkerAt, GoodImage;
    planes := [];
    var j := new M.Decoder(d);
    assert j.tables.(jfif := false, app14 := -1) == M.NoTables();
    var ok, kind, segments := j.DecodeHeader();
    if !ok {
      return Refused, planes;
    }
    ghost var p := j.pos;
    var m;
    ok, m := F.ProcessFrameHeader(j);
    if !ok {
      return Refused, planes;
    }
    AcceptedIsGood(d, p);
    var mark := j.GetMarker();
    v, planes := ScanLoop(j, m, if kind == 0xc2 then Progressive(mem) else Sequential, mark, NoBlocks(|m.planes|));
  }
}
