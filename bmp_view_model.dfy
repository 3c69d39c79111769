/**
 * The view model between the window and BMPModel: it normalises the two
 * corners of a drag before filling, and keeps the name of the last file
 * loaded successfully, falling back to it when a load fails.
 */
module BmpViewModel {
  import opened Bytes
  import opened Wrappers
  import Pixels
  import opened BmpFile
  import opened BmpModel

  /** A rectangle given by two corners. */
  datatype Corners = Corners(x1: i32, y1: i32, x2: i32, y2: i32)

  /** The two drag points turned into top-left and bottom-right corners. */
  function Normalised(startX: i32, startY: i32, endX: i32, endY: i32): (r: Corners)
    ensures r.x1 <= r.x2 && r.y1 <= r.y2
    ensures {r.x1, r.x2} == {startX, endX} && {r.y1, r.y2} == {startY, endY}
  {
    Corners(Min(startX, endX), Min(startY, endY), Max(startX, endX), Max(startY, endY))
  }

  /** Dragging from either corner to the other, in any direction, gives the same rectangle. */
  lemma NormalisedSymmetric(startX: i32, startY: i32, endX: i32, endY: i32)
    ensures Normalised(startX, startY, endX, endY) == Normalised(endX, endY, startX, startY)
    ensures Normalised(startX, startY, endX, endY) == Normalised(endX, startY, startX, endY)
    ensures Normalised(startX, startY, endX, endY) == Normalised(startX, endY, endX, startY)
  {
  }

  /** A pixel is filled by a drag exactly when it lies between the two drag points, each axis half-open at the larger end. */
  lemma NormalisedCovers(startX: i32, startY: i32, endX: i32, endY: i32, width: int, height: int, i: int, j: int)
    ensures var c := Normalised(startX, startY, endX, endY);
      Pixels.InRectangle(width, height, c.x1, c.y1, c.x2, c.y2, i, j) <==>
        ((startX <= i < endX || endX <= i < startX) && (startY <= j < endY || endY <= j < startY) &&
         0 <= i < width && 0 <= j < height)
  {
  }

  class BMPViewModel {
    var bmp: BMPModel
    var bmpResource: string

    /** A fresh model; the resource name is its (empty) file name. */
    constructor()
      ensures fresh(bmp) && fresh(bmp.pixelData)
      ensures bmpResource == "" && bmp.fileName == "" && bmp.State() == EmptyImage
    {
      var model := new BMPModel();
      bmp := model;
      bmpResource := model.fileName;
    }

    /** The model's header, as the window shows it. */
    function BMPHeaderInfo(): Header
      reads this, bmp
    {
      bmp.header
    }

    /** The fill of the rectangle between two drag points; false where the model's fill throws. */
    method DrawRectangle(startX: i32, startY: i32, endX: i32, endY: i32) returns (ok: bool)
      modifies bmp.pixelData
      ensures var c := Normalised(startX, startY, endX, endY);
        (ok <==> Pixels.Fits(bmp.header.width, bmp.header.height, c.x1, c.y1, c.x2, c.y2, bmp.pixelData.Length)) &&
        (ok ==> (bmp.pixelData[..] ==
          Pixels.Filled(old(bmp.pixelData[..]), bmp.header.width, bmp.header.height, c.x1, c.y1, c.x2, c.y2)))
      ensures var c := Normalised(startX, startY, endX, endY);
        !ok ==> exists i, j :: (Pixels.InRectangle(bmp.header.width, bmp.header.height, c.x1, c.y1, c.x2, c.y2, i, j) &&
          Pixels.FitsBefore(bmp.header.width, bmp.header.height, c.x1, c.y1, c.x2, c.y2, i, j, bmp.pixelData.Length) &&
          !(0 <= Pixels.StorageIndex(bmp.header.width, bmp.header.height, i, j) < bmp.pixelData.Length) &&
          bmp.pixelData[..] ==
            Pixels.FilledBefore(old(bmp.pixelData[..]), bmp.header.width, bmp.header.height, c.x1, c.y1, c.x2, c.y2, i, j))
      ensures Pixels.ImageBuffer(bmp.header.width, bmp.header.height, bmp.pixelData.Length) ==> ok
    {
      var correctedStartX := Min(startX, endX);
      var correctedStartY := Min(startY, endY);
      var correctedEndX := Max(startX, endX);
      var correctedEndY := Max(startY, endY);
      assert Normalised(startX, startY, endX, endY) == Corners(correctedStartX, correctedStartY, correctedEndX, correctedEndY);
      ok := bmp.DrawRectangle(correctedStartX, correctedStartY, correctedEndX, correctedEndY);
    }

    method InvertBrightness()
      modifies bmp.pixelData
      ensures bmp.pixelData[..] == Pixels.Inverted(old(bmp.pixelData[..]))
    {
      bmp.InvertBrightness();
    }

    /**
     * Loads `name` into a new model.  On success the resource name becomes
     * the file name; when the read returns false, the same model reads the
     * previous resource again and the call throws; when the file cannot be
     * opened the call throws at once.  `ok` is false exactly when it throws.
     */
    method ReadBMP(name: string, fs: map<string, seq<byte>>) returns (ok: bool)
      modifies this
      ensures fresh(bmp)
      ensures ok <==> name in fs && Read(EmptyImage, fs[name]).ok
      ensures ok ==> bmpResource == name && bmp.fileName == name && bmp.State() == Read(EmptyImage, fs[name]).image
      ensures !ok ==> bmpResource == old(bmpResource)
      ensures name !in fs ==> bmp.fileName == name && bmp.State() == EmptyImage
      ensures name in fs && !Read(EmptyImage, fs[name]).ok ==>
        var first := Read(EmptyImage, fs[name]).image;
        bmp.fileName == old(bmpResource) &&
        bmp.State() == (if old(bmpResource) in fs then Read(first, fs[old(bmpResource)]).image else first)
    {
      bmp := new BMPModel();
      var r := bmp.ReadBMP(name, fs);
      if r == Threw {
        return false;
      }
      if !r.ok {
        var _ := bmp.ReadBMP(bmpResource, fs);
        return false;
      }
      bmpResource := bmp.fileName;
      ok := true;
    }

    /** Writes the model to `name`; false (the call throws) exactly when the model's write fails. */
    method WriteBMP(name: string, fs: map<string, seq<byte>>) returns (ok: bool, fs': map<string, seq<byte>>)
      ensures var w := Write(bmp.State());
        ok == w.Some? && fs' == fs[name := if ok then w.value else []]
    {
      ok, fs' := bmp.WriteBMP(name, fs);
    }

    method UpdateBMPImage() returns (display: Option<seq<byte>>)
      ensures display == DisplayBytes(bmp.header, bmp.pixelData[..])
    {
      display := bmp.UpdateBMPImage();
    }
  }
}
