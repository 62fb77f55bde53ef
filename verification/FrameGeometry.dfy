/** The picture sizes of v4l2-imposter/frame_geometry.h. Sizes are unbounded naturals. */
module FrameGeometry {

  datatype PixelFormat = NV12 | YUYV | MJPEG | JPEG

  /** The exact size of a picture, or 0 when the format has no fixed length. */
  function WholeFrameBytes(format: PixelFormat, width: nat, height: nat): nat {
    match format
    case NV12 => width * height * 3 / 2
    case YUYV => width * height * 2
    case _ => 0
  }

  function CaptureBufferBytes(format: PixelFormat, width: nat, height: nat): nat {
    var fixedLength := WholeFrameBytes(format, width, height);
    if fixedLength > 0 then fixedLength else width * height * 2
  }

  predicate FrameReadIsWhole(expectedBytes: nat, bytesRead: nat) {
    if expectedBytes == 0 then bytesRead > 0 else bytesRead == expectedBytes
  }

  /** For a fixed-length format the buffer holds one picture exactly: a full read is the only whole one. */
  lemma FixedBufferIsOnePicture(format: PixelFormat, width: nat, height: nat, bytesRead: nat)
    requires (format == NV12 || format == YUYV) && width > 0 && height > 0
    requires bytesRead <= CaptureBufferBytes(format, width, height)
    ensures 0 < WholeFrameBytes(format, width, height) == CaptureBufferBytes(format, width, height)
    ensures FrameReadIsWhole(WholeFrameBytes(format, width, height), bytesRead)
       <==> bytesRead == CaptureBufferBytes(format, width, height)
  {
    assert width * height >= 1 by {
      assert width * height >= 1 * height;
    }
  }

  /** `rows` rows of `bytes` bytes each. */
  function Plane(bytes: nat, rows: nat): nat {
    if rows == 0 then 0 else bytes + Plane(bytes, rows - 1)
  }

  lemma {:induction false} PlaneIsArea(bytes: nat, rows: nat)
    ensures Plane(bytes, rows) == bytes * rows
  {
    if rows > 0 {
      PlaneIsArea(bytes, rows - 1);
      assert bytes * rows == bytes + bytes * (rows - 1);
    }
  }

  lemma Doubled(a: nat, b: nat)
    ensures a * (2 * b) == 2 * (a * b) == 2 * a * b
  {
  }

  lemma HalfAgain(pixels: nat, half: nat)
    requires pixels == 2 * half
    ensures pixels * 3 / 2 == pixels + half
  {
  }

  /**
   * Row by row: a YUYV picture has two bytes a pixel; an NV12 picture has a full brightness plane and, for
   * an even height, a colour plane of half as many rows.
   */
  lemma PictureIsItsPlanes(width: nat, height: nat, half: nat)
    ensures WholeFrameBytes(YUYV, width, height) == Plane(2 * width, height)
    ensures height == 2 * half ==> WholeFrameBytes(NV12, width, height) == Plane(width, height) + Plane(width, half)
    ensures WholeFrameBytes(MJPEG, width, height) == 0 == WholeFrameBytes(JPEG, width, height)
  {
    PlaneIsArea(2 * width, height);
    Doubled(width, height);
    if height == 2 * half {
      PlaneIsArea(width, height);
      PlaneIsArea(width, half);
      Doubled(width, half);
      HalfAgain(width * height, width * half);
    }
  }
}
