/**
 * The request records of the Video4Linux2 API that the capture program fills
 * in before handing them to the driver, and the four-character pixel format
 * codes it prints.
 *
 * Only the fields the program touches are modelled. The numeric values of
 * the V4L2 constants are those of linux/videodev2.h.
 */
module V4l2 {

  /** An unsigned 32-bit C integer (`__u32`). */
  newtype u32 = x: int | 0 <= x < 0x1_0000_0000

  /** A C pointer argument that may be NULL. */
  datatype Ptr<T> = Null | Ptr(deref: T)

  /** What a setup helper leaves behind: its C status (0 or -1) and its out-struct. */
  datatype Filled<T> = Filled(status: int, target: Ptr<T>)

  const BUF_TYPE_VIDEO_CAPTURE: u32 := 1
  const MEMORY_MMAP: u32 := 1
  const FIELD_NONE: u32 := 1

  /** `struct v4l2_format` restricted to its single-planar `pix` member. */
  datatype Format = Format(
    bufType: u32,
    width: u32,
    height: u32,
    pixelFormat: bv32,
    field: u32,
    bytesPerLine: u32,
    sizeImage: u32,
    colorspace: u32)

  /** `struct v4l2_requestbuffers`. */
  datatype Request = Request(count: u32, bufType: u32, memory: u32, capabilities: u32)

  /** `struct v4l2_streamparm` restricted to the capture time-per-frame; all other fields are zero. */
  datatype StreamParm = StreamParm(bufType: u32, numerator: u32, denominator: u32)

  /** The `v4l2_fourcc` macro: four characters packed little-endian into one code. */
  function Fourcc(a: bv8, b: bv8, c: bv8, d: bv8): bv32
  {
    (a as bv32) | ((b as bv32) << 8) | ((c as bv32) << 16) | ((d as bv32) << 24)
  }

  /** `V4L2_PIX_FMT_MJPEG`, the code of the characters "MJPG". */
  const PIX_FMT_MJPEG: bv32 := Fourcc(0x4D, 0x4A, 0x50, 0x47)

  /**
   * The four characters PrintSetup prints for a pixel format code: the low
   * byte first, then each next byte shifted down and masked.
   * Decoding inverts the `v4l2_fourcc` packing.
   */
  function FourccChars(code: bv32): (r: seq<bv8>)
    ensures |r| == 4
    ensures Fourcc(r[0], r[1], r[2], r[3]) == code
  {
    [(code & 0xFF) as bv8,
     ((code >> 8) & 0xFF) as bv8,
     ((code >> 16) & 0xFF) as bv8,
     ((code >> 24) & 0xFF) as bv8]
  }

  /** Packing then decoding gives back the four characters. */
  lemma FourccCharsOfFourcc(a: bv8, b: bv8, c: bv8, d: bv8)
    ensures FourccChars(Fourcc(a, b, c, d)) == [a, b, c, d]
  {
  }

  /** The MJPEG code the program requests prints as "MJPG". */
  lemma MjpegPrintsAsMJPG()
    ensures FourccChars(PIX_FMT_MJPEG) == [0x4D, 0x4A, 0x50, 0x47]
  {
    FourccCharsOfFourcc(0x4D, 0x4A, 0x50, 0x47);
  }

  /** The format request SetupFormat produces for a valid call. */
  predicate IsMjpegCapture(f: Format, width: u32, height: u32)
  {
    f.bufType == BUF_TYPE_VIDEO_CAPTURE && f.width == width && f.height == height
    && f.pixelFormat == PIX_FMT_MJPEG && f.field == FIELD_NONE
  }

  /** The fields of a format that SetupFormat does not set. */
  predicate SameUnsetFields(before: Format, after: Format)
  {
    after.bytesPerLine == before.bytesPerLine && after.sizeImage == before.sizeImage
    && after.colorspace == before.colorspace
  }

  /**
   * SetupFormat: rejects a NULL format or a zero width or height with -1 and
   * leaves the struct alone; otherwise it asks for an MJPEG capture of exactly
   * the given size with no field order and touches nothing else.
   */
  function SetupFormat(fmt: Ptr<Format>, width: u32, height: u32): (r: Filled<Format>)
    ensures r.status == -1 || r.status == 0
    ensures r.status == -1 <==> fmt.Null? || width == 0 || height == 0
    ensures r.status == -1 ==> r.target == fmt
    ensures r.status == 0 ==>
      r.target.Ptr? && IsMjpegCapture(r.target.deref, width, height)
      && SameUnsetFields(fmt.deref, r.target.deref)
  {
    if fmt.Null? || width == 0 || height == 0 then Filled(-1, fmt)
    else
      Filled(0, Ptr(fmt.deref.(bufType := BUF_TYPE_VIDEO_CAPTURE, width := width, height := height,
                               pixelFormat := PIX_FMT_MJPEG, field := FIELD_NONE)))
  }

  /**
   * SetupBufferRequest: rejects a NULL request or a zero count with -1;
   * otherwise asks for exactly that many memory-mapped capture buffers.
   */
  function SetupBufferRequest(req: Ptr<Request>, requested: u32): (r: Filled<Request>)
    ensures r.status == -1 || r.status == 0
    ensures r.status == -1 <==> req.Null? || requested == 0
    ensures r.status == -1 ==> r.target == req
    ensures r.status == 0 ==>
      r.target.Ptr? && r.target.deref.count == requested
      && r.target.deref.bufType == BUF_TYPE_VIDEO_CAPTURE && r.target.deref.memory == MEMORY_MMAP
      && r.target.deref.capabilities == req.deref.capabilities
  {
    if req.Null? || requested == 0 then Filled(-1, req)
    else Filled(0, Ptr(req.deref.(count := requested, bufType := BUF_TYPE_VIDEO_CAPTURE, memory := MEMORY_MMAP)))
  }

  /**
   * SetupFrameRate: sends a capture time-per-frame of numerator/denominator
   * (all other fields zero) with VIDIOC_S_PARM; `accepted` is the driver's
   * answer to that ioctl. Returns 0 exactly when the driver accepted it.
   */
  function SetupFrameRate(accepted: StreamParm -> bool, numerator: u32, denominator: u32): (r: int)
    ensures r == 0 || r == -1
    ensures r == 0 <==> accepted(StreamParm(BUF_TYPE_VIDEO_CAPTURE, numerator, denominator))
  {
    if accepted(StreamParm(BUF_TYPE_VIDEO_CAPTURE, numerator, denominator)) then 0 else -1
  }
}
