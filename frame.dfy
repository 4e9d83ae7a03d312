/**
 * Model of `yuv420ToVideoFrame` (src/utils/frame.ts): the plane offsets and strides of a
 * contiguous I420 buffer (VideoPixelFormat "I420" of the W3C WebCodecs specification, section
 * "Pixel Format") and the VideoFrameBufferInit dictionary built around them.
 *
 * JavaScript numbers become naturals. For an odd width or height `width / 2` is fractional in
 * JavaScript, so every member here asks for even dimensions. The `VideoFrame` constructor and
 * `performance.now()` are host APIs: the first becomes the `VideoFrame` datatype (what the
 * constructor is handed), the second a parameter `now`.
 */
module Frame {
  import opened Wrappers

  /** The three planes of an I420 frame, in buffer order. */
  datatype Plane = Y | U | V

  /** One entry of the WebCodecs `PlaneLayout` array. */
  datatype PlaneLayout = PlaneLayout(offset: nat, stride: nat)

  /** The `VideoFrameBufferInit` dictionary. */
  datatype BufferInit = BufferInit(
    timestamp: real,
    codedHeight: nat,
    codedWidth: nat,
    format: string,
    layout: seq<PlaneLayout>)

  /** What `new VideoFrame(data, init)` is handed: the bytes it reads and the init dictionary. */
  datatype VideoFrame = VideoFrame(data: seq<bv8>, init: BufferInit)

  /** A `Uint8Array`: a window of `length` bytes at `byteOffset` in the ArrayBuffer `buffer`. */
  datatype Uint8View = Uint8View(buffer: seq<bv8>, byteOffset: nat, length: nat)
  {
    predicate Valid() { byteOffset + length <= |buffer| }

    /** The bytes the view shows. */
    function Bytes(): (b: seq<bv8>)
      requires Valid()
      ensures |b| == length
      ensures forall i :: 0 <= i < length ==> b[i] == buffer[byteOffset + i]
    {
      buffer[byteOffset..byteOffset + length]
    }
  }

  predicate EvenDimensions(width: nat, height: nat) {
    width % 2 == 0 && height % 2 == 0
  }

  // ---------------------------------------------------------------------------------------------
  // Reference definition of a packed I420 buffer: luma at full resolution, each chroma plane
  // subsampled by two in both directions, rows packed (stride == plane width), planes Y, U, V
  // packed one after another from offset 0.

  function Index(p: Plane): nat {
    match p
    case Y => 0
    case U => 1
    case V => 2
  }

  function PlaneWidth(p: Plane, width: nat): nat {
    if p == Y then width else width / 2
  }

  function PlaneHeight(p: Plane, height: nat): nat {
    if p == Y then height else height / 2
  }

  function PlaneSize(p: Plane, width: nat, height: nat): nat {
    PlaneWidth(p, width) * PlaneHeight(p, height)
  }

  /** Bytes in a 4:2:0 picture: one and a half per luma sample. */
  function FrameSize(width: nat, height: nat): nat {
    width * height * 3 / 2
  }

  /** `layout` describes the planes of a packed I420 buffer of the given dimensions. */
  ghost predicate IsPackedI420(layout: seq<PlaneLayout>, width: nat, height: nat) {
    && |layout| == 3
    && layout[0].stride == PlaneWidth(Y, width)
    && layout[1].stride == PlaneWidth(U, width)
    && layout[2].stride == PlaneWidth(V, width)
    && layout[0].offset == 0
    && layout[1].offset == layout[0].offset + PlaneHeight(Y, height) * layout[0].stride
    && layout[2].offset == layout[1].offset + PlaneHeight(U, height) * layout[1].stride
    && layout[2].offset + PlaneHeight(V, height) * layout[2].stride == FrameSize(width, height)
  }

  // ---------------------------------------------------------------------------------------------
  // The computation of src/utils/frame.ts.

  /** The `layout` array: sizes, offsets and strides as the source computes them. */
  function Layout(width: nat, height: nat): (layout: seq<PlaneLayout>)
    requires EvenDimensions(width, height)
    ensures IsPackedI420(layout, width, height)
  {
    var ySize := width * height;
    var uSize := (width / 2) * (height / 2);
    var yOffset := 0;
    var uOffset := yOffset + ySize;
    var vOffset := uOffset + uSize;
    LayoutFillsFrame(width, height);
    [PlaneLayout(yOffset, width), PlaneLayout(uOffset, width / 2), PlaneLayout(vOffset, width / 2)]
  }

  /** Luma plus two quarter-size chroma planes is exactly FrameSize. */
  lemma LayoutFillsFrame(width: nat, height: nat)
    requires EvenDimensions(width, height)
    ensures width * height + (width / 2) * (height / 2) + (width / 2) * (height / 2) == FrameSize(width, height)
  {
    var a, b := width / 2, height / 2;
    assert width * height == 4 * (a * b) by {
      assert width == 2 * a && height == 2 * b;
    }
  }

  /** The init dictionary; the clock reading `now` is used only when no timestamp is supplied. */
  function MakeInit(width: nat, height: nat, timestamp: Option<real>, now: real): (init: BufferInit)
    requires EvenDimensions(width, height)
    ensures init.codedWidth == width && init.codedHeight == height && init.format == "I420"
    ensures timestamp.Some? ==> init.timestamp == timestamp.value
    ensures timestamp.None? ==> init.timestamp == now
    ensures IsPackedI420(init.layout, width, height)
  {
    BufferInit(
      if timestamp.Some? then timestamp.value else now,
      height,
      width,
      "I420",
      Layout(width, height))
  }

  /**
   * `yuv420ToVideoFrame` as written: the frame is handed `yuv420.buffer`, the view's whole
   * underlying ArrayBuffer, with plane offsets counted from the start of that buffer.
   */
  function Yuv420ToVideoFrame(yuv420: Uint8View, width: nat, height: nat, timestamp: Option<real>, now: real): (f: VideoFrame)
    requires yuv420.Valid() && EvenDimensions(width, height)
    ensures f.data == yuv420.buffer
    ensures f.init == MakeInit(width, height, timestamp, now)
  {
    VideoFrame(yuv420.buffer, MakeInit(width, height, timestamp, now))
  }

  /**
   * `yuv420ToVideoFrame` as evidently intended: the frame is handed the bytes the view shows
   * (`yuv420.slice()`), so plane offsets count from the view's first byte.
   */
  function Yuv420ToVideoFrameFromView(yuv420: Uint8View, width: nat, height: nat, timestamp: Option<real>, now: real): (f: VideoFrame)
    requires yuv420.Valid() && EvenDimensions(width, height)
    ensures f.data == yuv420.Bytes()
    ensures f.init == MakeInit(width, height, timestamp, now)
  {
    VideoFrame(yuv420.Bytes(), MakeInit(width, height, timestamp, now))
  }

  // ---------------------------------------------------------------------------------------------
  // Properties of the layout.

  /** Byte `k` of the buffer belongs to plane `p`. */
  ghost predicate InPlane(width: nat, height: nat, p: Plane, k: int)
    requires EvenDimensions(width, height)
  {
    var l := Layout(width, height)[Index(p)];
    l.offset <= k < l.offset + PlaneSize(p, width, height)
  }

  /** Offsets strictly increase and the last plane ends inside the frame. */
  lemma OffsetsIncrease(width: nat, height: nat)
    requires EvenDimensions(width, height) && width > 0 && height > 0
    ensures var l := Layout(width, height);
      l[0].offset < l[1].offset < l[2].offset < FrameSize(width, height)
  {
    var a, b := width / 2, height / 2;
    assert a >= 1 && b >= 1;
    assert a * b >= 1 by {
      assert a * b >= 1 * b;
    }
    assert width * height == 4 * (a * b) by {
      assert width == 2 * a && height == 2 * b;
    }
  }

  /** The three planes tile [0, FrameSize) with no gap and no overlap. */
  lemma PlanesTile(width: nat, height: nat, k: int)
    requires EvenDimensions(width, height)
    ensures 0 <= k < FrameSize(width, height) <==> InPlane(width, height, Y, k) || InPlane(width, height, U, k) || InPlane(width, height, V, k)
    ensures !(InPlane(width, height, Y, k) && InPlane(width, height, U, k))
    ensures !(InPlane(width, height, Y, k) && InPlane(width, height, V, k))
    ensures !(InPlane(width, height, U, k) && InPlane(width, height, V, k))
  {
    var l := Layout(width, height);
    assert PlaneSize(Y, width, height) == PlaneHeight(Y, height) * l[0].stride;
    assert PlaneSize(U, width, height) == PlaneHeight(U, height) * l[1].stride;
    assert PlaneSize(V, width, height) == PlaneHeight(V, height) * l[2].stride;
  }

  /** Where sample (x, y) of plane `p` lives: row-major with the plane's stride. */
  function SampleOffset(width: nat, height: nat, p: Plane, x: nat, y: nat): nat
    requires EvenDimensions(width, height)
  {
    var l := Layout(width, height)[Index(p)];
    l.offset + y * l.stride + x
  }

  /** Each plane ends inside the frame. */
  lemma PlaneWithinFrame(width: nat, height: nat, p: Plane)
    requires EvenDimensions(width, height)
    ensures Layout(width, height)[Index(p)].offset + PlaneSize(p, width, height) <= FrameSize(width, height)
  {
    var l := Layout(width, height);
    assert PlaneSize(Y, width, height) == PlaneHeight(Y, height) * l[0].stride;
    assert PlaneSize(U, width, height) == PlaneHeight(U, height) * l[1].stride;
    assert PlaneSize(V, width, height) == PlaneHeight(V, height) * l[2].stride;
  }

  /** Every sample of a plane lies inside that plane's bytes. */
  lemma SampleInPlane(width: nat, height: nat, p: Plane, x: nat, y: nat)
    requires EvenDimensions(width, height)
    requires x < PlaneWidth(p, width) && y < PlaneHeight(p, height)
    ensures InPlane(width, height, p, SampleOffset(width, height, p, x, y))
  {
    RowMajorBound(PlaneWidth(p, width), PlaneHeight(p, height), x, y);
  }

  /** No two samples share a byte, within a plane or across planes. */
  lemma SamplesDistinct(width: nat, height: nat, p: Plane, x: nat, y: nat, q: Plane, x': nat, y': nat)
    requires EvenDimensions(width, height)
    requires x < PlaneWidth(p, width) && y < PlaneHeight(p, height)
    requires x' < PlaneWidth(q, width) && y' < PlaneHeight(q, height)
    requires SampleOffset(width, height, p, x, y) == SampleOffset(width, height, q, x', y')
    ensures p == q && x == x' && y == y'
  {
    var k := SampleOffset(width, height, p, x, y);
    SampleInPlane(width, height, p, x, y);
    SampleInPlane(width, height, q, x', y');
    PlanesTile(width, height, k);
    assert p == q;
    var s := PlaneWidth(p, width);
    assert y * s + x == y' * s + x';
    RowMajorInjective(s, x, y, x', y');
  }

  lemma MulMonotonic(a: nat, b: nat, c: nat)
    requires a <= b
    ensures a * c <= b * c
  {
  }

  /** Row-major addressing with stride `s` stays inside `rows` rows. */
  lemma RowMajorBound(s: nat, rows: nat, x: nat, y: nat)
    requires x < s && y < rows
    ensures y * s + x < s * rows
  {
    MulMonotonic(y + 1, rows, s);
  }

  /** Row-major addressing with stride `s` is injective on columns below `s`. */
  lemma RowMajorInjective(s: nat, x: nat, y: nat, x': nat, y': nat)
    requires x < s && x' < s && y * s + x == y' * s + x'
    ensures x == x' && y == y'
  {
    if y < y' {
      MulMonotonic(y + 1, y', s);
    } else if y' < y {
      MulMonotonic(y' + 1, y, s);
    }
  }

  // ---------------------------------------------------------------------------------------------
  // Properties of the frame.

  /** The bytes plane `p` reads from `data` under the I420 layout. */
  function PlaneBytes(data: seq<bv8>, width: nat, height: nat, p: Plane): (b: seq<bv8>)
    requires EvenDimensions(width, height) && |data| >= FrameSize(width, height)
    ensures |b| == PlaneSize(p, width, height)
  {
    var l := Layout(width, height)[Index(p)];
    PlaneWithinFrame(width, height, p);
    data[l.offset..l.offset + PlaneSize(p, width, height)]
  }

  /** A supplied timestamp is used unchanged: the clock reading cannot affect the frame. */
  lemma SuppliedTimestampIgnoresClock(yuv420: Uint8View, width: nat, height: nat, t: real, now1: real, now2: real)
    requires yuv420.Valid() && EvenDimensions(width, height)
    ensures Yuv420ToVideoFrame(yuv420, width, height, Some(t), now1) == Yuv420ToVideoFrame(yuv420, width, height, Some(t), now2)
    ensures Yuv420ToVideoFrame(yuv420, width, height, Some(t), now1).init.timestamp == t
  {
  }

  /** As written, a view that starts at byte 0 of its buffer gives the planes the view shows. */
  lemma AsWrittenAgreesAtOffsetZero(yuv420: Uint8View, width: nat, height: nat, timestamp: Option<real>, now: real, p: Plane)
    requires yuv420.Valid() && EvenDimensions(width, height)
    requires yuv420.byteOffset == 0 && yuv420.length >= FrameSize(width, height)
    ensures var f := Yuv420ToVideoFrame(yuv420, width, height, timestamp, now);
      PlaneBytes(f.data, width, height, p) == PlaneBytes(yuv420.Bytes(), width, height, p)
  {
    PlaneWithinFrame(width, height, p);
  }

  /**
   * As written, a view that does not start at byte 0 of its buffer gives the wrong luma plane:
   * a 2x2 picture held in bytes 1..7 of a 7-byte buffer is read from bytes 0..6.
   */
  lemma AsWrittenIgnoresByteOffset()
    ensures var v := Uint8View([9, 0, 0, 0, 0, 0, 0], 1, 6);
      && v.Valid()
      && PlaneBytes(Yuv420ToVideoFrame(v, 2, 2, None, 0.0).data, 2, 2, Y) != PlaneBytes(v.Bytes(), 2, 2, Y)
  {
    var v := Uint8View([9, 0, 0, 0, 0, 0, 0], 1, 6);
    assert PlaneBytes(Yuv420ToVideoFrame(v, 2, 2, None, 0.0).data, 2, 2, Y)[0] == 9;
  }

  /** As intended, every plane of the frame is the corresponding plane of the view's own bytes. */
  lemma FromViewReadsView(yuv420: Uint8View, width: nat, height: nat, timestamp: Option<real>, now: real, p: Plane)
    requires yuv420.Valid() && EvenDimensions(width, height)
    requires yuv420.length >= FrameSize(width, height)
    ensures var f := Yuv420ToVideoFrameFromView(yuv420, width, height, timestamp, now);
      && PlaneBytes(f.data, width, height, p) == PlaneBytes(yuv420.Bytes(), width, height, p)
      && forall i :: 0 <= i < PlaneSize(p, width, height) ==>
           PlaneBytes(f.data, width, height, p)[i] == yuv420.buffer[yuv420.byteOffset + Layout(width, height)[Index(p)].offset + i]
  {
    PlaneWithinFrame(width, height, p);
  }
}
