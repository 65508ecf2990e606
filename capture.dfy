/**
 * Screen capture over X11 (src/capture.rs): the BGRX -> RGB pixel conversion,
 * the `u16 -> i16` cast of the request origin, and the buffer-size check that
 * turns the converted bytes into an image.
 *
 * The display server is not modelled: a connection is its list of root
 * screens together with a total function that answers a GetImage request.
 */
module Capture {
  import opened Wrappers

  type u8 = x: int | 0 <= x < 0x100
  type u16 = x: int | 0 <= x < 0x1_0000
  type i16 = x: int | -0x8000 <= x < 0x8000
  type u32 = x: int | 0 <= x < 0x1_0000_0000

  /** `u32::MAX`, the plane mask the capture asks for (every plane). */
  const AllPlanes: u32 := 0xFFFF_FFFF

  /** The rectangle to capture, in unsigned 16-bit screen coordinates. */
  datatype CaptureRegion = Region(x: u16, y: u16, width: u16, height: u16)

  /** The parts of an X11 root screen that capture reads. */
  datatype Screen = Screen(root: u32, widthInPixels: u16, heightInPixels: u16)

  datatype ImageFormat = XYBitmap | XYPixmap | ZPixmap

  /** The GetImage request as it goes on the wire; the origin is signed. */
  datatype GetImageRequest = GetImage(
    format: ImageFormat, drawable: u32, x: i16, y: i16, width: u16, height: u16, planeMask: u32)

  /**
   * What the server round trip gives back: the request could not be sent,
   * the reply was an error, or the reply carries the raw pixel bytes.
   */
  datatype GetImageResponse = SendFailed | ReplyFailed | Replied(data: seq<u8>)

  /** An open connection: its setup's root screens and the server's answers. */
  datatype Connection = Connection(roots: seq<Screen>, getImage: GetImageRequest -> GetImageResponse)

  /** An `ImageBuffer<Rgb<u8>, Vec<u8>>`: dimensions and the raw RGB bytes. */
  datatype ImageBuffer = ImageBuffer(width: u32, height: u32, data: seq<u8>)

  datatype CaptureError =
    | ReplyError         // the error `reply()?` propagates
    | InvalidBufferSize  // "Invalid buffer size": `from_raw` refused the bytes

  /**
   * The result of a capture. `Panicked` is the `expect("Could not get image")`
   * on a request that could not be sent: the process aborts instead of
   * returning an error.
   */
  datatype Outcome = Captured(image: ImageBuffer) | Failed(error: CaptureError) | Panicked

  // ---------------------------------------------------------------------------
  // The `as i16` cast of the region origin
  // ---------------------------------------------------------------------------

  /**
   * `v as i16`: the two's-complement reinterpretation of the same 16 bits.
   * The result is the one signed 16-bit value congruent to `v` modulo 2^16,
   * and it is negative exactly when the top bit of `v` is set.
   */
  function AsI16(v: u16): (r: i16)
    ensures (r - v) % 0x1_0000 == 0
    ensures r < 0 <==> v >= 0x8000
  {
    if v < 0x8000 then v else v - 0x1_0000
  }

  /** The cast loses nothing: distinct coordinates reach the server distinct. */
  lemma AsI16Injective(a: u16, b: u16)
    requires AsI16(a) == AsI16(b)
    ensures a == b
  {
  }

  // ---------------------------------------------------------------------------
  // BGRX -> RGB
  // ---------------------------------------------------------------------------

  /** The i-th complete 4-byte chunk (blue, green, red, unused) of a reply. */
  function Chunk(data: seq<u8>, i: nat): seq<u8>
    requires 4 * i + 4 <= |data|
  {
    data[4 * i .. 4 * i + 4]
  }

  /** The i-th 3-byte triple of a packed pixel buffer. */
  function Triple(px: seq<u8>, i: nat): seq<u8>
    requires 3 * i + 3 <= |px|
  {
    px[3 * i .. 3 * i + 3]
  }

  /**
   * The RGB bytes for a BGRX reply, chunk by chunk: every complete chunk
   * (b, g, r, x) becomes (r, g, b); an incomplete tail of 1 to 3 bytes is
   * dropped, as `chunks_exact(4)` drops it.
   */
  function RgbOf(data: seq<u8>): (rgb: seq<u8>)
    ensures |rgb| == |data| / 4 * 3
    decreases |data|
  {
    if |data| < 4 then [] else [data[2], data[1], data[0]] + RgbOf(data[4..])
  }

  /** Output triple i is input chunk i with red and blue swapped and X dropped. */
  lemma {:induction false} RgbOfAt(data: seq<u8>, i: nat)
    requires i < |data| / 4
    ensures Triple(RgbOf(data), i) == [data[4 * i + 2], data[4 * i + 1], data[4 * i]]
  {
    var rest := RgbOf(data[4..]);
    assert RgbOf(data) == [data[2], data[1], data[0]] + rest;
    if i > 0 {
      RgbOfAt(data[4..], i - 1);
      assert Triple(RgbOf(data), i) == Triple(rest, i - 1);
    }
  }

  /** `bgrx_to_rgb` distributes over a split at a chunk boundary. */
  lemma {:induction false} RgbOfAppend(a: seq<u8>, b: seq<u8>)
    requires |a| % 4 == 0
    ensures RgbOf(a + b) == RgbOf(a) + RgbOf(b)
    decreases |a|
  {
    if |a| == 0 {
      assert a + b == b;
    } else {
      assert (a + b)[4..] == a[4..] + b;
      RgbOfAppend(a[4..], b);
    }
  }

  /** The 1 to 3 bytes after the last complete chunk never reach the output. */
  lemma {:induction false} RgbOfDropsTail(data: seq<u8>)
    ensures RgbOf(data) == RgbOf(data[..|data| / 4 * 4])
    decreases |data|
  {
    var n := |data| / 4 * 4;
    if |data| >= 4 {
      assert (|data| - 4) / 4 * 4 == n - 4;
      assert data[..n][4..] == data[4..][..n - 4];
      RgbOfDropsTail(data[4..]);
    }
  }

  /**
   * Only the blue, green and red bytes of each complete chunk matter: two
   * replies with the same number of chunks that agree on those bytes convert
   * to the same RGB, whatever their X bytes and their incomplete tails.
   */
  lemma {:induction false} RgbOfIgnoresUnused(a: seq<u8>, b: seq<u8>)
    requires |a| / 4 == |b| / 4
    requires forall i :: 0 <= i < |a| / 4 ==> Chunk(a, i)[..3] == Chunk(b, i)[..3]
    ensures RgbOf(a) == RgbOf(b)
    decreases |a|
  {
    if |a| >= 4 {
      assert Chunk(a, 0)[..3] == Chunk(b, 0)[..3];
      assert a[..3] == Chunk(a, 0)[..3] && b[..3] == Chunk(b, 0)[..3];
      assert a[0] == b[0] && a[1] == b[1] && a[2] == b[2] by {
        assert a[..3][0] == b[..3][0] && a[..3][1] == b[..3][1] && a[..3][2] == b[..3][2];
      }
      forall i | 0 <= i < |a[4..]| / 4
        ensures Chunk(a[4..], i)[..3] == Chunk(b[4..], i)[..3]
      {
        assert Chunk(a[4..], i) == Chunk(a, i + 1);
        assert Chunk(b[4..], i) == Chunk(b, i + 1);
      }
      RgbOfIgnoresUnused(a[4..], b[4..]);
    }
  }

  /** The first three bytes (b, g, r) of every complete chunk of a reply. */
  function BgrOf(data: seq<u8>): (bgr: seq<u8>)
    decreases |data|
  {
    if |data| < 4 then [] else data[..3] + BgrOf(data[4..])
  }

  /** Swaps bytes 0 and 2 of every complete triple, dropping an incomplete tail. */
  function SwapTriples(px: seq<u8>): (r: seq<u8>)
    ensures |r| == |px| / 3 * 3
    decreases |px|
  {
    if |px| < 3 then [] else [px[2], px[1], px[0]] + SwapTriples(px[3..])
  }

  /** Undoing the channel swap recovers (b, g, r) of every input chunk. */
  lemma {:induction false} SwapRecoversBgr(data: seq<u8>)
    ensures SwapTriples(RgbOf(data)) == BgrOf(data)
    decreases |data|
  {
    if |data| >= 4 {
      var rgb := RgbOf(data);
      assert rgb[..3] == [data[2], data[1], data[0]];
      assert rgb[3..] == RgbOf(data[4..]);
      SwapRecoversBgr(data[4..]);
    }
  }

  /** Swapping twice is the identity on whole triples. */
  lemma {:induction false} SwapTriplesInvolution(px: seq<u8>)
    requires |px| % 3 == 0
    ensures SwapTriples(SwapTriples(px)) == px
    decreases |px|
  {
    if |px| >= 3 {
      var once := SwapTriples(px);
      assert once[3..] == SwapTriples(px[3..]);
      SwapTriplesInvolution(px[3..]);
      assert px == px[..3] + px[3..];
    }
  }

  /**
   * `bgrx_to_rgb`: one pass over the complete chunks, pushing red, green and
   * blue of each. What the result holds byte by byte is `RgbOfAt`.
   */
  method BgrxToRgb(data: seq<u8>) returns (rgb: seq<u8>)
    ensures rgb == RgbOf(data)
    ensures |rgb| == |data| / 4 * 3
  {
    rgb := [];
    var n := |data| / 4;
    var i := 0;
    while i < n
      invariant 0 <= i <= n
      invariant rgb == RgbOf(data[..4 * i])
    {
      var chunk := data[4 * i .. 4 * i + 4];
      var b, g, r := chunk[0], chunk[1], chunk[2];
      assert data[..4 * i + 4] == data[..4 * i] + chunk;
      RgbOfAppend(data[..4 * i], chunk);
      rgb := rgb + [r, g, b];
      i := i + 1;
    }
    RgbOfDropsTail(data);
  }

  // ---------------------------------------------------------------------------
  // Building the image
  // ---------------------------------------------------------------------------

  /**
   * `ImageBuffer::from_raw(width, height, buf)` for three 8-bit channels: the
   * image crate refuses a container too small for width * height pixels and
   * takes any container at least that large.
   */
  function FromRaw(width: u32, height: u32, buf: seq<u8>): Option<ImageBuffer>
  {
    if width * height * 3 <= |buf| then Some(ImageBuffer(width, height, buf)) else None
  }

  /** A capture context: the connection and the index of its default screen. */
  datatype ScreenCapture = ScreenCapture(conn: Connection, screenNum: nat) {

    /** `x11rb::connect` hands back a screen number that indexes its roots. */
    predicate Valid() {
      screenNum < |conn.roots|
    }

    function RootScreen(): Screen
      requires Valid()
    {
      conn.roots[screenNum]
    }

    /** `screen_dimensions`: width and height of the default root screen. */
    function ScreenDimensions(): (d: (u16, u16))
      requires Valid()
      ensures d.0 == conn.roots[screenNum].widthInPixels
      ensures d.1 == conn.roots[screenNum].heightInPixels
    {
      (RootScreen().widthInPixels, RootScreen().heightInPixels)
    }

    /**
     * The request `capture_region` sends: a Z_PIXMAP image of the root window,
     * every plane, the origin cast to signed 16 bits.
     */
    function RequestFor(region: CaptureRegion): (req: GetImageRequest)
      requires Valid()
    {
      GetImage(ZPixmap, RootScreen().root, AsI16(region.x), AsI16(region.y),
               region.width, region.height, AllPlanes)
    }

    /** The outcome `capture_region(region)` has, given the server's answer. */
    function RegionCapture(region: CaptureRegion): Outcome
      requires Valid()
    {
      match conn.getImage(RequestFor(region))
      case SendFailed => Panicked
      case ReplyFailed => Failed(ReplyError)
      case Replied(data) =>
        match FromRaw(region.width, region.height, RgbOf(data))
        case Some(image) => Captured(image)
        case None => Failed(InvalidBufferSize)
    }

    /** `capture_region`: ask for the pixels, convert them, check their size. */
    method CaptureRegion(region: CaptureRegion) returns (r: Outcome)
      requires Valid()
      ensures r == RegionCapture(region)
      ensures conn.getImage(RequestFor(region)).SendFailed? <==> r.Panicked?
      ensures conn.getImage(RequestFor(region)).ReplyFailed? <==> r == Failed(ReplyError)
      ensures var req := RequestFor(region);
        req.format == ZPixmap && req.drawable == RootScreen().root &&
        (req.x - region.x) % 0x1_0000 == 0 && (req.y - region.y) % 0x1_0000 == 0 &&
        req.width == region.width && req.height == region.height
      ensures r.Captured? <==>
        conn.getImage(RequestFor(region)).Replied? &&
        |conn.getImage(RequestFor(region)).data| / 4 * 3 >= region.width * region.height * 3
      ensures r.Captured? ==>
        r.image.width == region.width && r.image.height == region.height &&
        r.image.data == RgbOf(conn.getImage(RequestFor(region)).data)
      ensures r.Failed? && r.error == InvalidBufferSize <==>
        conn.getImage(RequestFor(region)).Replied? &&
        |conn.getImage(RequestFor(region)).data| / 4 * 3 < region.width * region.height * 3
    {
      var response := conn.getImage(RequestFor(region));
      if response.SendFailed? {
        return Panicked;
      }
      if response.ReplyFailed? {
        return Failed(ReplyError);
      }
      var rgb := BgrxToRgb(response.data);
      var image := FromRaw(region.width, region.height, rgb);
      if image.Some? {
        r := Captured(image.value);
      } else {
        r := Failed(InvalidBufferSize);
      }
    }

    /** `capture_full_screen`: the region at the origin as large as the screen. */
    method CaptureFullScreen() returns (r: Outcome)
      requires Valid()
      ensures r == RegionCapture(Region(0, 0, RootScreen().widthInPixels, RootScreen().heightInPixels))
    {
      var (width, height) := ScreenDimensions();
      r := CaptureRegion(Region(0, 0, width, height));
    }
  }

  /**
   * A reply of exactly one 4-byte pixel per requested pixel (what the server
   * sends for a 32-bits-per-pixel screen) yields an image of exactly
   * width * height * 3 bytes, and that image is the converted reply.
   */
  lemma ExactReplyIsCaptured(sc: ScreenCapture, region: CaptureRegion)
    requires sc.Valid()
    requires sc.conn.getImage(sc.RequestFor(region)).Replied?
    requires |sc.conn.getImage(sc.RequestFor(region)).data| == region.width * region.height * 4
    ensures sc.RegionCapture(region).Captured?
    ensures |sc.RegionCapture(region).image.data| == region.width * region.height * 3
    ensures forall i :: 0 <= i < region.width * region.height ==>
      Triple(sc.RegionCapture(region).image.data, i) ==
        [sc.conn.getImage(sc.RequestFor(region)).data[4 * i + 2],
         sc.conn.getImage(sc.RequestFor(region)).data[4 * i + 1],
         sc.conn.getImage(sc.RequestFor(region)).data[4 * i]]
  {
    var data := sc.conn.getImage(sc.RequestFor(region)).data;
    var n := region.width * region.height;
    assert |data| / 4 == n;
    forall i | 0 <= i < n
      ensures Triple(RgbOf(data), i) == [data[4 * i + 2], data[4 * i + 1], data[4 * i]]
    {
      RgbOfAt(data, i);
    }
  }

  /**
   * The full-screen capture asks the server for the whole root window: origin
   * (0, 0) and the screen's own width and height.
   */
  lemma FullScreenRequest(sc: ScreenCapture)
    requires sc.Valid()
    ensures var req := sc.RequestFor(Region(0, 0, sc.ScreenDimensions().0, sc.ScreenDimensions().1));
      req.x == 0 && req.y == 0 &&
      req.width == sc.RootScreen().widthInPixels && req.height == sc.RootScreen().heightInPixels
  {
  }
}
