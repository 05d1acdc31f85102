/** The capture engine's sequential bookkeeping: whether a session is
    running, the last content size seen, whether a CPU-readable staging
    texture exists, and the most recently published frame. Everything the
    GPU and the OS capture API compute arrives as a parameter. */
module Capture {
  import opened Wrappers

  /** `SizeInt32`: a signed width and height. */
  datatype Size = Size(width: int, height: int)

  /** The part of `D3D11_TEXTURE2D_DESC` the engine reads. */
  datatype TextureDesc = TextureDesc(width: nat, height: nat)

  /** A frame delivered by the frame pool: its content size and, if the
      surface yields a Direct3D texture, that texture's description. */
  datatype ArrivedFrame = ArrivedFrame(contentSize: Size, texture: Option<TextureDesc>)

  /** `D3D11_MAPPED_SUBRESOURCE`: the device's row pitch and the bytes of
      the mapped staging texture. */
  datatype Mapping = Mapping(rowPitch: nat, data: array<bv8>)

  datatype FrameMetadata = FrameMetadata(width: nat, height: nat, rowPitch: nat)

  /** A published frame: tightly packed pixel bytes and their layout. */
  datatype CapturedFrame = CapturedFrame(pixelData: seq<bv8>, metadata: FrameMetadata)

  /** Bytes per R16G16B16A16 floating-point pixel. */
  const BytesPerPixel := 8

  /** The largest texture width or height a Direct3D 11 device supports. */
  const MaxTextureDimension := 16384

  const U32Modulus := 0x1_0000_0000

  /** Multiplication of two `uint32_t` values, which wraps modulo 2^32. */
  function U32Mul(a: nat, b: nat): (r: nat)
    ensures r < U32Modulus
    ensures a * b < U32Modulus ==> r == a * b
  {
    (a * b) % U32Modulus
  }

  /** Products of bounded naturals are bounded by the product of the bounds. */
  lemma {:induction false} MulMonotone(a: nat, b: nat, bound: nat)
    requires a <= bound
    ensures a * b <= bound * b
    decreases b
  {
    if b > 0 {
      MulMonotone(a, b - 1, bound);
      assert a * b == a * (b - 1) + a;
      assert bound * b == bound * (b - 1) + bound;
    }
  }

  /** For textures the device can create, the row size and buffer size the
      engine computes in 32-bit arithmetic do not wrap. */
  lemma FrameSizeFitsU32(width: nat, height: nat)
    requires width <= MaxTextureDimension && height <= MaxTextureDimension
    ensures U32Mul(width, BytesPerPixel) == width * BytesPerPixel
    ensures U32Mul(width * BytesPerPixel, height) == width * BytesPerPixel * height
  {
    var rowPitch := width * BytesPerPixel;
    assert rowPitch <= MaxTextureDimension * BytesPerPixel;
    MulMonotone(rowPitch, height, MaxTextureDimension * BytesPerPixel);
    MulMonotone(height, MaxTextureDimension * BytesPerPixel, MaxTextureDimension);
    assert rowPitch * height <= MaxTextureDimension * BytesPerPixel * MaxTextureDimension;
  }

  /** A published frame is tightly packed: one row is exactly `width`
      pixels, and the buffer holds exactly `height` such rows. */
  predicate WellFormed(f: CapturedFrame)
  {
    && f.metadata.rowPitch == f.metadata.width * BytesPerPixel
    && |f.pixelData| == f.metadata.rowPitch * f.metadata.height
  }

  /** A buffer of `len` bytes holds `rows` rows of `rowBytes` bytes that
      start every `srcPitch` bytes; the last row needs no padding after it. */
  predicate RowsFit(len: nat, srcPitch: nat, rowBytes: nat, rows: nat)
  {
    rowBytes <= srcPitch && (rows == 0 || (rows - 1) * srcPitch + rowBytes <= len)
  }

  /** Every row below `rows` lies inside the buffer, and so do the first
      `r` and the first `r + 1` rows. */
  lemma RowInside(len: nat, srcPitch: nat, rowBytes: nat, rows: nat, r: nat)
    requires RowsFit(len, srcPitch, rowBytes, rows) && r < rows
    ensures r * srcPitch + rowBytes <= len
    ensures RowsFit(len, srcPitch, rowBytes, r) && RowsFit(len, srcPitch, rowBytes, r + 1)
  {
    MulMonotone(r, srcPitch, rows - 1);
    assert r * srcPitch <= (rows - 1) * srcPitch;
    if r > 0 {
      assert (r - 1) * srcPitch + srcPitch == r * srcPitch;
    }
  }

  /** The first `rows` rows of `src`, each `rowBytes` long and starting
      every `srcPitch` bytes, concatenated without the padding between them. */
  function Unpadded(src: seq<bv8>, srcPitch: nat, rowBytes: nat, rows: nat): (out: seq<bv8>)
    requires RowsFit(|src|, srcPitch, rowBytes, rows)
    ensures |out| == rows * rowBytes
    decreases rows
  {
    if rows == 0 then []
    else
      var start := (rows - 1) * srcPitch;
      RowInside(|src|, srcPitch, rowBytes, rows, rows - 1);
      Unpadded(src, srcPitch, rowBytes, rows - 1) + src[start .. start + rowBytes]
  }

  /** Byte `i` of row `r` of the unpadded buffer is byte `i` of row `r` of
      the source, whatever the source's row pitch. */
  lemma {:induction false} UnpaddedAt(src: seq<bv8>, srcPitch: nat, rowBytes: nat, rows: nat, r: nat, i: nat)
    requires RowsFit(|src|, srcPitch, rowBytes, rows)
    requires r < rows && i < rowBytes
    ensures r * rowBytes + i < |Unpadded(src, srcPitch, rowBytes, rows)|
    ensures r * srcPitch + i < |src|
    ensures Unpadded(src, srcPitch, rowBytes, rows)[r * rowBytes + i] == src[r * srcPitch + i]
    decreases rows
  {
    RowInside(|src|, srcPitch, rowBytes, rows, r);
    RowInside(|src|, srcPitch, rowBytes, rows, rows - 1);
    var prefix := Unpadded(src, srcPitch, rowBytes, rows - 1);
    assert |prefix| == (rows - 1) * rowBytes;
    if r < rows - 1 {
      UnpaddedAt(src, srcPitch, rowBytes, rows - 1, r, i);
      assert r * rowBytes + i < |prefix|;
    } else {
      assert r * rowBytes + i == |prefix| + i;
    }
  }

  /** `memcpy(dst + dstOff, src + srcOff, n)`. */
  method MemCopy(dst: array<bv8>, dstOff: nat, src: array<bv8>, srcOff: nat, n: nat)
    requires dst != src
    requires dstOff + n <= dst.Length && srcOff + n <= src.Length
    modifies dst
    ensures dst[dstOff .. dstOff + n] == src[srcOff .. srcOff + n]
    ensures dst[..dstOff] == old(dst[..dstOff])
    ensures dst[dstOff + n ..] == old(dst[dstOff + n ..])
  {
    var k := 0;
    while k < n
      invariant 0 <= k <= n
      invariant dst[dstOff .. dstOff + k] == src[srcOff .. srcOff + k]
      invariant dst[..dstOff] == old(dst[..dstOff])
      invariant dst[dstOff + k ..] == old(dst[dstOff + k ..])
    {
      dst[dstOff + k] := src[srcOff + k];
      k := k + 1;
    }
  }

  /** Row `row` starts `row * pitch` bytes in and ends before the next row,
      and the next row still lies within `rows` rows. */
  lemma NextRow(row: nat, rows: nat, pitch: nat)
    requires row < rows
    ensures row * pitch + pitch == (row + 1) * pitch <= rows * pitch
  {
  }

  /** One more row extends the unpadded buffer by that row. */
  lemma UnpaddedStep(src: seq<bv8>, srcPitch: nat, rowBytes: nat, rows: nat)
    requires RowsFit(|src|, srcPitch, rowBytes, rows + 1)
    ensures rows * srcPitch + rowBytes <= |src|
    ensures RowsFit(|src|, srcPitch, rowBytes, rows)
    ensures Unpadded(src, srcPitch, rowBytes, rows + 1)
      == Unpadded(src, srcPitch, rowBytes, rows) + src[rows * srcPitch .. rows * srcPitch + rowBytes]
  {
    RowInside(|src|, srcPitch, rowBytes, rows + 1, rows);
  }

  /** The row-by-row copy that strips the device's row padding: the
      destination advances by `rowBytes` per row, the source by `srcPitch`. */
  method CopyRows(dst: array<bv8>, src: array<bv8>, srcPitch: nat, rowBytes: nat, rows: nat)
    requires dst != src
    requires RowsFit(src.Length, srcPitch, rowBytes, rows)
    requires dst.Length == rowBytes * rows
    modifies dst
    ensures dst[..] == Unpadded(src[..], srcPitch, rowBytes, rows)
  {
    var row, d, s := 0, 0, 0;
    while row < rows
      invariant 0 <= row <= rows
      invariant d == row * rowBytes && s == row * srcPitch
      invariant RowsFit(src.Length, srcPitch, rowBytes, row)
      invariant dst[..d] == Unpadded(src[..], srcPitch, rowBytes, row)
    {
      NextRow(row, rows, rowBytes);
      NextRow(row, rows, srcPitch);
      RowInside(src.Length, srcPitch, rowBytes, rows, row);
      CopyOneRow(dst, src, srcPitch, rowBytes, row, d, s);
      d := d + rowBytes;
      s := s + srcPitch;
      row := row + 1;
    }
    assert dst[..] == dst[..d];
  }

  /** One iteration of the row copy: row `row` goes from offset `s` of the
      source to offset `d` of the destination, extending the unpadded prefix. */
  method CopyOneRow(dst: array<bv8>, src: array<bv8>, srcPitch: nat, rowBytes: nat, row: nat, d: nat, s: nat)
    requires dst != src
    requires rowBytes <= srcPitch && s == row * srcPitch && s + rowBytes <= src.Length
    requires d + rowBytes <= dst.Length
    requires dst[..d] == Unpadded(src[..], srcPitch, rowBytes, row)
    modifies dst
    ensures RowsFit(src.Length, srcPitch, rowBytes, row + 1)
    ensures dst[..d + rowBytes] == Unpadded(src[..], srcPitch, rowBytes, row + 1)
  {
    ghost var done := dst[..d];
    MemCopy(dst, d, src, s, rowBytes);
    assert dst[..d + rowBytes] == done + src[s .. s + rowBytes] by {
      assert dst[..d] == done;
      assert dst[..d + rowBytes] == dst[..d] + dst[d .. d + rowBytes];
    }
    UnpaddedStep(src[..], srcPitch, rowBytes, row);
  }

  /** Why `StartCapture` raised an error. */
  datatype StartError = ItemCreationFailed | SessionSetupFailed

  /** What one frame-arrival callback did. */
  datatype FrameEvent =
    | NoFrame        // the pool had no frame
    | Resized        // content size changed: size tracked, staging dropped, frame skipped
    | NoTexture      // the surface yielded no Direct3D texture
    | NotCapturing   // capture had stopped when the lock was taken
    | StagingFailed  // the staging texture could not be created
    | MapFailed      // the staging texture could not be mapped
    | Published      // a new frame replaced the latest one

  /** The Windows.Graphics.Capture screen capturer. */
  class ScreenCapturer {
    var isCapturing: bool
    var lastSize: Size
    var hasStaging: bool
    var latestFrame: Option<CapturedFrame>

    /** A staging texture only exists during a capture session, and every
        published frame is tightly packed. */
    ghost predicate Valid()
      reads this
    {
      && (hasStaging ==> isCapturing)
      && (latestFrame.Some? ==> WellFormed(latestFrame.value))
    }

    constructor()
      ensures Valid()
      ensures !isCapturing && lastSize == Size(0, 0) && !hasStaging && latestFrame == None
    {
      isCapturing := false;
      lastSize := Size(0, 0);
      hasStaging := false;
      latestFrame := None;
    }

    /** Starts a session unless one is running. `item` is the primary
        monitor's capture item size, or `None` if creating the item failed;
        `sessionStarted` says whether the frame pool and session came up.
        The size is recorded as soon as the item exists, even if the
        session then fails. */
    method StartCapture(item: Option<Size>, sessionStarted: bool) returns (r: Outcome<StartError>)
      requires Valid()
      modifies this`isCapturing, this`lastSize
      ensures Valid()
      ensures old(isCapturing) ==> r == Pass && isCapturing && lastSize == old(lastSize)
      ensures !old(isCapturing) && item.None? ==>
        r == Fail(ItemCreationFailed) && !isCapturing && lastSize == old(lastSize)
      ensures !old(isCapturing) && item.Some? ==>
        && lastSize == item.value
        && isCapturing == sessionStarted
        && r == (if sessionStarted then Pass else Fail(SessionSetupFailed))
    {
      if isCapturing {
        return Pass;
      }
      if item.None? {
        return Fail(ItemCreationFailed);
      }
      lastSize := item.value;
      if !sessionStarted {
        return Fail(SessionSetupFailed);
      }
      isCapturing := true;
      r := Pass;
    }

    /** Ends a running session and releases the staging texture; the latest
        frame stays available. Does nothing when not capturing. */
    method StopCapture()
      requires Valid()
      modifies this`isCapturing, this`hasStaging
      ensures Valid()
      ensures !isCapturing
      ensures old(isCapturing) ==> !hasStaging
      ensures !old(isCapturing) ==> hasStaging == old(hasStaging)
    {
      if !isCapturing {
        return;
      }
      isCapturing := false;
      hasStaging := false;
    }

    /** The most recently published frame, or `None` before the first one. */
    method GetLatestFrame() returns (f: Option<CapturedFrame>)
      requires Valid()
      ensures f == latestFrame
      ensures f.Some? ==> WellFormed(f.value)
    {
      f := latestFrame;
    }

    /** The frame-arrival callback. `frame` is what `TryGetNextFrame`
        returned, `stagingCreated` whether `CreateTexture2D` would succeed,
        `mapped` the result of mapping the staging texture. The model
        assumes that this frame's texture has the dimensions of the one the
        staging texture was created from, so that the mapping's row pitch
        covers a row of this frame and the mapped data holds every row the
        copy reads; the callback itself never compares the two. */
    method OnFrameArrived(frame: Option<ArrivedFrame>, stagingCreated: bool, mapped: Option<Mapping>)
      returns (e: FrameEvent)
      requires Valid()
      requires frame.Some? && frame.value.texture.Some? ==>
        var desc := frame.value.texture.value;
        desc.width <= MaxTextureDimension && desc.height <= MaxTextureDimension
      requires frame.Some? && frame.value.texture.Some? && mapped.Some? ==>
        var desc := frame.value.texture.value;
        RowsFit(mapped.value.data.Length, mapped.value.rowPitch, desc.width * BytesPerPixel, desc.height)
      modifies this`lastSize, this`hasStaging, this`latestFrame
      ensures Valid()
      ensures e == NoFrame <==> frame.None?
      ensures e == Resized <==> frame.Some? && frame.value.contentSize != old(lastSize)
      ensures e == Resized ==> lastSize == frame.value.contentSize && !hasStaging
      ensures e != Resized ==> lastSize == old(lastSize)
      ensures e == NoTexture <==>
        frame.Some? && frame.value.contentSize == old(lastSize) && frame.value.texture.None?
      ensures e == NotCapturing <==>
        frame.Some? && frame.value.contentSize == old(lastSize) && frame.value.texture.Some?
        && !isCapturing
      ensures e == StagingFailed <==>
        frame.Some? && frame.value.contentSize == old(lastSize) && frame.value.texture.Some?
        && isCapturing && !old(hasStaging) && !stagingCreated
      ensures (e == MapFailed || e == Published) <==>
        frame.Some? && frame.value.contentSize == old(lastSize) && frame.value.texture.Some?
        && isCapturing && (old(hasStaging) || stagingCreated)
      ensures e == MapFailed ==> mapped.None?
      ensures e == Published ==> mapped.Some?
      ensures e == MapFailed || e == Published ==> hasStaging
      ensures e != Resized && e != MapFailed && e != Published ==> hasStaging == old(hasStaging)
      ensures e != Published ==> latestFrame == old(latestFrame)
      ensures e == Published ==>
        var desc, m := frame.value.texture.value, mapped.value;
        var rowPitch := desc.width * BytesPerPixel;
        latestFrame == Some(CapturedFrame(
          Unpadded(m.data[..], m.rowPitch, rowPitch, desc.height),
          FrameMetadata(desc.width, desc.height, rowPitch)))
    {
      if frame.None? {
        return NoFrame;
      }
      var f := frame.value;
      if f.contentSize != lastSize {
        lastSize := f.contentSize;
        hasStaging := false;
        return Resized;
      }
      if f.texture.None? {
        return NoTexture;
      }
      var desc := f.texture.value;
      // Under the frame lock: abort if stopped, else create or reuse the staging texture.
      if !isCapturing {
        return NotCapturing;
      }
      if !hasStaging {
        if !stagingCreated {
          return StagingFailed;
        }
        hasStaging := true;
      }
      // Copy to staging, map it, and strip the row padding.
      if mapped.None? {
        return MapFailed;
      }
      var m := mapped.value;
      FrameSizeFitsU32(desc.width, desc.height);
      var rowPitch := U32Mul(desc.width, BytesPerPixel);
      var pixels := new bv8[U32Mul(rowPitch, desc.height)];
      CopyRows(pixels, m.data, m.rowPitch, rowPitch, desc.height);
      latestFrame := Some(CapturedFrame(pixels[..], FrameMetadata(desc.width, desc.height, rowPitch)));
      e := Published;
    }
  }
}
