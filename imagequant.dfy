/** Image.go and Result.go: the Go objects that wrap libimagequant's image and result handles.
    The native library is not modelled; each call into it is represented by the reply it
    gives (a status code, a handle, a palette, the indices it writes), passed in as a
    parameter, so every reply the library could give is covered. */
module Imagequant {
  import opened Common
  import opened Palettes

  /** An Attributes object, only handed through to the library. */
  datatype Attributes = Attributes(p: Ptr)

  /** The reply of liq_image_quantize: its status and, on success, the result handle it
      stores and the palette held behind that handle. */
  datatype QuantizeReply = QuantizeReply(status: int, result: Ptr, palette: LiqPalette)

  /** The reply of liq_write_remapped_image: its status, the palette index it writes for
      each pixel of the buffer it is handed, and the palette held behind the result handle
      afterwards (the library applies its final refinements to the palette while remapping). */
  datatype RemapReply = RemapReply(status: int, written: nat -> byte, palette: LiqPalette)

  /** A quantizable image: its native handle, its dimensions and whether it was released. */
  class Image {
    var p: Ptr
    var w: GoInt
    var h: GoInt
    var released: bool

    /** The Image{...} literal that NewImage builds. */
    constructor (p: Ptr, w: GoInt, h: GoInt)
      ensures this.p == p && this.w == w && this.h == h && !released
    {
      this.p := p;
      this.w := w;
      this.h := h;
      released := false;
    }

    /** Frees the native image and records that it is gone. Calling it twice is a caller
        error, since the doc comment forbids any use after Release. */
    method Release()
      requires !released
      modifies this`released
      ensures released
    {
      released := true;
    }

    /** Quantizes this image. The Result it hands back is never bound to this image: its
        back-reference im stays nil. */
    method Quantize(attr: Attributes, reply: QuantizeReply) returns (res: Result?, err: Option<Error>)
      ensures reply.status != LIQ_OK ==> res == null && err == Some(LiqError(reply.status))
      ensures reply.status == LIQ_OK ==>
        && err == None && res != null && fresh(res)
        && res.p == reply.result && res.native == reply.palette
        && res.im == null && !res.freed
    {
      res := new Result(reply.result, null, reply.palette);
      if reply.status != LIQ_OK {
        return null, Some(LiqError(reply.status));
      }
      err := None;
    }

    /** Quantize as evidently intended: the same, except that the Result is bound to this
        image, so that remapping and the dimension getters can use it. */
    method QuantizeBound(attr: Attributes, reply: QuantizeReply) returns (res: Result?, err: Option<Error>)
      ensures reply.status != LIQ_OK ==> res == null && err == Some(LiqError(reply.status))
      ensures reply.status == LIQ_OK ==>
        && err == None && res != null && fresh(res)
        && res.p == reply.result && res.native == reply.palette
        && res.im == this && !res.freed
    {
      res := new Result(reply.result, this, reply.palette);
      if reply.status != LIQ_OK {
        return null, Some(LiqError(reply.status));
      }
      err := None;
    }
  }

  /** NewImage: wraps the handle the library created. A nil handle is the only failure;
      the Go side never compares the length of rgba32data with width*height*4, so the
      outcome depends on the library's answer alone. */
  method NewImage(attr: Attributes, rgba32data: seq<byte>, width: GoInt, height: GoInt, gamma: real, created: Ptr)
    returns (img: Image?, err: Option<Error>)
    ensures created == Nil ==> img == null && err == Some(ErrInvalidArgument)
    ensures created != Nil ==>
      && err == None && img != null && fresh(img)
      && img.p == created && img.w == width && img.h == height && !img.released
  {
    if created == Nil {
      return null, Some(ErrInvalidArgument);
    }
    img := new Image(created, width, height);
    err := None;
  }

  /** The outcome of a quantization, with a back-reference to the image it may remap. */
  class Result {
    var p: Ptr
    var im: Image?
    /** The palette the library holds behind p, as quantized or, after a remap, refined. */
    var native: LiqPalette
    /** Whether Release was called; the doc comment forbids any use after that. */
    ghost var freed: bool

    /** The Result{} that a quantize call fills in. */
    constructor (p: Ptr, im: Image?, native: LiqPalette)
      ensures this.p == p && this.im == im && this.native == native && !freed
    {
      this.p := p;
      this.im := im;
      this.native := native;
      freed := false;
    }

    /** Width of the bound image, read from the Go object whether or not it was released. */
    function GetImageWidth(): (w: GoInt)
      reads this, im
      requires im != null
      ensures w == im.w
    {
      im.w
    }

    /** Height of the bound image, read from the Go object whether or not it was released. */
    function GetImageHeight(): (h: GoInt)
      reads this, im
      requires im != null
      ensures h == im.h
    {
      im.h
    }

    /** Remaps the bound image. A released image is refused with ErrUseAfterFree before
        anything is allocated or asked of the library; otherwise a zeroed buffer of
        width*height bytes is allocated, and a non-OK status yields the translated error and
        no buffer. The library remaps into a C copy of the buffer (C.CBytes), so the buffer
        handed back is the zeroed one, whatever indices the library wrote. Once the library
        was called, the palette behind the handle is the one it leaves there. */
    method WriteRemappedImage(reply: RemapReply) returns (buf: Option<seq<byte>>, err: Option<Error>)
      requires !freed && im != null
      requires !im.released ==> 0 <= im.w * im.h <= MAX_INT
      modifies this`native
      ensures im.released ==> buf == None && err == Some(ErrUseAfterFree) && native == old(native)
      ensures !im.released ==> native == reply.palette
      ensures !im.released && reply.status != LIQ_OK ==> buf == None && err == Some(LiqError(reply.status))
      ensures !im.released && reply.status == LIQ_OK ==>
        && err == None && buf.Some?
        && |buf.value| == GetImageWidth() * GetImageHeight()
        && buf.value == Zeros(im.w * im.h)
    {
      if im.released {
        return None, Some(ErrUseAfterFree);
      }
      var buffSize := im.w * im.h;
      var buff := new byte[buffSize](_ => 0);
      native := reply.palette;
      if reply.status != LIQ_OK {
        return None, Some(LiqError(reply.status));
      }
      return Some(buff[..]), None;
    }

    /** WriteRemappedImage as evidently intended: the same checks and errors, but the indices
        the library writes are copied back into the buffer that is handed out. */
    method WriteRemappedImageCopyBack(reply: RemapReply) returns (buf: Option<seq<byte>>, err: Option<Error>)
      requires !freed && im != null
      requires !im.released ==> 0 <= im.w * im.h <= MAX_INT
      modifies this`native
      ensures im.released ==> buf == None && err == Some(ErrUseAfterFree) && native == old(native)
      ensures !im.released ==> native == reply.palette
      ensures !im.released && reply.status != LIQ_OK ==> buf == None && err == Some(LiqError(reply.status))
      ensures !im.released && reply.status == LIQ_OK ==>
        && err == None && buf.Some?
        && |buf.value| == GetImageWidth() * GetImageHeight()
        && forall i | 0 <= i < |buf.value| :: buf.value[i] == reply.written(i)
    {
      if im.released {
        return None, Some(ErrUseAfterFree);
      }
      var buffSize := im.w * im.h;
      var buff := new byte[buffSize](_ => 0);
      native := reply.palette;
      if reply.status != LIQ_OK {
        return None, Some(LiqError(reply.status));
      }
      var i := 0;
      while i < buffSize
        invariant 0 <= i <= buffSize
        invariant forall j | 0 <= j < i :: buff[j] == reply.written(j)
        invariant native == reply.palette
      {
        buff[i] := reply.written(i);
        i := i + 1;
      }
      return Some(buff[..]), None;
    }

    /** A value copy of the library's current palette: it needs no release of its own, and
        Release, which changes nothing but the freed mark, leaves it as it was. */
    function GetPalette(): (pal: Palette)
      reads this
      requires !freed
      ensures pal.Valid() && pal == native
    {
      native
    }

    /** Frees the result handle only; the bound image and its released flag are untouched. */
    method Release()
      requires !freed
      modifies this`freed
      ensures freed
    {
      freed := true;
    }
  }

  /** Quantize leaves the Result unbound, so remapping is out of reach, while QuantizeBound
      gives a Result that can remap. */
  method UnboundRemapTarget() returns (asWritten: bool, corrected: bool)
    ensures !asWritten && corrected
  {
    var attr := Attributes(Addr(1));
    var img, _ := NewImage(attr, Zeros(4), 1, 1, 0.0, Addr(2));
    var reply := QuantizeReply(LIQ_OK, Addr(3), Palette(0, seq(MAX_ENTRIES, _ => ZERO_COLOR)));
    var unbound, _ := img.Quantize(attr, reply);
    var bound, _ := img.QuantizeBound(attr, reply);
    asWritten := unbound.im != null;
    corrected := bound.im != null;
  }

  /** On a 1x1 image whose single pixel the library maps to index 1, WriteRemappedImage hands
      back [0], while the copy-back version hands back [1]. */
  method RemapLosesIndices() returns (asWritten: Option<seq<byte>>, corrected: Option<seq<byte>>)
    ensures asWritten == Some([0]) && corrected == Some([1])
  {
    var attr := Attributes(Addr(1));
    var img, _ := NewImage(attr, Zeros(4), 1, 1, 0.0, Addr(2));
    var res, _ := img.QuantizeBound(attr, QuantizeReply(LIQ_OK, Addr(3), Palette(2, seq(MAX_ENTRIES, _ => ZERO_COLOR))));
    var reply := RemapReply(LIQ_OK, _ => 1, Palette(2, seq(MAX_ENTRIES, _ => ZERO_COLOR)));
    var e1, e2;
    asWritten, e1 := res.WriteRemappedImage(reply);
    corrected, e2 := res.WriteRemappedImageCopyBack(reply);
    assert asWritten.value == Zeros(1) && Zeros(1)[0] == 0;
    assert |corrected.value| == 1 && corrected.value[0] == 1;
    assert asWritten.value == [0];
    assert corrected.value == [1];
  }
}
