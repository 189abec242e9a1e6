/**
 * Decoded pictures (`DecodedFrame` of video.h). Heap buffers are named by ids; a
 * picture owns up to three: the planar YUV image and the lazily made RGB and
 * cropped conversions.
 */
module Decoded {
  import opened Bytes

  type BufferId = nat

  datatype Picture = Picture(
    time: u64,
    width: u16,
    height: u16,
    keyframe: bool,
    yuv: Option<BufferId>,
    rgb: Option<BufferId>,
    cropped: Option<BufferId>)

  /** A freshly constructed `DecodedFrame`: no buffers, all fields zero. */
  const EmptyPicture := Picture(0, 0, 0, false, None, None, None)

  /** A picture after an update, and the buffers the update deleted, in deletion order. */
  datatype Update = Update(picture: Picture, released: seq<BufferId>)

  function OptionList(b: Option<BufferId>): seq<BufferId>
  {
    if b.Some? then [b.value] else []
  }

  /** The buffers `clear` deletes: yuv, then rgb, then cropped, skipping absent ones. */
  function Owned(p: Picture): seq<BufferId>
  {
    OptionList(p.yuv) + OptionList(p.rgb) + OptionList(p.cropped)
  }

  /** `clear`: every owned buffer is released and the picture keeps no buffer. */
  function ClearPicture(p: Picture): (u: Update)
    ensures u.picture.yuv.None? && u.picture.rgb.None? && u.picture.cropped.None?
    ensures u.picture.time == p.time && u.picture.width == p.width
    ensures u.picture.height == p.height && u.picture.keyframe == p.keyframe
    ensures forall b :: b in u.released <==> (p.yuv == Some(b) || p.rgb == Some(b) || p.cropped == Some(b))
  {
    Update(p.(yuv := None, rgb := None, cropped := None), Owned(p))
  }

  /**
   * `set_decoded(t, w, h, yuv, kf)`: passing the picture's own yuv buffer keeps it;
   * any other yuv buffer it held is released. The derived buffers are always released.
   */
  function SetDecodedPicture(p: Picture, t: u64, w: u16, h: u16, yuv: Option<BufferId>, kf: bool): (u: Update)
    ensures u.picture == Picture(t, w, h, kf, yuv, None, None)
    ensures yuv == p.yuv ==> u.released == OptionList(p.rgb) + OptionList(p.cropped)
    ensures yuv != p.yuv ==> u.released == Owned(p)
  {
    var kept := if yuv == p.yuv then p.(yuv := None) else p;
    var cleared := ClearPicture(kept);
    Update(cleared.picture.(yuv := yuv, time := t, width := w, height := h, keyframe := kf), cleared.released)
  }

  /** `decode_rgb`: allocates the RGB buffer (named `newId`) once, then returns the same buffer. */
  function DecodeRgbPicture(p: Picture, newId: BufferId): (r: (Picture, BufferId))
    ensures p.rgb.Some? ==> r == (p, p.rgb.value)
    ensures p.rgb.None? ==> r == (p.(rgb := Some(newId)), newId)
  {
    if p.rgb.Some? then (p, p.rgb.value) else (p.(rgb := Some(newId)), newId)
  }

  /** `crop`: allocates the cropped buffer (named `newId`) once, then returns the same buffer. */
  function CropPicture(p: Picture, newId: BufferId): (r: (Picture, BufferId))
    ensures p.cropped.Some? ==> r == (p, p.cropped.value)
    ensures p.cropped.None? ==> r == (p.(cropped := Some(newId)), newId)
  {
    if p.cropped.Some? then (p, p.cropped.value) else (p.(cropped := Some(newId)), newId)
  }

  /** Asking for a conversion twice allocates at most once: the second call changes nothing. */
  lemma ConversionsAllocateOnce(p: Picture, f1: BufferId, f2: BufferId)
    ensures DecodeRgbPicture(DecodeRgbPicture(p, f1).0, f2) == DecodeRgbPicture(p, f1)
    ensures CropPicture(CropPicture(p, f1).0, f2) == CropPicture(p, f1)
  {
  }

  /** Re-decoding into a picture's own yuv buffer never releases that buffer. */
  lemma ReuseKeepsYuv(p: Picture, t: u64, w: u16, h: u16, kf: bool)
    requires p.yuv.Some?
    requires p.rgb != p.yuv && p.cropped != p.yuv
    ensures p.yuv.value !in SetDecodedPicture(p, t, w, h, p.yuv, kf).released
    ensures SetDecodedPicture(p, t, w, h, p.yuv, kf).picture.yuv == p.yuv
  {
  }

  /** The `DecodedFrame` object whose pointer fields the methods overwrite. */
  class DecodedFrame {
    var time: u64
    var width: u16
    var height: u16
    var keyframe: bool
    var yuvPlanar: Option<BufferId>
    var rgbInterleaved: Option<BufferId>
    var croppedBuffer: Option<BufferId>

    function View(): Picture
      reads this
    {
      Picture(time, width, height, keyframe, yuvPlanar, rgbInterleaved, croppedBuffer)
    }

    constructor ()
      ensures View() == EmptyPicture
    {
      time, width, height, keyframe := 0, 0, 0, false;
      yuvPlanar, rgbInterleaved, croppedBuffer := None, None, None;
    }

    method SetDecoded(t: u64, w: u16, h: u16, yuv: Option<BufferId>, kf: bool) returns (released: seq<BufferId>)
      modifies this
      ensures Update(View(), released) == SetDecodedPicture(old(View()), t, w, h, yuv, kf)
    {
      if yuv == yuvPlanar {
        yuvPlanar := None;
      }
      released := Clear();
      yuvPlanar := yuv;
      time := t;
      width := w;
      height := h;
      keyframe := kf;
    }

    method DecodeRgb(newId: BufferId) returns (b: BufferId)
      modifies this
      ensures (View(), b) == DecodeRgbPicture(old(View()), newId)
    {
      if rgbInterleaved.None? {
        rgbInterleaved := Some(newId);
      }
      b := rgbInterleaved.value;
    }

    method Crop(newId: BufferId) returns (b: BufferId)
      modifies this
      ensures (View(), b) == CropPicture(old(View()), newId)
    {
      if croppedBuffer.None? {
        croppedBuffer := Some(newId);
      }
      b := croppedBuffer.value;
    }

    method Clear() returns (released: seq<BufferId>)
      modifies this
      ensures Update(View(), released) == ClearPicture(old(View()))
    {
      released := OptionList(yuvPlanar) + OptionList(rgbInterleaved) + OptionList(croppedBuffer);
      yuvPlanar := None;
      rgbInterleaved := None;
      croppedBuffer := None;
    }
  }
}
