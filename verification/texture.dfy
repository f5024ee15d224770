/** The decisions `CreateTexture` takes about a freshly decoded image.

    A failed decode makes texture creation fail. Otherwise the image is
    flipped vertically and uploaded as 8-bit RGB when it has three channels
    and as 8-bit RGBA when it has four; any other channel count makes
    texture creation fail. The GL calls that carry the decision out are not
    modelled: the result names the upload that would be issued.
 */
module Texture {
  import opened Wrappers
  import opened ImageRows
  import opened Flip

  /** Internal format requested from the GPU. */
  datatype InternalFormat = RGB8 | RGBA8

  /** Layout of the pixel data handed over for upload. */
  datatype PixelFormat = RGB | RGBA

  /** What the image decoder produces on success: interleaved 8-bit samples
      and the width, height and channel count it reports. */
  datatype DecodedImage = DecodedImage(pixels: seq<byte>, width: int32, height: int32, channels: int32)

  /** The texture upload: formats, dimensions and the pixel data passed. */
  datatype Upload = Upload(internalFormat: InternalFormat, format: PixelFormat,
                           width: int32, height: int32, pixels: seq<byte>)

  datatype TextureError =
    | LoadFailed                          // the decoder returned no image
    | UnsupportedChannels(channels: int)  // neither three nor four channels

  /** Samples per pixel in a pixel format. */
  function ChannelCount(f: PixelFormat): nat
  {
    match f
    case RGB => 3
    case RGBA => 4
  }

  /** The 8-bit internal format that matches a pixel format. */
  function InternalFor(f: PixelFormat): InternalFormat
  {
    match f
    case RGB => RGB8
    case RGBA => RGBA8
  }

  /** Formats for an image with `channels` samples per pixel. */
  function FormatsFor(channels: int): (r: Result<(InternalFormat, PixelFormat), TextureError>)
    ensures r.Success? <==> channels == 3 || channels == 4
    ensures r.Success? ==> ChannelCount(r.value.1) == channels && r.value.0 == InternalFor(r.value.1)
    ensures r.Failure? ==> r.error == UnsupportedChannels(channels)
  {
    if channels == 3 then Success((RGB8, RGB))
    else if channels == 4 then Success((RGBA8, RGBA))
    else Failure(UnsupportedChannels(channels))
  }

  /** Every pixel format is chosen for exactly its own channel count. */
  lemma FormatsForChannelCount(f: PixelFormat, channels: int)
    ensures FormatsFor(channels) == Success((InternalFor(f), f)) <==> channels == ChannelCount(f)
  {
    if channels == ChannelCount(f) {
      match f
      case RGB =>
      case RGBA =>
    }
  }

  /** `CreateTexture` after `stbi_load`: `decoded` is `None` when the decoder
      returned a null image. */
  method CreateTexture(decoded: Option<DecodedImage>) returns (r: Result<Upload, TextureError>)
    requires decoded.Some? ==>
      ActiveRows(decoded.value.height) * RowBytes(decoded.value.width, decoded.value.channels)
        <= |decoded.value.pixels|
    ensures decoded.None? <==> r == Failure(LoadFailed)
    ensures decoded.Some? ==> (r.Success? <==> decoded.value.channels == 3 || decoded.value.channels == 4)
    ensures decoded.Some? && r.Failure? ==> r.error == UnsupportedChannels(decoded.value.channels)
    ensures r.Success? ==>
      && decoded.Some?
      && ChannelCount(r.value.format) == decoded.value.channels
      && r.value.internalFormat == InternalFor(r.value.format)
      && r.value.width == decoded.value.width
      && r.value.height == decoded.value.height
      && r.value.pixels == FlipRows(decoded.value.pixels, ActiveRows(decoded.value.height),
                                    RowBytes(decoded.value.width, decoded.value.channels))
  {
    if decoded.None? {
      return Failure(LoadFailed);
    }
    var image := decoded.value;
    var flipped := FlipImageVertically(image.pixels, image.width, image.height, image.channels);
    var formats := FormatsFor(image.channels);
    if formats.Failure? {
      return Failure(formats.error);
    }
    r := Success(Upload(formats.value.0, formats.value.1, image.width, image.height, flipped));
  }
}
