/** A frame as the messages and the broker see it. */
module Frames {
  /** Pixel format code, size in pixels, and the bytes of all planes. */
  datatype VideoFrame = VideoFrame(format: int, width: int, height: int, data: seq<int>)

  /** A default-constructed frame. */
  const EMPTY_FRAME := VideoFrame(0, 0, 0, [])
}
