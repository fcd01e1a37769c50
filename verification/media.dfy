/**
 * Values the conversion job stores in a record's metadata.  Python types them
 * dynamically: the frame count is an `int` from the fallback, the text ffprobe
 * reported for videos and images, and a `str` for image sequences; the frame
 * rate is a `float`, modelled as the exact real it approximates.
 */
module Media {
  import opened Wrappers

  datatype Value = Int(i: int) | Real(r: real) | Str(s: string)

  /** The metadata dict `{'FPS', 'Frame(s)', 'width', 'height', 'Format'}` of a record. */
  datatype Metadata = Metadata(fps: Value, frames: Value, width: Option<int>, height: Option<int>, format: string)
}
