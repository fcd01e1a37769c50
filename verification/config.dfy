/** The supported-format constants of the data configuration. */
module Config {
  import opened Strings

  const ImageFormats: seq<string> := [".jpg", ".jpeg", ".tiff", ".tif", ".png", ".tga", ".exr", ".dpx"]
  const VideoFormats: seq<string> := [".mov", ".avi", ".mp4"]
  const DataFileName: string := "data.json"

  /** `path.endswith(SUPPORTED_IMAGE_FORMATS)`: case-sensitive. */
  predicate IsImage(path: string) {
    EndsWithAny(path, ImageFormats)
  }

  /** `path.endswith(SUPPORTED_VIDEO_FORMATS)`: case-sensitive. */
  predicate IsVideo(path: string) {
    EndsWithAny(path, VideoFormats)
  }
}
