/** Why reading a TGA stream can fail. Each case is one of the `return false`
    paths of the reader that the model keeps. */
module TgaError {

  datatype Error =
    | TruncatedHeader          // fewer than 18 header bytes
    | BadGeometry              // width or height <= 0, or depth not 1, 3 or 4 bytes
    | UnknownDataType(code: int)
    | TruncatedData            // the stream ends inside the pixel data
    | TooManyPixels            // an RLE packet runs past width * height pixels

  datatype Result<+T> = Ok(value: T) | Err(error: Error)
}
