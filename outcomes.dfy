/** Python exceptions as values.  Every stage of the pipeline either returns a
    value or raises; `Outcome` carries one or the other, and `Exc` keeps the
    exception's class and the text `str(e)` would give. */
module Outcomes {

  /** The exception classes the modelled code raises or lets through. */
  datatype ExcKind =
    | ValueError          // raised explicitly on an unreadable image
    | IndexError          // `[0]` on an empty list or array
    | ZeroDivisionError   // `//` by a zero downsample factor
    | CvError             // an OpenCV assertion (size mismatch, empty resize target)
    | Open3dError         // an Open3D binding rejecting its argument
    | Exception           // the bare `Exception(...)` class

  /** An exception object: its class and the message `str(e)` returns. */
  datatype Exc = Exc(kind: ExcKind, msg: string)

  /** Either a returned value or a raised exception. */
  datatype Outcome<+T> = Ok(value: T) | Raised(exc: Exc)

  /** A value that may be absent, as `None` is returned by `cv2.imread`. */
  datatype Option<+T> = None | Some(value: T)

  /** `str(e)` of an exception created with a single string argument. */
  function Str(e: Exc): string { e.msg }

  /** Message numpy gives for `masks[0]` on an empty mask array. */
  const EmptyIndexMsg: string := "index 0 is out of bounds for axis 0 with size 0"

  /** Message Python gives for `[0]` on an empty list. */
  const ListIndexMsg: string := "list index out of range"

  /** Message Python gives for `//` by zero on ints. */
  const ZeroDivMsg: string := "integer division or modulo by zero"

  /** Stand-in for the text of OpenCV's failed assertion in `bitwise_and`
      when the mask and the image differ in size. */
  const MaskSizeMsg: string := "bitwise_and: sizes of input arguments do not match"

  /** Stand-in for the text of OpenCV's failed assertion in `resize` when a
      target dimension is not positive. */
  const ResizeSizeMsg: string := "resize: target size must be positive"

  /** Stand-in for the text of Open3D's rejection of an array that is not
      N x 3, such as the `(0,)` array built from an empty list of points. */
  const EmptyCloudMsg: string := "Vector3dVector: expected an array of shape (N, 3)"
}
