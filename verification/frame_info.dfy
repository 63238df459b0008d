/** The structured content of one stack frame, obfuscated or original. */
module Frames {

  /**
    A frame: class, source file, line number (0 when unknown, -1 when unreadable),
    type, field, method and argument list. Every part may be empty.
  */
  datatype FrameInfo = FrameInfo(
    className: string,
    sourceFile: string,
    lineNumber: int,
    typeName: string,
    fieldName: string,
    methodName: string,
    arguments: string)

  /** The zero value of the Go struct: what a line that is not a frame parses to. */
  const EmptyFrame := FrameInfo("", "", 0, "", "", "", "")
}
