/** A value that may be absent; stands for PdfHelper.cs's nullable references and `PdfAngle?`. */
module Options {
  datatype Option<+T> = None | Some(value: T)
}
