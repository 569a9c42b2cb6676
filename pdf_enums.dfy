/** The two enumerations of PdfHelper.cs: the terminal action and the rotation angle,
    with the table that turns an EXIF orientation code into an angle. */
module PdfEnums {
  import opened Options

  /** Which terminal action a job performs once the pages are built (`PdfAction`). */
  datatype PdfAction = Save | Return | Split

  /** Rotation stamped on every imported page (`PdfAngle`). */
  datatype PdfAngle = Zero | Ninety | OneEighty | TwoSeventy

  /** The enum's underlying integer, which `Convert.ToInt32` writes into a page's Rotate. */
  function Degrees(a: PdfAngle): (d: int)
    ensures 0 <= d < 360 && d % 90 == 0
  {
    match a
    case Zero => 0
    case Ninety => 90
    case OneEighty => 180
    case TwoSeventy => 270
  }

  /** The EXIF orientation code that names each angle (1 upright, 6 a quarter turn,
      3 a half turn, 8 three quarters). */
  function OrientationCode(a: PdfAngle): (code: int)
    ensures code in {1, 3, 6, 8}
  {
    match a
    case Zero => 1
    case Ninety => 6
    case OneEighty => 3
    case TwoSeventy => 8
  }

  /** The rotation table of AddSinglePdfByteWithRotation: total, unknown codes give no angle. */
  function AngleFromCode(code: int): (angle: Option<PdfAngle>)
    ensures angle.Some? <==> code in {1, 3, 6, 8}
    ensures angle.Some? ==> OrientationCode(angle.value) == code
  {
    if code == 1 then Some(Zero)
    else if code == 6 then Some(Ninety)
    else if code == 3 then Some(OneEighty)
    else if code == 8 then Some(TwoSeventy)
    else None
  }

  /** The table and OrientationCode are inverse to each other, and the four angles are
      told apart by their degree values. */
  lemma AngleTableInverse(a: PdfAngle, b: PdfAngle)
    ensures AngleFromCode(OrientationCode(a)) == Some(a)
    ensures Degrees(a) == Degrees(b) ==> a == b
  {
  }

  /** The four codes map to 0, 90, 180 and 270 degrees. */
  lemma AngleTableDegrees(code: int)
    requires code in {1, 3, 6, 8}
    ensures AngleFromCode(code).Some?
    ensures Degrees(AngleFromCode(code).value) ==
            if code == 1 then 0 else if code == 6 then 90 else if code == 3 then 180 else 270
  {
  }
}
