/** Signed 16-bit audio samples. */
module Audio {

  type S16 = x: int | -0x8000 <= x <= 0x7FFF

  datatype Stereo = Stereo(left: S16, right: S16)

  function Clamp(x: int): S16 {
    if x < -0x8000 then -0x8000 else if x > 0x7FFF then 0x7FFF else x
  }

  /** The two's complement value of the low 16 bits. */
  function ToS16(x: int): S16 {
    var low := x % 0x1_0000;
    if low < 0x8000 then low else low - 0x1_0000
  }

  lemma ToS16OfS16(x: S16)
    ensures ToS16(x) == x
  {
  }
}
