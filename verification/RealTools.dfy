/** Real arithmetic shared by the solver and the detector. */
module RealTools {

  function Abs(x: real): real {
    if x < 0.0 then -x else x
  }
}
