/** The bool/int conversion helpers of CosmoteerModLib.Extensions. */
module TypeConversionExtensions {

  /** `value ? 1 : 0` */
  function ToInt(value: bool): (r: int)
    ensures r == 0 || r == 1
    ensures r == 1 <==> value
  {
    if value then 1 else 0
  }

  /** `value != 0` */
  function ToBool(value: int): (r: bool)
    ensures r <==> value != 0
  {
    value != 0
  }

  /** Converting a bool to an int and back gives the bool again. */
  lemma BoolRoundTrip(b: bool)
    ensures ToBool(ToInt(b)) == b
  {
  }

  /** Converting an int to a bool and back normalises it to 0 or 1. */
  lemma IntRoundTrip(v: int)
    ensures ToInt(ToBool(v)) == (if v == 0 then 0 else 1)
    ensures v == 0 || v == 1 ==> ToInt(ToBool(v)) == v
  {
  }
}
