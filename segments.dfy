/**
 * The cut list entry: the two times as the user typed them and as parsed
 * seconds.
 */
module Segments {

  datatype Segment = Segment(startText: string, endText: string, startSec: real, endSec: real)

  /** `duration_sec`: the length of the interval, or 0 when the end is not after the start. */
  function Duration(seg: Segment): (d: real)
    ensures d >= 0.0 && d >= seg.endSec - seg.startSec
    ensures d == 0.0 || d == seg.endSec - seg.startSec
    ensures d > 0.0 <==> seg.startSec < seg.endSec
  {
    if seg.endSec - seg.startSec > 0.0 then seg.endSec - seg.startSec else 0.0
  }
}
