/** What the header filter and the body filters of the byte-range module share. */
module RangeTypes {
  /** NGX_MAX_OFF_T_VALUE for a 64-bit off_t */
  const MAX_OFF_T: int := 0x7FFF_FFFF_FFFF_FFFF

  /** A half-open byte range of the body. */
  datatype Range = Range(start: int, end: int)

  function Total(ranges: seq<Range>): int {
    if ranges == [] then 0 else Total(ranges[..|ranges| - 1]) + Length(ranges[|ranges| - 1])
  }

  function Length(r: Range): int {
    r.end - r.start
  }

  /** All ranges are nonempty parts of a body of `contentLength` bytes. */
  predicate InBounds(ranges: seq<Range>, contentLength: int) {
    forall i :: 0 <= i < |ranges| ==> 0 <= ranges[i].start < ranges[i].end <= contentLength
  }

  /** The filter context of one request.  `contentRange` holds the Content-Range text of each range. */
  class RangeContext {
    var offset: int
    var boundaryHeader: string
    var ranges: seq<Range>
    var contentRange: seq<string>

    constructor ()
      ensures offset == 0 && ranges == [] && boundaryHeader == "" && contentRange == []
    {
      offset, boundaryHeader, ranges, contentRange := 0, "", [], [];
    }
  }
}
