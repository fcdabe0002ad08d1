/**
 * The two reversible stages in sequence, as a compressor's front end uses
 * them: the Burrows-Wheeler transform, then move-to-front coding of its last
 * column; and back again, move-to-front decoding, then the inverse transform.
 */
module Pipeline {
  import opened Common
  import opened BurrowsWheeler
  import opened MoveToFront

  /**
   * Runs both stages forward and both inverses back. Every non-empty byte
   * text comes back unchanged; an empty text stops at the transform, whose
   * search for the text's row fails.
   */
  method ComposedRoundTrip(s: seq<int>) returns (r: Result<seq<int>>)
    requires AllBytes(s)
    ensures r == if |s| == 0 then Failure(IllegalArgument) else Success(s)
  {
    var transformed := Transform(s);
    if transformed.Failure? {
      return Failure(transformed.error);
    }
    var first, column := transformed.value.first, transformed.value.last;
    BwtRoundTrip(s, first, column);
    var codes := Encode(column);
    var symbols := Decode(codes);
    DecodeEncode(Identity(EXTENDED_ASCII), column);
    r := InverseTransform(first, symbols);
  }
}
