/** Header checks and the completeness test of a frame. */
module Validation {
  import opened PacketSchema

  const MAGIC := 0x4F56
  const VERSION := 0
  const MAX_PAYLOAD_BYTES := 1400
  const DEFAULT_TAG_LENGTH := 16
  const VALID_PAYLOAD_TYPES := {1, 2, 3}

  datatype HeaderError =
    | BadMagic | BadVersion | NoSegments | SegmentOutOfRange | UnknownPayloadType
    | PayloadTooLong | NoTag | TagTooLong | TagNotDefault

  predicate Violates(h: PacketHeader, e: HeaderError) {
    match e
    case BadMagic => h.magic != MAGIC
    case BadVersion => h.version != VERSION
    case NoSegments => h.segmentCount == 0
    case SegmentOutOfRange => h.segmentId >= h.segmentCount
    case UnknownPayloadType => h.payloadType !in VALID_PAYLOAD_TYPES
    case PayloadTooLong => h.payloadLength > MAX_PAYLOAD_BYTES
    case NoTag => h.tagLength <= 0
    case TagTooLong => h.tagLength > 32
    case TagNotDefault => h.tagLength != DEFAULT_TAG_LENGTH
  }

  /** What an accepted header satisfies, in one line. */
  predicate WellFormed(h: PacketHeader) {
    && h.magic == 0x4F56 && h.version == 0 && h.segmentId < h.segmentCount && h.segmentCount != 0
    && 1 <= h.payloadType <= 3 && h.payloadLength <= 1400 && h.tagLength == 16
  }

  /** `if <violated>: errors.append(...)` */
  function When(h: PacketHeader, e: HeaderError): seq<HeaderError> { if Violates(h, e) then [e] else [] }

  /** Every violated rule, in the order the rules are listed. */
  function Errors(h: PacketHeader): seq<HeaderError> {
    When(h, BadMagic) + When(h, BadVersion) + When(h, NoSegments) + When(h, SegmentOutOfRange)
    + When(h, UnknownPayloadType) + When(h, PayloadTooLong) + When(h, NoTag) + When(h, TagTooLong)
    + When(h, TagNotDefault)
  }

  lemma NoErrorsIffWellFormed(h: PacketHeader)
    ensures Errors(h) == [] <==> WellFormed(h)
  {
    if Errors(h) == [] {
      assert |Errors(h)| == 0;
    }
  }

  method ValidateHeader(h: PacketHeader) returns (errors: seq<HeaderError>)
    ensures errors == Errors(h)
    ensures errors == [] <==> WellFormed(h)
  {
    errors := When(h, BadMagic);
    errors := errors + When(h, BadVersion);
    errors := errors + When(h, NoSegments);
    errors := errors + When(h, SegmentOutOfRange);
    errors := errors + When(h, UnknownPayloadType);
    errors := errors + When(h, PayloadTooLong);
    errors := errors + When(h, NoTag);
    errors := errors + When(h, TagTooLong);
    errors := errors + When(h, TagNotDefault);
    NoErrorsIffWellFormed(h);
  }

  /** All segment ids of the frame are present and no other. */
  ghost predicate Complete(ids: set<int>, count: int) {
    count > 0 && forall i :: i in ids <==> 0 <= i < count
  }

  /** The first `count` segment ids. */
  function FirstIds(count: nat): (r: set<int>)
    ensures |r| == count && forall i :: i in r <==> 0 <= i < count
  {
    if count == 0 then {} else FirstIds(count - 1) + {count - 1}
  }

  lemma SameSizeSubset(a: set<int>, b: set<int>)
    requires a <= b && |a| == |b|
    ensures a == b
  {
    assert b == a + (b - a);
    assert |b - a| == 0;
  }

  /** The counting test of the source, on `set(received_segment_ids)`, decides completeness. */
  method IsFrameComplete(seen: set<int>, count: int) returns (complete: bool)
    ensures complete <==> Complete(seen, count)
  {
    if count <= 0 { return false; }
    if |seen| != count {
      assert Complete(seen, count) ==> seen == FirstIds(count);
      return false;
    }
    for idx := 0 to count
      invariant forall i :: 0 <= i < idx ==> i in seen
    {
      if idx !in seen { return false; }
    }
    assert FirstIds(count) <= seen;
    SameSizeSubset(FirstIds(count), seen);
    return true;
  }
}
