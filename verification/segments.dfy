/** The split form of one segment, as the segment models receive it, and their errors. */
module Segments {
  import opened Wrappers

  /**
   * `{ type, fields }`: `typeCode` is the object's `type` property, which is
   * `fields[0]`, or undefined when the split produced no field at all.
   */
  datatype Segment = Segment(typeCode: Option<string>, fields: seq<string>)

  /** The errors a segment model throws. */
  datatype ModelError =
    | SegmentMismatch          // the segment's type is not the one the model handles
    | UndefinedField(index: nat) // a string method was called on a field the segment does not have

  /** `fields[i] ?? undefined`: the field when the index is in range, absent otherwise. */
  function FieldAt(fields: seq<string>, i: nat): (r: Option<string>)
    ensures r.Some? <==> i < |fields|
    ensures r.Some? ==> r.value == fields[i]
  {
    if i < |fields| then Some(fields[i]) else None
  }
}
