/** The observation request model: the OBR segment's key field. */
module ObrModel {
  import opened Wrappers
  import opened Segments
  import opened Text
  import opened MessageSplitter

  /** The type code of an observation request segment. */
  const OrderCode: string := "OBR"

  /** The record built from an order segment: only the key read from field index 6. */
  datatype OrderInfo = OrderInfo(clave: Option<string>)

  /**
   * `OBR(segment)`: fails with the mismatch error exactly when the segment's
   * type is not "OBR"; otherwise `clave` is field 6 when the segment has it
   * and absent when it does not, which is not an error.
   */
  function Obr(segment: Segment): (r: Result<OrderInfo, ModelError>)
    ensures r.Failure? <==> segment.typeCode != Some(OrderCode)
    ensures r.Failure? ==> r.error == SegmentMismatch
    ensures r.Success? && |segment.fields| > 6 ==> r.value.clave == Some(segment.fields[6])
    ensures r.Success? && |segment.fields| <= 6 ==> r.value.clave == None
  {
    if segment.typeCode != Some(OrderCode) then Failure(SegmentMismatch)
    else Success(OrderInfo(FieldAt(segment.fields, 6)))
  }

  /** The result depends on the type and on field 6 alone. */
  lemma ObrReadsOnlyField6(a: Segment, b: Segment)
    requires a.typeCode == b.typeCode
    requires FieldAt(a.fields, 6) == FieldAt(b.fields, 6)
    ensures Obr(a) == Obr(b)
  {
  }

  /**
   * One worked example, with `fields` fixed to the fields of the order
   * segment "OBR|1|2|3|4|5|6|KEY2": the key is "6", because field index 6
   * counts the type code as field 0, so "KEY2" is field 7.
   */
  lemma OrderSampleKey(fields: seq<string>)
    requires fields == ["OBR", "1", "2", "3", "4", "5", "6", "KEY2"]
    ensures Obr(GetFieldsSegment("|", Join(fields, "|"))) == Success(OrderInfo(Some("6")))
  {
    FieldsRoundTrip('|', fields);
  }
}
