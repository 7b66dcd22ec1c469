/** The message header model: the MSH segment's key field. */
module MshModel {
  import opened Wrappers
  import opened Text
  import opened Segments
  import opened MessageSplitter

  /** The record built from a header segment: only the key read from field index 6. */
  datatype HeaderInfo = HeaderInfo(clave: Option<string>)

  /**
   * `MSH(segment)`: fails with the mismatch error exactly when the segment's
   * type is not "MSH"; otherwise `clave` is field 6 when the segment has it
   * and absent when it does not, which is not an error.
   */
  function Msh(segment: Segment): (r: Result<HeaderInfo, ModelError>)
    ensures r.Failure? <==> segment.typeCode != Some(HeaderCode)
    ensures r.Failure? ==> r.error == SegmentMismatch
    ensures r.Success? && |segment.fields| > 6 ==> r.value.clave == Some(segment.fields[6])
    ensures r.Success? && |segment.fields| <= 6 ==> r.value.clave == None
  {
    if segment.typeCode != Some(HeaderCode) then Failure(SegmentMismatch)
    else Success(HeaderInfo(FieldAt(segment.fields, 6)))
  }

  /** The result depends on the type and on field 6 alone. */
  lemma MshReadsOnlyField6(a: Segment, b: Segment)
    requires a.typeCode == b.typeCode
    requires FieldAt(a.fields, 6) == FieldAt(b.fields, 6)
    ensures Msh(a) == Msh(b)
  {
  }

  /**
   * A header segment "MSH" + c + rest, split on its own separator c, maps to
   * a header record whose key is the sixth field of `rest` — provided c is
   * not one of the letters of "MSH".
   */
  lemma HeaderSegmentMaps(c: char, rest: string)
    requires c !in HeaderCode
    ensures Msh(GetFieldsSegment([c], HeaderCode + [c] + rest)).Success?
    ensures Msh(GetFieldsSegment([c], HeaderCode + [c] + rest)).value.clave
            == FieldAt([HeaderCode] + Split(rest, [c]), 6)
  {
    HeaderSplitsToHeaderCode(c, rest);
  }
}
