/** The observation result model: key, name and formatted value of an OBX segment. */
module ObxModel {
  import opened Wrappers
  import opened Text
  import opened Segments

  /** The type code of an observation result segment. */
  const ResultCode: string := "OBX"

  /** The record built from a result segment. */
  datatype ObservationResult = ObservationResult(clave: Option<string>, nombre: string, resultado: string)

  /**
   * The text `parseFloat` reads: the field itself, or "undefined" for a
   * missing field, since JavaScript converts its argument to a string first.
   */
  function NumberText(field: Option<string>): (r: string)
    ensures field.Some? ==> r == field.value
    ensures field.None? ==> r == "undefined"
  {
    match field
    case Some(text) => text
    case None => "undefined"
  }

  /**
   * `OBX(segment)`. `formatNumber` stands for `parseFloat(x).toFixed(2)`,
   * whose floating-point behaviour is not modelled; it always yields a string.
   * The type check comes first; then field 4 must exist, since
   * `replaceAll` is called on it unguarded. `clave` is field 14 or absent,
   * `nombre` is field 4 with every '^' turned into a space, and `resultado`
   * is the formatted field 5 and is never absent.
   */
  function Obx(segment: Segment, formatNumber: string -> string): (r: Result<ObservationResult, ModelError>)
    ensures r.Failure? <==> segment.typeCode != Some(ResultCode) || |segment.fields| <= 4
    ensures segment.typeCode != Some(ResultCode) ==> r == Failure(SegmentMismatch)
    ensures segment.typeCode == Some(ResultCode) && |segment.fields| <= 4 ==> r == Failure(UndefinedField(4))
    ensures r.Success? && |segment.fields| > 14 ==> r.value.clave == Some(segment.fields[14])
    ensures r.Success? && |segment.fields| <= 14 ==> r.value.clave == None
    ensures r.Success? ==>
              && |r.value.nombre| == |segment.fields[4]|
              && '^' !in r.value.nombre
              && forall i :: 0 <= i < |segment.fields[4]| ==>
                   r.value.nombre[i] == (if segment.fields[4][i] == '^' then ' ' else segment.fields[4][i])
    ensures r.Success? ==> r.value.resultado == formatNumber(NumberText(FieldAt(segment.fields, 5)))
  {
    if segment.typeCode != Some(ResultCode) then Failure(SegmentMismatch)
    else if |segment.fields| <= 4 then Failure(UndefinedField(4))
    else
      var name := segment.fields[4];
      ReplaceAllChar(name, '^', ' ');
      SubstituteSpec(name, '^', ' ');
      Success(ObservationResult(
        FieldAt(segment.fields, 14),
        ReplaceAll(name, "^", " "),
        formatNumber(NumberText(FieldAt(segment.fields, 5)))))
  }

  /** The result depends on the type and on fields 4, 5 and 14 alone (their presence included). */
  lemma ObxReadsOnlyItsFields(a: Segment, b: Segment, formatNumber: string -> string)
    requires a.typeCode == b.typeCode
    requires FieldAt(a.fields, 4) == FieldAt(b.fields, 4)
    requires FieldAt(a.fields, 5) == FieldAt(b.fields, 5)
    requires FieldAt(a.fields, 14) == FieldAt(b.fields, 14)
    ensures Obx(a, formatNumber) == Obx(b, formatNumber)
  {
  }
}
