/**
 * Splitting a raw HL7 v2 message: into segments on line feeds, detecting the
 * field separator declared by the message header (MSH-1), and splitting one
 * segment into its fields.
 */
module MessageSplitter {
  import opened Wrappers
  import opened Text
  import opened Segments

  /** The type code of the message header segment. */
  const HeaderCode: string := "MSH"

  /** The separator used when the message has no header segment. */
  const DefaultSeparator: string := "|"

  /**
   * `getSegments`: the trimmed message split on line feeds. There is always
   * at least one segment, no segment holds a line feed, and joining them back
   * with line feeds gives the trimmed message.
   */
  function GetSegments(message: string): (r: seq<string>)
    ensures |r| > 0
    ensures forall seg :: seg in r ==> '\n' !in seg
    ensures Join(r, "\n") == Trim(message)
  {
    var trimmed := Trim(message);
    JoinSplit(trimmed, "\n");
    SplitOnChar(trimmed, '\n');
    Split(trimmed, "\n")
  }

  /** A blank message, and only a blank one, yields the single empty segment. */
  lemma BlankMessageSegments(message: string)
    ensures GetSegments(message) == [""] <==> AllWhitespace(message)
  {
    if AllWhitespace(message) {
      assert Trim(message) == [];
    }
  }

  /** The trim shows at the edges: the first segment starts, and the last ends, with no whitespace. */
  lemma SegmentEdges(message: string)
    ensures var segs := GetSegments(message);
      (segs[0] == [] || !IsWhitespace(segs[0][0]))
      && (segs[|segs| - 1] == [] || !IsWhitespace(segs[|segs| - 1][|segs[|segs| - 1]| - 1]))
  {
    var segs := GetSegments(message);
    var trimmed := Trim(message);
    assert StartsWith(trimmed, segs[0]);
    JoinEndsWithLast(segs, "\n");
  }

  /**
   * A blank line inside the message is kept as an empty segment: only the
   * ends of the message are trimmed, so segments are not always non-empty.
   */
  lemma BlankLineKeepsEmptySegment(a: string, b: string)
    requires a != [] && !IsWhitespace(a[0]) && '\n' !in a
    requires b != [] && !IsWhitespace(b[|b| - 1]) && '\n' !in b
    ensures GetSegments(a + "\n\n" + b) == [a, "", b]
  {
    var message := a + "\n\n" + b;
    assert TrimStart(message) == message;
    assert TrimEnd(message) == message;
    assert message == a + "\n" + ("\n" + b);
    SplitAtFirstChar(a, '\n', "\n" + b);
    SplitAtFirstChar([], '\n', b);
    assert [] + "\n" + b == "\n" + b;
    SplitWithoutChar(b, '\n');
  }

  /**
   * `getFieldsSegment`: the segment split on the separator, tagged with its
   * first field. Joining the fields with the separator gives back the segment;
   * the type code is a prefix of the segment; there is no field (and no type)
   * only for an empty segment split on an empty separator.
   */
  function GetFieldsSegment(fieldSeparator: string, segment: string): (r: Segment)
    ensures Join(r.fields, fieldSeparator) == segment
    ensures r.fields == [] <==> fieldSeparator == [] && segment == []
    ensures r.fields != [] ==> r.typeCode == Some(r.fields[0]) && StartsWith(segment, r.fields[0])
    ensures r.fields == [] ==> r.typeCode == None
    ensures fieldSeparator == [] ==>
              |r.fields| == |segment| && forall i :: 0 <= i < |segment| ==> r.fields[i] == [segment[i]]
  {
    var fields := Split(segment, fieldSeparator);
    JoinSplit(segment, fieldSeparator);
    Segment(FieldAt(fields, 0), fields)
  }

  /**
   * With a one-character separator, no field holds it and there is one field
   * more than it has occurrences in the segment.
   */
  lemma FieldsOfCharSeparator(c: char, segment: string)
    ensures var fields := GetFieldsSegment([c], segment).fields;
      (forall f :: f in fields ==> c !in f) && |fields| == multiset(segment)[c] + 1
  {
    SplitOnChar(segment, c);
  }

  /** Fields free of a one-character separator are recovered from the segment they are joined into. */
  lemma FieldsRoundTrip(c: char, fields: seq<string>)
    requires |fields| > 0
    requires forall f :: f in fields ==> c !in f
    ensures GetFieldsSegment([c], Join(fields, [c])) == Segment(Some(fields[0]), fields)
  {
    SplitJoin(fields, c);
  }

  /** The header is found by prefix: any segment starting with "MSH", whatever its first field. */
  predicate IsHeader(segment: string) {
    StartsWith(segment, HeaderCode)
  }

  /** Segment `i` is the first header segment. */
  predicate IsFirstHeader(segments: seq<string>, i: nat) {
    i < |segments| && IsHeader(segments[i])
    && forall j :: 0 <= j < i ==> !IsHeader(segments[j])
  }

  /** `segments.find(segment => segment.startsWith("MSH"))`: the first header segment, if any. */
  function FindHeader(segments: seq<string>): (r: Option<string>)
    ensures r.None? <==> forall j :: 0 <= j < |segments| ==> !IsHeader(segments[j])
    ensures r.Some? ==> exists i: nat :: IsFirstHeader(segments, i) && segments[i] == r.value
    decreases |segments|
  {
    if segments == [] then None
    else if IsHeader(segments[0]) then
      assert IsFirstHeader(segments, 0);
      Some(segments[0])
    else
      var r := FindHeader(segments[1..]);
      assert r.Some? ==> exists i: nat :: IsFirstHeader(segments, i) && segments[i] == r.value by {
        if r.Some? {
          var i: nat :| IsFirstHeader(segments[1..], i) && segments[1..][i] == r.value;
          assert IsFirstHeader(segments, i + 1);
        }
      }
      r
  }

  /** The first header segment is what `FindHeader` returns. */
  lemma FindHeaderIsFirst(segments: seq<string>, i: nat)
    requires IsFirstHeader(segments, i)
    ensures FindHeader(segments) == Some(segments[i])
  {
  }

  /**
   * `getFieldSeparator`: the character after "MSH" in the first header
   * segment of the message, or "|" when there is none. A header is never
   * empty, so JavaScript's truthiness test on the found segment is the test
   * for being found.
   */
  function GetFieldSeparator(message: string): (r: string)
    ensures |r| <= 1
    ensures (forall seg :: seg in GetSegments(message) ==> !IsHeader(seg)) ==> r == DefaultSeparator
  {
    match FindHeader(GetSegments(message))
    case Some(header) => CharAt(header, 3)
    case None => DefaultSeparator
  }

  /**
   * With a header segment, the separator is its fourth character, or the
   * empty string when the segment is exactly "MSH".
   */
  lemma SeparatorFromHeader(message: string, i: nat)
    requires IsFirstHeader(GetSegments(message), i)
    ensures var header := GetSegments(message)[i];
      && GetFieldSeparator(message) == CharAt(header, 3)
      && (GetFieldSeparator(message) == [] <==> header == HeaderCode)
      && (|header| > 3 ==> GetFieldSeparator(message) == [header[3]])
  {
  }

  /**
   * A header that is exactly "MSH" gives the empty separator, and split on it
   * the header falls apart into its letters, with type "M".
   */
  lemma BareHeaderSplitsIntoLetters()
    ensures GetFieldsSegment(CharAt(HeaderCode, 3), HeaderCode) == Segment(Some("M"), ["M", "S", "H"])
  {
  }

  /**
   * A header whose separator is not one of the letters M, S, H splits into the
   * type "MSH" followed by the fields of the rest of the segment.
   */
  lemma HeaderSplitsToHeaderCode(c: char, rest: string)
    requires c !in HeaderCode
    ensures GetFieldsSegment([c], HeaderCode + [c] + rest)
            == Segment(Some(HeaderCode), [HeaderCode] + Split(rest, [c]))
  {
    SplitAtFirstChar(HeaderCode, c, rest);
  }

  /**
   * A header whose separator is one of the letters M, S, H cuts its own type
   * code: the split segment's type is no longer "MSH".
   */
  lemma HeaderCodeCutBySeparator(c: char, rest: string)
    requires c in HeaderCode
    ensures GetFieldsSegment([c], HeaderCode + [c] + rest).typeCode != Some(HeaderCode)
  {
    var segment := HeaderCode + [c] + rest;
    var fields := Split(segment, [c]);
    SplitOnChar(segment, c);
    assert fields[0] in fields;
  }
}
