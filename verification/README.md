# HL7 v2 message splitting and segment models

A Dafny model of the parsing core of a small HL7 v2 server. A raw message is
trimmed and split on line feeds into segments. The field separator is read
from the message header: it is the character right after the `MSH` prefix of
the first segment that starts with `MSH`, or `|` when no segment does. One
segment is split on that separator into fields tagged with their first field
as the type code. Three segment models turn a split segment into a record:

- the message header (MSH) gives `clave`, field 6;
- the observation request (OBR) gives `clave`, field 6;
- the observation result (OBX) gives `clave` (field 14), `nombre` (field 4
  with every `^` turned into a space) and `resultado` (field 5 read as a
  number and printed with two decimals).

Each model throws the same mismatch error when handed a segment of another
type.

Everything is pure, so the model uses functions on values: strings are
`seq<char>`, the `{type, fields}` object is the `Segment` datatype, thrown
errors are the `Failure` case of `Result`, and a field read `fields[i] ??
undefined` gives an `Option`. The JavaScript property `type` is called
`typeCode`, because `type` is a Dafny keyword. It is an `Option`, since
`"".split("")` has no elements and its `fields[0]` is undefined.

Files:

- `wrappers.dfy`: `Option` and `Result`.
- `text.dfy`: the ECMAScript string operations used, with their laws:
  `trim`, `split` (an empty separator gives one piece per character, and
  none for the empty string), `join`, `startsWith`, `charAt` and
  `replaceAll`.
- `segments.dfy`: the split segment, the models' errors and the guarded field
  read.
- `splitter.dfy`: `getSegments`, `getFieldsSegment` and `getFieldSeparator`.
- `msh.dfy`, `obr.dfy`, `obx.dfy`: the three segment models.

Four behaviours of the code are easy to miss:

- Segments are not always non-empty. Only the ends of the message are
  trimmed, so a blank line inside it stays as an empty segment
  (`BlankLineKeepsEmptySegment`).
- The header is found by the `MSH` prefix of the segment text, not by its
  split type field. A segment `MSHX...` counts as a header.
- Field indices count the type code as field 0. In `OBR|1|2|3|4|5|6|KEY2`,
  `clave` is `"6"` and not `"KEY2"` (`OrderSampleKey`). In the same way the
  OBX `clave` is the field after fourteen separators.
- When the first header is exactly `MSH`, the separator is empty, and an
  empty segment split on it has no field at all.

## Model

| member | source | states |
|---|---|---|
| `Text.Trim` | src/lib/hl7MessageSpliter.js:6 | the trimmed text is empty exactly when the message is all whitespace; otherwise its first and last characters are not whitespace |
| `Text.TrimIsInfix` | src/lib/hl7MessageSpliter.js:6 | the trimmed text is an infix of the message, and only whitespace lies before and after it |
| `Text.Split` | src/lib/hl7MessageSpliter.js:11 | `split(sep)`: no piece exactly when both the text and the separator are empty; the first piece is a prefix of the text; an empty separator gives one piece per character; the laws `JoinSplit`, `SplitOnChar` and `SplitJoin` pin down the one-character case, the only non-empty separator the program uses; for longer separators the definition cuts at the leftmost occurrence, which those laws do not fix |
| `Text.JoinSplit` | src/lib/hl7MessageSpliter.js:11 | joining the pieces of `split(sep)` with `sep` gives back the text, for every separator including the empty one |
| `Text.SplitAvoidsSeparator` | src/lib/hl7MessageSpliter.js:11 | no piece of a split on a non-empty separator contains that separator |
| `Text.SplitOnChar` | src/lib/hl7MessageSpliter.js:11 | splitting on one character: no piece holds it, and there is one piece more than it has occurrences |
| `Text.SplitJoin` | src/lib/hl7MessageSpliter.js:11 | pieces free of a one-character separator come back unchanged from splitting their join |
| `Text.CharAt` | src/lib/hl7MessageSpliter.js:25 | `charAt(i)` is the one character at `i`, or the empty string when `i` is past the end |
| `Text.StartsWith` | src/lib/hl7MessageSpliter.js:20 | `startsWith(prefix)` holds exactly when the text is at least as long as the prefix and agrees with it position by position |
| `MessageSplitter.GetSegments` | src/lib/hl7MessageSpliter.js:3-7 | there is always a segment, no segment holds a line feed, and joining the segments with line feeds gives the trimmed message |
| `MessageSplitter.BlankMessageSegments` | src/lib/hl7MessageSpliter.js:6 | the segments are exactly `[""]` if and only if the message is empty or all whitespace |
| `MessageSplitter.SegmentEdges` | src/lib/hl7MessageSpliter.js:6 | the first segment does not start, and the last does not end, with whitespace |
| `MessageSplitter.BlankLineKeepsEmptySegment` | src/lib/hl7MessageSpliter.js:6 | a blank line between two lines is kept as an empty segment between them |
| `MessageSplitter.GetFieldsSegment` | src/lib/hl7MessageSpliter.js:9-15 | joining the fields with the separator gives back the segment; the type is the first field, a prefix of the segment; there is no field, and no type, only for an empty segment split on an empty separator; an empty separator gives one field per character |
| `MessageSplitter.FieldsOfCharSeparator` | src/lib/hl7MessageSpliter.js:11 | with a one-character separator no field holds it, and there are as many fields as its occurrences plus one |
| `MessageSplitter.FieldsRoundTrip` | src/lib/hl7MessageSpliter.js:11-14 | fields free of a one-character separator, joined with it, split back into the same fields and are tagged with the first |
| `MessageSplitter.FindHeader` | src/lib/hl7MessageSpliter.js:19-21 | the search finds nothing exactly when no segment starts with `MSH`; what it finds is the first segment that does |
| `MessageSplitter.FindHeaderIsFirst` | src/lib/hl7MessageSpliter.js:19-21 | the first segment starting with `MSH` is the one the search returns |
| `MessageSplitter.GetFieldSeparator` | src/lib/hl7MessageSpliter.js:17-26 | the separator has at most one character, and it is `|` when no segment starts with `MSH` |
| `MessageSplitter.SeparatorFromHeader` | src/lib/hl7MessageSpliter.js:19-25 | with a header, the separator is the character at index 3 of the first header segment; it is empty exactly when that segment is `MSH` |
| `MessageSplitter.BareHeaderSplitsIntoLetters` | src/lib/hl7MessageSpliter.js:11-14 | a header that is exactly `MSH` yields the empty separator, and split on it becomes `["M", "S", "H"]` with type `M` |
| `MessageSplitter.HeaderSplitsToHeaderCode` | src/lib/hl7MessageSpliter.js:11-14 | a header `MSH` + c + rest, split on c, has type `MSH` and the fields of `rest` after it, when c is not one of M, S, H |
| `MessageSplitter.HeaderCodeCutBySeparator` | src/lib/hl7MessageSpliter.js:11-14 | when the separator is one of M, S, H the header splits into a type that is not `MSH` |
| `Segments.FieldAt` | src/models/MSH.js:11 | `fields[i] ?? undefined` is present exactly when the index is in range, and is then that field |
| `MshModel.Msh` | src/models/MSH.js:1-14 | fails with the mismatch error exactly when the type is not `MSH`; `clave` is field 6 when there are more than six fields, and absent (not an error) otherwise |
| `MshModel.MshReadsOnlyField6` | src/models/MSH.js:8-12 | two segments with the same type and the same field 6 give the same result |
| `MshModel.HeaderSegmentMaps` | src/models/MSH.js:4-11 | a header split on its own separator (not M, S or H) passes the type check, and its key is field 6 of the split |
| `ObrModel.Obr` | src/models/OBR.js:2-14 | fails with the mismatch error exactly when the type is not `OBR`; `clave` is field 6 when there are more than six fields, and absent (not an error) otherwise |
| `ObrModel.ObrReadsOnlyField6` | src/models/OBR.js:8-12 | two segments with the same type and the same field 6 give the same result |
| `ObrModel.OrderSampleKey` | src/models/OBR.js:11 | the segment with fields `OBR`, `1` … `6`, `KEY2` joined by `\|` has key `"6"`, not `"KEY2"` |
| `Text.ReplaceAllChar` | src/models/OBX.js:10 | replacing every occurrence of one character by another is the position-by-position substitution |
| `Text.SubstituteSpec` | src/models/OBX.js:10 | the substitution keeps the length, leaves no replaced character, and changes nothing else |
| `Text.ReplaceAll` | src/models/OBX.js:10 | `replaceAll`: an empty pattern adds the replacement before every character and at the end (length law); replacing a pattern by itself changes nothing; the one-character case is `ReplaceAllChar` |
| `ObxModel.NumberText` | src/models/OBX.js:11 | a present field is read as itself; a missing one reads as the text `undefined` |
| `ObxModel.Obx` | src/models/OBX.js:1-13 | fails with the mismatch error exactly when the type is not `OBX`, and with the undefined-field error when it is but field 4 is missing; `clave` is field 14 or absent; `nombre` has the length of field 4, no `^`, a space wherever field 4 has `^` and the same character elsewhere; `resultado` is never absent and is the formatting of field 5 alone |
| `ObxModel.ObxReadsOnlyItsFields` | src/models/OBX.js:6-12 | two segments with the same type and the same fields 4, 5 and 14 give the same result |

## Left out

- The orchestrator `hl7Parser`, imported at src/app.js:10, is not part of
  this model. How it keys its results, which of two segments of one type it
  keeps, and how it handles errors are not modelled.
- The server in src/app.js is left out: HTTP and Socket.IO handling, file
  writes, timestamps, restart and stop timers, and the mutable host, port and
  save-path settings. It is I/O and event plumbing around the parser.
- `updateSavePath` (src/app.js:31-59) is left out. It depends on Node's path
  resolution and creates directories.
- `ObxModel.Obx`: `resultado` is stated only as `formatNumber` applied to
  field 5 (or to `undefined`). `formatNumber` is a parameter standing for
  `parseFloat(x).toFixed(2)`, whose floating-point behaviour (including the
  `NaN` text) is not modelled.
- `Text.ReplaceAll` takes the replacement text literally. The `$` patterns
  of JavaScript replacement strings are not modelled, and the only call
  uses a plain space.
- Strings are sequences of Unicode scalar values, while JavaScript strings
  are UTF-16 code units. `charAt` and `split("")` differ for characters
  outside the Basic Multilingual Plane.
- `Text.IsWhitespace` lists ECMAScript's WhiteSpace and LineTerminator code
  points with the space separators of Unicode 15. Later Unicode versions may
  add to that set.
- That the models leave the segment unchanged holds by construction:
  Dafny values are immutable.
