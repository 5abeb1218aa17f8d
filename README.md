# miniref: renumbering footnote-style citations, modelled in Dafny

miniref turns footnote-style citation markers `[^key]` in a plain-text
document into numbered references `[1]`, `[2]`, …. The numbers come from the
bibliography: the part of the document that starts at the first blank line
followed by an (optionally indented) marker. A trailing signature block is
set aside and appended again unchanged. It starts at the first newline,
after offset 0, that is followed by `-- ` and another newline. So a final
`-- ` without a newline after it does not start a signature. Neither does a
`-- ` on the first line, nor a newline, `-- ` and newline at offset 0.

This project models the routine `number_refs` of `miniref.rb` and proves
properties of the model. The modules follow the steps of the routine. Three
of them do not model a step: `Decimal` models the counter's string,
`Stability` models a second run and `Scenarios` works through examples.

- `Markers` (markers.dfy): the character scanners. A marker is `[`, `^`, one
  or more characters other than `]` and newline, then `]`. Also whitespace
  runs, line starts, and the reading of a text as plain characters and whole
  markers, leftmost first and without overlap, as a global substitution
  reads it.
- `Decimal` (decimal.dfy): the decimal string of the counter, with its parse.
- `Sections` (sections.dfy): the two splits. Both are pure functions whose
  contracts say where the split falls. It is the first match after offset 0,
  because Ruby's `String#split` ignores a zero-width match at offset 0.
- `Numbering` (numbering.dfy): the scan over the bibliography as a method
  with a loop that updates the table (a `map`) and the counter. It is proved
  against a declarative list of all line-start definitions.
- `Rewriting` (rewriting.dfy): the substitution over the whole body as a
  method with a loop. It builds the output and the diagnostics, and is
  proved against the piece reading of the body.
- `Stability` (stability.dfy): what a second run of the substitution does
  to the output of a first one.
- `MiniRef` (miniref.dfy): the whole routine, as written (an empty document
  fails) and corrected (an empty document is an empty body).
- `Scenarios` (scenarios.dfy): small documents worked through the model.

`number_refs` writes its warnings to the error stream. Here they are
returned as a sequence of diagnostic strings, in the order they are issued.

Where the documentation of miniref and the code of `number_refs` disagree,
the model follows the code:

- A key defined twice in the bibliography keeps its later number. The
  counter advances on every definition, so an earlier number is left unused.
- The label of an unmatched key keeps its caret: `[^x UNMATCHED]`.
- The unmatched warning is issued at every occurrence of the key. The
  default block of the table never stores its value.
- An empty document makes `number_refs` raise an error (see Findings).
- A signature line or a bibliography start at offset 0 does not split.
- Running the routine again on its own output:
  - If every key of the body was matched, a second run of the body gives
    the same output back (MiniRef.RenumberStable). The output then holds no
    marker, so the second run finds no bibliography and reports that.
  - The converse, that a run with an unmatched key is never stable, is not
    proved.
  - An unmatched label such as `[^x UNMATCHED]` is itself a marker.
    Stability.UnmatchedLabelGrows proves only this: when the lengthened key
    `^x UNMATCHED` is missing from the table as well, a second substitution
    appends a second ` UNMATCHED`.
  - The lengthened key can be in the table of the second run. In `See [^z].`,
    blank line, `[^a] A`, blank line, `  [^z] Z`, the indented entry is not a
    definition on the first run: its indentation differs from that of the
    bibliography. After the first run, `[1] A` no longer starts a
    bibliography, but the indented `[^z UNMATCHED]` line does. The second
    run then numbers `^z UNMATCHED`.

## Model

| member | source | states |
|---|---|---|
| Markers.StopFrom | miniref.rb:49 | the key run of the marker pattern ends at the first `]` or newline at or after j: every character before it is a key character, and the one at the result is not |
| Markers.MarkerEnd | miniref.rb:49 | a marker starts at i exactly when the result is Some(e), and then s[i..e] is `[^`, one or more key characters, `]`; there is no other end |
| Markers.WhitespaceEnd | miniref.rb:22 | the greedy run of spaces and tabs from j ends where the first other character stands |
| Markers.MarkerKey | miniref.rb:49 | the captured key of a marker starts with the caret, has at least one more character, and holds no `]` and no newline |
| Markers.MarkerText | miniref.rb:49 | bracketing the captured key of a marker gives back the marker's text |
| Markers.FlattenPiecesFrom | miniref.rb:49 | reading s[i..] into plain characters and whole markers loses nothing: the pieces spell s[i..] again |
| Markers.FlattenPieces | miniref.rb:49 | round trip: the pieces of the whole body spell the body |
| Markers.PiecesFromKeys | miniref.rb:49 | every marker the substitution sees carries a well-formed key, so no marker spans a newline |
| Markers.PiecesFromShift | miniref.rb:49 | what the substitution reads from a position depends only on the text from there on: reading a + b from j places after the end of a is reading b from j |
| Markers.PiecesSuffix | miniref.rb:49 | reading a text from j is reading its suffix from j on its own |
| Markers.PiecesSplitAtLine | miniref.rb:49 | the substitution reads a text line by line: at a position just after a newline, the pieces of the text are those of the part before it followed by those read from there |
| Markers.PiecesSplitAtNewline | miniref.rb:49 | cut just after a newline, a text reads as its two parts, each read on its own: no marker spans the cut |
| Markers.MarkerReadFirst | miniref.rb:49 | the text from a marker on, read on its own, starts with that whole marker, and the rest is read from the marker's end |
| Markers.LineMarkerPieces | miniref.rb:44-49 | on a line that starts with spaces or tabs and then a marker, the substitution reads the whitespace as plain characters and then the whole marker, whatever comes before the line |
| Markers.LineInSuffix | miniref.rb:22-44 | a line of the bibliography that starts with a whitespace run and a marker is a line of the whole body, at its offset shifted by the prefix's length, with the same marker |
| Decimal.DecimalString | miniref.rb:44 | the counter's string is non-empty, all digits, and has no leading zero unless the number is 0 |
| Decimal.DecimalRoundTrip | miniref.rb:44 | parsing the decimal string of n gives n back |
| Decimal.DecimalInjective | miniref.rb:44 | two counter values with the same string are equal |
| Sections.FindSignature | miniref.rb:16 | the result is the first position at or after p where a newline, `-- ` and a newline stand, or the text's length if there is none |
| Sections.SplitSignature | miniref.rb:16 | body ++ signature is the text; the signature is empty exactly when no signature line follows offset 0; otherwise the body ends just before the first one after offset 0, its newline going to the signature |
| Sections.IndentUnique | miniref.rb:22 | an indentation that starts a bibliography at p is the whole run of spaces and tabs after the blank line |
| Sections.BibIndentAt | miniref.rb:22 | a bibliography starts at p with indentation w exactly when the result is Some(w) |
| Sections.FindBib | miniref.rb:22 | the result is the first bibliography start at or after p, with its indentation, or None when there is none |
| Sections.SplitBibliography | miniref.rb:22 | with a bibliography, prefix ++ bibliography is the body and the bibliography starts at the first blank line after offset 0 that is followed by the captured indentation and a marker; there is no bibliography exactly when no such position exists |
| Sections.SplitAtFirstStart | miniref.rb:22 | conversely, a start after offset 0 with no earlier one is where the second split falls, with that start's indentation |
| Numbering.DefinitionEnd | miniref.rb:44 | a definition starts at q exactly when q begins a line, `indent` follows, and then a marker; the result is the marker's end |
| Numbering.LastIndex | miniref.rb:44 | the result is the position of the last occurrence of k |
| Numbering.SkipDefinition | miniref.rb:44 | no line begins strictly inside a definition, so resuming the scan at the definition's end misses no definition |
| Numbering.TableSnoc | miniref.rb:44 | numbering one more key stores the next counter value under it, over any earlier entry |
| Numbering.DefinitionStep | miniref.rb:44 | one step of the scan: the definition at q is the next in the list of all definitions, and the rest follow from its end |
| Numbering.NumberDefinitions | miniref.rb:43-44 | the scan, resuming after each match, counts every line-start definition of the bibliography; the table is the numbering of their keys in order, 1 first, a later definition replacing an earlier one |
| Numbering.TableKeys | miniref.rb:44 | a key is in the table exactly when it was numbered |
| Numbering.TableLastWins | miniref.rb:44 | later definition wins: a key's label is the decimal number of its last definition |
| Numbering.TableDistinct | miniref.rb:43-44 | with no repeated key the i-th definition (from 0) is labelled i + 1 |
| Numbering.TableGap | miniref.rb:43-44 | a repeated key leaves a gap: the number of its earlier definition is no key's label |
| Numbering.DefinitionsFromKeys | miniref.rb:44 | a key is among the definitions at or after q exactly when some line at or after q defines it at the indentation |
| Numbering.NumberedIffDefined | miniref.rb:44 | a key is in the table exactly when some line of the bibliography defines it at the indentation |
| Numbering.TableDigits | miniref.rb:44 | every label stored in the table is a string of digits |
| Numbering.IndentMustMatch | miniref.rb:44 | a line whose leading spaces and tabs differ from the indentation defines nothing |
| Rewriting.Lookup | miniref.rb:38-41 | looking a key up gives the bracketed label of the piece: the table's entry, or for a missing key the key followed by ` UNMATCHED`, with one warning |
| Rewriting.RenderedSnoc | miniref.rb:49 | one more piece adds its label to the output |
| Rewriting.WarningsSnoc | miniref.rb:49 | one more piece adds its warning, if any, to the diagnostics |
| Rewriting.MarkerStep | miniref.rb:49 | one step of the substitution at a marker: the marker is the next piece and reading resumes after it |
| Rewriting.PlainStep | miniref.rb:49 | one step of the substitution where no marker starts: the character is kept and gives no warning |
| Rewriting.RewriteMarkers | miniref.rb:49 | the output is the body with every leftmost, non-overlapping marker replaced by its bracketed label and all other text kept; the diagnostics are one warning per occurrence of a missing key, in order |
| Rewriting.UnmatchedWarningInjective | miniref.rb:39 | an unmatched warning names exactly one key |
| Rewriting.WarningsPerOccurrence | miniref.rb:38-41 | warnings repeat: a missing key is reported once per occurrence, a numbered key never |
| Rewriting.NoWarningsIffAllMatched | miniref.rb:38-41 | the substitution warns about nothing exactly when every marker's key is in the table |
| Rewriting.RenderedPlain | miniref.rb:49 | pieces without markers are rendered as they were read, without warnings |
| Rewriting.UnchangedWithoutMarkers | miniref.rb:49 | a body without markers comes out of the substitution unchanged and without warnings |
| Rewriting.RenderedAppend | miniref.rb:49 | the substitution over two stretches of pieces is the substitution over the first followed by that over the second |
| Rewriting.WarningsAppend | miniref.rb:38-49 | the warnings over two stretches of pieces are those of the first followed by those of the second |
| Rewriting.RenderedAroundMarker | miniref.rb:38-49 | a marker between whitespace and other text is replaced in place by its bracketed label; the text around it is substituted as on its own |
| Rewriting.NumberedFirst | miniref.rb:38-49 | a marker whose key is in the table comes out as the bracketed entry, in front of the rest, and adds no warning |
| Rewriting.NumberedMarkerFirst | miniref.rb:38-49 | from a marker with a numbered key on, the substitution starts with the bracketed number and that marker draws no warning |
| Rewriting.WarningsAroundMarker | miniref.rb:38-49 | a marker between whitespace and other text adds exactly its own warning, if its key is missing, between the warnings of the text before and after it |
| Markers.BracketedKeyIsMarker | miniref.rb:49 | a key in brackets reads back as exactly that one marker |
| Markers.StopFromShift | miniref.rb:49 | the key run of a marker depends only on the text from where it starts |
| Markers.MarkerEndShift | miniref.rb:49 | whether a marker starts at a position, and where it ends, depends only on the text from there on |
| Stability.NoMarkerAllPlain | miniref.rb:49 | a text where no marker starts is read as plain characters only |
| Stability.RenderedFrom | miniref.rb:38-49 | when every key is in the table and every label is digits, the substituted text from any position holds no marker, and its key run from the start stops like that of the original text from there |
| Stability.SubstitutionStable | miniref.rb:49 | with every key matched by a number, the output holds no marker, and substituting it again with any table gives it back unchanged and without warnings |
| Stability.UnmatchedKeyIsKey | miniref.rb:40 | a key followed by ` UNMATCHED` is again a key the marker pattern captures |
| Stability.UnmatchedLabelGrows | miniref.rb:38-49 | an unmatched label is a marker again, so a second substitution with the lengthened key missing appends a second ` UNMATCHED` |
| MiniRef.NumberRefsTotal | miniref.rb:11-55 | the step-by-step routine (splits, numbering scan, substitution, re-joining) computes the renumbering of the document, an empty document taken as an empty body |
| MiniRef.NumberRefs | miniref.rb:11-55 | the routine as written: it fails on the empty document and otherwise computes the renumbering |
| MiniRef.SignatureVerbatim | miniref.rb:53 | the output is the rewritten body followed by the text from the first signature line after offset 0, unchanged; the diagnostics are those of the body |
| MiniRef.NoSignature | miniref.rb:16 | without a signature line after offset 0 the whole document is rewritten as the body |
| MiniRef.NoBibWarningIsNotUnmatched | miniref.rb:25 | the missing-bibliography diagnostic is never an unmatched-reference diagnostic |
| MiniRef.NoBibliography | miniref.rb:24-27 | without a bibliography the table is empty, every marker is rendered and reported as unmatched, and the missing-bibliography diagnostic comes first and exactly once |
| MiniRef.NoBibWarningIff | miniref.rb:24-27 | the missing-bibliography diagnostic is issued exactly when no bibliography starts after offset 0 |
| MiniRef.RefsOfBibliography | miniref.rb:43-44 | with a bibliography, the table is the numbering of its definitions at its indentation, and holds exactly their keys |
| MiniRef.RenumberStable | miniref.rb:22-49 | when no marker of a body was unmatched, renumbering the output again gives the same output, with the missing-bibliography diagnostic as the only one |
| MiniRef.LineMarkerInPlace | miniref.rb:38-49 | a marker after the whitespace at the start of a line of the body comes out in place as its bracketed label, the text before and after substituted as on its own; it is reported exactly when its key is not in the table |
| MiniRef.DefinedKeyNeverReported | miniref.rb:38-44 | a key of the table is never the subject of an unmatched warning |
| MiniRef.DefinedKeyNumbered | miniref.rb:43-44 | the key of a definition of the bibliography is in the table, and its label is a string of digits |
| MiniRef.DefinitionNumberedInPlace | miniref.rb:22-49 | the numbering and the substitution meet: the marker of a definition line of the bibliography comes out, at the same place in the body, as the bracketed number of its key, and it draws no warning |
| MiniRef.DefinitionRenderedFirst | miniref.rb:22-49 | from the marker of a definition line of the bibliography on, the substitution of the body starts with the bracketed number of its key, and that marker draws no warning |
| MiniRef.MisindentedEntryReported | miniref.rb:22-49 | an entry line of the bibliography whose whitespace run differs from the captured indentation is no definition, yet the substitution still sees its marker: it comes out in place as its key's label, and it is reported exactly when its key has no definition at the captured indentation |
| MiniRef.EmptyDocument | miniref.rb:16-22 | on the empty document the routine as written fails, while the corrected one returns the empty text with one missing-bibliography diagnostic |
| MiniRef.AsWrittenAgrees | miniref.rb:16-22 | on every non-empty document the routine as written and the corrected one agree |
| Scenarios.UnsplitSignatures | miniref.rb:16 | a final `-- ` line without its newline is not a signature, and a signature line at offset 0 does not split |
| Scenarios.SignatureTakesNewline | miniref.rb:16 | the newline before `-- ` goes with the signature |
| Scenarios.IndentedStart | miniref.rb:22 | a blank line, two spaces and `[^a]` start a bibliography |
| Scenarios.IndentedBibliography | miniref.rb:22 | in `t`, blank line, `  [^a] A`, the bibliography starts at the blank line and its indentation is the two spaces |
| Scenarios.RepeatedDefinition | miniref.rb:43-44 | numbering `^a`, `^b`, `^a` labels `^a` with 3 and `^b` with 2, and leaves 1 unused |
| Scenarios.UnmatchedTwice | miniref.rb:38-41 | two occurrences of a missing key give two caret-keeping labels and two warnings |
| Scenarios.RenumberedCited | miniref.rb:11-55 | the whole routine on `x[^a]`, blank line, `[^a] A`: both markers become `[1]`, with no warnings |

## Findings

| source | as written | input that shows it | evidently intended | confidence | as-written member | corrected member |
|---|---|---|---|---|---|---|
| miniref.rb:16-22 | splitting the empty text yields no parts, so the body is nil and the second split raises an error | the empty document `""` | return the empty text, with the one missing-bibliography warning that any other document without bibliography gets | high; not executed | MiniRef.NumberRefs (shown by MiniRef.EmptyDocument) | MiniRef.NumberRefsTotal |

## Left out

- The command-line program `main` (miniref.rb:60-121) is not modelled: option parsing, reading from a file or standard input, writing to a file or standard output, the help text and the exit codes 1, 2 and 3 are input and output glue.
- Warnings are not written to the error stream. They are returned as a sequence of diagnostics, in issue order.
- The regular expression engine is not modelled. The three fixed patterns of the routine are written as scanners; the interpolated indentation holds only spaces and tabs, so it needs no escaping.
- Text is a sequence of characters. Input that is not valid in its encoding, which makes Ruby's pattern matching raise an error, is not modelled.
- Re-running the whole document, signature included, is not characterised. The stability of a second run is proved for the body only, because where the second signature split falls on the output is not proved.
- Ruby object details such as the return value of the in-place substitution and the default-block mechanism of the hash are kept only through their observable effect: the label and the warning.
