/**
 The renumbering of one document (miniref.rb:11-55): split off the signature,
 find the bibliography, number its definitions, rewrite every marker of the
 body, and append the signature again. Warnings are returned in order as
 diagnostics instead of being written to the error stream.
 */
module MiniRef {
  import opened Markers
  import opened Sections
  import opened Numbering
  import opened Rewriting
  import opened Stability
  import opened Decimal

  /** The diagnostic of a document without bibliography (miniref.rb:25). */
  const NoBibWarning := "No bib section found"

  /** The renumbered document and the warnings, in the order they are issued. */
  datatype Report = Report(output: string, diagnostics: seq<string>)

  /**
   The result of the routine as written: on an empty document the split
   yields no body, and the second split is then called on nil, which raises.
   */
  datatype Outcome = NilBodyError | Done(report: Report)

  /** The indentation and the bibliography the numbering scan works on; both empty without one. */
  function BibOf(body: string): (string, string) {
    match SplitBibliography(body)
    case NoBib => ("", "")
    case Bib(_, w, b) => (w, b)
  }

  /** The reference table of a body. */
  function RefsOf(body: string): map<string, string> {
    TableOf(Definitions(BibOf(body).1, BibOf(body).0))
  }

  /** The body rewritten, with the missing-bibliography warning first if there is one. */
  function RenumberBody(body: string): Report {
    var refs := RefsOf(body);
    Report(Rendered(Pieces(body), refs),
           (if SplitBibliography(body).NoBib? then [NoBibWarning] else []) + Warnings(Pieces(body), refs))
  }

  /** The renumbering of a whole document: the rewritten body, then the signature as it was. */
  function Renumber(text: string): Report {
    var (body, sig) := SplitSignature(text);
    var r := RenumberBody(body);
    Report(r.output + sig, r.diagnostics)
  }

  /** The routine as written, failing on the empty document. */
  function RenumberAsWritten(text: string): Outcome {
    if text == "" then NilBodyError else Done(Renumber(text))
  }

  /**
   The renumbering, step by step: the two splits, the numbering scan over the
   bibliography, and the substitution over the whole body. An empty document
   is taken as an empty body.
   */
  method NumberRefsTotal(text: string) returns (report: Report)
    ensures report == Renumber(text)
  {
    var (body, sig) := SplitSignature(text);
    var indent, bib, diags := "", "", [];
    match SplitBibliography(body) {
      case NoBib =>
        diags := [NoBibWarning];
      case Bib(_, w, b) =>
        indent, bib := w, b;
    }
    var refs, counter := NumberDefinitions(bib, indent);
    var out, warnings := RewriteMarkers(body, refs);
    report := Report(out + sig, diags + warnings);
  }

  /** The routine as written: an empty document raises before anything is rewritten. */
  method NumberRefs(text: string) returns (r: Outcome)
    ensures r == RenumberAsWritten(text)
  {
    if text == "" {
      r := NilBodyError;
    } else {
      var report := NumberRefsTotal(text);
      r := Done(report);
    }
  }

  /** The signature is returned verbatim: everything from the first signature line on is appended unchanged. */
  lemma SignatureVerbatim(text: string, p: nat)
    requires 1 <= p && SignatureAt(text, p)
    requires forall q :: 1 <= q < p ==> !SignatureAt(text, q)
    ensures Renumber(text).output == RenumberBody(text[..p]).output + text[p..]
    ensures Renumber(text).diagnostics == RenumberBody(text[..p]).diagnostics
  {
    var (body, sig) := SplitSignature(text);
    assert |body| == p;
    assert body == text[..p];
  }

  /** Without a signature line after offset 0 the whole document is the body. */
  lemma NoSignature(text: string)
    requires forall q :: 1 <= q ==> !SignatureAt(text, q)
    ensures Renumber(text) == RenumberBody(text)
  {
    var (body, sig) := SplitSignature(text);
    assert sig == "" && body == text;
    var r := RenumberBody(text);
    assert r.output + "" == r.output;
  }

  /**
   No bibliography: exactly one missing-bibliography diagnostic comes first,
   the table is empty and every marker of the body is reported unmatched.
   */
  lemma NoBibliography(body: string)
    requires forall q, w :: 1 <= q ==> !BibStartAt(body, q, w)
    ensures RefsOf(body) == map[]
    ensures RenumberBody(body).output == Rendered(Pieces(body), map[])
    ensures RenumberBody(body).diagnostics == [NoBibWarning] + Warnings(Pieces(body), map[])
    ensures multiset(RenumberBody(body).diagnostics)[NoBibWarning] == 1
  {
    assert BibOf(body) == ("", "");
    assert Definitions("", "") == [];
    NoBibWarningIsNotUnmatched(Pieces(body), map[]);
  }

  /** The missing-bibliography diagnostic is never an unmatched-reference one. */
  lemma {:induction false} NoBibWarningIsNotUnmatched(ps: seq<Piece>, refs: map<string, string>)
    ensures NoBibWarning !in Warnings(ps, refs)
  {
    if ps != [] {
      NoBibWarningIsNotUnmatched(ps[1..], refs);
      if ps[0].Ref? {
        assert UnmatchedWarning(ps[0].key)[0] == 'F';
      }
    }
  }

  /** The missing-bibliography diagnostic is issued exactly when no bibliography starts after offset 0. */
  lemma NoBibWarningIff(body: string)
    ensures NoBibWarning in RenumberBody(body).diagnostics <==> forall q, w :: 1 <= q ==> !BibStartAt(body, q, w)
  {
    NoBibWarningIsNotUnmatched(Pieces(body), RefsOf(body));
  }

  /** The bibliography is the rest of the body and opens with the newline of its blank line. */
  lemma BibOpensWithNewline(body: string, prefix: string, w: string, bib: string)
    requires SplitBibliography(body) == Bib(prefix, w, bib)
    ensures body == prefix + bib && 0 < |bib| && bib[0] == '\n'
  {
    assert body[|prefix|] == bib[0];
  }

  /** With a bibliography, the table is the numbering of its definitions at its indentation. */
  lemma RefsOfBibliography(body: string, prefix: string, indent: string, bib: string)
    requires SplitBibliography(body) == Bib(prefix, indent, bib)
    ensures RefsOf(body) == TableOf(Definitions(bib, indent))
    ensures forall k :: k in RefsOf(body) <==> k in Definitions(bib, indent)
  {
    assert BibOf(body) == (indent, bib);
    TableKeys(Definitions(bib, indent));
  }

  /** The empty document: the routine as written fails, the corrected one returns it with one warning. */
  lemma EmptyDocument()
    ensures RenumberAsWritten("") == NilBodyError
    ensures Renumber("") == Report("", [NoBibWarning])
  {
    assert SplitSignature("") == ("", "");
    assert Pieces("") == [];
  }

  /** On every non-empty document the routine as written and the corrected one agree. */
  lemma AsWrittenAgrees(text: string)
    requires text != ""
    ensures RenumberAsWritten(text) == Done(Renumber(text))
  {
  }

  /**
   Renumbering a body whose markers all matched, and then renumbering the
   result, leaves the result as it is: the second run finds no marker, so no
   bibliography either, and its only diagnostic is the missing-bibliography one.
   */
  lemma RenumberStable(body: string)
    requires Warnings(Pieces(body), RefsOf(body)) == []
    ensures RenumberBody(RenumberBody(body).output).output == RenumberBody(body).output
    ensures RenumberBody(RenumberBody(body).output).diagnostics == [NoBibWarning]
  {
    NoWarningsIffAllMatched(Pieces(body), RefsOf(body));
    TableDigits(Definitions(BibOf(body).1, BibOf(body).0));
    var out := RenumberBody(body).output;
    SubstitutionStable(body, RefsOf(body), RefsOf(out));
    forall q, w | 1 <= q ensures !BibStartAt(out, q, w) {
      if q + 2 + |w| <= |out| {
        assert MarkerEnd(out, q + 2 + |w|) == None;
      }
    }
  }

  /**
   A line of the body that starts at p with the whitespace run v and a
   marker with the key k: the substitution replaces that marker in place by
   its bracketed label, whatever the indentation, and reports it there
   exactly when the table lacks k.
   */
  lemma LineMarkerInPlace(body: string, p: nat, v: string, e: nat, k: string)
    requires 0 < p && p + |v| <= |body| && body[p - 1] == '\n'
    requires IsIndent(v) && body[p..p + |v|] == v && MarkerEnd(body, p + |v|) == Some(e)
    requires body[p + |v| + 1..e - 1] == k
    ensures e <= |body|
    ensures RenumberBody(body).output
              == Rendered(Pieces(body[..p]), RefsOf(body)) + v + "[" + Label(RefsOf(body), k) + "]"
                 + Rendered(PiecesFrom(body, e), RefsOf(body))
    ensures RenumberBody(body).diagnostics
              == (if SplitBibliography(body).NoBib? then [NoBibWarning] else [])
                 + (Warnings(Pieces(body[..p]), RefsOf(body)) + (if k in RefsOf(body) then [] else [UnmatchedWarning(k)])
                    + Warnings(PiecesFrom(body, e), RefsOf(body)))
    ensures UnmatchedWarning(k) in RenumberBody(body).diagnostics <==> k !in RefsOf(body)
  {
    var refs := RefsOf(body);
    LineMarkerPieces(body, p, v, e);
    RenderedAroundMarker(Pieces(body[..p]), v, k, PiecesFrom(body, e), refs);
    WarningsAroundMarker(Pieces(body[..p]), v, k, PiecesFrom(body, e), refs);
    if k in refs {
      DefinedKeyNeverReported(body, k);
    } else {
      var ds, before := RenumberBody(body).diagnostics, Warnings(Pieces(body[..p]), refs);
      var lead := if SplitBibliography(body).NoBib? then [NoBibWarning] else [];
      assert ds[|lead| + |before|] == UnmatchedWarning(k);
    }
  }

  /** A key of the table is never reported, however often it occurs. */
  lemma DefinedKeyNeverReported(body: string, k: string)
    requires k in RefsOf(body)
    ensures UnmatchedWarning(k) !in RenumberBody(body).diagnostics
  {
    var refs := RefsOf(body);
    WarningsPerOccurrence(Pieces(body), refs, k);
    assert UnmatchedWarning(k)[0] == 'F';
  }

  /**
   A definition line of the bibliography gets its number: its marker comes
   out as the bracketed number of its key, in place, and draws no warning.
   */
  lemma DefinitionNumberedInPlace(body: string, prefix: string, w: string, bib: string, q: nat, e: nat, k: string)
    requires SplitBibliography(body) == Bib(prefix, w, bib) && DefinesAt(bib, w, q, e, k)
    ensures k in RefsOf(body)
    ensures var p, refs := |prefix| + q, RefsOf(body);
      RenumberBody(body).output
        == Rendered(Pieces(body[..p]), refs) + w + "[" + refs[k] + "]" + Rendered(PiecesFrom(body, |prefix| + e), refs)
    ensures var p, refs := |prefix| + q, RefsOf(body);
      RenumberBody(body).diagnostics
        == Warnings(Pieces(body[..p]), refs) + Warnings(PiecesFrom(body, |prefix| + e), refs)
  {
    DefinitionLineInBody(body, prefix, w, bib, q, e, k);
    DefinedKeyNumbered(body, prefix, w, bib, q, e, k);
    EntryLineRendered(body, prefix, w, q, e, k);
    var p, refs := |prefix| + q, RefsOf(body);
    assert Label(refs, k) == refs[k];
    assert !SplitBibliography(body).NoBib?;
    var ws := Warnings(Pieces(body[..p]), refs);
    assert ws + [] == ws;
  }

  /**
   From the marker of a definition line on, the substitution of the body
   starts with the bracketed number of the defined key, and that marker
   draws no warning.
   */
  lemma DefinitionRenderedFirst(body: string, prefix: string, w: string, bib: string, q: nat, e: nat, k: string)
    requires SplitBibliography(body) == Bib(prefix, w, bib) && DefinesAt(bib, w, q, e, k)
    ensures k in RefsOf(body)
    ensures var i, f, refs := |prefix| + q + |w|, |prefix| + e, RefsOf(body);
      i <= f <= |body|
      && Rendered(Pieces(body[i..]), refs) == "[" + refs[k] + "]" + Rendered(Pieces(body[f..]), refs)
      && Warnings(Pieces(body[i..]), refs) == Warnings(Pieces(body[f..]), refs)
  {
    DefinitionLineInBody(body, prefix, w, bib, q, e, k);
    DefinedKeyNumbered(body, prefix, w, bib, q, e, k);
    EntryRenderedFirst(body, prefix, w, q, e, k, RefsOf(body));
  }

  /** NumberedMarkerFirst at the marker of a bibliography entry line, seen in the whole body. */
  lemma EntryRenderedFirst(body: string, prefix: string, w: string, q: nat, e: nat, k: string, refs: map<string, string>)
    requires var p := |prefix| + q;
      p + |w| <= |body| && MarkerEnd(body, p + |w|) == Some(|prefix| + e) && body[p + |w| + 1..|prefix| + e - 1] == k
    requires k in refs
    ensures var i, f := |prefix| + q + |w|, |prefix| + e;
      i <= f <= |body|
      && Rendered(Pieces(body[i..]), refs) == "[" + refs[k] + "]" + Rendered(Pieces(body[f..]), refs)
      && Warnings(Pieces(body[i..]), refs) == Warnings(Pieces(body[f..]), refs)
  {
    NumberedMarkerFirst(body, |prefix| + q + |w|, |prefix| + e, k, refs);
  }

  /** LineMarkerInPlace at the line of a bibliography entry, seen in the whole body. */
  lemma EntryLineRendered(body: string, prefix: string, w: string, q: nat, e: nat, k: string)
    requires var p := |prefix| + q;
      0 < p && p + |w| <= |body| && body[p - 1] == '\n' && IsIndent(w) && body[p..p + |w|] == w
      && MarkerEnd(body, p + |w|) == Some(|prefix| + e) && body[p + |w| + 1..|prefix| + e - 1] == k
    ensures |prefix| + e <= |body|
    ensures var p, refs := |prefix| + q, RefsOf(body);
      RenumberBody(body).output
        == Rendered(Pieces(body[..p]), refs) + w + "[" + Label(refs, k) + "]" + Rendered(PiecesFrom(body, |prefix| + e), refs)
    ensures var p, refs := |prefix| + q, RefsOf(body);
      RenumberBody(body).diagnostics
        == (if SplitBibliography(body).NoBib? then [NoBibWarning] else [])
           + (Warnings(Pieces(body[..p]), refs) + (if k in refs then [] else [UnmatchedWarning(k)])
              + Warnings(PiecesFrom(body, |prefix| + e), refs))
    ensures UnmatchedWarning(k) in RenumberBody(body).diagnostics <==> k !in RefsOf(body)
  {
    var p, f := |prefix| + q, |prefix| + e;
    LineMarkerInPlace(body, p, w, f, k);
  }

  /** The line of a definition, seen in the whole body, holds the defined key. */
  lemma DefinitionLineInBody(body: string, prefix: string, w: string, bib: string, q: nat, e: nat, k: string)
    requires SplitBibliography(body) == Bib(prefix, w, bib) && DefinesAt(bib, w, q, e, k)
    ensures var p := |prefix| + q;
      0 < q && p + |w| <= |body| && body[p - 1] == '\n' && body[p..p + |w|] == w
      && MarkerEnd(body, p + |w|) == Some(|prefix| + e) && body[p + |w| + 1..|prefix| + e - 1] == k
  {
    BibOpensWithNewline(body, prefix, w, bib);
    LineInSuffix(body, prefix, bib, q, w, e);
  }

  /** A defined key has a number in the table, a string of digits. */
  lemma DefinedKeyNumbered(body: string, prefix: string, w: string, bib: string, q: nat, e: nat, k: string)
    requires SplitBibliography(body) == Bib(prefix, w, bib) && DefinesAt(bib, w, q, e, k)
    ensures k in RefsOf(body) && IsDigits(RefsOf(body)[k])
  {
    RefsOfBibliography(body, prefix, w, bib);
    NumberedIffDefined(bib, w, k);
    TableDigits(Definitions(bib, w));
  }

  /**
   A line of the bibliography whose whitespace run is not the captured
   indentation defines nothing, yet the substitution still rewrites its
   marker in place, and reports it exactly when its key is defined nowhere.
   */
  lemma MisindentedEntryReported(body: string, prefix: string, w: string, bib: string, q: nat, v: string, e: nat)
    requires SplitBibliography(body) == Bib(prefix, w, bib)
    requires AtLineStart(bib, q) && q <= |bib| && v == bib[q..WhitespaceEnd(bib, q)] && v != w
    requires MarkerEnd(bib, q + |v|) == Some(e)
    ensures DefinitionEnd(bib, w, q) == None
    ensures var p, refs, key := |prefix| + q, RefsOf(body), bib[q + |v| + 1..e - 1];
      RenumberBody(body).output
        == Rendered(Pieces(body[..p]), refs) + v + "[" + Label(refs, key) + "]" + Rendered(PiecesFrom(body, |prefix| + e), refs)
    ensures var key := bib[q + |v| + 1..e - 1];
      UnmatchedWarning(key) in RenumberBody(body).diagnostics <==> key !in Definitions(bib, w)
  {
    IndentMustMatch(bib, w, q);
    BibOpensWithNewline(body, prefix, w, bib);
    RunLineInSuffix(body, prefix, bib, q, v, e);
    EntryLineRendered(body, prefix, v, q, e, bib[q + |v| + 1..e - 1]);
    RefsOfBibliography(body, prefix, w, bib);
  }
}
