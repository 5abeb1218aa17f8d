/**
 Small documents worked through the model, one behaviour of the routine each:
 where the splits fall, how a repeated definition is numbered, how an
 unmatched key is rendered and reported, and one document renumbered whole.
 */
module Scenarios {
  import opened Markers
  import opened Sections
  import opened Numbering
  import opened Rewriting
  import opened Decimal
  import opened MiniRef

  /**
   Two texts that do not split: a final `-- ` line without its newline is not
   a signature, and a signature line at the very start is ignored.
   */
  lemma UnsplitSignatures()
    ensures SplitSignature("a\n-- ") == ("a\n-- ", "")
    ensures SplitSignature("\n-- \n") == ("\n-- \n", "")
  {
    var t, t' := "a\n-- ", "\n-- \n";
    forall q | 1 <= q ensures !SignatureAt(t, q) && !SignatureAt(t', q) {}
    var r, r' := SplitSignature(t), SplitSignature(t');
    assert r.1 == "" && r'.1 == "";
    assert r.0 == r.0 + r.1 && r'.0 == r'.0 + r'.1;
  }

  /** The newline before `-- ` goes with the signature. */
  lemma SignatureTakesNewline()
    ensures SplitSignature("a\n-- \nb") == ("a", "\n-- \nb")
  {
    var t := "a\n-- \nb";
    assert SignatureAt(t, 1);
    var r := SplitSignature(t);
    assert r.1 != "";
    assert |r.0| == 1;
    assert r.0 == t[..1] == "a";
    assert r.1 == t[1..] == "\n-- \nb";
  }

  /** The blank line at 1, two spaces and the marker `[^a]` start a bibliography. */
  lemma IndentedStart()
    ensures BibStartAt("t\n\n  [^a] A", 1, "  ")
  {
    var b := "t\n\n  [^a] A";
    assert StopFrom(b, 7) == 8;
    assert MarkerEnd(b, 5) == Some(9);
  }

  /** The bibliography starts at the blank line and captures the indentation. */
  lemma IndentedBibliography()
    ensures SplitBibliography("t\n\n  [^a] A") == Bib("t", "  ", "\n\n  [^a] A")
  {
    var b := "t\n\n  [^a] A";
    IndentedStart();
    SplitAtFirstStart(b, 1, "  ");
    assert b[..1] == "t";
    assert b[1..] == "\n\n  [^a] A";
  }

  /** Numbering `^a`, `^b`, `^a`: the later `^a` wins and number 1 is left unused. */
  lemma RepeatedDefinition()
    ensures TableOf(["^a", "^b", "^a"]) == map["^a" := "3", "^b" := "2"]
  {
    var keys := ["^a", "^b", "^a"];
    assert keys[..2] == ["^a", "^b"];
    assert keys[..2][..1] == ["^a"];
    assert DecimalString(1) == "1" && DecimalString(2) == "2" && DecimalString(3) == "3";
    assert TableOf(["^a"]) == map["^a" := "1"];
    assert TableOf(["^a", "^b"]) == map["^a" := "1", "^b" := "2"];
  }

  /** An unmatched key keeps its caret in the label and is reported at each of its two occurrences. */
  lemma UnmatchedTwice()
    ensures Rendered([Ref("^x"), Ref("^x")], map[]) == "[^x UNMATCHED][^x UNMATCHED]"
    ensures Warnings([Ref("^x"), Ref("^x")], map[])
      == ["Found unmatched reference [^x]", "Found unmatched reference [^x]"]
  {
    var refs: map<string, string> := map[];
    var x := Ref("^x");
    var l := "[^x UNMATCHED]";
    var w := "Found unmatched reference [^x]";
    assert [x, x][1..] == [x] && [x][1..] == [];
    assert RenderPiece(x, refs) == l;
    assert UnmatchedWarning("^x") == w;
    assert Rendered([x], refs) == l + "";
    assert Warnings([x], refs) == [w] + [];
    assert l + l == "[^x UNMATCHED][^x UNMATCHED]";
  }

  /** A one-line text citing `^a`, then a bibliography that defines it. */
  const Cited := "x[^a]\n\n[^a] A"
  const CitedBib := "\n\n[^a] A"
  const CitedPieces := [Plain('x'), Ref("^a"), Plain('\n'), Plain('\n'), Ref("^a"), Plain(' '), Plain('A')]

  lemma CitedMarkers()
    ensures MarkerEnd(Cited, 1) == Some(5) && MarkerEnd(Cited, 7) == Some(11)
  {
    assert StopFrom(Cited, 4) == 4;
    assert StopFrom(Cited, 3) == 4;
    assert StopFrom(Cited, 10) == 10;
    assert StopFrom(Cited, 9) == 10;
  }

  /** Without a `-` there is no signature line. */
  lemma CitedUnsigned()
    ensures forall q :: 1 <= q ==> !SignatureAt(Cited, q)
  {
    assert '-' !in Cited;
  }

  /** No blank line comes before offset 5. */
  lemma CitedLateStart()
    ensures forall q, w :: 1 <= q < 5 ==> !BibStartAt(Cited, q, w)
  {
    var lead := "x[^a]";
    assert Cited == lead + CitedBib;
    assert '\n' !in lead;
    forall q, w | 1 <= q < 5 ensures !BibStartAt(Cited, q, w) {
      assert Cited[q] == lead[q];
    }
  }

  lemma CitedWhole()
    ensures Renumber(Cited) == RenumberBody(Cited)
  {
    CitedUnsigned();
    NoSignature(Cited);
  }

  /** The bibliography starts at the blank line, without indentation. */
  lemma CitedSplits()
    ensures SplitBibliography(Cited) == Bib("x[^a]", "", CitedBib)
  {
    CitedMarkers();
    assert BibStartAt(Cited, 5, "");
    CitedLateStart();
    SplitAtFirstStart(Cited, 5, "");
    assert Cited[..5] == "x[^a]" && Cited[5..] == CitedBib;
  }

  /** The citation and the definition are both read as markers. */
  lemma CitedPiecesOf()
    ensures Pieces(Cited) == CitedPieces
  {
    CitedMarkers();
    assert Cited[2..4] == "^a" && Cited[8..10] == "^a";
    assert MarkerEnd(Cited, 12) == None && MarkerEnd(Cited, 11) == None;
    assert PiecesFrom(Cited, 13) == [];
    assert PiecesFrom(Cited, 12) == [Plain('A')];
    assert PiecesFrom(Cited, 11) == [Plain(' '), Plain('A')];
    assert PiecesFrom(Cited, 7) == [Ref("^a"), Plain(' '), Plain('A')];
    assert PiecesFrom(Cited, 6) == [Plain('\n'), Ref("^a"), Plain(' '), Plain('A')];
    assert PiecesFrom(Cited, 5) == [Plain('\n'), Plain('\n'), Ref("^a"), Plain(' '), Plain('A')];
    assert PiecesFrom(Cited, 1) == [Ref("^a"), Plain('\n'), Plain('\n'), Ref("^a"), Plain(' '), Plain('A')];
  }

  /** The one definition line of the bibliography. */
  lemma CitedDefinitions()
    ensures Definitions(CitedBib, "") == ["^a"]
  {
    assert StopFrom(CitedBib, 5) == 5;
    assert StopFrom(CitedBib, 4) == 5;
    assert MarkerEnd(CitedBib, 2) == Some(6);
    assert CitedBib[3..5] == "^a";
    assert DefinitionsFrom(CitedBib, "", 7) == [];
    assert DefinitionsFrom(CitedBib, "", 6) == [];
    assert DefinitionsFrom(CitedBib, "", 5) == [];
    assert DefinitionsFrom(CitedBib, "", 4) == [];
    assert DefinitionsFrom(CitedBib, "", 3) == [];
    assert DefinitionsFrom(CitedBib, "", 2) == ["^a"];
    assert DefinitionsFrom(CitedBib, "", 1) == ["^a"];
  }

  /** Both markers become `[1]`. */
  lemma CitedRendered()
    ensures Rendered(CitedPieces, map["^a" := "1"]) == "x[1]\n\n[1] A"
  {
    var refs := map["^a" := "1"];
    var ps := CitedPieces;
    assert RenderPiece(Ref("^a"), refs) == "[1]";
    assert Rendered(ps[6..], refs) == "A";
    assert Rendered(ps[5..], refs) == " A";
    assert Rendered(ps[4..], refs) == "[1] A";
    assert Rendered(ps[3..], refs) == "\n[1] A";
    assert Rendered(ps[2..], refs) == "\n\n[1] A";
    assert Rendered(ps[1..], refs) == "[1]\n\n[1] A";
  }

  /** Nothing is reported: the one key is in the table. */
  lemma CitedQuiet()
    ensures Warnings(CitedPieces, map["^a" := "1"]) == []
  {
    var refs := map["^a" := "1"];
    var ps := CitedPieces;
    assert Warnings(ps[6..], refs) == [];
    assert Warnings(ps[5..], refs) == [];
    assert Warnings(ps[4..], refs) == [];
    assert Warnings(ps[3..], refs) == [];
    assert Warnings(ps[2..], refs) == [];
    assert Warnings(ps[1..], refs) == [];
  }

  /** The whole routine on Cited: the citation and the definition are numbered 1, without warnings. */
  lemma RenumberedCited()
    ensures Renumber(Cited) == Report("x[1]\n\n[1] A", [])
  {
    CitedWhole();
    CitedSplits();
    CitedDefinitions();
    CitedPiecesOf();
    CitedRendered();
    CitedQuiet();
    assert BibOf(Cited) == ("", CitedBib);
    assert DecimalString(1) == "1";
    assert TableOf(["^a"]) == map["^a" := "1"];
  }
}
