/**
 The two structural splits of a document (miniref.rb:16 and miniref.rb:22).
 Both split just before the first match of a zero-width lookahead, at most
 once; `String#split` ignores a zero-width match at offset 0, so a split point
 is always a position of at least 1.
 */
module Sections {
  import opened Markers

  /** At p the text has a newline, then a line that is exactly `-- `. */
  predicate SignatureAt(text: string, p: nat) {
    p + 5 <= |text| && text[p] == '\n' && text[p + 1] == '-' && text[p + 2] == '-'
    && text[p + 3] == ' ' && text[p + 4] == '\n'
  }

  /** The first signature position at or after p; |text| when there is none. */
  function FindSignature(text: string, p: nat): (r: nat)
    requires p <= |text|
    ensures p <= r <= |text|
    ensures r < |text| ==> SignatureAt(text, r)
    ensures forall q :: p <= q < r ==> !SignatureAt(text, q)
    decreases |text| - p
  {
    if p == |text| || SignatureAt(text, p) then p else FindSignature(text, p + 1)
  }

  /**
   The first split (miniref.rb:16): the body ends, and the signature
   (its leading newline included) begins, at the first signature position
   after offset 0. Without one the signature is empty (Ruby's nil, later
   read as '').
   */
  function SplitSignature(text: string): (r: (string, string))
    ensures r.0 + r.1 == text
    ensures r.1 != "" ==> 1 <= |r.0| && SignatureAt(text, |r.0|)
    ensures forall q :: 1 <= q < |r.0| ==> !SignatureAt(text, q)
    ensures r.1 == "" <==> forall q :: 1 <= q ==> !SignatureAt(text, q)
  {
    if text == "" then ("", "")
    else
      var p := FindSignature(text, 1);
      assert text == text[..p] + text[p..];
      (text[..p], text[p..])
  }

  /**
   At p the body has a blank line, then the whitespace run `indent`, then a
   marker.
   */
  ghost predicate BibStartAt(body: string, p: nat, indent: string) {
    p + 2 + |indent| <= |body| && body[p] == '\n' && body[p + 1] == '\n'
    && IsIndent(indent) && body[p + 2..p + 2 + |indent|] == indent
    && MarkerEnd(body, p + 2 + |indent|).Some?
  }

  /** The indentation captured when the bibliography starts at p. The whitespace run is greedy, which makes it unique. */
  function BibIndentAt(body: string, p: nat): (r: Option<string>)
    requires p <= |body|
    ensures r.Some? ==> BibStartAt(body, p, r.value)
    ensures forall w :: BibStartAt(body, p, w) ==> r == Some(w)
  {
    if p + 2 <= |body| && body[p] == '\n' && body[p + 1] == '\n' then
      var k := WhitespaceEnd(body, p + 2);
      IndentUnique(body, p);
      if MarkerEnd(body, k).Some? then Some(body[p + 2..k]) else None
    else
      IndentUnique(body, p);
      None
  }

  /** Any indentation that starts a bibliography at p is the longest whitespace run there. */
  lemma IndentUnique(body: string, p: nat)
    ensures forall w :: BibStartAt(body, p, w) ==> w == body[p + 2..WhitespaceEnd(body, p + 2)]
  {
    forall w | BibStartAt(body, p, w) ensures w == body[p + 2..WhitespaceEnd(body, p + 2)] {
      var j := p + 2 + |w|;
      var k := WhitespaceEnd(body, p + 2);
      assert body[j] == '[';
      forall m | p + 2 <= m < j ensures IsIndentChar(body[m]) {
        assert body[m] == w[m - p - 2];
      }
    }
  }

  /** The first bibliography start at or after p, with its indentation. */
  function FindBib(body: string, p: nat): (r: Option<(nat, string)>)
    requires p <= |body|
    ensures r.Some? ==> p <= r.value.0 && BibStartAt(body, r.value.0, r.value.1)
    ensures r.Some? ==> forall q, w :: p <= q < r.value.0 ==> !BibStartAt(body, q, w)
    ensures r.None? ==> forall q, w :: p <= q ==> !BibStartAt(body, q, w)
    decreases |body| - p
  {
    if p == |body| then None
    else
      match BibIndentAt(body, p)
      case Some(w) => Some((p, w))
      case None => FindBib(body, p + 1)
  }

  /** The result of the second split: no bibliography, or the text before it, its indentation and itself. */
  datatype BibSplit = NoBib | Bib(prefix: string, indent: string, bib: string)

  /**
   The second split (miniref.rb:22): the
   bibliography runs from the blank line of the first start after offset 0
   to the end of the body.
   */
  function SplitBibliography(body: string): (r: BibSplit)
    ensures r.Bib? ==> r.prefix + r.bib == body && 1 <= |r.prefix| && BibStartAt(body, |r.prefix|, r.indent)
    ensures r.Bib? ==> forall q, w :: 1 <= q < |r.prefix| ==> !BibStartAt(body, q, w)
    ensures r.NoBib? <==> forall q, w :: 1 <= q ==> !BibStartAt(body, q, w)
  {
    if body == "" then NoBib
    else
      match FindBib(body, 1)
      case None => NoBib
      case Some((p, w)) =>
        assert body == body[..p] + body[p..];
        Bib(body[..p], w, body[p..])
  }

  /** Conversely, the first start after offset 0 is where the second split falls, with that start's indentation. */
  lemma SplitAtFirstStart(body: string, p: nat, w: string)
    requires 1 <= p && BibStartAt(body, p, w)
    requires forall q, w' :: 1 <= q < p ==> !BibStartAt(body, q, w')
    ensures SplitBibliography(body) == Bib(body[..p], w, body[p..])
  {
    var r := SplitBibliography(body);
    assert r.Bib?;
    assert |r.prefix| == p;
    assert r.prefix == body[..p];
    assert r.bib == body[p..];
    IndentUnique(body, p);
  }
}
