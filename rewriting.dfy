/**
 Rewriting every marker of the body (miniref.rb:38-41 and miniref.rb:49): a
 global substitution replaces each marker by its label in brackets. A key
 found in the table becomes its number; a missing key takes the hash's default block,
 which warns and yields the key (caret included) followed by ` UNMATCHED`.
 The block never stores into the table, so the warning comes again at every
 occurrence.
 */
module Rewriting {
  import opened Markers

  /** The diagnostic of the default block (miniref.rb:39). */
  function UnmatchedWarning(key: string): string {
    "Found unmatched reference [" + key + "]"
  }

  /** What looking the key up in the table yields: the table's entry, or the default block's value (miniref.rb:40). */
  function Label(refs: map<string, string>, key: string): string {
    if key in refs then refs[key] else key + " UNMATCHED"
  }

  function RenderPiece(p: Piece, refs: map<string, string>): string {
    match p
    case Plain(c) => [c]
    case Ref(k) => "[" + Label(refs, k) + "]"
  }

  /** The substituted text: every marker replaced by its bracketed label, everything else kept. */
  function Rendered(ps: seq<Piece>, refs: map<string, string>): string {
    if ps == [] then "" else RenderPiece(ps[0], refs) + Rendered(ps[1..], refs)
  }

  /** The warnings of the substitution: one per occurrence of a key the table lacks, in order. */
  function Warnings(ps: seq<Piece>, refs: map<string, string>): seq<string> {
    if ps == [] then []
    else
      (if ps[0].Ref? && ps[0].key !in refs then [UnmatchedWarning(ps[0].key)] else [])
      + Warnings(ps[1..], refs)
  }

  /** The number of markers with key k. */
  function Occurrences(ps: seq<Piece>, k: string): nat {
    if ps == [] then 0 else (if ps[0] == Ref(k) then 1 else 0) + Occurrences(ps[1..], k)
  }

  /** What one more piece adds to the substituted text. */
  lemma {:induction false} RenderedSnoc(ps: seq<Piece>, p: Piece, refs: map<string, string>)
    ensures Rendered(ps + [p], refs) == Rendered(ps, refs) + RenderPiece(p, refs)
  {
    if ps == [] {
      assert ps + [p] == [p];
    } else {
      assert (ps + [p])[1..] == ps[1..] + [p];
      RenderedSnoc(ps[1..], p, refs);
    }
  }

  /** What one more piece adds to the warnings. */
  lemma {:induction false} WarningsSnoc(ps: seq<Piece>, p: Piece, refs: map<string, string>)
    ensures Warnings(ps + [p], refs) == Warnings(ps, refs) + Warnings([p], refs)
  {
    if ps == [] {
      assert ps + [p] == [p];
    } else {
      assert (ps + [p])[1..] == ps[1..] + [p];
      WarningsSnoc(ps[1..], p, refs);
    }
  }

  /**
   Looking a key up in the table with its default block: the stored label, or the
   warning and the fallback label for a missing key, which is not stored.
   */
  method Lookup(refs: map<string, string>, key: string) returns (replacement: string, warned: seq<string>)
    ensures "[" + replacement + "]" == RenderPiece(Ref(key), refs)
    ensures warned == Warnings([Ref(key)], refs)
  {
    if key in refs {
      replacement, warned := refs[key], [];
    } else {
      warned := [UnmatchedWarning(key)];
      replacement := key + " UNMATCHED";
    }
  }

  /** One step of the substitution: a marker at i is taken whole, and reading resumes at e. */
  lemma MarkerStep(body: string, refs: map<string, string>, i: nat, e: nat, done: seq<Piece>)
    requires i < |body| && MarkerEnd(body, i) == Some(e)
    requires done + PiecesFrom(body, i) == Pieces(body)
    ensures i + 1 <= e - 1 && e <= |body|
    ensures (done + [Ref(body[i + 1..e - 1])]) + PiecesFrom(body, e) == Pieces(body)
    ensures Rendered(done + [Ref(body[i + 1..e - 1])], refs) == Rendered(done, refs) + RenderPiece(Ref(body[i + 1..e - 1]), refs)
    ensures Warnings(done + [Ref(body[i + 1..e - 1])], refs) == Warnings(done, refs) + Warnings([Ref(body[i + 1..e - 1])], refs)
  {
    var p := Ref(body[i + 1..e - 1]);
    PiecesAtMarker(body, i, e);
    Shifted(Pieces(body), done, PiecesFrom(body, i), [p], PiecesFrom(body, e));
    RenderedSnoc(done, p, refs);
    WarningsSnoc(done, p, refs);
  }

  /** One step of the substitution: no marker starts at i, so its character is kept. */
  lemma PlainStep(body: string, refs: map<string, string>, i: nat, done: seq<Piece>)
    requires i < |body| && MarkerEnd(body, i) == None
    requires done + PiecesFrom(body, i) == Pieces(body)
    ensures (done + [Plain(body[i])]) + PiecesFrom(body, i + 1) == Pieces(body)
    ensures Rendered(done + [Plain(body[i])], refs) == Rendered(done, refs) + [body[i]]
    ensures Warnings(done + [Plain(body[i])], refs) == Warnings(done, refs)
  {
    var p := Plain(body[i]);
    PiecesAtPlain(body, i);
    Shifted(Pieces(body), done, PiecesFrom(body, i), [p], PiecesFrom(body, i + 1));
    RenderedSnoc(done, p, refs);
    WarningsSnoc(done, p, refs);
    assert Warnings([p], refs) == [] + Warnings([], refs);
  }

  /** The substitution, scanning left to right and resuming after each marker. */
  method RewriteMarkers(body: string, refs: map<string, string>) returns (out: string, diags: seq<string>)
    ensures out == Rendered(Pieces(body), refs)
    ensures diags == Warnings(Pieces(body), refs)
  {
    out, diags := "", [];
    ghost var done: seq<Piece> := [];
    var i := 0;
    while i < |body|
      invariant i <= |body|
      invariant done + PiecesFrom(body, i) == Pieces(body)
      invariant out == Rendered(done, refs) && diags == Warnings(done, refs)
    {
      match MarkerEnd(body, i)
      case Some(e) =>
        MarkerStep(body, refs, i, e, done);
        var key := body[i + 1..e - 1];
        var replacement, warned := Lookup(refs, key);
        diags := diags + warned;
        out := out + ("[" + replacement + "]");
        done := done + [Ref(key)];
        i := e;
      case None =>
        PlainStep(body, refs, i, done);
        out := out + [body[i]];
        done := done + [Plain(body[i])];
        i := i + 1;
    }
    assert PiecesFrom(body, i) == [];
    assert done == Pieces(body);
  }

  /** Different keys give different warnings, so a warning names its key. */
  lemma UnmatchedWarningInjective(k: string, k': string)
    requires UnmatchedWarning(k) == UnmatchedWarning(k')
    ensures k == k'
  {
    var n := |"Found unmatched reference ["|;
    assert k == UnmatchedWarning(k)[n..|UnmatchedWarning(k)| - 1];
    assert k' == UnmatchedWarning(k')[n..|UnmatchedWarning(k')| - 1];
  }

  /**
   Warnings repeat: a missing key is reported once for each of its
   occurrences, and a key of the table is never reported.
   */
  lemma {:induction false} WarningsPerOccurrence(ps: seq<Piece>, refs: map<string, string>, k: string)
    ensures multiset(Warnings(ps, refs))[UnmatchedWarning(k)] == if k in refs then 0 else Occurrences(ps, k)
  {
    if ps != [] {
      WarningsPerOccurrence(ps[1..], refs, k);
      if ps[0].Ref? && ps[0].key !in refs && UnmatchedWarning(ps[0].key) == UnmatchedWarning(k) {
        UnmatchedWarningInjective(ps[0].key, k);
      }
      assert Warnings(ps, refs) ==
        (if ps[0].Ref? && ps[0].key !in refs then [UnmatchedWarning(ps[0].key)] else []) + Warnings(ps[1..], refs);
    }
  }

  /** There is no warning exactly when every marker's key is in the table. */
  lemma {:induction false} NoWarningsIffAllMatched(ps: seq<Piece>, refs: map<string, string>)
    ensures Warnings(ps, refs) == [] <==> forall p :: p in ps && p.Ref? ==> p.key in refs
  {
    if ps != [] {
      NoWarningsIffAllMatched(ps[1..], refs);
      assert forall p :: p in ps <==> p == ps[0] || p in ps[1..];
    }
  }

  /** A text without markers comes out of the substitution unchanged. */
  lemma {:induction false} RenderedPlain(ps: seq<Piece>, refs: map<string, string>)
    requires forall p :: p in ps ==> p.Plain?
    ensures Rendered(ps, refs) == Flatten(ps)
    ensures Warnings(ps, refs) == []
  {
    if ps != [] {
      RenderedPlain(ps[1..], refs);
    }
  }

  lemma UnchangedWithoutMarkers(body: string, refs: map<string, string>)
    requires forall p :: p in Pieces(body) ==> p.Plain?
    ensures Rendered(Pieces(body), refs) == body
    ensures Warnings(Pieces(body), refs) == []
  {
    RenderedPlain(Pieces(body), refs);
    FlattenPieces(body);
  }

  /** The substituted text of two runs of pieces is the two substituted texts. */
  lemma {:induction false} RenderedAppend(ps: seq<Piece>, qs: seq<Piece>, refs: map<string, string>)
    ensures Rendered(ps + qs, refs) == Rendered(ps, refs) + Rendered(qs, refs)
    decreases |qs|
  {
    if qs == [] {
      assert ps + qs == ps;
    } else {
      var front, last := qs[..|qs| - 1], qs[|qs| - 1];
      assert qs == front + [last];
      assert ps + qs == (ps + front) + [last];
      RenderedAppend(ps, front, refs);
      RenderedSnoc(ps + front, last, refs);
      RenderedSnoc(front, last, refs);
      Regrouped(Rendered(ps, refs), Rendered(front, refs), RenderPiece(last, refs));
    }
  }

  /** The warnings of two runs of pieces are the two runs' warnings. */
  lemma {:induction false} WarningsAppend(ps: seq<Piece>, qs: seq<Piece>, refs: map<string, string>)
    ensures Warnings(ps + qs, refs) == Warnings(ps, refs) + Warnings(qs, refs)
    decreases |qs|
  {
    if qs == [] {
      assert ps + qs == ps;
    } else {
      var front, last := qs[..|qs| - 1], qs[|qs| - 1];
      assert qs == front + [last];
      assert ps + qs == (ps + front) + [last];
      WarningsAppend(ps, front, refs);
      WarningsSnoc(ps + front, last, refs);
      WarningsSnoc(front, last, refs);
    }
  }

  /** Plain characters come out as they are, without warnings. */
  lemma {:induction false} RenderedPlains(w: string, refs: map<string, string>)
    ensures Rendered(Plains(w), refs) == w
    ensures Warnings(Plains(w), refs) == []
  {
    if w != [] {
      RenderedPlains(w[1..], refs);
      assert Plains(w)[1..] == Plains(w[1..]);
    }
  }

  /**
   A marker with the key key after the plain characters w, between the pieces
   before and after, comes out as its bracketed label in place.
   */
  lemma RenderedAroundMarker(before: seq<Piece>, w: string, key: string, after: seq<Piece>, refs: map<string, string>)
    ensures Rendered(before + Plains(w) + [Ref(key)] + after, refs)
              == Rendered(before, refs) + w + "[" + Label(refs, key) + "]" + Rendered(after, refs)
  {
    var a := before + Plains(w);
    var b := a + [Ref(key)];
    var x, name := Rendered(before, refs) + w, Label(refs, key);
    RenderedPlains(w, refs);
    RenderedAppend(before, Plains(w), refs);
    assert Rendered(a, refs) == x;
    RenderedSnoc(a, Ref(key), refs);
    assert Rendered(b, refs) == x + ("[" + name + "]");
    Regrouped(x, "[" + name, "]");
    Regrouped(x, "[", name);
    RenderedAppend(b, after, refs);
  }

  /** The same marker draws one warning there exactly when the table lacks its key. */
  lemma WarningsAroundMarker(before: seq<Piece>, w: string, key: string, after: seq<Piece>, refs: map<string, string>)
    ensures Warnings(before + Plains(w) + [Ref(key)] + after, refs)
              == Warnings(before, refs) + (if key in refs then [] else [UnmatchedWarning(key)]) + Warnings(after, refs)
  {
    var a := before + Plains(w);
    var b := a + [Ref(key)];
    RenderedPlains(w, refs);
    WarningsAppend(before, Plains(w), refs);
    assert Warnings(a, refs) == Warnings(before, refs);
    WarningsSnoc(a, Ref(key), refs);
    assert [Ref(key)][1..] == [];
    WarningsAppend(b, after, refs);
  }

  /** A marker whose key is numbered comes out first as its bracketed number and adds no warning. */
  lemma NumberedFirst(k: string, rest: seq<Piece>, refs: map<string, string>)
    requires k in refs
    ensures Rendered([Ref(k)] + rest, refs) == "[" + refs[k] + "]" + Rendered(rest, refs)
    ensures Warnings([Ref(k)] + rest, refs) == Warnings(rest, refs)
  {
    assert ([Ref(k)] + rest)[1..] == rest;
  }

  /** From a marker of s with a numbered key on, the substitution starts with that number and the marker draws no warning. */
  lemma NumberedMarkerFirst(s: string, i: nat, e: nat, k: string, refs: map<string, string>)
    requires i <= |s| && MarkerEnd(s, i) == Some(e) && s[i + 1..e - 1] == k && k in refs
    ensures i <= e <= |s|
    ensures Rendered(Pieces(s[i..]), refs) == "[" + refs[k] + "]" + Rendered(Pieces(s[e..]), refs)
    ensures Warnings(Pieces(s[i..]), refs) == Warnings(Pieces(s[e..]), refs)
  {
    MarkerReadFirst(s, i, e, k);
    NumberedFirst(k, Pieces(s[e..]), refs);
  }
}
