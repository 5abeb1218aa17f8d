/**
 Re-running the substitution on its own output. Once every marker of a body
 has been replaced by a number, the output holds no marker at all: a number
 in brackets cannot start one, and it cannot close one that begins in the text
 before it, since that text would then have started a marker in the body
 already. A second substitution therefore changes nothing and warns about
 nothing, whatever table it uses. An unmatched label, in contrast, is a marker
 again.
 */
module Stability {
  import opened Markers
  import opened Decimal
  import opened Rewriting

  /** No marker starts anywhere in t. */
  predicate NoMarker(t: string) {
    forall j :: 0 <= j <= |t| ==> MarkerEnd(t, j) == None
  }

  /**
   t and s agree on where the key run from their start stops: both run to
   the end, or both stop at the same character, and at offset 0 in one exactly
   when in the other.
   */
  predicate SameStop(t: string, s: string) {
    var a, b := StopFrom(t, 0), StopFrom(s, 0);
    (a == |t| <==> b == |s|) && (a < |t| && b < |s| ==> t[a] == s[b] && (a == 0 <==> b == 0))
  }

  /** Every marker of the pieces has a key in the table, and every label of the table is digits. */
  predicate MatchedByNumbers(ps: seq<Piece>, refs: map<string, string>) {
    (forall p :: p in ps && p.Ref? ==> p.key in refs) && (forall k :: k in refs ==> IsDigits(refs[k]))
  }

  /** Prefixing a text with a key character moves its stop by one. */
  lemma StopAfterKeyChar(c: char, u: string)
    requires IsKeyChar(c)
    ensures StopFrom([c] + u, 0) == 1 + StopFrom(u, 0)
  {
    StopFromShift([c], u, 0);
  }

  /** A text with no marker start reads as plain characters only. */
  lemma {:induction false} NoMarkerAllPlain(t: string, j: nat)
    requires j <= |t| && NoMarker(t)
    ensures forall p :: p in PiecesFrom(t, j) ==> p.Plain?
    decreases |t| - j
  {
    if j < |t| {
      assert MarkerEnd(t, j) == None;
      NoMarkerAllPlain(t, j + 1);
    }
  }

  /** Rendering one more piece in front. */
  lemma RenderedCons(p: Piece, ps: seq<Piece>, refs: map<string, string>)
    ensures Rendered([p] + ps, refs) == RenderPiece(p, refs) + Rendered(ps, refs)
  {
    assert ([p] + ps)[1..] == ps;
  }

  /** A bracketed number starts no marker, and a marker that starts after it is one of the rest. */
  lemma NoMarkerAfterNumber(v: string, u: string)
    requires IsDigits(v) && NoMarker(u)
    ensures NoMarker("[" + v + "]" + u)
  {
    var h := "[" + v + "]";
    var t := h + u;
    forall j | 0 <= j <= |t| ensures MarkerEnd(t, j) == None {
      if j >= |h| {
        MarkerEndShift(h, u, j - |h|);
      } else if j == 0 {
        assert t[1] == h[1];
      } else {
        assert t[j] == h[j];
      }
    }
  }

  /** The key run from the start of a bracketed number stops at its closing bracket. */
  lemma StopAtNumber(v: string, u: string)
    requires IsDigits(v)
    ensures StopFrom("[" + v + "]" + u, 0) == |v| + 1
  {
    var t := "[" + v + "]" + u;
    var k := StopFrom(t, 0);
    forall m | 0 <= m < |v| + 1 ensures IsKeyChar(t[m]) {
      if m > 0 {
        assert t[m] == v[m - 1];
      }
    }
    assert t[|v| + 1] == ']';
  }

  /** The pieces after the first are matched by numbers when all of them are. */
  lemma MatchedTail(p: Piece, ps: seq<Piece>, refs: map<string, string>)
    requires MatchedByNumbers([p] + ps, refs)
    ensures MatchedByNumbers(ps, refs)
    ensures p.Ref? ==> p.key in refs
  {
    assert forall q :: q in ps ==> q in [p] + ps;
  }

  /** The key run of a suffix stops where the key run of the whole text stops from the suffix's start. */
  lemma StopInSuffix(s: string, i: nat)
    requires i <= |s|
    ensures StopFrom(s, i) == i + StopFrom(s[i..], 0)
  {
    assert s[..i] + s[i..] == s;
    StopFromShift(s[..i], s[i..], 0);
  }

  /**
   The output of the substitution from i: it holds no marker, its key run from
   the start stops like that of body[i..], and it starts with a caret only
   where body[i..] does.
   */
  lemma {:induction false} RenderedFrom(body: string, refs: map<string, string>, i: nat)
    requires i <= |body| && MatchedByNumbers(PiecesFrom(body, i), refs)
    ensures NoMarker(Rendered(PiecesFrom(body, i), refs))
    ensures SameStop(Rendered(PiecesFrom(body, i), refs), body[i..])
    ensures Rendered(PiecesFrom(body, i), refs) != [] && Rendered(PiecesFrom(body, i), refs)[0] == '^'
      ==> i < |body| && body[i] == '^'
    decreases |body| - i, 3
  {
    if i < |body| {
      match MarkerEnd(body, i)
      case Some(e) =>
        MarkerFrom(body, refs, i, e);
      case None =>
        PlainFrom(body, refs, i);
    }
  }

  /** The step of RenderedFrom where body[i] is read as a plain character. */
  lemma {:induction false} PlainFrom(body: string, refs: map<string, string>, i: nat)
    requires i < |body| && MarkerEnd(body, i) == None && MatchedByNumbers(PiecesFrom(body, i), refs)
    ensures NoMarker(Rendered(PiecesFrom(body, i), refs))
    ensures SameStop(Rendered(PiecesFrom(body, i), refs), body[i..])
    ensures Rendered(PiecesFrom(body, i), refs) != [] && Rendered(PiecesFrom(body, i), refs)[0] == '^'
      ==> body[i] == '^'
    decreases |body| - i, 2
  {
    var c := body[i];
    var rest := PiecesFrom(body, i + 1);
    assert PiecesFrom(body, i) == [Plain(c)] + rest;
    MatchedTail(Plain(c), rest, refs);
    RenderedFrom(body, refs, i + 1);
    var u := Rendered(rest, refs);
    RenderedCons(Plain(c), rest, refs);
    var t := [c] + u;
    assert Rendered(PiecesFrom(body, i), refs) == t;
    assert body[i..] == [c] + body[i + 1..];
    SameStopCons(c, u, body[i + 1..]);
    if c == '[' && |u| >= 2 && u[0] == '^' {
      OpenCaretFrom(body, refs, i);
    }
    NoMarkerCons(c, u);
  }

  /** One more character in front of both texts keeps their key runs stopping alike. */
  lemma SameStopCons(c: char, u: string, s: string)
    requires SameStop(u, s)
    ensures SameStop([c] + u, [c] + s)
  {
    if IsKeyChar(c) {
      StopAfterKeyChar(c, u);
      StopAfterKeyChar(c, s);
      assert ([c] + u)[1 + StopFrom(u, 0)..] == u[StopFrom(u, 0)..];
      assert ([c] + s)[1 + StopFrom(s, 0)..] == s[StopFrom(s, 0)..];
    }
  }

  /** A character in front of a text without markers adds none, unless it opens one right there. */
  lemma NoMarkerCons(c: char, u: string)
    requires NoMarker(u)
    requires c == '[' && |u| >= 2 && u[0] == '^' ==> MarkerEnd([c] + u, 0) == None
    ensures NoMarker([c] + u)
  {
    var t := [c] + u;
    forall j | 0 <= j <= |t| ensures MarkerEnd(t, j) == None {
      if j >= 1 {
        MarkerEndShift([c], u, j - 1);
      }
    }
  }

  /** The step of RenderedFrom where a marker starts at i and ends at e. */
  lemma {:induction false} MarkerFrom(body: string, refs: map<string, string>, i: nat, e: nat)
    requires i < |body| && MarkerEnd(body, i) == Some(e) && MatchedByNumbers(PiecesFrom(body, i), refs)
    ensures NoMarker(Rendered(PiecesFrom(body, i), refs))
    ensures SameStop(Rendered(PiecesFrom(body, i), refs), body[i..])
    ensures Rendered(PiecesFrom(body, i), refs) != [] && Rendered(PiecesFrom(body, i), refs)[0] == '['
    decreases |body| - i, 1
  {
    var key := body[i + 1..e - 1];
    var rest := PiecesFrom(body, e);
    assert PiecesFrom(body, i) == [Ref(key)] + rest;
    MatchedTail(Ref(key), rest, refs);
    RenderedFrom(body, refs, e);
    var v := refs[key];
    var u := Rendered(rest, refs);
    RenderedCons(Ref(key), rest, refs);
    assert Rendered(PiecesFrom(body, i), refs) == "[" + v + "]" + u;
    NoMarkerAfterNumber(v, u);
    NumberStopsLikeMarker(v, u, body, i, e);
  }

  /** A bracketed number and the marker it replaced both stop their key run at the closing bracket. */
  lemma NumberStopsLikeMarker(v: string, u: string, body: string, i: nat, e: nat)
    requires IsDigits(v) && i < |body| && MarkerEnd(body, i) == Some(e)
    ensures SameStop("[" + v + "]" + u, body[i..])
  {
    StopAtNumber(v, u);
    StopInSuffix(body, i);
    assert StopFrom(body, i) == e - 1;
    assert body[i..][e - 1 - i] == body[e - 1];
  }

  /** In the plain step, `[` followed in the output by a caret starts no marker there either. */
  lemma {:induction false} OpenCaretFrom(body: string, refs: map<string, string>, i: nat)
    requires i < |body| && MarkerEnd(body, i) == None && body[i] == '['
    requires MatchedByNumbers(PiecesFrom(body, i + 1), refs)
    requires body[i + 1..] != [] && body[i + 1] == '^'
    ensures MarkerEnd([body[i]] + Rendered(PiecesFrom(body, i + 1), refs), 0) == None
    decreases |body| - i, 0
  {
    var rest := PiecesFrom(body, i + 2);
    assert MarkerEnd(body, i + 1) == None;
    assert PiecesFrom(body, i + 1) == [Plain('^')] + rest;
    MatchedTail(Plain('^'), rest, refs);
    RenderedFrom(body, refs, i + 2);
    var w := Rendered(rest, refs);
    RenderedCons(Plain('^'), rest, refs);
    assert [body[i]] + Rendered(PiecesFrom(body, i + 1), refs) == "[^" + w;
    assert body[..i] + ("[^" + body[i + 2..]) == body;
    MarkerEndShift(body[..i], "[^" + body[i + 2..], 0);
    CaretOpensNoMarker(w, body[i + 2..]);
  }

  /** After `[^`, a text whose key run stops like that of x opens a marker only where x does. */
  lemma CaretOpensNoMarker(w: string, x: string)
    requires SameStop(w, x) && MarkerEnd("[^" + x, 0) == None
    ensures MarkerEnd("[^" + w, 0) == None
  {
    StopFromShift("[^", w, 0);
    StopFromShift("[^", x, 0);
    var a, b := StopFrom(w, 0), StopFrom(x, 0);
    if a < |w| {
      assert ("[^" + w)[2 + a] == w[a];
    }
    if b < |x| {
      assert ("[^" + x)[2 + b] == x[b];
    }
  }

  /**
   A second substitution over the output of one whose markers were all
   replaced by numbers changes nothing and warns about nothing, whatever the
   second table holds.
   */
  lemma SubstitutionStable(body: string, refs: map<string, string>, refs': map<string, string>)
    requires MatchedByNumbers(Pieces(body), refs)
    ensures NoMarker(Rendered(Pieces(body), refs))
    ensures Rendered(Pieces(Rendered(Pieces(body), refs)), refs') == Rendered(Pieces(body), refs)
    ensures Warnings(Pieces(Rendered(Pieces(body), refs)), refs') == []
  {
    var out := Rendered(Pieces(body), refs);
    RenderedFrom(body, refs, 0);
    NoMarkerAllPlain(out, 0);
    UnchangedWithoutMarkers(out, refs');
  }

  /** The key with ` UNMATCHED` appended is a key again. */
  lemma UnmatchedKeyIsKey(k: string)
    requires IsKey(k)
    ensures IsKey(k + " UNMATCHED")
  {
    var u := " UNMATCHED";
    assert forall n :: 0 <= n < |u| ==> IsKeyChar(u[n]);
    var key := k + u;
    forall m | 1 <= m < |key| ensures IsKeyChar(key[m]) {
      if m >= |k| {
        assert key[m] == u[m - |k|];
      } else {
        assert key[m] == k[m];
      }
    }
  }

  /**
   An unmatched label is a marker itself, so a second substitution over it,
   with the lengthened key missing from the table too, extends it.
   */
  lemma UnmatchedLabelGrows(k: string, refs: map<string, string>)
    requires IsKey(k) && k + " UNMATCHED" !in refs
    ensures Pieces("[" + k + " UNMATCHED]") == [Ref(k + " UNMATCHED")]
    ensures Rendered(Pieces("[" + k + " UNMATCHED]"), refs) == "[" + k + " UNMATCHED UNMATCHED]"
  {
    var key := k + " UNMATCHED";
    UnmatchedKeyIsKey(k);
    BracketedKeyIsMarker(key);
    assert "[" + key + "]" == "[" + k + " UNMATCHED]";
    assert [Ref(key)][1..] == [];
    assert Rendered([Ref(key)], refs) == "[" + key + " UNMATCHED" + "]" + "";
    assert "[" + key + " UNMATCHED" + "]" + "" == "[" + k + " UNMATCHED UNMATCHED]";
  }
}
