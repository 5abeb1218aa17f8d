/**
 Character-level scanners shared by every step of the renumbering: the citation
 marker `[^key]`, runs of indentation, line
 starts, and the reading of a text as a sequence of plain characters and
 markers the way a leftmost, non-overlapping global substitution reads it.
 */
module Markers {

  datatype Option<+T> = None | Some(value: T)

  /** A character allowed in a key after its caret: anything but `]` and a newline. */
  predicate IsKeyChar(c: char) {
    c != ']' && c != '\n'
  }

  /** A citation key as the marker pattern captures it: the caret and at least one key character. */
  predicate IsKey(k: string) {
    |k| >= 2 && k[0] == '^' && forall m :: 1 <= m < |k| ==> IsKeyChar(k[m])
  }

  /** The first index at or after j that holds `]` or a newline; |s| when there is none. */
  function StopFrom(s: string, j: nat): (k: nat)
    requires j <= |s|
    ensures j <= k <= |s|
    ensures forall m :: j <= m < k ==> IsKeyChar(s[m])
    ensures k < |s| ==> !IsKeyChar(s[k])
    decreases |s| - j
  {
    if j == |s| || !IsKeyChar(s[j]) then j else StopFrom(s, j + 1)
  }

  /** s[i..e] is one marker: `[`, `^`, one or more key characters, `]`. */
  ghost predicate IsMarkerSpan(s: string, i: nat, e: nat) {
    i + 4 <= e <= |s| && s[i] == '[' && s[i + 1] == '^' && s[e - 1] == ']'
    && forall m :: i + 2 <= m < e - 1 ==> IsKeyChar(s[m])
  }

  /**
   The end (just past the `]`) of the marker that starts at i, if one does.
   The key run is greedy and cannot contain `]`, so a marker that starts at i
   is unique: it closes at the first `]`, provided no newline comes first.
   */
  function MarkerEnd(s: string, i: nat): (r: Option<nat>)
    requires i <= |s|
    ensures r.Some? ==> IsMarkerSpan(s, i, r.value)
    ensures forall e: nat :: IsMarkerSpan(s, i, e) ==> r == Some(e)
  {
    if i + 2 < |s| && s[i] == '[' && s[i + 1] == '^' then
      var k := StopFrom(s, i + 2);
      if i + 2 < k < |s| && s[k] == ']' then Some(k + 1) else None
    else
      None
  }

  /** Indentation as the bibliography pattern admits it: spaces and tabs only. */
  predicate IsIndentChar(c: char) {
    c == ' ' || c == '\t'
  }

  predicate IsIndent(w: string) {
    forall m :: 0 <= m < |w| ==> IsIndentChar(w[m])
  }

  /** The end of the longest run of spaces and tabs that starts at j. */
  function WhitespaceEnd(s: string, j: nat): (k: nat)
    requires j <= |s|
    ensures j <= k <= |s|
    ensures forall m :: j <= m < k ==> IsIndentChar(s[m])
    ensures k < |s| ==> !IsIndentChar(s[k])
    decreases |s| - j
  {
    if j == |s| || !IsIndentChar(s[j]) then j else WhitespaceEnd(s, j + 1)
  }

  /** A whitespace run is an indentation. */
  lemma WhitespaceRunIsIndent(s: string, j: nat)
    requires j <= |s|
    ensures IsIndent(s[j..WhitespaceEnd(s, j)])
  {
    var w := s[j..WhitespaceEnd(s, j)];
    forall m | 0 <= m < |w| ensures IsIndentChar(w[m]) {
      assert w[m] == s[j + m];
    }
  }

  /** Position q begins a line of s: the start of the text or just after a newline. */
  predicate AtLineStart(s: string, q: nat) {
    q == 0 || (q <= |s| && s[q - 1] == '\n')
  }

  /** A text read as the substitution reads it: plain characters and whole markers. */
  datatype Piece = Plain(c: char) | Ref(key: string)

  /** The characters a piece was read from. */
  function Source(p: Piece): string {
    match p
    case Plain(c) => [c]
    case Ref(k) => "[" + k + "]"
  }

  function Flatten(ps: seq<Piece>): string {
    if ps == [] then "" else Source(ps[0]) + Flatten(ps[1..])
  }

  /**
   The pieces of s[i..]: at each position the leftmost marker that starts there
   is taken whole and reading resumes after it; otherwise one character is kept.
   */
  function PiecesFrom(s: string, i: nat): seq<Piece>
    requires i <= |s|
    decreases |s| - i
  {
    if i == |s| then []
    else
      match MarkerEnd(s, i)
      case Some(e) => [Ref(s[i + 1..e - 1])] + PiecesFrom(s, e)
      case None => [Plain(s[i])] + PiecesFrom(s, i + 1)
  }

  function Pieces(s: string): seq<Piece> {
    PiecesFrom(s, 0)
  }

  /** The key a marker span holds is a key: caret first, no `]`, no newline. */
  lemma MarkerKey(s: string, i: nat, e: nat)
    requires IsMarkerSpan(s, i, e)
    ensures IsKey(s[i + 1..e - 1])
  {
    var k := s[i + 1..e - 1];
    forall m | 1 <= m < |k| ensures IsKeyChar(k[m]) {
      assert k[m] == s[i + 1 + m];
    }
  }

  /** Bracketing the key of a marker span gives back the marker's text. */
  lemma MarkerText(s: string, i: nat, e: nat)
    requires i + 2 < e <= |s| && s[i] == '[' && s[e - 1] == ']'
    ensures "[" + s[i + 1..e - 1] + "]" == s[i..e]
  {
  }

  lemma SliceSplit<T>(s: seq<T>, i: nat, e: nat)
    requires i <= e <= |s|
    ensures s[i..e] + s[e..] == s[i..]
  {
  }

  /** A slice inside the second part of a concatenation is a slice of that part. */
  lemma SliceInSuffix<T>(a: seq<T>, b: seq<T>, x: nat, y: nat)
    requires x <= y <= |b|
    ensures (a + b)[|a| + x..|a| + y] == b[x..y]
  {
  }

  /** Reading a text into pieces loses nothing: the pieces spell the text again. */
  lemma FlattenCons(p: Piece, ps: seq<Piece>)
    ensures Flatten([p] + ps) == Source(p) + Flatten(ps)
  {
    assert ([p] + ps)[1..] == ps;
  }

  /** A marker read whole spells the marker text. */
  lemma FlattenAtMarker(s: string, i: nat, e: nat)
    requires i < |s| && MarkerEnd(s, i) == Some(e)
    requires Flatten(PiecesFrom(s, e)) == s[e..]
    ensures Flatten(PiecesFrom(s, i)) == s[i..]
  {
    var k, rest := s[i + 1..e - 1], PiecesFrom(s, e);
    PiecesAtMarker(s, i, e);
    FlattenCons(Ref(k), rest);
    MarkerText(s, i, e);
    assert Source(Ref(k)) == s[i..e];
    SliceSplit(s, i, e);
  }

  /** A character kept as it is spells itself. */
  lemma FlattenAtPlain(s: string, i: nat)
    requires i < |s| && MarkerEnd(s, i) == None
    requires Flatten(PiecesFrom(s, i + 1)) == s[i + 1..]
    ensures Flatten(PiecesFrom(s, i)) == s[i..]
  {
    assert PiecesFrom(s, i) == [Plain(s[i])] + PiecesFrom(s, i + 1);
    FlattenCons(Plain(s[i]), PiecesFrom(s, i + 1));
    SliceSplit(s, i, i + 1);
  }

  lemma {:induction false} FlattenPiecesFrom(s: string, i: nat)
    requires i <= |s|
    ensures Flatten(PiecesFrom(s, i)) == s[i..]
    decreases |s| - i
  {
    if i < |s| {
      match MarkerEnd(s, i)
      case Some(e) =>
        FlattenPiecesFrom(s, e);
        FlattenAtMarker(s, i, e);
      case None =>
        FlattenPiecesFrom(s, i + 1);
        FlattenAtPlain(s, i);
    }
  }

  lemma FlattenPieces(s: string)
    ensures Flatten(Pieces(s)) == s
  {
    FlattenPiecesFrom(s, 0);
  }

  /** Every marker piece holds a well-formed key; in particular no marker spans a newline. */
  lemma {:induction false} PiecesFromKeys(s: string, i: nat)
    requires i <= |s|
    ensures forall p :: p in PiecesFrom(s, i) && p.Ref? ==> IsKey(p.key)
    decreases |s| - i
  {
    if i < |s| {
      match MarkerEnd(s, i)
      case Some(e) =>
        PiecesFromKeys(s, e);
        MarkerKey(s, i, e);
      case None =>
        PiecesFromKeys(s, i + 1);
    }
  }

  /** A bracketed key reads back as that one marker. */
  lemma BracketedKeyIsMarker(key: string)
    requires IsKey(key)
    ensures Pieces("[" + key + "]") == [Ref(key)]
  {
    var t := "[" + key + "]";
    assert IsMarkerSpan(t, 0, |t|) by {
      forall m | 2 <= m < |t| - 1 ensures IsKeyChar(t[m]) {
        assert t[m] == key[m - 1];
      }
    }
    assert t[1..|t| - 1] == key;
    assert Pieces(t) == [Ref(key)] + PiecesFrom(t, |t|);
  }

  /** The key run from |a| + j in a + b stops |a| after where it stops from j in b. */
  lemma {:induction false} StopFromShift(a: string, b: string, j: nat)
    requires j <= |b|
    ensures StopFrom(a + b, |a| + j) == |a| + StopFrom(b, j)
    decreases |b| - j
  {
    if j < |b| {
      assert (a + b)[|a| + j] == b[j];
      if IsKeyChar(b[j]) {
        StopFromShift(a, b, j + 1);
      }
    }
  }

  /** A marker starts at |a| + j in a + b exactly when one starts at j in b, and it ends |a| later. */
  lemma MarkerEndShift(a: string, b: string, j: nat)
    requires j <= |b|
    ensures MarkerEnd(a + b, |a| + j) == match MarkerEnd(b, j) case None => None case Some(e) => Some(|a| + e)
  {
    var s := a + b;
    if j + 2 < |b| {
      assert s[|a| + j] == b[j] && s[|a| + j + 1] == b[j + 1];
      StopFromShift(a, b, j + 2);
      var k := StopFrom(b, j + 2);
      if k < |b| {
        assert s[|a| + k] == b[k];
      }
    }
  }

  /** Two texts that hold the same marker at i and j, and read alike after it, read alike from i and j. */
  lemma ShiftAtMarker(s: string, t: string, i: nat, j: nat, f: nat, e: nat)
    requires i <= |s| && j <= |t| && MarkerEnd(s, i) == Some(f) && MarkerEnd(t, j) == Some(e)
    requires s[i + 1..f - 1] == t[j + 1..e - 1] && PiecesFrom(s, f) == PiecesFrom(t, e)
    ensures PiecesFrom(s, i) == PiecesFrom(t, j)
  {
    PiecesAtMarker(s, i, f);
    PiecesAtMarker(t, j, e);
  }

  /** Two texts that hold the same character at i and j, where no marker starts, and read alike after it, read alike from i and j. */
  lemma ShiftAtPlain(s: string, t: string, i: nat, j: nat)
    requires i < |s| && j < |t| && MarkerEnd(s, i) == None && MarkerEnd(t, j) == None
    requires s[i] == t[j] && PiecesFrom(s, i + 1) == PiecesFrom(t, j + 1)
    ensures PiecesFrom(s, i) == PiecesFrom(t, j)
  {
    PiecesAtPlain(s, i);
    PiecesAtPlain(t, j);
  }

  /** The reading of s = a + b from i = |a| + j is the reading of b from j: it depends only on the text from there on. */
  lemma {:induction false} PiecesFromShift(s: string, a: string, b: string, i: nat, j: nat)
    requires s == a + b && i == |a| + j && j <= |b|
    ensures PiecesFrom(s, i) == PiecesFrom(b, j)
    decreases |b| - j
  {
    if j < |b| {
      var m, n := ShiftStep(s, a, b, i, j);
      PiecesFromShift(s, a, b, m, n);
    }
  }

  /** One piece of b read from j, and the same piece of s = a + b read from i = |a| + j. */
  lemma ShiftStep(s: string, a: string, b: string, i: nat, j: nat) returns (m: nat, n: nat)
    requires s == a + b && i == |a| + j && j < |b|
    ensures j < n <= |b| && m == |a| + n
    ensures PiecesFrom(s, m) == PiecesFrom(b, n) ==> PiecesFrom(s, i) == PiecesFrom(b, j)
  {
    match MarkerEnd(b, j)
    case Some(e) =>
      m, n := |a| + e, e;
      MarkerShifted(s, a, b, i, j, m, n);
      if PiecesFrom(s, m) == PiecesFrom(b, n) {
        ShiftAtMarker(s, b, i, j, m, n);
      }
    case None =>
      m, n := i + 1, j + 1;
      PlainShifted(s, a, b, i, j);
      if PiecesFrom(s, m) == PiecesFrom(b, n) {
        ShiftAtPlain(s, b, i, j);
      }
  }

  /** A marker of b from j to e is one of s = a + b from i = |a| + j to f = |a| + e. */
  lemma MarkerShifted(s: string, a: string, b: string, i: nat, j: nat, f: nat, e: nat)
    requires s == a + b && i == |a| + j && f == |a| + e && j <= |b| && MarkerEnd(b, j) == Some(e)
    ensures MarkerEnd(s, i) == Some(f) && s[i + 1..f - 1] == b[j + 1..e - 1]
  {
    MarkerEndShift(a, b, j);
    assert IsMarkerSpan(b, j, e);
    SliceInSuffix(a, b, j + 1, e - 1);
  }

  /** A character of b at j where no marker starts is one of s = a + b at i = |a| + j. */
  lemma PlainShifted(s: string, a: string, b: string, i: nat, j: nat)
    requires s == a + b && i == |a| + j && j < |b| && MarkerEnd(b, j) == None
    ensures i < |s| && MarkerEnd(s, i) == None && s[i] == b[j]
  {
    MarkerEndShift(a, b, j);
  }

  /** Reading at a marker takes it whole. */
  lemma PiecesAtMarker(s: string, i: nat, e: nat)
    requires i <= |s| && MarkerEnd(s, i) == Some(e)
    ensures i + 4 <= e <= |s|
    ensures PiecesFrom(s, i) == [Ref(s[i + 1..e - 1])] + PiecesFrom(s, e)
  {
    assert IsMarkerSpan(s, i, e);
  }

  /** Reading where no marker starts keeps one character. */
  lemma PiecesAtPlain(s: string, i: nat)
    requires i < |s| && MarkerEnd(s, i) == None
    ensures PiecesFrom(s, i) == [Plain(s[i])] + PiecesFrom(s, i + 1)
  {
  }

  /**
   A marker starting before a newline at j - 1 ends before it, so cutting the
   text at j does not change which marker starts at i.
   */
  lemma MarkerEndBeforeLine(s: string, j: nat, i: nat)
    requires i < j <= |s| && s[j - 1] == '\n'
    ensures MarkerEnd(s, i) == MarkerEnd(s[..j], i)
    ensures MarkerEnd(s, i).Some? ==> MarkerEnd(s, i).value < j
  {
    var u := s[..j];
    match MarkerEnd(s, i)
    case Some(e) =>
      assert forall m :: i <= m < e ==> s[m] != '\n';
      assert e < j;
      assert IsMarkerSpan(u, i, e) by {
        forall m | i + 2 <= m < e - 1 ensures IsKeyChar(u[m]) {
          assert u[m] == s[m];
        }
      }
    case None =>
  }

  /** Concatenation regroups freely. */
  lemma Regrouped<T>(a: seq<T>, b: seq<T>, c: seq<T>)
    ensures a + (b + c) == (a + b) + c
  {
  }

  /** Replacing the second part of a concatenation by an equal sequence. */
  lemma Substituted<T>(x: seq<T>, a: seq<T>, y: seq<T>, b: seq<T>)
    requires x == a + y && y == b
    ensures x == a + b
  {
  }

  /** Moving the head of the rest of a sequence onto the part already taken. */
  lemma Shifted<T>(all: seq<T>, done: seq<T>, rest: seq<T>, head: seq<T>, tail: seq<T>)
    requires done + rest == all && rest == head + tail
    ensures (done + head) + tail == all
  {
  }

  /** A common head taken off both a sequence and its first part. */
  lemma Consed<T>(whole: seq<T>, head: seq<T>, rest: seq<T>, part: seq<T>, tail: seq<T>, front: seq<T>)
    requires whole == head + rest && rest == part + tail && front == head + part
    ensures whole == front + tail
  {
  }

  /** Three splittings chained into one. */
  lemma Chained<T>(all: seq<T>, a: seq<T>, rest: seq<T>, b: seq<T>, tail: seq<T>, c: seq<T>, d: seq<T>)
    requires all == a + rest && rest == b + tail && tail == c + d
    ensures all == a + b + c + d
  {
  }

  /** One marker step of PiecesSplitFrom. */
  lemma SplitAtMarker(s: string, j: nat, i: nat, e: nat)
    requires i < j <= |s| && s[j - 1] == '\n' && MarkerEnd(s, i) == Some(e)
    requires e <= j && PiecesFrom(s, e) == PiecesFrom(s[..j], e) + PiecesFrom(s, j)
    ensures PiecesFrom(s, i) == PiecesFrom(s[..j], i) + PiecesFrom(s, j)
  {
    var u := s[..j];
    MarkerEndBeforeLine(s, j, i);
    PiecesAtMarker(s, i, e);
    PiecesAtMarker(u, i, e);
    var head := [Ref(s[i + 1..e - 1])];
    assert u[i + 1..e - 1] == s[i + 1..e - 1];
    assert [Ref(u[i + 1..e - 1])] == head;
    Consed(PiecesFrom(s, i), head, PiecesFrom(s, e), PiecesFrom(u, e), PiecesFrom(s, j), PiecesFrom(u, i));
  }

  /** One plain step of PiecesSplitFrom. */
  lemma SplitAtPlain(s: string, j: nat, i: nat)
    requires i < j <= |s| && s[j - 1] == '\n' && MarkerEnd(s, i) == None
    requires PiecesFrom(s, i + 1) == PiecesFrom(s[..j], i + 1) + PiecesFrom(s, j)
    ensures PiecesFrom(s, i) == PiecesFrom(s[..j], i) + PiecesFrom(s, j)
  {
    var u := s[..j];
    MarkerEndBeforeLine(s, j, i);
    PiecesAtPlain(s, i);
    PiecesAtPlain(u, i);
    assert u[i] == s[i];
    Regrouped([Plain(s[i])], PiecesFrom(u, i + 1), PiecesFrom(s, j));
  }

  /**
   The position n where reading goes on after the piece at i, with the step
   of PiecesSplitFrom from n back to i.
   */
  lemma SplitStep(s: string, j: nat, i: nat) returns (n: nat)
    requires i < j <= |s| && s[j - 1] == '\n'
    ensures i < n <= j
    ensures PiecesFrom(s, n) == PiecesFrom(s[..j], n) + PiecesFrom(s, j) ==>
              PiecesFrom(s, i) == PiecesFrom(s[..j], i) + PiecesFrom(s, j)
  {
    MarkerEndBeforeLine(s, j, i);
    match MarkerEnd(s, i)
    case Some(e) =>
      n := e;
      if PiecesFrom(s, e) == PiecesFrom(s[..j], e) + PiecesFrom(s, j) {
        SplitAtMarker(s, j, i, e);
      }
    case None =>
      n := i + 1;
      if PiecesFrom(s, i + 1) == PiecesFrom(s[..j], i + 1) + PiecesFrom(s, j) {
        SplitAtPlain(s, j, i);
      }
  }

  /** No marker spans a newline, so the reading of a text splits at every line start. */
  lemma {:induction false} PiecesSplitFrom(s: string, j: nat, i: nat)
    requires i <= j <= |s| && 0 < j && s[j - 1] == '\n'
    ensures PiecesFrom(s, i) == PiecesFrom(s[..j], i) + PiecesFrom(s, j)
    decreases j - i
  {
    if i == j {
      assert PiecesFrom(s[..j], i) == [];
    } else {
      var n := SplitStep(s, j, i);
      PiecesSplitFrom(s, j, n);
    }
  }

  /** The reading of a text is the reading of its lines before j followed by the reading from j on. */
  lemma PiecesSplitAtLine(s: string, j: nat)
    requires 0 < j <= |s| && s[j - 1] == '\n'
    ensures Pieces(s) == Pieces(s[..j]) + PiecesFrom(s, j)
  {
    PiecesSplitFrom(s, j, 0);
  }

  /** Reading s from j is reading its suffix from j on its own. */
  lemma PiecesSuffix(s: string, j: nat)
    requires j <= |s|
    ensures PiecesFrom(s, j) == Pieces(s[j..])
  {
    assert s == s[..j] + s[j..];
    PiecesFromShift(s, s[..j], s[j..], j, 0);
  }

  /** Cut just after a newline, a text reads as its two parts, each read on its own. */
  lemma PiecesSplitAtNewline(s: string, j: nat)
    requires 0 < j <= |s| && s[j - 1] == '\n'
    ensures Pieces(s) == Pieces(s[..j]) + Pieces(s[j..])
  {
    PiecesSplitAtLine(s, j);
    PiecesSuffix(s, j);
  }

  /** The text from a marker on, read on its own, starts with that whole marker. */
  lemma MarkerReadFirst(s: string, i: nat, e: nat, k: string)
    requires i <= |s| && MarkerEnd(s, i) == Some(e) && s[i + 1..e - 1] == k
    ensures i + 4 <= e <= |s| && Pieces(s[i..]) == [Ref(k)] + Pieces(s[e..])
  {
    PiecesAtMarker(s, i, e);
    PiecesSuffix(s, i);
    PiecesSuffix(s, e);
  }

  /** The characters of w, each read as a plain piece. */
  function Plains(w: string): seq<Piece> {
    if w == [] then [] else [Plain(w[0])] + Plains(w[1..])
  }

  /** No marker starts at an indentation character. */
  lemma IndentStartsNoMarker(s: string, i: nat)
    requires i < |s| && IsIndentChar(s[i])
    ensures MarkerEnd(s, i) == None
  {
  }

  /** Plains reads the first character of a non-empty text and then the rest. */
  lemma PlainsAt(w: string, m: nat)
    requires m < |w|
    ensures Plains(w[m..]) == [Plain(w[m])] + Plains(w[m + 1..])
  {
    assert w[m..][1..] == w[m + 1..];
  }

  /** Indentation starts no marker, so it is read one plain character at a time. */
  lemma {:induction false} PiecesFromIndent(s: string, p: nat, w: string, f: nat, m: nat)
    requires IsIndent(w) && f == p + |w| && f <= |s| && s[p..f] == w && m <= |w|
    ensures PiecesFrom(s, p + m) == Plains(w[m..]) + PiecesFrom(s, f)
    decreases |w| - m
  {
    if m < |w| {
      var i := p + m;
      assert s[i] == w[m];
      IndentStartsNoMarker(s, i);
      PiecesAtPlain(s, i);
      PiecesFromIndent(s, p, w, f, m + 1);
      assert p + (m + 1) == i + 1;
      PlainsAt(w, m);
      Consed(PiecesFrom(s, i), [Plain(w[m])], PiecesFrom(s, i + 1), Plains(w[m + 1..]), PiecesFrom(s, f), Plains(w[m..]));
    } else {
      assert w[m..] == [];
    }
  }

  /** The indentation w at p, ending at i, is read as its plain characters. */
  lemma IndentPieces(s: string, p: nat, w: string, i: nat)
    requires IsIndent(w) && i == p + |w| && i <= |s| && s[p..i] == w
    ensures PiecesFrom(s, p) == Plains(w) + PiecesFrom(s, i)
  {
    PiecesFromIndent(s, p, w, i, 0);
    assert w[0..] == w;
  }

  /** Whatever precedes the pieces read from a marker start, the marker comes first among them. */
  lemma MarkerAfter(s: string, i: nat, e: nat, k: string, before: seq<Piece>, all: seq<Piece>)
    requires i <= |s| && MarkerEnd(s, i) == Some(e) && s[i + 1..e - 1] == k
    requires all == before + PiecesFrom(s, i)
    ensures all == before + ([Ref(k)] + PiecesFrom(s, e))
  {
    PiecesAtMarker(s, i, e);
  }

  /**
   A line of s that starts at p with the indentation w and then a marker
   from i to e with key k: the reading of s takes that marker whole, right
   after the indentation, whatever comes before the line.
   */
  lemma LineMarkerPiecesAt(s: string, p: nat, w: string, i: nat, e: nat, k: string)
    requires 0 < p && i == p + |w| && i <= |s| && s[p - 1] == '\n'
    requires IsIndent(w) && s[p..i] == w && MarkerEnd(s, i) == Some(e) && s[i + 1..e - 1] == k
    ensures Pieces(s) == Pieces(s[..p]) + Plains(w) + [Ref(k)] + PiecesFrom(s, e)
  {
    PiecesSplitAtLine(s, p);
    IndentPieces(s, p, w, i);
    Shifted(Pieces(s), Pieces(s[..p]), PiecesFrom(s, p), Plains(w), PiecesFrom(s, i));
    MarkerAfter(s, i, e, k, Pieces(s[..p]) + Plains(w), Pieces(s));
    Regrouped(Pieces(s[..p]) + Plains(w), [Ref(k)], PiecesFrom(s, e));
  }

  /** LineMarkerPiecesAt, with the marker start and key written out. */
  lemma LineMarkerPieces(s: string, p: nat, w: string, e: nat)
    requires 0 < p && p + |w| <= |s| && s[p - 1] == '\n'
    requires IsIndent(w) && s[p..p + |w|] == w && MarkerEnd(s, p + |w|) == Some(e)
    ensures Pieces(s) == Pieces(s[..p]) + Plains(w) + [Ref(s[p + |w| + 1..e - 1])] + PiecesFrom(s, e)
  {
    assert IsMarkerSpan(s, p + |w|, e);
    LineMarkerPiecesAt(s, p, w, p + |w|, e, s[p + |w| + 1..e - 1]);
  }

  /**
   A line of b that starts with the whitespace run v and a marker, when b
   opens with a newline, is a line of a + b too: it starts just after a
   newline, at its offset shifted by |a|, and holds the same marker.
   */
  lemma LineInSuffix(s: string, a: string, b: string, q: nat, v: string, e: nat)
    requires s == a + b && 0 < |b| && b[0] == '\n'
    requires AtLineStart(b, q) && q + |v| <= |b| && IsIndent(v) && b[q..q + |v|] == v
    requires IsMarkerSpan(b, q + |v|, e)
    ensures 0 < q
    ensures var p := |a| + q;
      p + |v| <= |s| && s[p - 1] == '\n' && s[p..p + |v|] == v
      && MarkerEnd(s, p + |v|) == Some(|a| + e)
      && s[p + |v| + 1..|a| + e - 1] == b[q + |v| + 1..e - 1]
  {
    LineStartInSuffix(s, a, b, q, v, e);
    SliceInSuffix(a, b, q, q + |v|);
    MarkerInSuffix(s, a, b, q + |v|, e);
  }

  /** Such a line does not start the text b, so in a + b it starts just after a newline. */
  lemma LineStartInSuffix(s: string, a: string, b: string, q: nat, v: string, e: nat)
    requires s == a + b && 0 < |b| && b[0] == '\n'
    requires AtLineStart(b, q) && q + |v| <= |b| && IsIndent(v) && b[q..q + |v|] == v
    requires IsMarkerSpan(b, q + |v|, e)
    ensures 0 < q && s[|a| + q - 1] == '\n'
  {
    assert b[q] != '\n' by {
      if |v| > 0 {
        assert b[q] == v[0];
      }
    }
    assert s[|a| + q - 1] == b[q - 1];
  }

  /** A marker of b is a marker of a + b, shifted by |a|, with the same key. */
  lemma MarkerInSuffix(s: string, a: string, b: string, i: nat, e: nat)
    requires s == a + b && IsMarkerSpan(b, i, e)
    ensures MarkerEnd(s, |a| + i) == Some(|a| + e)
    ensures s[|a| + i + 1..|a| + e - 1] == b[i + 1..e - 1]
  {
    assert MarkerEnd(b, i) == Some(e);
    MarkerEndShift(a, b, i);
    SliceInSuffix(a, b, i + 1, e - 1);
  }

  /** LineInSuffix for a line whose whitespace run, whatever it is, is followed by a marker. */
  lemma RunLineInSuffix(s: string, a: string, b: string, q: nat, v: string, e: nat)
    requires s == a + b && 0 < |b| && b[0] == '\n'
    requires AtLineStart(b, q) && q <= |b| && v == b[q..WhitespaceEnd(b, q)] && MarkerEnd(b, q + |v|) == Some(e)
    ensures IsIndent(v)
    ensures var p := |a| + q;
      0 < p && p + |v| <= |s| && s[p - 1] == '\n' && s[p..p + |v|] == v
      && MarkerEnd(s, p + |v|) == Some(|a| + e) && s[p + |v| + 1..|a| + e - 1] == b[q + |v| + 1..e - 1]
  {
    WhitespaceRunIsIndent(b, q);
    assert IsMarkerSpan(b, q + |v|, e);
    LineInSuffix(s, a, b, q, v, e);
  }
}
