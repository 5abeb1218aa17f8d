/**
 Numbering the bibliography (miniref.rb:43-44): every line of the bibliography
 that begins with exactly the captured indentation and then a marker is a
 definition; each one, in order, takes the next value of a counter starting
 at 1, stored in the reference table under its key. A key defined twice keeps
 the later number; the counter advances either way.
 */
module Numbering {
  import opened Markers
  import opened Decimal

  /** At q a line of bib begins with `indent` and then the marker bib[q + |indent|..e]. */
  ghost predicate IsDefinition(bib: string, indent: string, q: nat, e: nat) {
    AtLineStart(bib, q) && q + |indent| <= |bib| && bib[q..q + |indent|] == indent
    && IsMarkerSpan(bib, q + |indent|, e)
  }

  /** Where the definition that begins at q ends, if one does: a line start, `indent`, a marker. */
  function DefinitionEnd(bib: string, indent: string, q: nat): (r: Option<nat>)
    requires q <= |bib|
    ensures r.Some? ==> IsDefinition(bib, indent, q, r.value)
    ensures forall e: nat :: IsDefinition(bib, indent, q, e) ==> r == Some(e)
  {
    if AtLineStart(bib, q) && q + |indent| <= |bib| && bib[q..q + |indent|] == indent then
      MarkerEnd(bib, q + |indent|)
    else
      None
  }

  /** The key of the definition that ends at e. */
  function DefinedKey(bib: string, indent: string, q: nat, e: nat): string
    requires q <= |bib| && DefinitionEnd(bib, indent, q) == Some(e)
  {
    bib[q + |indent| + 1..e - 1]
  }

  /**
   The keys of the definitions at positions q, q + 1, …, in order: every
   position is a candidate, so this is the list of all line-start matches.
   */
  function DefinitionsFrom(bib: string, indent: string, q: nat): seq<string>
    requires q <= |bib|
    decreases |bib| - q
  {
    if q == |bib| then []
    else
      match DefinitionEnd(bib, indent, q)
      case Some(e) => [DefinedKey(bib, indent, q, e)] + DefinitionsFrom(bib, indent, q + 1)
      case None => DefinitionsFrom(bib, indent, q + 1)
  }

  function Definitions(bib: string, indent: string): seq<string> {
    DefinitionsFrom(bib, indent, 0)
  }

  /**
   The reference table after numbering `keys` in turn: the i-th assignment
   (from 1) stores the decimal string of i, replacing any earlier entry.
   */
  function TableOf(keys: seq<string>): map<string, string> {
    if keys == [] then map[]
    else TableOf(keys[..|keys| - 1])[keys[|keys| - 1] := DecimalString(|keys|)]
  }

  /** The position of the last occurrence of k in keys. */
  function LastIndex(keys: seq<string>, k: string): (t: nat)
    requires k in keys
    ensures t < |keys| && keys[t] == k
    ensures forall j :: t < j < |keys| ==> keys[j] != k
  {
    if keys[|keys| - 1] == k then |keys| - 1 else LastIndex(keys[..|keys| - 1], k)
  }

  /** No line begins strictly inside a definition, so the scan may resume at its end. */
  lemma {:induction false} SkipDefinition(bib: string, indent: string, q: nat, e: nat, p: nat)
    requires IsIndent(indent) && q <= |bib| && DefinitionEnd(bib, indent, q) == Some(e)
    requires q < p <= e
    ensures DefinitionsFrom(bib, indent, p) == DefinitionsFrom(bib, indent, e)
    decreases e - p
  {
    if p < e {
      SkipDefinition(bib, indent, q, e, p + 1);
      assert bib[p - 1] != '\n' by {
        if p - 1 < q + |indent| {
          assert bib[p - 1] == bib[q..q + |indent|][p - 1 - q];
        }
      }
      assert DefinitionEnd(bib, indent, p) == None;
    }
  }

  /** Numbering one more key: it takes the next counter value, over any earlier entry. */
  lemma TableSnoc(keys: seq<string>, k: string)
    ensures TableOf(keys + [k]) == TableOf(keys)[k := DecimalString(|keys| + 1)]
  {
    assert (keys + [k])[..|keys|] == keys;
  }

  /** One step of the scan: a definition at q is numbered and the scan resumes at its end e. */
  lemma DefinitionStep(bib: string, indent: string, q: nat, e: nat, seen: seq<string>)
    requires IsIndent(indent) && q < |bib| && DefinitionEnd(bib, indent, q) == Some(e)
    requires seen + DefinitionsFrom(bib, indent, q) == Definitions(bib, indent)
    ensures q + |indent| + 1 <= e - 1 && e <= |bib|
    ensures (seen + [bib[q + |indent| + 1..e - 1]]) + DefinitionsFrom(bib, indent, e) == Definitions(bib, indent)
  {
    var key := bib[q + |indent| + 1..e - 1];
    SkipDefinition(bib, indent, q, e, q + 1);
    assert DefinitionsFrom(bib, indent, q) == [key] + DefinitionsFrom(bib, indent, e);
    assert (seen + [key]) + DefinitionsFrom(bib, indent, e) == seen + ([key] + DefinitionsFrom(bib, indent, e));
  }

  /**
   The numbering scan (miniref.rb:43-44): each match advances the counter and
   stores its decimal string under the key. The scan resumes after each
   match, and finds the same definitions as looking at every line start.
   */
  method NumberDefinitions(bib: string, indent: string) returns (refs: map<string, string>, counter: nat)
    requires IsIndent(indent)
    ensures counter == |Definitions(bib, indent)|
    ensures refs == TableOf(Definitions(bib, indent))
  {
    refs, counter := map[], 0;
    ghost var seen: seq<string> := [];
    var q := 0;
    while q < |bib|
      invariant q <= |bib|
      invariant seen + DefinitionsFrom(bib, indent, q) == Definitions(bib, indent)
      invariant counter == |seen| && refs == TableOf(seen)
    {
      match DefinitionEnd(bib, indent, q)
      case Some(e) =>
        DefinitionStep(bib, indent, q, e, seen);
        var key := bib[q + |indent| + 1..e - 1];
        TableSnoc(seen, key);
        counter := counter + 1;
        refs := refs[key := DecimalString(counter)];
        seen := seen + [key];
        q := e;
      case None =>
        q := q + 1;
    }
    assert DefinitionsFrom(bib, indent, q) == [];
    assert seen == Definitions(bib, indent);
  }

  /** The table holds exactly the keys that were numbered. */
  lemma {:induction false} TableKeys(keys: seq<string>)
    ensures forall k :: k in TableOf(keys) <==> k in keys
  {
    if keys != [] {
      var init := keys[..|keys| - 1];
      TableKeys(init);
      assert keys == init + [keys[|keys| - 1]];
    }
  }

  /** Later definition wins: a key's label is the number of its last definition. */
  lemma {:induction false} TableLastWins(keys: seq<string>, k: string)
    requires k in keys
    ensures k in TableOf(keys) && TableOf(keys)[k] == DecimalString(LastIndex(keys, k) + 1)
  {
    var last := keys[|keys| - 1];
    if last != k {
      var init := keys[..|keys| - 1];
      assert keys == init + [last];
      TableLastWins(init, k);
    }
  }

  /** With no key repeated, the i-th definition (from 0) is labelled i + 1. */
  lemma TableDistinct(keys: seq<string>, i: nat)
    requires forall a, b :: 0 <= a < b < |keys| ==> keys[a] != keys[b]
    requires i < |keys|
    ensures keys[i] in TableOf(keys) && TableOf(keys)[keys[i]] == DecimalString(i + 1)
  {
    TableLastWins(keys, keys[i]);
  }

  /** A repeated definition leaves a gap: the number of its earlier occurrence is nobody's label. */
  lemma TableGap(keys: seq<string>, i: nat, j: nat)
    requires i < j < |keys| && keys[i] == keys[j]
    ensures DecimalString(i + 1) !in TableOf(keys).Values
  {
    if DecimalString(i + 1) in TableOf(keys).Values {
      var k :| k in TableOf(keys) && TableOf(keys)[k] == DecimalString(i + 1);
      TableKeys(keys);
      TableLastWins(keys, k);
      DecimalInjective(LastIndex(keys, k) + 1, i + 1);
      assert false;
    }
  }

  /** The line at p defines k: a definition starts there, ends at e, and holds the key k. */
  ghost predicate DefinesAt(bib: string, indent: string, p: nat, e: nat, k: string) {
    IsDefinition(bib, indent, p, e) && k == bib[p + |indent| + 1..e - 1]
  }

  /** The numbered keys are exactly the keys of line-start definitions at or after q. */
  lemma {:induction false} DefinitionsFromKeys(bib: string, indent: string, q: nat, k: string)
    requires q <= |bib|
    ensures k in DefinitionsFrom(bib, indent, q) <==> exists p: nat, e: nat :: q <= p && DefinesAt(bib, indent, p, e, k)
    decreases |bib| - q
  {
    if q < |bib| {
      DefinitionsFromKeys(bib, indent, q + 1, k);
      match DefinitionEnd(bib, indent, q)
      case Some(e) =>
        assert DefinitionsFrom(bib, indent, q) == [DefinedKey(bib, indent, q, e)] + DefinitionsFrom(bib, indent, q + 1);
        if k == DefinedKey(bib, indent, q, e) {
          assert DefinesAt(bib, indent, q, e, k);
        }
        if p: nat, e': nat :| q <= p && DefinesAt(bib, indent, p, e', k) {
          if p == q {
            assert e' == e;
          } else {
            assert q + 1 <= p;
          }
        }
      case None =>
        assert DefinitionsFrom(bib, indent, q) == DefinitionsFrom(bib, indent, q + 1);
        if p: nat, e': nat :| q <= p && DefinesAt(bib, indent, p, e', k) {
          assert p != q;
          assert q + 1 <= p;
        }
    } else {
      if p: nat, e: nat :| q <= p && DefinesAt(bib, indent, p, e, k) {
        assert false;
      }
    }
  }

  /**
   A key is numbered exactly when some line of the bibliography defines it
   at the given indentation.
   */
  lemma NumberedIffDefined(bib: string, indent: string, k: string)
    ensures k in TableOf(Definitions(bib, indent)) <==> exists p: nat, e: nat :: DefinesAt(bib, indent, p, e, k)
  {
    TableKeys(Definitions(bib, indent));
    DefinitionsFromKeys(bib, indent, 0, k);
  }

  /**
   Indent must match exactly: a line whose leading spaces and tabs differ from
   `indent` defines nothing, whatever marker follows them.
   */
  lemma IndentMustMatch(bib: string, indent: string, q: nat)
    requires IsIndent(indent) && AtLineStart(bib, q) && q <= |bib|
    requires bib[q..WhitespaceEnd(bib, q)] != indent
    ensures DefinitionEnd(bib, indent, q) == None
  {
  }

  /** Every label of the table is a string of digits. */
  lemma {:induction false} TableDigits(keys: seq<string>)
    ensures forall k :: k in TableOf(keys) ==> IsDigits(TableOf(keys)[k])
  {
    if keys != [] {
      TableDigits(keys[..|keys| - 1]);
    }
  }
}
