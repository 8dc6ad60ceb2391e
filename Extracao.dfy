/**
 The record-extraction loop of extracao-v1.py: every `div.empresa` block of the
 Suape company map is turned into one company record (`Nome`, `Atividade`,
 `Polo`, `Coordenadas`), and a block whose title or map anchor cannot be found
 is reported and skipped.

 The live page is replaced by plain values: a Block holds what the browser
 lookups of one block would return.
 */
module Extracao {
  import opened PyStr

  datatype Option<T> = None | Some(value: T)

  /** The `a.empresa-mapa` anchor: `get_attribute` yields None for an absent
      attribute. */
  datatype MapAnchor = MapAnchor(dataLat: Option<string>, dataLong: Option<string>)

  /** One `div.empresa` block: the `.text` of its `.titulo-empresa h3` title
      (None when `find_element` raises), the `.text` of each of its `p`
      elements in document order, and its map anchor (None when
      `find_element` raises). */
  datatype Block = Block(title: Option<string>, paragraphs: seq<string>, anchor: Option<MapAnchor>)

  /** The `Coordenadas` entry: the attribute strings, unconverted. */
  datatype Coordenadas = Coordenadas(lat: Option<string>, lng: Option<string>)

  /** One entry of the `empresas` list. */
  datatype Empresa = Empresa(nome: string, atividade: Option<string>, polo: Option<string>,
                             coordenadas: Coordenadas)

  /** Substrings that classify a paragraph ... */
  const ActivityMarker := "Atividade:"
  const ClusterMarker := "Polo:"
  /** ... and the (longer) strings deleted from it to obtain the value. */
  const ActivityLabel := "Atividade: "
  const ClusterLabel := "Polo: "

  /** `text.replace(key, "").strip()` */
  function FieldValue(text: string, key: string): string
    requires |key| > 0
  {
    Strip(RemoveAll(text, key))
  }

  /** What the paragraph loop leaves in a field that starts as None and is
      overwritten by every paragraph containing `marker`: the value of the
      last such paragraph. */
  function LastField(ps: seq<string>, marker: string, key: string): Option<string>
    requires |key| > 0
  {
    if ps == [] then None
    else if Contains(ps[|ps| - 1], marker) then Some(FieldValue(ps[|ps| - 1], key))
    else LastField(ps[..|ps| - 1], marker, key)
  }

  /** The `try` body of a block runs to its end: both `find_element`
      lookups find their element. */
  predicate Succeeds(b: Block) {
    b.title.Some? && b.anchor.Some?
  }

  /** The record one block yields, or None when its `try` body raises. */
  function BlockRecord(b: Block): Option<Empresa> {
    if Succeeds(b) then
      Some(Empresa(Strip(b.title.value),
                   LastField(b.paragraphs, ActivityMarker, ActivityLabel),
                   LastField(b.paragraphs, ClusterMarker, ClusterLabel),
                   Coordenadas(b.anchor.value.dataLat, b.anchor.value.dataLong)))
    else
      None
  }

  /** The `empresas` list after the loop has visited the blocks `bs`. */
  function Records(bs: seq<Block>): seq<Empresa> {
    if bs == [] then []
    else
      Records(bs[..|bs| - 1])
      + match BlockRecord(bs[|bs| - 1]) case Some(e) => [e] case None => []
  }

  /** 0-based indices of the blocks that yield a record, in order. */
  function SucceededIndices(bs: seq<Block>): seq<nat> {
    if bs == [] then []
    else SucceededIndices(bs[..|bs| - 1]) + if Succeeds(bs[|bs| - 1]) then [|bs| - 1] else []
  }

  /** 1-based positions (as the error message numbers them) of the blocks
      that are skipped, in order. */
  function FailedPositions(bs: seq<Block>): seq<nat> {
    if bs == [] then []
    else FailedPositions(bs[..|bs| - 1]) + if !Succeeds(bs[|bs| - 1]) then [|bs|] else []
  }

  /** The block loop. `empresas` is the list the script dumps; `falhas` holds
      the position `i` of every block for which it prints an error. */
  method ExtractEmpresas(blocos: seq<Block>) returns (empresas: seq<Empresa>, falhas: seq<nat>)
    ensures empresas == Records(blocos)
    ensures falhas == FailedPositions(blocos)
    ensures |empresas| + |falhas| == |blocos|
  {
    empresas := [];
    falhas := [];
    for i := 0 to |blocos|
      invariant empresas == Records(blocos[..i])
      invariant falhas == FailedPositions(blocos[..i])
    {
      var bloco := blocos[i];
      assert blocos[..i + 1][..i] == blocos[..i];
      match bloco.title {
        case None =>
          falhas := falhas + [i + 1];
        case Some(titulo) =>
          var nome := Strip(titulo);
          var parags := bloco.paragraphs;
          var atividade: Option<string> := None;
          var polo: Option<string> := None;
          for j := 0 to |parags|
            invariant atividade == LastField(parags[..j], ActivityMarker, ActivityLabel)
            invariant polo == LastField(parags[..j], ClusterMarker, ClusterLabel)
          {
            assert parags[..j + 1][..j] == parags[..j];
            if Contains(parags[j], ActivityMarker) {
              atividade := Some(FieldValue(parags[j], ActivityLabel));
            }
            if Contains(parags[j], ClusterMarker) {
              polo := Some(FieldValue(parags[j], ClusterLabel));
            }
          }
          assert parags[..|parags|] == parags;
          match bloco.anchor {
            case None =>
              falhas := falhas + [i + 1];
            case Some(botaoMapa) =>
              var lat := botaoMapa.dataLat;
              var lng := botaoMapa.dataLong;
              empresas := empresas + [Empresa(nome, atividade, polo, Coordenadas(lat, lng))];
          }
      }
    }
    assert blocos[..|blocos|] == blocos;
    Accounting(blocos);
  }

  // ---------------------------------------------------------------------------
  // Paragraph classification
  // ---------------------------------------------------------------------------

  /** A field stays None exactly when no paragraph contains its marker. */
  lemma {:induction false} LastFieldNoneIff(ps: seq<string>, marker: string, key: string)
    requires |key| > 0
    ensures LastField(ps, marker, key).None? <==> forall k | 0 <= k < |ps| :: !Contains(ps[k], marker)
  {
    if ps != [] {
      var init := ps[..|ps| - 1];
      LastFieldNoneIff(init, marker, key);
      assert forall k | 0 <= k < |init| :: init[k] == ps[k];
    }
  }

  /** When several paragraphs contain the marker, the last of them decides. */
  lemma {:induction false} LastFieldPicksLast(ps: seq<string>, marker: string, key: string, k: nat)
    requires |key| > 0 && k < |ps| && Contains(ps[k], marker)
    requires forall j | k < j < |ps| :: !Contains(ps[j], marker)
    ensures LastField(ps, marker, key) == Some(FieldValue(ps[k], key))
  {
    if k < |ps| - 1 {
      var init := ps[..|ps| - 1];
      assert forall j | 0 <= j < |init| :: init[j] == ps[j];
      LastFieldPicksLast(init, marker, key, k);
    }
  }

  /** A paragraph `key + v` whose rest does not repeat the key yields `v`
      stripped. */
  lemma FieldValueOfLabelled(key: string, v: string)
    requires |key| > 0 && !Contains(v, key)
    ensures FieldValue(key + v, key) == Strip(v)
  {
    RemoveAllLeading(key, v);
  }

  /** Containment, not a prefix test, and a deleted key that ends in a space: a paragraph
      "Atividade:X" is classified as an activity and its value keeps the
      marker. */
  lemma MarkerWithoutSpaceKept(ps: seq<string>)
    requires ps == ["Atividade:X"]
    ensures LastField(ps, ActivityMarker, ActivityLabel) == Some("Atividade:X")
  {
    var p := ps[0];
    assert OccursAt(p, ActivityMarker, 0);
    RemoveAllSkip(p, ActivityLabel, 10);
    assert RemoveAll(p[1..], ActivityLabel) == p[1..];
    assert [p[0]] + p[1..] == p;
    StripKeepsTrimmed(p);
  }

  /** For every paragraph: containing the marker is enough to be classified,
      and when the longer key is absent nothing is deleted, so the value is
      the whole paragraph stripped. */
  lemma MarkerWithoutKeyKept(p: string)
    requires Contains(p, ActivityMarker) && !Contains(p, ActivityLabel)
    ensures LastField([p], ActivityMarker, ActivityLabel) == Some(Strip(p))
  {
    RemoveAllAbsent(p, ActivityLabel);
    assert [p][..0] == [];
  }

  /** Deletion is one pass, so a value can still hold the key: in the
      paragraph `key[..2] + key + key[2..] + v`, where no occurrence starts at
      either of the first two characters, deleting the one occurrence
      stitches `key + v` together, and that is what gets stripped. */
  lemma StitchedKeySurvives(key: string, v: string)
    requires |key| >= 3 && key[1] != key[0] && key[2] != key[0]
    requires !Contains(key[2..] + v, key)
    ensures FieldValue(key[..2] + key + key[2..] + v, key) == Strip(key + v)
    ensures Contains(key + v, key)
  {
    var a, b := key[..2], key[2..] + v;
    var p := a + key + b;
    assert key[..2] + key + key[2..] + v == p;
    assert !OccursAt(p, key, 0) && !OccursAt(p, key, 1) by {
      assert p[2] == key[0] && p[1] == key[1] && p[0] == key[0];
      assert p[1..1 + |key|][0] == key[1];
      assert p[0..|key|][2] == p[2] != key[2];
    }
    RemoveAllFirst(a, key, b);
    RemoveAllAbsent(b, key);
    assert a + b == key + v;
    ContainsAtStart(key, v);
  }

  /** The instance for the activity key: the paragraph
      "AtAtividade: ividade: X" yields `"Atividade: X"`, which still holds the
      key. */
  lemma ValueKeepsLabel(p: string)
    requires p == "AtAtividade: ividade: X"
    ensures FieldValue(p, ActivityLabel) == "Atividade: X"
    ensures Contains(FieldValue(p, ActivityLabel), ActivityLabel)
  {
    var key, v := ActivityLabel, "X";
    assert p == key[..2] + key + key[2..] + v;
    assert !Contains(key[2..] + v, key) by {
      assert |key[2..] + v| < |key|;
    }
    StitchedKeySurvives(key, v);
    var t := key + v;
    assert !IsSpace(t[0]) && !IsSpace(t[|t| - 1]) by {
      assert t[0] == 'A' && t[|t| - 1] == 'X';
    }
    StripKeepsTrimmed(t);
  }

  // ---------------------------------------------------------------------------
  // One block
  // ---------------------------------------------------------------------------

  /** A block whose title or anchor lookup fails yields no record. */
  lemma MissingLookupSkipsBlock(b: Block)
    ensures BlockRecord(b).None? <==> b.title.None? || b.anchor.None?
  {
  }

  /** The fields of the record of a block whose lookups succeed: the name is
      the title with surrounding whitespace cut (and so is already stripped),
      the coordinates are the attribute strings unchanged, and each
      optional field is None exactly when no paragraph contains its marker. */
  lemma RecordFields(b: Block)
    requires b.title.Some? && b.anchor.Some?
    ensures BlockRecord(b).Some?
    ensures var e := BlockRecord(b).value;
      && IsStripOf(b.title.value, e.nome, LeadingSpace(b.title.value))
      && Strip(e.nome) == e.nome
      && e.coordenadas.lat == b.anchor.value.dataLat
      && e.coordenadas.lng == b.anchor.value.dataLong
      && (e.atividade.None? <==> forall k | 0 <= k < |b.paragraphs| :: !Contains(b.paragraphs[k], ActivityMarker))
      && (e.polo.None? <==> forall k | 0 <= k < |b.paragraphs| :: !Contains(b.paragraphs[k], ClusterMarker))
  {
    StripIdempotent(b.title.value);
    LastFieldNoneIff(b.paragraphs, ActivityMarker, ActivityLabel);
    LastFieldNoneIff(b.paragraphs, ClusterMarker, ClusterLabel);
  }

  /** The two markers are tested independently: a last paragraph containing
      both sets both fields from it. */
  lemma BothMarkersOneParagraph(b: Block, k: nat)
    requires b.title.Some? && b.anchor.Some? && k < |b.paragraphs|
    requires Contains(b.paragraphs[k], ActivityMarker) && Contains(b.paragraphs[k], ClusterMarker)
    requires forall j | k < j < |b.paragraphs| ::
      !Contains(b.paragraphs[j], ActivityMarker) && !Contains(b.paragraphs[j], ClusterMarker)
    ensures BlockRecord(b).Some?
    ensures BlockRecord(b).value.atividade == Some(FieldValue(b.paragraphs[k], ActivityLabel))
    ensures BlockRecord(b).value.polo == Some(FieldValue(b.paragraphs[k], ClusterLabel))
  {
    LastFieldPicksLast(b.paragraphs, ActivityMarker, ActivityLabel, k);
    LastFieldPicksLast(b.paragraphs, ClusterMarker, ClusterLabel, k);
  }

  /** A block with an activity paragraph and then a cluster paragraph, each
      starting with its key, where neither value repeats its own key and the
      cluster paragraph does not contain "Atividade:", yields the stripped
      name and values and the anchor's attributes. */
  lemma LabelledBlock(b: Block, nome: string, atv: string, polo: string,
                      lat: Option<string>, lng: Option<string>)
    requires b == Block(Some(nome), [ActivityLabel + atv, ClusterLabel + polo], Some(MapAnchor(lat, lng)))
    requires !Contains(atv, ActivityLabel) && !Contains(polo, ClusterLabel)
    requires !Contains(ClusterLabel + polo, ActivityMarker)
    ensures BlockRecord(b) == Some(Empresa(Strip(nome), Some(Strip(atv)), Some(Strip(polo)), Coordenadas(lat, lng)))
  {
    var ps := b.paragraphs;
    assert ps[0] == ActivityMarker + (" " + atv);
    ContainsAtStart(ActivityMarker, " " + atv);
    assert ps[1] == ClusterMarker + (" " + polo);
    ContainsAtStart(ClusterMarker, " " + polo);
    FieldValueOfLabelled(ActivityLabel, atv);
    FieldValueOfLabelled(ClusterLabel, polo);
    LastFieldPicksLast(ps, ActivityMarker, ActivityLabel, 0);
    LastFieldPicksLast(ps, ClusterMarker, ClusterLabel, 1);
  }

  // ---------------------------------------------------------------------------
  // The block sequence
  // ---------------------------------------------------------------------------

  /** Blocks are handled independently: the records of a concatenation are
      the records of each part, so later blocks never disturb earlier
      records. */
  lemma {:induction false} RecordsAppend(bs: seq<Block>, cs: seq<Block>)
    ensures Records(bs + cs) == Records(bs) + Records(cs)
    decreases |cs|
  {
    if cs == [] {
      assert bs + cs == bs;
    } else {
      var init := cs[..|cs| - 1];
      assert (bs + cs)[..|bs + cs| - 1] == bs + init;
      RecordsAppend(bs, init);
    }
  }

  lemma RecordsOfOne(b: Block)
    ensures Records([b]) == if Succeeds(b) then [BlockRecord(b).value] else []
  {
    assert [b][..0] == [];
  }

  /** A skipped block contributes nothing, and processing goes on with the
      blocks after it. */
  lemma SkippedBlockContributesNothing(bs: seq<Block>, b: Block, cs: seq<Block>)
    requires b.title.None? || b.anchor.None?
    ensures Records(bs + [b] + cs) == Records(bs) + Records(cs)
  {
    RecordsOfOne(b);
    RecordsAppend(bs + [b], cs);
    RecordsAppend(bs, [b]);
  }

  /** Every block either yields a record or is reported, never both. */
  lemma {:induction false} Accounting(bs: seq<Block>)
    ensures |Records(bs)| + |FailedPositions(bs)| == |bs|
  {
    if bs != [] {
      Accounting(bs[..|bs| - 1]);
    }
  }

  /** The reported positions are exactly those of the blocks whose title or
      anchor is missing, in increasing order and so each once. */
  lemma {:induction false} FailedPositionsExact(bs: seq<Block>)
    ensures forall p :: p in FailedPositions(bs) <==> 1 <= p <= |bs| && (bs[p - 1].title.None? || bs[p - 1].anchor.None?)
    ensures forall k, l | 0 <= k < l < |FailedPositions(bs)| :: FailedPositions(bs)[k] < FailedPositions(bs)[l]
  {
    if bs != [] {
      var init := bs[..|bs| - 1];
      FailedPositionsExact(init);
      assert forall i | 0 <= i < |init| :: init[i] == bs[i];
      var f0 := FailedPositions(init);
      assert forall k | 0 <= k < |f0| :: f0[k] in f0 && f0[k] <= |init|;
    }
  }

  /** The indices of the succeeding blocks, increasing, and no others. */
  lemma {:induction false} SucceededIndicesExact(bs: seq<Block>)
    ensures forall k | 0 <= k < |SucceededIndices(bs)| :: SucceededIndices(bs)[k] < |bs|
    ensures forall k, l | 0 <= k < l < |SucceededIndices(bs)| :: SucceededIndices(bs)[k] < SucceededIndices(bs)[l]
    ensures forall i | 0 <= i < |bs| :: i in SucceededIndices(bs) <==> bs[i].title.Some? && bs[i].anchor.Some?
  {
    if bs != [] {
      var init := bs[..|bs| - 1];
      SucceededIndicesExact(init);
      assert forall i | 0 <= i < |init| :: init[i] == bs[i];
    }
  }

  /** The records are the results of the succeeding blocks, one each, in
      block order. */
  lemma {:induction false} RecordsInBlockOrder(bs: seq<Block>)
    ensures |Records(bs)| == |SucceededIndices(bs)|
    ensures forall k | 0 <= k < |SucceededIndices(bs)| ::
      SucceededIndices(bs)[k] < |bs| && BlockRecord(bs[SucceededIndices(bs)[k]]) == Some(Records(bs)[k])
  {
    if bs != [] {
      var init := bs[..|bs| - 1];
      RecordsInBlockOrder(init);
      var idx, idx0 := SucceededIndices(bs), SucceededIndices(init);
      var r, r0 := Records(bs), Records(init);
      assert forall i | 0 <= i < |init| :: init[i] == bs[i];
      if BlockRecord(bs[|bs| - 1]).Some? {
        assert idx == idx0 + [|bs| - 1] && r == r0 + [BlockRecord(bs[|bs| - 1]).value];
      } else {
        assert idx == idx0 && r == r0;
      }
    }
  }
}
