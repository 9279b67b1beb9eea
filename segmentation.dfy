/** Segmentation of the model's reply into an explanation, a table text and label blocks
    (`procesar_respuesta_gemini`). The reply is cut on three literal section markers and
    the label section on a literal separator; a missing or repeated marker never raises,
    it leaves the corresponding sections empty. */
module Segmentation {
  import opened Text

  const LabelsMarker: string := "ETIQUETAS:"
  const TableMarker: string := "TABLA DE REDISTRIBUCIÓN:"
  const ExplanationMarker: string := "EXPLICACIÓN:"
  const LabelSeparator: string := "---"

  /** The three values the function returns, in its order. */
  datatype Segments = Segments(explanation: string, table: string, labels: seq<string>)

  predicate NonEmpty(s: string) {
    s != ""
  }

  /** The stripped pieces of `text` between `---` separators, with the empty ones dropped. */
  function LabelBlocks(text: string): seq<string> {
    var pieces := Split(text, LabelSeparator);
    Filter(NonEmpty, seq(|pieces|, i requires 0 <= i < |pieces| => Strip(pieces[i])))
  }

  /** The text the table split works on: everything before the first labels marker. */
  function Body(response: string): string {
    Split(response, LabelsMarker)[0]
  }

  /** The explanation, the table text and the labels of a reply, cut at the two section
      markers; a section whose marker is missing or repeated stays empty. */
  function Segment(response: string): Segments {
    var parts := Split(response, LabelsMarker);
    var labels := if |parts| == 2 then LabelBlocks(parts[1]) else [];
    var body := Split(parts[0], TableMarker);
    if |body| == 2 then
      Segments(Strip(Replace(body[0], ExplanationMarker, "")), Strip(body[1]), labels)
    else
      Segments("", "", labels)
  }

  // ---------------------------------------------------------------- markers

  /** Both section markers end in a colon that occurs nowhere else in them,
      so neither can overlap itself. */
  lemma MarkersDoNotOverlap()
    ensures NoSelfOverlap(LabelsMarker) && NoSelfOverlap(TableMarker)
  {
    assert LabelsMarker[..|LabelsMarker| - 1] == "ETIQUETAS";
    assert TableMarker[..|TableMarker| - 1] == "TABLA DE REDISTRIBUCIÓN";
    UniqueLastNoSelfOverlap(LabelsMarker);
    UniqueLastNoSelfOverlap(TableMarker);
  }

  /** A marker splits text into two pieces exactly when it occurs exactly once. */
  lemma MarkerSplitsInTwoIffOnce(s: string, marker: string)
    requires marker == LabelsMarker || marker == TableMarker
    ensures |Split(s, marker)| == 2 <==> Occurrences(s, marker) == 1
  {
    MarkersDoNotOverlap();
    SplitCount(s, marker);
  }

  // ---------------------------------------------------------------- labels

  /** Each label block is non-empty, has no surrounding whitespace and holds no separator. */
  lemma {:induction false} LabelBlocksWellFormed(text: string)
    ensures forall l :: l in LabelBlocks(text) ==>
      l != "" && Strip(l) == l && !Contains(l, LabelSeparator)
    ensures !Contains(text, LabelsMarker) ==> forall l :: l in LabelBlocks(text) ==> !Contains(l, LabelsMarker)
  {
    var pieces := Split(text, LabelSeparator);
    var stripped := seq(|pieces|, i requires 0 <= i < |pieces| => Strip(pieces[i]));
    SplitPiecesFree(text, LabelSeparator);
    SplitJoin(text, LabelSeparator);
    forall i | 0 <= i < |pieces|
      ensures Strip(stripped[i]) == stripped[i] && !Contains(stripped[i], LabelSeparator)
      ensures !Contains(text, LabelsMarker) ==> !Contains(stripped[i], LabelsMarker)
    {
      StripIdempotent(pieces[i]);
      StripKeepsAbsence(pieces[i], LabelSeparator);
      if !Contains(text, LabelsMarker) {
        PieceKeepsAbsence(text, LabelSeparator, i, LabelsMarker);
        StripKeepsAbsence(pieces[i], LabelsMarker);
      }
    }
  }

  /** A piece of a split contains only what the whole text contains. */
  lemma PieceKeepsAbsence(s: string, sep: string, i: nat, t: string)
    requires sep != [] && i < |Split(s, sep)| && !Contains(s, t)
    ensures !Contains(Split(s, sep)[i], t)
  {
    var pieces := Split(s, sep);
    SplitJoin(s, sep);
    JoinKeepsAbsence(pieces, sep, i, t);
  }

  lemma {:induction false} JoinKeepsAbsence(parts: seq<string>, sep: string, i: nat, t: string)
    requires i < |parts| && !Contains(Join(parts, sep), t)
    ensures !Contains(parts[i], t)
    decreases |parts|
  {
    if |parts| > 1 {
      var rest := Join(parts[1..], sep);
      var s := parts[0] + sep + rest;
      ContainsInfix(s, 0, |parts[0]|, t);
      assert s[0..|parts[0]|] == parts[0];
      ContainsInfix(s, |parts[0]| + |sep|, |s|, t);
      assert s[|parts[0]| + |sep|..|s|] == rest;
      if i > 0 {
        JoinKeepsAbsence(parts[1..], sep, i - 1, t);
      }
    }
  }

  // ---------------------------------------------------------------- segment properties

  /** Every returned label is non-empty, already stripped, and contains neither the
      separator nor the labels marker. */
  lemma LabelsWellFormed(response: string)
    ensures forall l :: l in Segment(response).labels ==>
      l != "" && Strip(l) == l && !Contains(l, LabelSeparator) && !Contains(l, LabelsMarker)
  {
    var parts := Split(response, LabelsMarker);
    if |parts| == 2 {
      SplitPiecesFree(response, LabelsMarker);
      LabelBlocksWellFormed(parts[1]);
    }
  }

  /** Labels come only from a reply holding the labels marker exactly once, and are then
      the label blocks of the text after it. */
  lemma LabelsNeedSingleMarker(response: string)
    ensures Occurrences(response, LabelsMarker) != 1 ==> Segment(response).labels == []
    ensures Occurrences(response, LabelsMarker) == 1 ==>
      var parts := Split(response, LabelsMarker);
      |parts| == 2 && response == parts[0] + LabelsMarker + parts[1] &&
      !Contains(parts[1], LabelsMarker) && Segment(response).labels == LabelBlocks(parts[1])
  {
    MarkerSplitsInTwoIffOnce(response, LabelsMarker);
    var parts := Split(response, LabelsMarker);
    if |parts| == 2 {
      SplitTwo(response, LabelsMarker);
      SplitPiecesFree(response, LabelsMarker);
    }
  }

  /** The body is the text before the first labels marker, or the whole reply without one. */
  lemma BodyIsTextBeforeFirstMarker(response: string)
    ensures Body(response) <= response
    ensures !Contains(Body(response), LabelsMarker)
    ensures Body(response) == response <==> !Contains(response, LabelsMarker)
    ensures Body(response) != response ==> LabelsMarker <= response[|Body(response)|..]
  {
    SplitFirstPiece(response, LabelsMarker);
  }

  /** Explanation and table are both empty unless the body holds the table marker exactly once. */
  lemma SectionsNeedSingleTableMarker(response: string)
    ensures Occurrences(Body(response), TableMarker) != 1 ==>
      Segment(response).explanation == "" && Segment(response).table == ""
  {
    MarkerSplitsInTwoIffOnce(Body(response), TableMarker);
  }

  /** When produced, the explanation comes from the text before the table marker and the
      table text is the stripped text after it; the table text is stripped and holds
      neither section marker. */
  lemma TableSection(response: string)
    ensures var r := Segment(response);
      Strip(r.table) == r.table && !Contains(r.table, LabelsMarker) && !Contains(r.table, TableMarker)
    ensures var body := Split(Body(response), TableMarker);
      |body| == 2 ==>
        Body(response) == body[0] + TableMarker + body[1] &&
        !Contains(body[0], TableMarker) &&
        Segment(response).explanation == Strip(Replace(body[0], ExplanationMarker, "")) &&
        Segment(response).table == Strip(body[1])
  {
    var b := Body(response);
    var body := Split(b, TableMarker);
    SectionsOfBody(response);
    if |body| == 2 {
      SplitTwo(b, TableMarker);
      SplitPiecesFree(b, TableMarker);
      SplitFirstPiece(response, LabelsMarker);
      TableTextClean(b);
    } else {
      StripIdempotent("");
      EmptyContainsNothing(LabelsMarker);
      EmptyContainsNothing(TableMarker);
    }
  }

  /** Explanation and table depend only on how the body splits at the table marker. */
  lemma SectionsOfBody(response: string)
    ensures var body := Split(Body(response), TableMarker);
      Segment(response).explanation ==
        (if |body| == 2 then Strip(Replace(body[0], ExplanationMarker, "")) else "") &&
      Segment(response).table == (if |body| == 2 then Strip(body[1]) else "")
  {
  }

  /** The stripped text after a single table marker in a body without the labels marker
      holds neither marker. */
  lemma TableTextClean(b: string)
    requires !Contains(b, LabelsMarker) && |Split(b, TableMarker)| == 2
    ensures var t := Strip(Split(b, TableMarker)[1]);
      Strip(t) == t && !Contains(t, LabelsMarker) && !Contains(t, TableMarker)
  {
    var after := Split(b, TableMarker)[1];
    SplitPiecesFree(b, TableMarker);
    PieceKeepsAbsence(b, TableMarker, 1, LabelsMarker);
    StripKeepsAbsence(after, LabelsMarker);
    StripKeepsAbsence(after, TableMarker);
    StripIdempotent(after);
  }

  /** Without the explanation marker before the table marker, the explanation is that
      text, stripped. */
  lemma ExplanationWithoutMarker(response: string)
    requires var body := Split(Body(response), TableMarker);
      |body| == 2 && !Contains(body[0], ExplanationMarker)
    ensures Segment(response).explanation == Strip(Split(Body(response), TableMarker)[0])
  {
    var body := Split(Body(response), TableMarker);
    SectionsOfBody(response);
    ReplaceAbsent(body[0], ExplanationMarker, "");
  }

  /** A reply laid out as the prompt asks, `a` TABLA DE REDISTRIBUCIÓN: `b` ETIQUETAS: `c`,
      is cut back into exactly those sections. */
  lemma WellFormedReply(a: string, b: string, c: string)
    requires !Contains(a, TableMarker) && !Contains(b, TableMarker)
    requires !Contains(a + TableMarker + b, LabelsMarker) && !Contains(c, LabelsMarker)
    ensures Segment(a + TableMarker + b + LabelsMarker + c) ==
      Segments(Strip(Replace(a, ExplanationMarker, "")), Strip(b), LabelBlocks(c))
  {
    MarkersDoNotOverlap();
    SplitAround(a + TableMarker + b, LabelsMarker, c);
    SplitAround(a, TableMarker, b);
  }

  /** A reply without the table marker yields only labels. */
  lemma NoTableMarker(response: string)
    requires !Contains(response, TableMarker)
    ensures Segment(response).explanation == "" && Segment(response).table == ""
  {
    var b := Body(response);
    PieceKeepsAbsence(response, LabelsMarker, 0, TableMarker);
    SplitAbsent(b, TableMarker);
  }

  /** A reply without the labels marker yields no labels. */
  lemma NoLabelsMarker(response: string)
    requires !Contains(response, LabelsMarker)
    ensures Segment(response).labels == []
  {
    SplitAbsent(response, LabelsMarker);
  }
}
