/** The label document (`generar_docx`): one paragraph per line of every label, each label
    closed by a rule of forty dashes. The document is its sequence of paragraphs; the
    serialisation of that sequence to a .docx file is not part of this model. */
module LabelDoc {
  import opened Text

  /** The rule that closes every label: forty dashes. */
  function Rule(): (r: string)
    ensures |r| == 40 && forall k :: 0 <= k < |r| ==> r[k] == '-'
  {
    seq(40, k => '-')
  }

  /** A document being built: the paragraphs added so far, in order. */
  class Document {
    var paragraphs: seq<string>

    constructor()
      ensures paragraphs == []
    {
      paragraphs := [];
    }

    /** Adds one paragraph at the end of the document. */
    method AddParagraph(text: string)
      modifies this
      ensures paragraphs == old(paragraphs) + [text]
    {
      paragraphs := paragraphs + [text];
    }
  }

  /** The paragraphs for a list of labels: those for all labels but the last, then the
      lines of the last label and a rule. */
  function Layout(labels: seq<string>): seq<string>
    decreases |labels|
  {
    if labels == [] then []
    else Layout(labels[..|labels| - 1]) + Block(labels[|labels| - 1])
  }

  /** The block one label contributes. */
  function Block(entry: string): seq<string> {
    SplitLines(entry) + [Rule()]
  }

  /** Sequences laid end to end, first to last. */
  function Concat(blocks: seq<seq<string>>): seq<string>
    decreases |blocks|
  {
    if blocks == [] then [] else blocks[0] + Concat(blocks[1..])
  }

  /** The number of lines over all labels. */
  function LineCount(labels: seq<string>): nat
    decreases |labels|
  {
    if labels == [] then 0 else |SplitLines(labels[0])| + LineCount(labels[1..])
  }

  /** Builds the document paragraph by paragraph, label by label, as the nested loops do. */
  method GenerateDocx(labels: seq<string>) returns (paragraphs: seq<string>)
    ensures paragraphs == Layout(labels)
  {
    var doc := new Document();
    for i := 0 to |labels|
      invariant doc.paragraphs == Layout(labels[..i])
    {
      AddLines(doc, SplitLines(labels[i]));
      doc.AddParagraph(Rule());
      AppendAssoc(Layout(labels[..i]), SplitLines(labels[i]), [Rule()]);
      LayoutStep(labels, i);
    }
    assert labels[..|labels|] == labels;
    paragraphs := doc.paragraphs;
  }

  /** One more label adds its block. */
  lemma LayoutStep(labels: seq<string>, i: nat)
    requires i < |labels|
    ensures Layout(labels[..i + 1]) == Layout(labels[..i]) + Block(labels[i])
  {
    assert labels[..i + 1][..i] == labels[..i];
  }

  /** The inner loop: one paragraph per line, in order. */
  method AddLines(doc: Document, lines: seq<string>)
    modifies doc
    ensures doc.paragraphs == old(doc.paragraphs) + lines
  {
    for j := 0 to |lines|
      invariant doc.paragraphs == old(doc.paragraphs) + lines[..j]
    {
      doc.AddParagraph(lines[j]);
      assert lines[..j + 1] == lines[..j] + [lines[j]];
    }
    assert lines[..|lines|] == lines;
  }

  // ---------------------------------------------------------------- properties

  /** Laying out two label lists one after the other lays out their concatenation. */
  lemma {:induction false} LayoutAppend(a: seq<string>, b: seq<string>)
    ensures Layout(a + b) == Layout(a) + Layout(b)
    decreases |b|
  {
    if b == [] {
      assert a + b == a;
    } else {
      var c := a + b;
      var front := b[..|b| - 1];
      AppendDropLast(a, b);
      LayoutAppend(a, front);
      calc {
        Layout(c);
        Layout(a + front) + Block(b[|b| - 1]);
        (Layout(a) + Layout(front)) + Block(b[|b| - 1]);
        { AppendAssoc(Layout(a), Layout(front), Block(b[|b| - 1])); }
        Layout(a) + (Layout(front) + Block(b[|b| - 1]));
        Layout(a) + Layout(b);
      }
    }
  }

  /** A single label gives its lines followed by one rule. */
  lemma LayoutSingle(entry: string)
    ensures Layout([entry]) == Block(entry)
  {
    assert [entry][..0] == [];
  }

  /** The document is the concatenation, over the labels in order, of each label's lines
      followed by a rule. */
  lemma {:induction false} LayoutIsConcat(labels: seq<string>)
    ensures Layout(labels) == Concat(Blocks(labels))
    decreases |labels|
  {
    if labels != [] {
      var rest := labels[1..];
      calc {
        Layout(labels);
        { assert labels == [labels[0]] + rest; }
        Layout([labels[0]] + rest);
        { LayoutFront(labels[0], rest); }
        Block(labels[0]) + Layout(rest);
        { LayoutIsConcat(rest); }
        Block(labels[0]) + Concat(Blocks(rest));
        { BlocksTail(labels); }
        Concat(Blocks(labels));
      }
    }
  }

  /** The block of every label, in order. */
  function Blocks(labels: seq<string>): seq<seq<string>>
  {
    seq(|labels|, i requires 0 <= i < |labels| => Block(labels[i]))
  }

  lemma BlocksTail(labels: seq<string>)
    requires labels != []
    ensures Blocks(labels)[0] == Block(labels[0]) && Blocks(labels)[1..] == Blocks(labels[1..])
  {
  }

  /** The first label's block opens the document. */
  lemma LayoutFront(entry: string, rest: seq<string>)
    ensures Layout([entry] + rest) == Block(entry) + Layout(rest)
  {
    LayoutAppend([entry], rest);
    LayoutSingle(entry);
  }

  /** There are as many paragraphs as lines over all labels, plus one rule per label. */
  lemma {:induction false} LayoutSize(labels: seq<string>)
    ensures |Layout(labels)| == LineCount(labels) + |labels|
    decreases |labels|
  {
    if labels != [] {
      var rest := labels[1..];
      assert labels == [labels[0]] + rest;
      LayoutFront(labels[0], rest);
      LayoutSize(rest);
    }
  }

  /** No label, no paragraph; otherwise the last paragraph is a rule. */
  lemma LayoutEnds(labels: seq<string>)
    ensures labels == [] <==> Layout(labels) == []
    ensures labels != [] ==> Layout(labels)[|Layout(labels)| - 1] == Rule()
  {
  }

  /** No paragraph holds a line break. */
  lemma {:induction false} ParagraphsHaveNoBreak(labels: seq<string>)
    ensures NoBreaks(Layout(labels))
    decreases |labels|
  {
    if labels != [] {
      var last := labels[|labels| - 1];
      ParagraphsHaveNoBreak(labels[..|labels| - 1]);
      assert NoBreaks([Rule()]) by {
        assert '\n' !in Rule();
      }
      NoBreaksAppend(SplitLines(last), [Rule()]);
      NoBreaksAppend(Layout(labels[..|labels| - 1]), Block(last));
    }
  }

  /** Paragraphs none of which holds a line break. */
  predicate NoBreaks(paragraphs: seq<string>) {
    forall k :: 0 <= k < |paragraphs| ==> '\n' !in paragraphs[k]
  }

  lemma NoBreaksAppend(a: seq<string>, b: seq<string>)
    requires NoBreaks(a) && NoBreaks(b)
    ensures NoBreaks(a + b)
  {
    forall k | 0 <= k < |a + b|
      ensures '\n' !in (a + b)[k]
    {
      if k < |a| {
        assert (a + b)[k] == a[k];
      } else {
        assert (a + b)[k] == b[k - |a|];
      }
    }
  }

  /** A label of two lines followed by a label of one: the first label's two lines, a
      rule, the second label's line, a rule. */
  lemma TwoLabels(x: string, y: string, z: string)
    requires '\n' !in x && '\r' !in x && '\n' !in y && '\r' !in y && '\n' !in z && '\r' !in z
    requires y != "" && z != ""
    ensures Layout([x + "\n" + y, z]) == [x, y, Rule(), z, Rule()]
  {
    LayoutFront(x + "\n" + y, [z]);
    LayoutSingle(z);
    TwoLineBlock(x, y);
    OneLineBlock(z);
  }

  lemma TwoLineBlock(x: string, y: string)
    requires '\n' !in x && '\r' !in x && '\n' !in y && '\r' !in y && y != ""
    ensures Block(x + "\n" + y) == [x, y, Rule()]
  {
    var lines := [x, y];
    assert lines[1..] == [y];
    assert Join(lines, "\n") == x + "\n" + y;
    SplitLinesOfJoin(lines);
  }

  lemma OneLineBlock(z: string)
    requires '\n' !in z && '\r' !in z && z != ""
    ensures Block(z) == [z, Rule()]
  {
    assert Join([z], "\n") == z;
    SplitLinesOfJoin([z]);
  }
}
