/**
 The data the aligner works on. An analysed text is a sequence of units; each
 unit is the text that precedes a lexical unit (whitespace, punctuation), the
 lexical unit's surface wordform, and the string form of all its readings
 (lemma and tags), which is what alignment compares. The analyser and the
 stream parser that produce units are not modelled; the reading string is
 taken as given.
 */
module Units {

  datatype Unit = Unit(pre: string, wordform: string, reading: string)

  /** A contiguous run of units of a larger analysed sequence, with the index
      of its first and of its last unit in that sequence. */
  datatype Subsegment = Subsegment(units: seq<Unit>, startIndex: nat, lastIndex: nat)

  /** `seg` is a non-empty run of `units` whose indices describe exactly
      where it was cut from. */
  predicate ValidIn(units: seq<Unit>, seg: Subsegment)
  {
    && 1 <= |seg.units|
    && seg.lastIndex == seg.startIndex + |seg.units| - 1
    && seg.lastIndex < |units|
    && seg.units == units[seg.startIndex..seg.lastIndex + 1]
  }

  /** The characters one unit accounts for: its preceding text and its wordform. */
  function Width(u: Unit): nat
  {
    |u.pre| + |u.wordform|
  }

  /** The text reconstructed from a unit sequence: every unit's preceding
      text followed by its wordform. It is the analysed text exactly when the
      analyser accounts for every character. */
  function Text(us: seq<Unit>): string
  {
    if us == [] then "" else Text(us[..|us| - 1]) + us[|us| - 1].pre + us[|us| - 1].wordform
  }

  /** The sum of the widths of the units, as the offset computations add them up. */
  function Span(us: seq<Unit>): nat
  {
    if us == [] then 0 else Span(us[..|us| - 1]) + Width(us[|us| - 1])
  }

  /** The literal substring of a run of units: the first unit's wordform, then
      each later unit's preceding text and wordform. The first unit's
      preceding text is not part of it. */
  function Literal(seg: seq<Unit>): string
  {
    if seg == [] then "" else seg[0].wordform + Text(seg[1..])
  }

  /** The reading strings of a unit sequence, in order. */
  function Readings(us: seq<Unit>): seq<string>
  {
    seq(|us|, p requires 0 <= p < |us| => us[p].reading)
  }

  /** The reading strings a run is compared by are one per unit, and are
      those of the whole sequence between the run's first and last index. */
  lemma ReadingsOfRun(units: seq<Unit>, seg: Subsegment)
    requires ValidIn(units, seg)
    ensures |Readings(seg.units)| == |seg.units|
    ensures Readings(seg.units) == Readings(units)[seg.startIndex..seg.lastIndex + 1]
  {
    var full := Readings(units)[seg.startIndex..seg.lastIndex + 1];
    forall p | 0 <= p < |seg.units|
      ensures Readings(seg.units)[p] == full[p]
    {
      assert seg.units[p] == units[seg.startIndex + p];
    }
  }

  /** Summing the widths gives the length of the reconstructed text `Text(us)`. */
  lemma {:induction false} SpanIsTextLength(us: seq<Unit>)
    ensures Span(us) == |Text(us)|
  {
    if us != [] {
      SpanIsTextLength(us[..|us| - 1]);
    }
  }

  /** The text of two adjacent runs is the concatenation of their texts. */
  lemma {:induction false} TextAppend(a: seq<Unit>, b: seq<Unit>)
    ensures Text(a + b) == Text(a) + Text(b)
  {
    if b == [] {
      assert a + b == a;
    } else {
      var b' := b[..|b| - 1];
      assert (a + b)[..|a + b| - 1] == a + b';
      TextAppend(a, b');
    }
  }

  /** Widths add up over adjacent runs. */
  lemma SpanAppend(a: seq<Unit>, b: seq<Unit>)
    ensures Span(a + b) == Span(a) + Span(b)
  {
    SpanIsTextLength(a + b);
    SpanIsTextLength(a);
    SpanIsTextLength(b);
    TextAppend(a, b);
  }

  /** Appending a unit to a non-empty run extends its literal substring by the
      unit's preceding text and wordform; this is the step the reconstruction
      loop takes for every unit after the first. */
  lemma LiteralSnoc(seg: seq<Unit>, u: Unit)
    requires seg != []
    ensures Literal(seg + [u]) == Literal(seg) + u.pre + u.wordform
  {
    var tail := (seg + [u])[1..];
    assert tail == seg[1..] + [u];
    assert tail[..|tail| - 1] == seg[1..];
  }

  /** A non-empty run's text is its first unit's preceding text followed by
      its literal substring. */
  lemma {:induction false} LiteralInText(seg: seq<Unit>)
    requires seg != []
    ensures Text(seg) == seg[0].pre + Literal(seg)
  {
    if |seg| == 1 {
      assert seg[..0] == [] && seg[1..] == [];
    } else {
      var init, u := seg[..|seg| - 1], seg[|seg| - 1];
      assert seg == init + [u];
      calc {
        Text(seg);
        Text(init) + u.pre + u.wordform;
        { LiteralInText(init); }
        (init[0].pre + Literal(init)) + u.pre + u.wordform;
        init[0].pre + (Literal(init) + u.pre + u.wordform);
        { LiteralSnoc(init, u); }
        seg[0].pre + Literal(seg);
      }
    }
  }

  /** The length of a non-empty run's literal substring is its total width
      minus its first unit's preceding text. */
  lemma LiteralLength(seg: seq<Unit>)
    requires seg != []
    ensures |Literal(seg)| == Span(seg) - |seg[0].pre|
  {
    LiteralInText(seg);
    SpanIsTextLength(seg);
  }

}
