/**
 Character offsets of a subsegment in the text its units were analysed from.
 The start offset adds up the widths of all units before the subsegment and
 then the first unit's preceding text; the end offset (inclusive) is the
 total width through the subsegment's last unit, minus one. Both are only
 meaningful when the units reconstruct the text exactly, which the lemmas
 take as their hypothesis.
 */
module Offsets {
  import opened Units

  /** The first n units, or all of them when there are fewer: a slice
      `units[:n]` as the source takes it. */
  function Prefix(units: seq<Unit>, n: nat): seq<Unit>
  {
    if n <= |units| then units[..n] else units
  }

  /** Where the subsegment's literal substring starts: the widths of all
      units before it, then its first unit's preceding text. */
  function StartOffset(units: seq<Unit>, seg: Subsegment): nat
    requires 1 <= |seg.units|
  {
    Span(Prefix(units, seg.startIndex)) + |seg.units[0].pre|
  }

  /** Where the subsegment's literal substring ends (inclusive): the widths
      of all units through its last, minus one. */
  function EndOffset(units: seq<Unit>, seg: Subsegment): int
  {
    Span(Prefix(units, seg.lastIndex + 1)) - 1
  }

  /** The units up to a subsegment's last unit are the units before it
      followed by the subsegment itself. */
  lemma PrefixThroughSegment(units: seq<Unit>, seg: Subsegment)
    requires ValidIn(units, seg)
    ensures units[..seg.lastIndex + 1] == units[..seg.startIndex] + seg.units
    ensures Span(units[..seg.lastIndex + 1]) == Span(units[..seg.startIndex]) + Span(seg.units)
  {
    assert units[..seg.lastIndex + 1] == units[..seg.startIndex] + seg.units;
    SpanAppend(units[..seg.startIndex], seg.units);
  }

  /** The offset span is exactly as long as the reconstructed substring. */
  lemma OffsetSpanLength(units: seq<Unit>, seg: Subsegment)
    requires ValidIn(units, seg)
    ensures EndOffset(units, seg) - StartOffset(units, seg) + 1 == |Literal(seg.units)|
  {
    PrefixThroughSegment(units, seg);
    LiteralLength(seg.units);
  }

  /** When the units reconstruct `text`, the offsets lie inside `text` and
      the slice between them (end inclusive) is the reconstructed substring. */
  lemma OffsetsLocateLiteral(units: seq<Unit>, seg: Subsegment, text: string)
    requires ValidIn(units, seg)
    requires Text(units) == text
    ensures 0 <= StartOffset(units, seg) <= EndOffset(units, seg) + 1 <= |text|
    ensures text[StartOffset(units, seg)..EndOffset(units, seg) + 1] == Literal(seg.units)
  {
    var before, after := units[..seg.startIndex], units[seg.lastIndex + 1..];
    var lead := Text(before) + seg.units[0].pre;
    TextAroundSegment(units, seg);
    SpanIsTextLength(before);
    assert Prefix(units, seg.startIndex) == before;
    OffsetSpanLength(units, seg);
    MiddleSlice(lead, Literal(seg.units), Text(after));
  }

  /** The text of the units is the text before the subsegment, the first
      unit's preceding text, the literal substring, and the text after. */
  lemma TextAroundSegment(units: seq<Unit>, seg: Subsegment)
    requires ValidIn(units, seg)
    ensures Text(units) == (Text(units[..seg.startIndex]) + seg.units[0].pre + Literal(seg.units))
                           + Text(units[seg.lastIndex + 1..])
  {
    var before, after := units[..seg.startIndex], units[seg.lastIndex + 1..];
    assert units == (before + seg.units) + after;
    calc {
      Text(units);
      { TextAppend(before + seg.units, after); }
      Text(before + seg.units) + Text(after);
      { TextAppend(before, seg.units); }
      (Text(before) + Text(seg.units)) + Text(after);
      { LiteralInText(seg.units); }
      (Text(before) + (seg.units[0].pre + Literal(seg.units))) + Text(after);
    }
  }

  /** The middle of three concatenated strings, cut out by its bounds. */
  lemma MiddleSlice(a: string, b: string, c: string)
    ensures (a + b + c)[|a|..|a| + |b|] == b
  {
  }

  /** Widths only accumulate: a longer prefix has at least the width of a
      shorter one. */
  lemma SpanOfPrefixMonotone(units: seq<Unit>, a: nat, b: nat)
    requires a <= b <= |units|
    ensures Span(units[..a]) <= Span(units[..b])
  {
    assert units[..b] == units[..a] + units[a..b];
    SpanAppend(units[..a], units[a..b]);
  }

  /** Start offsets never decrease as the start index grows; in particular
      for runs of one fixed length, which the enumeration lists by start. */
  lemma StartOffsetMonotone(units: seq<Unit>, a: Subsegment, b: Subsegment)
    requires ValidIn(units, a) && ValidIn(units, b)
    requires a.startIndex <= b.startIndex
    ensures StartOffset(units, a) <= StartOffset(units, b)
  {
    if a.startIndex < b.startIndex {
      var s := a.startIndex;
      assert units[..s + 1] == units[..s] + [units[s]];
      SpanAppend(units[..s], [units[s]]);
      assert [units[s]][..0] == [];
      assert Span(units[..s + 1]) == Span(units[..s]) + Width(units[s]);
      SpanOfPrefixMonotone(units, s + 1, b.startIndex);
    }
  }

  /** The width of a clamped prefix never decreases as the prefix grows. */
  lemma PrefixSpanMonotone(units: seq<Unit>, m: nat, n: nat)
    requires m <= n
    ensures Span(Prefix(units, m)) <= Span(Prefix(units, n))
  {
    if n <= |units| {
      SpanOfPrefixMonotone(units, m, n);
    } else if m <= |units| {
      assert units[..|units|] == units;
      SpanOfPrefixMonotone(units, m, |units|);
    }
  }

  /** End offsets never decrease as the last index grows. */
  lemma EndOffsetMonotone(units: seq<Unit>, a: Subsegment, b: Subsegment)
    requires a.lastIndex <= b.lastIndex
    ensures EndOffset(units, a) <= EndOffset(units, b)
  {
    PrefixSpanMonotone(units, a.lastIndex + 1, b.lastIndex + 1);
  }
}
