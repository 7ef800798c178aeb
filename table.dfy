/**
 The optional diagnostic table: one row per character position up to the
 longer of the source text and its translation, pairing the source
 character and the translated character at that position, a blank where a
 text is too short. Only the row contents are modelled; the padding of the
 index column and the printing are not.
 */
module DiagnosticTable {

  datatype Row = Row(index: nat, source: char, translation: char)

  function Max(a: nat, b: nat): nat
  {
    if a >= b then a else b
  }

  /** The character at position i of `s`, or a blank past its end. */
  function CharOrBlank(s: string, i: nat): char
  {
    if i < |s| then s[i] else ' '
  }

  /** One row per position 0 .. max(|sourceText|, |translatedText|) - 1. */
  function Table(sourceText: string, translatedText: string): (rows: seq<Row>)
    ensures |rows| == Max(|sourceText|, |translatedText|)
  {
    var n := Max(|sourceText|, |translatedText|);
    seq(n, i requires 0 <= i < n => Row(i, CharOrBlank(sourceText, i), CharOrBlank(translatedText, i)))
  }

  /** `s` followed by blanks up to length n. */
  function Padded(s: string, n: nat): (r: string)
    requires |s| <= n
    ensures |r| == n
  {
    s + seq(n - |s|, _ => ' ')
  }

  function SourceColumn(rows: seq<Row>): seq<char>
  {
    seq(|rows|, i requires 0 <= i < |rows| => rows[i].source)
  }

  function TranslationColumn(rows: seq<Row>): seq<char>
  {
    seq(|rows|, i requires 0 <= i < |rows| => rows[i].translation)
  }

  /** Reading the table back: the rows are numbered 0, 1, ... in order, the
      source column spells the source text and the translation column the
      translated text, each padded with blanks to the table's length. */
  lemma TableColumns(sourceText: string, translatedText: string)
    ensures forall i :: 0 <= i < |Table(sourceText, translatedText)| ==>
              Table(sourceText, translatedText)[i].index == i
    ensures SourceColumn(Table(sourceText, translatedText))
         == Padded(sourceText, Max(|sourceText|, |translatedText|))
    ensures TranslationColumn(Table(sourceText, translatedText))
         == Padded(translatedText, Max(|sourceText|, |translatedText|))
  {
    var n := Max(|sourceText|, |translatedText|);
    var rows := Table(sourceText, translatedText);
    assert forall i :: 0 <= i < n ==> SourceColumn(rows)[i] == Padded(sourceText, n)[i];
    assert forall i :: 0 <= i < n ==> TranslationColumn(rows)[i] == Padded(translatedText, n)[i];
  }
}
