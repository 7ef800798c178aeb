/**
 The aligner. The source text is analysed into units and its subsegments
 are enumerated; the source text is translated, the translation analysed
 and its subsegments enumerated as the candidate set. Each source
 subsegment's literal substring is translated and analysed in isolation,
 and the first candidate whose reading strings equal those of the isolated
 analysis gives a correspondence: the source substring, its isolated
 translation, and the character offsets of both sides. Source subsegments
 without a match contribute nothing.

 The external translator, the morphological analysers of the two languages
 and the stream parser are the fields of an `Oracle`: total functions, so
 the model assumes they are deterministic and never fail.
 */
module Alignment {
  import opened Units
  import opened Enumeration
  import opened Offsets
  import opened Matching
  import opened DiagnosticTable

  /** The external collaborators: the translation pipeline, the analyser of
      the source language and the analyser of the target language, each
      composed with parsing of its output into units. */
  datatype Oracle = Oracle(
    translate: string -> string,
    analyzeSource: string -> seq<Unit>,
    analyzeTarget: string -> seq<Unit>)

  /** A source substring s and its isolated translation t, with inclusive
      character offsets i..j in the source text and k..l in the full
      translation. */
  datatype Correspondence = Correspondence(s: string, t: string, i: int, j: int, k: int, l: int)

  datatype Option<T> = None | Some(value: T)

  /** The reconstruction loop: the first unit contributes only its wordform,
      every later unit its preceding text and its wordform. */
  method Reconstruct(seg: seq<Unit>) returns (s: string)
    ensures s == Literal(seg)
  {
    s := "";
    for p := 0 to |seg|
      invariant s == Literal(seg[..p])
    {
      if p == 0 {
        assert seg[..1] == [seg[0]];
      } else {
        assert seg[..p + 1] == seg[..p] + [seg[p]];
        LiteralSnoc(seg[..p], seg[p]);
      }
      s := s + (if p != 0 then seg[p].pre else "") + seg[p].wordform;
    }
    assert seg[..|seg|] == seg;
  }

  /** What one source subsegment contributes: a correspondence when some
      candidate matches its isolated translation, nothing otherwise. */
  function Attempt(srcUnits: seq<Unit>, seg: Subsegment, tgtUnits: seq<Unit>,
                   tgtSegs: seq<Subsegment>, oracle: Oracle): Option<Correspondence>
    requires 1 <= |seg.units|
    requires forall ts :: ts in tgtSegs ==> 1 <= |ts.units|
  {
    var s := Literal(seg.units);
    var t := oracle.translate(s);
    var matches := Filter(tgtSegs, Readings(oracle.analyzeTarget(t)));
    if matches == [] then None
    else
      var first := matches[0];
      Some(Correspondence(s, t, StartOffset(srcUnits, seg), EndOffset(srcUnits, seg),
                          StartOffset(tgtUnits, first), EndOffset(tgtUnits, first)))
  }

  /** The outcome of every source subsegment, in enumeration order, against
      one fixed candidate set. */
  function Outcomes(srcUnits: seq<Unit>, srcSegs: seq<Subsegment>, tgtUnits: seq<Unit>,
                    tgtSegs: seq<Subsegment>, oracle: Oracle): (r: seq<Option<Correspondence>>)
    requires forall seg :: seg in srcSegs ==> 1 <= |seg.units|
    requires forall ts :: ts in tgtSegs ==> 1 <= |ts.units|
    ensures |r| == |srcSegs|
    ensures forall p :: 0 <= p < |r| ==> r[p] == Attempt(srcUnits, srcSegs[p], tgtUnits, tgtSegs, oracle)
  {
    seq(|srcSegs|, p requires 0 <= p < |srcSegs| =>
      assert srcSegs[p] in srcSegs;
      Attempt(srcUnits, srcSegs[p], tgtUnits, tgtSegs, oracle))
  }

  /** The values of the outcomes that are present, in their order. */
  function Present<T>(os: seq<Option<T>>): seq<T>
  {
    if os == [] then []
    else
      Present(os[..|os| - 1])
        + match os[|os| - 1]
          case None => []
          case Some(c) => [c]
  }

  /** One more outcome adds its value, if present, at the end. */
  lemma PresentSnoc<T>(os: seq<Option<T>>, o: Option<T>)
    ensures Present(os + [o]) == Present(os) + if o.Some? then [o.value] else []
  {
    assert (os + [o])[..|os|] == os;
  }

  /** The whole alignment of `sourceText`. */
  function Correspondences(sourceText: string, maxSourceLength: int, maxTranslationLength: int,
                     oracle: Oracle): seq<Correspondence>
  {
    var srcUnits := oracle.analyzeSource(sourceText);
    var tgtUnits := oracle.analyzeTarget(oracle.translate(sourceText));
    Present(Outcomes(srcUnits, Subsegments(srcUnits, maxSourceLength),
                     tgtUnits, Subsegments(tgtUnits, maxTranslationLength), oracle))
  }

  /** The body of the main loop for one source subsegment: reconstruct its
      literal substring, locate it, translate and analyse it in isolation,
      and search the candidates for the first one with the same reading
      strings. */
  method AlignSubsegment(srcUnits: seq<Unit>, seg: Subsegment, tgtUnits: seq<Unit>,
                         tgtSegs: seq<Subsegment>, oracle: Oracle)
    returns (outcome: Option<Correspondence>)
    requires 1 <= |seg.units|
    requires forall ts :: ts in tgtSegs ==> 1 <= |ts.units|
    ensures outcome == Attempt(srcUnits, seg, tgtUnits, tgtSegs, oracle)
  {
    var s := Reconstruct(seg.units);
    var i := StartOffset(srcUnits, seg);
    var j := EndOffset(srcUnits, seg);
    var t := oracle.translate(s);
    var isolated := oracle.analyzeTarget(t);
    var matches := Filter(tgtSegs, Readings(isolated));
    if matches == [] {
      outcome := None;
    } else {
      var k := StartOffset(tgtUnits, matches[0]);
      var l := EndOffset(tgtUnits, matches[0]);
      outcome := Some(Correspondence(s, t, i, j, k, l));
    }
  }

  /** The main block: analyse, enumerate both sides, then for every source
      subsegment reconstruct, locate, translate in isolation, search the
      candidates and append a correspondence on a match. With `table` set
      it also produces the diagnostic rows for the source text and its
      translation. */
  method Explain(sourceText: string, maxSourceLength: int, maxTranslationLength: int,
                 table: bool, oracle: Oracle)
    returns (cs: seq<Correspondence>, rows: seq<Row>)
    ensures cs == Correspondences(sourceText, maxSourceLength, maxTranslationLength, oracle)
    ensures rows == if table then Table(sourceText, oracle.translate(sourceText)) else []
  {
    var srcUnits := oracle.analyzeSource(sourceText);
    var srcSegs := Enumerate(srcUnits, maxSourceLength);
    var translatedText := oracle.translate(sourceText);
    var tgtUnits := oracle.analyzeTarget(translatedText);
    var tgtSegs := Enumerate(tgtUnits, maxTranslationLength);
    ghost var outcomes := Outcomes(srcUnits, srcSegs, tgtUnits, tgtSegs, oracle);
    cs := [];
    for p := 0 to |srcSegs|
      invariant cs == Present(outcomes[..p])
    {
      assert srcSegs[p] in srcSegs;
      var outcome := AlignSubsegment(srcUnits, srcSegs[p], tgtUnits, tgtSegs, oracle);
      assert outcomes[..p + 1] == outcomes[..p] + [outcome];
      PresentSnoc(outcomes[..p], outcome);
      if outcome.Some? {
        cs := cs + [outcome.value];
      }
    }
    assert outcomes[..|srcSegs|] == outcomes;
    rows := if table then Table(sourceText, translatedText) else [];
  }

  /** A source subsegment yields a correspondence exactly when some candidate
      has the reading strings of its isolated translation. */
  lemma AttemptSomeIff(srcUnits: seq<Unit>, seg: Subsegment, tgtUnits: seq<Unit>,
                       tgtSegs: seq<Subsegment>, oracle: Oracle)
    requires 1 <= |seg.units|
    requires forall ts :: ts in tgtSegs ==> 1 <= |ts.units|
    ensures Attempt(srcUnits, seg, tgtUnits, tgtSegs, oracle).Some?
        <==> exists q :: 0 <= q < |tgtSegs| && Readings(tgtSegs[q].units)
                == Readings(oracle.analyzeTarget(oracle.translate(Literal(seg.units))))
  {
    FilterEmptyIff(tgtSegs, Readings(oracle.analyzeTarget(oracle.translate(Literal(seg.units)))));
  }

  /** A correspondence carries the subsegment's literal substring and its
      isolated translation; its source offsets span exactly that substring;
      its target offsets are those of the candidate at index p, the first
      candidate whose reading strings equal the isolated translation's. */
  lemma AttemptSound(srcUnits: seq<Unit>, seg: Subsegment, tgtUnits: seq<Unit>,
                     tgtSegs: seq<Subsegment>, oracle: Oracle, c: Correspondence)
    returns (p: nat)
    requires ValidIn(srcUnits, seg)
    requires forall ts :: ts in tgtSegs ==> 1 <= |ts.units|
    requires forall ts :: ts in tgtSegs ==> ValidIn(tgtUnits, ts)
    requires Attempt(srcUnits, seg, tgtUnits, tgtSegs, oracle).Some?
    requires Attempt(srcUnits, seg, tgtUnits, tgtSegs, oracle).value == c
    ensures c.s == Literal(seg.units) && c.t == oracle.translate(c.s)
    ensures c.i == StartOffset(srcUnits, seg) && c.j == EndOffset(srcUnits, seg)
    ensures c.j - c.i + 1 == |c.s|
    ensures FirstMatchAt(tgtSegs, Readings(oracle.analyzeTarget(c.t)), p)
    ensures c.k == StartOffset(tgtUnits, tgtSegs[p]) && c.l == EndOffset(tgtUnits, tgtSegs[p])
    ensures c.l - c.k + 1 == |Literal(tgtSegs[p].units)|
  {
    OffsetSpanLength(srcUnits, seg);
    var target := Readings(oracle.analyzeTarget(c.t));
    FirstMatchExists(tgtSegs, target);
    p :| FirstMatchAt(tgtSegs, target, p) && tgtSegs[p] == Filter(tgtSegs, target)[0];
    assert tgtSegs[p] in tgtSegs;
    OffsetSpanLength(tgtUnits, tgtSegs[p]);
  }

  /** A source subsegment whose isolated translation analyses to no units is
      skipped: no candidate is empty, so none matches. */
  lemma EmptyIsolatedAnalysisSkipped(srcUnits: seq<Unit>, seg: Subsegment, tgtUnits: seq<Unit>,
                                     tgtSegs: seq<Subsegment>, oracle: Oracle)
    requires 1 <= |seg.units|
    requires forall ts :: ts in tgtSegs ==> 1 <= |ts.units|
    requires oracle.analyzeTarget(oracle.translate(Literal(seg.units))) == []
    ensures Attempt(srcUnits, seg, tgtUnits, tgtSegs, oracle) == None
  {
    EmptyAnalysisNeverMatches(tgtSegs);
  }

  /** Every present value comes from one of the outcomes: the x-th from the
      outcome at index p. */
  lemma {:induction false} PresentSource<T>(os: seq<Option<T>>, x: nat) returns (p: nat)
    requires x < |Present(os)|
    ensures p < |os| && os[p] == Some(Present(os)[x])
  {
    var init := os[..|os| - 1];
    if x < |Present(init)| {
      p := PresentSource(init, x);
      assert os[p] == init[p];
    } else {
      p := |os| - 1;
    }
  }

  /** Every present outcome contributes its value: matching subsegments are
      never dropped. */
  lemma {:induction false} PresentComplete<T>(os: seq<Option<T>>, p: nat, c: T)
    requires p < |os| && os[p] == Some(c)
    ensures c in Present(os)
  {
    var init := os[..|os| - 1];
    if p < |init| {
      assert init[p] == os[p];
      PresentComplete(init, p, c);
    }
  }

  /** Of two present values, the earlier one comes from an earlier outcome:
      the x-th from index p, the y-th from index q > p. */
  lemma {:induction false} PresentOrder<T>(os: seq<Option<T>>, x: nat, y: nat) returns (p: nat, q: nat)
    requires x < y < |Present(os)|
    ensures p < q < |os|
    ensures os[p] == Some(Present(os)[x]) && os[q] == Some(Present(os)[y])
  {
    var init := os[..|os| - 1];
    if y < |Present(init)| {
      p, q := PresentOrder(init, x, y);
      assert os[p] == init[p] && os[q] == init[q];
    } else {
      p := PresentSource(init, x);
      assert os[p] == init[p];
      q := |os| - 1;
    }
  }

  /** The source side of a correspondence of one valid source subsegment:
      see `AlignmentSound`. */
  lemma AttemptLocatesSource(srcUnits: seq<Unit>, seg: Subsegment, sourceText: string,
                             tgtUnits: seq<Unit>, tgtSegs: seq<Subsegment>,
                             oracle: Oracle, c: Correspondence)
    requires ValidIn(srcUnits, seg)
    requires forall ts :: ts in tgtSegs ==> 1 <= |ts.units|
    requires Attempt(srcUnits, seg, tgtUnits, tgtSegs, oracle) == Some(c)
    ensures c.s == Literal(seg.units) && c.t == oracle.translate(c.s)
    ensures c.i == StartOffset(srcUnits, seg) && c.j == EndOffset(srcUnits, seg)
    ensures c.j - c.i + 1 == |c.s|
    ensures Text(srcUnits) == sourceText ==>
              0 <= c.i <= c.j + 1 <= |sourceText| && sourceText[c.i..c.j + 1] == c.s
  {
    OffsetSpanLength(srcUnits, seg);
    if Text(srcUnits) == sourceText {
      OffsetsLocateLiteral(srcUnits, seg, sourceText);
    }
  }

  /** The target side of a correspondence of one source subsegment, given
      the candidate set of the translation: see `AlignmentSound`. */
  lemma AttemptLocatesTarget(srcUnits: seq<Unit>, seg: Subsegment,
                             tgtUnits: seq<Unit>, maxTranslationLength: int,
                             oracle: Oracle, c: Correspondence)
    returns (ts: Subsegment)
    requires ValidIn(srcUnits, seg)
    requires Attempt(srcUnits, seg, tgtUnits, Subsegments(tgtUnits, maxTranslationLength), oracle) == Some(c)
    ensures var tgtSegs := Subsegments(tgtUnits, maxTranslationLength);
            var target := Readings(oracle.analyzeTarget(c.t));
            && ts in tgtSegs && Readings(ts.units) == target
            && (forall other :: other in tgtSegs && Precedes(other, ts) ==> Readings(other.units) != target)
    ensures c.k == StartOffset(tgtUnits, ts) && c.l == EndOffset(tgtUnits, ts)
    ensures c.l - c.k + 1 == |Literal(ts.units)|
    ensures ValidIn(tgtUnits, ts)
  {
    var tgtSegs := Subsegments(tgtUnits, maxTranslationLength);
    SubsegmentsValid(tgtUnits, maxTranslationLength);
    var q := AttemptSound(srcUnits, seg, tgtUnits, tgtSegs, oracle, c);
    ts := tgtSegs[q];
    assert ts in tgtSegs;
    EarliestInOrder(tgtUnits, maxTranslationLength, Readings(oracle.analyzeTarget(c.t)), q);
  }

  /** Every correspondence of the alignment comes from an enumerated source
      subsegment `seg` and an enumerated target subsegment `ts`: it carries
      the literal substring of `seg` and that substring's isolated
      translation, its source offsets span exactly the substring, and its
      target offsets those of `ts`, the first candidate in enumeration order
      (shortest first, then by start) whose reading strings equal the
      isolated translation's. When the analyses reconstruct their texts
      exactly, the offsets cut the substring out of the source text and the
      literal substring of `ts` out of the translation. */
  lemma AlignmentSound(sourceText: string, maxSourceLength: int, maxTranslationLength: int,
                       oracle: Oracle, c: Correspondence)
    returns (seg: Subsegment, ts: Subsegment)
    requires c in Correspondences(sourceText, maxSourceLength, maxTranslationLength, oracle)
    ensures var srcUnits := oracle.analyzeSource(sourceText);
            seg in Subsegments(srcUnits, maxSourceLength)
            && c.s == Literal(seg.units) && c.t == oracle.translate(c.s)
            && c.i == StartOffset(srcUnits, seg) && c.j == EndOffset(srcUnits, seg)
            && c.j - c.i + 1 == |c.s|
            && (Text(srcUnits) == sourceText ==>
                  0 <= c.i <= c.j + 1 <= |sourceText| && sourceText[c.i..c.j + 1] == c.s)
    ensures var translatedText := oracle.translate(sourceText);
            var tgtUnits := oracle.analyzeTarget(translatedText);
            var tgtSegs := Subsegments(tgtUnits, maxTranslationLength);
            var target := Readings(oracle.analyzeTarget(c.t));
            && ts in tgtSegs && Readings(ts.units) == target
            && (forall other :: other in tgtSegs && Precedes(other, ts) ==> Readings(other.units) != target)
            && c.k == StartOffset(tgtUnits, ts) && c.l == EndOffset(tgtUnits, ts)
            && c.l - c.k + 1 == |Literal(ts.units)|
            && (Text(tgtUnits) == translatedText ==>
                  0 <= c.k <= c.l + 1 <= |translatedText| && translatedText[c.k..c.l + 1] == Literal(ts.units))
  {
    var srcUnits := oracle.analyzeSource(sourceText);
    var translatedText := oracle.translate(sourceText);
    var tgtUnits := oracle.analyzeTarget(translatedText);
    var srcSegs := Subsegments(srcUnits, maxSourceLength);
    var tgtSegs := Subsegments(tgtUnits, maxTranslationLength);
    var outcomes := Outcomes(srcUnits, srcSegs, tgtUnits, tgtSegs, oracle);
    var cs := Present(outcomes);
    var x :| 0 <= x < |cs| && cs[x] == c;
    var p := PresentSource(outcomes, x);
    seg := srcSegs[p];
    assert seg in srcSegs;
    SubsegmentsValid(srcUnits, maxSourceLength);
    AttemptLocatesSource(srcUnits, seg, sourceText, tgtUnits, tgtSegs, oracle, c);
    ts := AttemptLocatesTarget(srcUnits, seg, tgtUnits, maxTranslationLength, oracle, c);
    if Text(tgtUnits) == translatedText {
      OffsetsLocateLiteral(tgtUnits, ts, translatedText);
    }
  }

  /** In the enumeration, the first match by index is also the first match by
      the enumeration order: no run that precedes it matches. */
  lemma EarliestInOrder(units: seq<Unit>, maxLength: int, target: seq<string>, q: nat)
    requires FirstMatchAt(Subsegments(units, maxLength), target, q)
    ensures var segs := Subsegments(units, maxLength);
            forall other :: other in segs && Precedes(other, segs[q]) ==> Readings(other.units) != target
  {
    var segs := Subsegments(units, maxLength);
    SubsegmentsOrdered(units, maxLength);
    forall other | other in segs && Precedes(other, segs[q])
      ensures Readings(other.units) != target
    {
      var r :| 0 <= r < |segs| && segs[r] == other;
      assert r < q;
    }
  }

  /** Correspondences are listed in the enumeration order of their source
      subsegments: of two correspondences, the earlier one comes from a
      subsegment `a` that is shorter than the later one's `b`, or as long and
      starting earlier. */
  lemma AlignmentOrdered(sourceText: string, maxSourceLength: int, maxTranslationLength: int,
                         oracle: Oracle, x: nat, y: nat)
    returns (a: Subsegment, b: Subsegment)
    requires x < y < |Correspondences(sourceText, maxSourceLength, maxTranslationLength, oracle)|
    ensures var srcUnits := oracle.analyzeSource(sourceText);
            var tgtUnits := oracle.analyzeTarget(oracle.translate(sourceText));
            var tgtSegs := Subsegments(tgtUnits, maxTranslationLength);
            var cs := Correspondences(sourceText, maxSourceLength, maxTranslationLength, oracle);
            && a in Subsegments(srcUnits, maxSourceLength)
            && b in Subsegments(srcUnits, maxSourceLength) && Precedes(a, b)
            && Attempt(srcUnits, a, tgtUnits, tgtSegs, oracle) == Some(cs[x])
            && Attempt(srcUnits, b, tgtUnits, tgtSegs, oracle) == Some(cs[y])
  {
    var srcUnits := oracle.analyzeSource(sourceText);
    var tgtUnits := oracle.analyzeTarget(oracle.translate(sourceText));
    var srcSegs := Subsegments(srcUnits, maxSourceLength);
    var tgtSegs := Subsegments(tgtUnits, maxTranslationLength);
    var p, q := PresentOrder(Outcomes(srcUnits, srcSegs, tgtUnits, tgtSegs, oracle), x, y);
    SubsegmentsOrdered(srcUnits, maxSourceLength);
    a, b := srcSegs[p], srcSegs[q];
  }

  /** A matching source subsegment is never dropped: its correspondence is in
      the alignment. */
  lemma AlignmentComplete(sourceText: string, maxSourceLength: int, maxTranslationLength: int,
                          oracle: Oracle, seg: Subsegment)
    requires seg in Subsegments(oracle.analyzeSource(sourceText), maxSourceLength)
    requires Attempt(oracle.analyzeSource(sourceText), seg, oracle.analyzeTarget(oracle.translate(sourceText)),
                     Subsegments(oracle.analyzeTarget(oracle.translate(sourceText)), maxTranslationLength),
                     oracle).Some?
    ensures Attempt(oracle.analyzeSource(sourceText), seg, oracle.analyzeTarget(oracle.translate(sourceText)),
                    Subsegments(oracle.analyzeTarget(oracle.translate(sourceText)), maxTranslationLength),
                    oracle).value
              in Correspondences(sourceText, maxSourceLength, maxTranslationLength, oracle)
  {
    var srcUnits := oracle.analyzeSource(sourceText);
    var tgtUnits := oracle.analyzeTarget(oracle.translate(sourceText));
    var srcSegs := Subsegments(srcUnits, maxSourceLength);
    var tgtSegs := Subsegments(tgtUnits, maxTranslationLength);
    var p :| 0 <= p < |srcSegs| && srcSegs[p] == seg;
    PresentComplete(Outcomes(srcUnits, srcSegs, tgtUnits, tgtSegs, oracle), p,
                    Attempt(srcUnits, seg, tgtUnits, tgtSegs, oracle).value);
  }

  /** A candidate with as many units as the whole analysis is the whole
      analysis. */
  lemma WholeCandidate(units: seq<Unit>, ts: Subsegment)
    requires ValidIn(units, ts) && |ts.units| == |units|
    ensures ts == Subsegment(units, 0, |units| - 1)
  {
    assert units[0..|units|] == units;
  }

  /** The whole analysis is one of the enumerated subsegments when the
      maximum length covers it. */
  lemma WholeIsSubsegment(units: seq<Unit>, maxLength: int)
    requires 1 <= |units| <= maxLength
    ensures Subsegment(units, 0, |units| - 1) in Subsegments(units, maxLength)
  {
    assert units[0..|units|] == units;
    SubsegmentsComplete(units, maxLength, Subsegment(units, 0, |units| - 1));
  }

  /** Searched for the reading strings of the whole translation, the
      candidates yield the whole translation first: no shorter candidate has
      as many reading strings. */
  lemma WholeTranslationMatchesFirst(units: seq<Unit>, maxLength: int)
    requires 1 <= |units| <= maxLength
    ensures var matches := Filter(Subsegments(units, maxLength), Readings(units));
            matches != [] && matches[0] == Subsegment(units, 0, |units| - 1)
  {
    var segs := Subsegments(units, maxLength);
    var whole := Subsegment(units, 0, |units| - 1);
    WholeIsSubsegment(units, maxLength);
    var matches := Filter(segs, Readings(units));
    assert whole in matches;
    assert matches[0] in matches;
    SubsegmentsValid(units, maxLength);
    assert |Readings(matches[0].units)| == |Readings(units)|;
    WholeCandidate(units, matches[0]);
  }

  /** The whole analysis starts after the first unit's preceding text and
      ends at its last character. */
  lemma WholeOffsets(units: seq<Unit>)
    requires 1 <= |units|
    ensures StartOffset(units, Subsegment(units, 0, |units| - 1)) == |units[0].pre|
    ensures EndOffset(units, Subsegment(units, 0, |units| - 1)) == Span(units) - 1
  {
    assert units[..0] == [];
    assert units[..|units|] == units;
  }

  /** The whole source sentence, translated in isolation, is the whole
      translation, so it matches the whole candidate; its offsets span both
      analyses. */
  lemma WholeSentenceAttempt(srcUnits: seq<Unit>, sourceText: string, tgtUnits: seq<Unit>,
                             maxTranslationLength: int, oracle: Oracle)
    requires 1 <= |srcUnits| && Literal(srcUnits) == sourceText
    requires 1 <= |tgtUnits| <= maxTranslationLength
    requires oracle.analyzeTarget(oracle.translate(sourceText)) == tgtUnits
    ensures Attempt(srcUnits, Subsegment(srcUnits, 0, |srcUnits| - 1), tgtUnits,
                    Subsegments(tgtUnits, maxTranslationLength), oracle)
         == Some(Correspondence(sourceText, oracle.translate(sourceText),
                                |srcUnits[0].pre|, Span(srcUnits) - 1,
                                |tgtUnits[0].pre|, Span(tgtUnits) - 1))
  {
    WholeOffsets(srcUnits);
    WholeOffsets(tgtUnits);
    WholeTranslationMatchesFirst(tgtUnits, maxTranslationLength);
  }

  /** Self-alignment: when `srcUnits` and `tgtUnits` are the analyses of
      the source text and of its translation, the whole source sentence
      reconstructs the source text, and both maxima cover whole sentences,
      then the whole source sentence is a subsegment and aligns to the whole
      translation; both sides span their analyses from the first wordform to
      the last character. */
  lemma FullSentenceAligns(srcUnits: seq<Unit>, sourceText: string, maxSourceLength: int,
                           tgtUnits: seq<Unit>, maxTranslationLength: int, oracle: Oracle)
    requires srcUnits == oracle.analyzeSource(sourceText)
    requires tgtUnits == oracle.analyzeTarget(oracle.translate(sourceText))
    requires 1 <= |srcUnits| <= maxSourceLength && Literal(srcUnits) == sourceText
    requires 1 <= |tgtUnits| <= maxTranslationLength
    ensures Correspondence(sourceText, oracle.translate(sourceText), |srcUnits[0].pre|, Span(srcUnits) - 1,
                           |tgtUnits[0].pre|, Span(tgtUnits) - 1)
              in Correspondences(sourceText, maxSourceLength, maxTranslationLength, oracle)
  {
    var whole := Subsegment(srcUnits, 0, |srcUnits| - 1);
    WholeIsSubsegment(srcUnits, maxSourceLength);
    WholeSentenceAttempt(srcUnits, sourceText, tgtUnits, maxTranslationLength, oracle);
    AlignmentComplete(sourceText, maxSourceLength, maxTranslationLength, oracle, whole);
  }
}
