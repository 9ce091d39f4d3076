/** Week-range expansion in `parseEvents`: the `weeks` field of a class row,
    such as "1‑3,5‑7" (pieces separated by commas, a range written with the
    non-breaking hyphen U+2011), becomes the explicit list of week numbers the
    recurrence rule filters on. */
module Weeks {
  import opened Js

  /** U+2011 NON-BREAKING HYPHEN, which the timetable data puts inside a range. */
  const RangeHyphen: char := '\U{2011}'
  const PieceSeparator: char := ','

  /** The integers lo to hi, built with `Array.from` of length hi-lo+1;
      `Array.from` reads a length below zero as zero. */
  function Range(lo: int, hi: int): (r: seq<Number>)
    ensures hi < lo ==> r == []
    ensures lo <= hi ==> |r| == hi - lo + 1 && r[0] == Int(lo) && r[|r| - 1] == Int(hi)
    ensures forall i :: 0 <= i < |r| ==> r[i].Int? && lo <= r[i].value <= hi
    ensures forall i :: 0 <= i < |r| - 1 ==> r[i + 1] == Int(r[i].value + 1)
  {
    seq(if lo <= hi then hi - lo + 1 else 0, i => Int(lo + i))
  }

  /** `inclusiveRange([start, end])`: with a truthy `end` (present, not 0,
      not NaN) the weeks `start` to `end`, none at all if `start` is NaN
      (the length is then NaN, which `Array.from` reads as 0); otherwise the
      single element `[start]`. The result is returned even when empty,
      because an empty array is truthy. */
  function InclusiveRange(bounds: seq<Number>): (r: seq<Number>)
    requires |bounds| >= 1
    ensures |bounds| >= 2 && NumberTruthy(bounds[1]) && bounds[0].Int? ==>
              r == Range(bounds[0].value, bounds[1].value)
    ensures |bounds| >= 2 && NumberTruthy(bounds[1]) && bounds[0].NaN? ==> r == []
    ensures !(|bounds| >= 2 && NumberTruthy(bounds[1])) ==> r == [bounds[0]]
  {
    if |bounds| >= 2 && NumberTruthy(bounds[1]) then
      match bounds[0]
      case NaN => []
      case Int(start) => Range(start, bounds[1].value)
    else [bounds[0]]
  }

  /** Each part read with `parseInt`. */
  function ParseAll(parts: seq<string>): (r: seq<Number>)
    ensures |r| == |parts|
    ensures forall i :: 0 <= i < |parts| ==> r[i] == ParseInt(parts[i])
  {
    seq(|parts|, i requires 0 <= i < |parts| => ParseInt(parts[i]))
  }

  /** The weeks one comma-separated piece stands for. */
  function ExpandPiece(piece: string): seq<Number> {
    InclusiveRange(ParseAll(Split(piece, RangeHyphen)))
  }

  /** `flatMap` of `ExpandPiece` over the pieces, in order. */
  function ExpandPieces(pieces: seq<string>): seq<Number> {
    if pieces == [] then [] else ExpandPiece(pieces[0]) + ExpandPieces(pieces[1..])
  }

  /** The weeks text split on commas, each piece split on the range hyphen,
      read with `parseInt` and expanded, in order. */
  function ExpandWeeks(weeks: string): seq<Number> {
    ExpandPieces(Split(weeks, PieceSeparator))
  }

  // ---------------------------------------------------------------------
  // What a well-formed weeks string means

  /** One piece of a well-formed weeks string: a single week or a range. */
  datatype WeekSpan = Single(week: nat) | Span(first: nat, last: nat)

  predicate Ascending(w: WeekSpan) {
    w.Span? ==> w.first <= w.last
  }

  function SpanText(w: WeekSpan): string {
    match w
    case Single(a) => NatToString(a)
    case Span(a, b) => NatToString(a) + [RangeHyphen] + NatToString(b)
  }

  /** The weeks a piece denotes: the single week, or every week from the
      first to the last inclusive. */
  function SpanWeeks(w: WeekSpan): seq<Number> {
    match w
    case Single(a) => [Int(a)]
    case Span(a, b) => Range(a, b)
  }

  function SpansText(ws: seq<WeekSpan>): (r: seq<string>)
    ensures |r| == |ws|
    ensures forall i :: 0 <= i < |ws| ==> r[i] == SpanText(ws[i])
  {
    seq(|ws|, i requires 0 <= i < |ws| => SpanText(ws[i]))
  }

  function SpansWeeks(ws: seq<WeekSpan>): seq<Number> {
    if ws == [] then [] else SpanWeeks(ws[0]) + SpansWeeks(ws[1..])
  }

  lemma NumeralHasNoSeparator(n: nat, c: char)
    requires !IsDecimalDigit(c)
    ensures c !in NatToString(n)
  {
  }

  lemma SpanTextSplit(a: nat, b: nat)
    ensures Split(NatToString(a) + [RangeHyphen] + NatToString(b), RangeHyphen)
            == [NatToString(a), NatToString(b)]
  {
    NumeralHasNoSeparator(a, RangeHyphen);
    NumeralHasNoSeparator(b, RangeHyphen);
    SplitAtSeparator(NatToString(a), RangeHyphen, NatToString(b));
    SplitWithoutSeparator(NatToString(b), RangeHyphen);
  }

  /** A piece `a` reads as `[a]`, and a piece `a‑b` with a <= b reads as
      a, a+1, ..., b: b - a + 1 weeks. (When b is 0, `end` is falsy and the
      code takes the single-week branch, which gives [0] = [a] all the same.) */
  lemma ExpandSpanText(w: WeekSpan)
    requires Ascending(w)
    ensures ExpandPiece(SpanText(w)) == SpanWeeks(w)
    ensures w.Span? ==> |ExpandPiece(SpanText(w))| == w.last - w.first + 1
  {
    match w
    case Single(a) => ExpandSingleText(a);
    case Span(a, b) => ExpandRangeText(a, b);
  }

  lemma ExpandSingleText(a: nat)
    ensures ExpandPiece(NatToString(a)) == [Int(a)]
  {
    NumeralHasNoSeparator(a, RangeHyphen);
    SplitWithoutSeparator(NatToString(a), RangeHyphen);
    ParseNatToString(a);
  }

  lemma ExpandRangeText(a: nat, b: nat)
    requires a <= b
    ensures ExpandPiece(NatToString(a) + [RangeHyphen] + NatToString(b)) == Range(a, b)
  {
    SpanTextSplit(a, b);
    ParseBounds(a, b);
    RangeOfBounds(a, b);
  }

  lemma ParseBounds(a: nat, b: nat)
    ensures ParseAll([NatToString(a), NatToString(b)]) == [Int(a), Int(b)]
  {
    ParseNatToString(a);
    ParseNatToString(b);
  }

  lemma RangeOfBounds(a: nat, b: nat)
    requires a <= b
    ensures InclusiveRange([Int(a), Int(b)]) == Range(a, b)
  {
    if b == 0 {
      assert Range(a, b) == [Int(a)];
    }
  }

  /** A descending range `a‑b` with b < a (b not 0) yields no week at all. */
  lemma ExpandDescendingSpan(a: nat, b: nat)
    requires 0 < b < a
    ensures ExpandPiece(SpanText(Span(a, b))) == []
  {
    SpanTextSplit(a, b);
    ParseNatToString(a);
    ParseNatToString(b);
  }

  lemma {:induction false} ExpandPiecesOfSpans(ws: seq<WeekSpan>)
    requires forall i :: 0 <= i < |ws| ==> Ascending(ws[i])
    ensures ExpandPieces(SpansText(ws)) == SpansWeeks(ws)
  {
    if ws != [] {
      ExpandSpanText(ws[0]);
      ExpandPiecesOfSpans(ws[1..]);
      assert SpansText(ws)[1..] == SpansText(ws[1..]);
    }
  }

  /** A weeks string written as ascending pieces joined by commas expands to
      the concatenation, in input order, of what each piece denotes. */
  lemma ExpandWeeksOfSpans(ws: seq<WeekSpan>)
    requires ws != []
    requires forall i :: 0 <= i < |ws| ==> Ascending(ws[i])
    ensures ExpandWeeks(Join(SpansText(ws), [PieceSeparator])) == SpansWeeks(ws)
  {
    var texts := SpansText(ws);
    forall i | 0 <= i < |texts| ensures PieceSeparator !in texts[i] {
      match ws[i]
      case Single(a) =>
        NumeralHasNoSeparator(a, PieceSeparator);
      case Span(a, b) =>
        NumeralHasNoSeparator(a, PieceSeparator);
        NumeralHasNoSeparator(b, PieceSeparator);
    }
    SplitJoin(texts, PieceSeparator);
    ExpandPiecesOfSpans(ws);
  }

  lemma SmallNumerals()
    ensures NatToString(1) == "1" && NatToString(3) == "3" && NatToString(5) == "5"
    ensures NatToString(6) == "6" && NatToString(7) == "7" && NatToString(8) == "8"
  {
  }

  lemma RangeOfThree(a: nat)
    ensures SpanWeeks(Span(a, a + 2)) == [Int(a), Int(a + 1), Int(a + 2)]
  {
  }

  lemma TwoRangesText(a: WeekSpan, b: WeekSpan, t: string)
    requires Ascending(a) && Ascending(b)
    requires t == SpanText(a) + [PieceSeparator] + SpanText(b)
    ensures ExpandWeeks(t) == SpanWeeks(a) + SpanWeeks(b)
  {
    var ws := [a, b];
    assert SpansText(ws) == [SpanText(a), SpanText(b)];
    assert Join(SpansText(ws), [PieceSeparator]) == t;
    ExpandWeeksOfSpans(ws);
    assert ws[1..] == [b];
    assert SpansWeeks([b]) == SpanWeeks(b);
  }

  /** "1‑3,5‑7" expands to [1, 2, 3, 5, 6, 7]; the comment beside the code
      pairs this input with [1, 2, 3, 6, 7, 8], which is what "1‑3,6‑8"
      expands to. */
  lemma ExampleTwoRanges(t: string)
    requires t == "1\U{2011}3,5\U{2011}7"
    ensures ExpandWeeks(t) == [Int(1), Int(2), Int(3), Int(5), Int(6), Int(7)]
  {
    SmallNumerals();
    assert SpanText(Span(1, 3)) + [PieceSeparator] + SpanText(Span(5, 7)) == t;
    TwoRangesText(Span(1, 3), Span(5, 7), t);
    RangeOfThree(1);
    RangeOfThree(5);
  }

  lemma ExampleCommentRanges(t: string)
    requires t == "1\U{2011}3,6\U{2011}8"
    ensures ExpandWeeks(t) == [Int(1), Int(2), Int(3), Int(6), Int(7), Int(8)]
  {
    SmallNumerals();
    assert SpanText(Span(1, 3)) + [PieceSeparator] + SpanText(Span(6, 8)) == t;
    TwoRangesText(Span(1, 3), Span(6, 8), t);
    RangeOfThree(1);
    RangeOfThree(6);
  }

  /** A single week "8" expands to [8]. */
  lemma ExampleSingleWeek(t: string)
    requires t == "8"
    ensures ExpandWeeks(t) == [Int(8)]
  {
    SmallNumerals();
    ExpandWeeksOfSpans([Single(8)]);
    assert SpansText([Single(8)]) == [t];
  }
}
