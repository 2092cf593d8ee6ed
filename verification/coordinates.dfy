/** The coordinate recogniser of the search box: `handleSuche` runs the
    unanchored pattern

        \s*(-?\d+(\.\d+)?)\s*,\s*(-?\d+(\.\d+)?)

    over the query and, on a match, reads capture groups 1 and 3 as latitude
    and longitude.

    The model is a greedy parser tried at every start position from the
    left. For this pattern the backtracking matcher never profits from
    backing off a greedy quantifier, so the greedy parse at a start position
    is the only match the matcher can return there; `MatchAtComplete` and
    `FindLeftmost` prove that this parser returns exactly the declarative
    first match: the leftmost start, and at that start the longest extent. */
module Coordinates {
  import opened Wrappers

  /** The two character classes the pattern uses. */
  datatype Class = Digit | Space

  /** `\d` is the ASCII digits. `\s` is the ECMAScript WhiteSpace and
      LineTerminator code points: tab, line feed, vertical tab, form feed,
      carriage return, the space separators (U+0020, U+00A0, U+1680,
      U+2000 to U+200A, U+202F, U+205F, U+3000), U+2028, U+2029 and the
      byte order mark U+FEFF. */
  predicate In(c: char, k: Class) {
    match k
    case Digit => '0' <= c <= '9'
    case Space =>
      || c == '\t' || c == '\n' || c == '\U{B}' || c == '\U{C}' || c == '\r'
      || c == ' ' || c == '\U{A0}' || c == '\U{1680}'
      || ('\U{2000}' <= c <= '\U{200A}')
      || c == '\U{2028}' || c == '\U{2029}' || c == '\U{202F}'
      || c == '\U{205F}' || c == '\U{3000}' || c == '\U{FEFF}'
  }

  /** The digit class is the ten ASCII digits, and no white space
      character is a digit or one of the other characters the pattern
      spells out, so a greedy run of one class never swallows the next
      part of the pattern. */
  lemma {:induction false} ClassesApart(c: char)
    ensures In(c, Digit) <==> c in "0123456789"
    ensures In(c, Space) ==> !In(c, Digit) && c != ',' && c != '-' && c != '.'
  {
  }

  predicate AllIn(t: string, k: Class) {
    forall i :: 0 <= i < |t| ==> In(t[i], k)
  }

  /** Position `j` of `s` holds a class-`k` character. */
  predicate InAt(s: string, j: nat, k: Class)
    requires j < |s|
  {
    In(s[j], k)
  }

  /** Positions `lo` up to (excluding) `hi` of `s` hold class-`k` characters. */
  predicate Span(s: string, lo: nat, hi: nat, k: Class) {
    lo <= hi <= |s| && forall j :: lo <= j < hi ==> InAt(s, j, k)
  }

  /** Every position of a span holds a class-`k` character. */
  lemma {:induction false} SpanAt(s: string, lo: nat, hi: nat, k: Class, x: nat)
    requires Span(s, lo, hi, k) && lo <= x < hi
    ensures In(s[x], k)
  {
    assert InAt(s, x, k);
  }

  /** A span of class-`k` characters, cut out of `s`, is all class-`k`. */
  lemma {:induction false} SpanSlice(s: string, lo: nat, hi: nat, k: Class)
    requires Span(s, lo, hi, k)
    ensures AllIn(s[lo..hi], k)
  {
    forall x | 0 <= x < hi - lo ensures In(s[lo..hi][x], k) {
      SpanAt(s, lo, hi, k, lo + x);
    }
  }

  /** Length of the longest run of class-`k` characters of `s` starting at
      `i`: what a greedy `\d+` or `\s*` consumes there. */
  function Run(s: string, i: nat, k: Class): (n: nat)
    requires i <= |s|
    ensures Span(s, i, i + n, k)
    ensures i + n == |s| || !In(s[i + n], k)
    decreases |s| - i
  {
    if i < |s| && In(s[i], k) then 1 + Run(s, i + 1, k) else 0
  }

  /** No run of class-`k` characters starting at `i` is longer than `Run`. */
  lemma {:induction false} RunMaximal(s: string, i: nat, n: nat, k: Class)
    requires Span(s, i, i + n, k)
    ensures n <= Run(s, i, k)
    decreases n
  {
    if n > 0 {
      assert InAt(s, i, k);
      RunMaximal(s, i + 1, n - 1, k);
    }
  }

  /** A run of class-`k` characters that ends at the end of `s` or before a
      character outside the class is exactly the one `Run` measures. */
  lemma {:induction false} RunExact(s: string, i: nat, n: nat, k: Class)
    requires Span(s, i, i + n, k)
    requires i + n == |s| || !In(s[i + n], k)
    ensures Run(s, i, k) == n
  {
    RunMaximal(s, i, n, k);
    RunStops(s, i, n, k);
  }

  /** A run starting at `i` stops at the first position outside the class. */
  lemma {:induction false} RunStops(s: string, i: nat, n: nat, k: Class)
    requires i + n <= |s|
    requires i + n == |s| || !In(s[i + n], k)
    ensures Run(s, i, k) <= n
    decreases n
  {
    if n > 0 && In(s[i], k) {
      RunStops(s, i + 1, n - 1, k);
    }
  }

  /** The shape of one literal matched by `-?\d+(\.\d+)?`: whether it has
      a minus sign, how many integer digits it has, and how many fraction
      digits follow the point (0 when the optional fraction group did not
      take part). */
  datatype Literal = Literal(negative: bool, digits: nat, fraction: nat)

  function SignWidth(l: Literal): nat {
    if l.negative then 1 else 0
  }

  /** The number of characters the literal occupies. */
  function Width(l: Literal): nat {
    SignWidth(l) + l.digits + (if l.fraction == 0 then 0 else 1 + l.fraction)
  }

  /** Position `i` of `s` starts a literal of shape `l`: an optional minus
      sign, at least one digit, and, when there is a fraction, a point
      followed by at least one digit. */
  predicate LiteralAt(s: string, i: nat, l: Literal) {
    var d := i + SignWidth(l);
    var p := d + l.digits;
    && 0 < l.digits
    && i + Width(l) <= |s|
    && (l.negative ==> s[i] == '-')
    && Span(s, d, p, Digit)
    && (0 < l.fraction ==> s[p] == '.' && Span(s, p + 1, p + 1 + l.fraction, Digit))
  }

  /** A literal starts with `-` exactly when it is negative, and otherwise
      with a digit. */
  lemma {:induction false} LiteralStart(s: string, i: nat, l: Literal)
    requires LiteralAt(s, i, l)
    ensures i < |s|
    ensures s[i] == '-' <==> l.negative
    ensures !l.negative ==> In(s[i], Digit)
  {
    if !l.negative {
      assert InAt(s, i, Digit);
    }
  }

  /** What `-?\d+(\.\d+)?` consumes greedily at position `i`, if anything. */
  function Number(s: string, i: nat): (r: Option<Literal>)
    requires i <= |s|
    ensures r.Some? ==> LiteralAt(s, i, r.value)
    ensures r.Some? <==> Run(s, if i < |s| && s[i] == '-' then i + 1 else i, Digit) > 0
  {
    var d := if i < |s| && s[i] == '-' then i + 1 else i;
    var w := Run(s, d, Digit);
    if w == 0 then
      None
    else
      var p := d + w;
      var f := if p < |s| && s[p] == '.' then Run(s, p + 1, Digit) else 0;
      Some(Literal(d == i + 1, w, f))
  }

  /** The position just after a literal that no longer part of it could
      extend: the end of the query, or a character that is neither a digit
      nor a decimal point. */
  predicate Boundary(s: string, p: nat)
    requires p <= |s|
  {
    p == |s| || (!In(s[p], Digit) && s[p] != '.')
  }

  /** The greedy literal at `i` is at least as long as any literal there; it
      is that literal when that one ends at a boundary, and whenever the two
      have the same width. */
  lemma {:induction false} NumberGreedy(s: string, i: nat, l: Literal)
    requires LiteralAt(s, i, l)
    ensures Number(s, i).Some?
    ensures Width(l) <= Width(Number(s, i).value)
    ensures Boundary(s, i + Width(l)) ==> Number(s, i) == Some(l)
    ensures Width(l) == Width(Number(s, i).value) ==> Number(s, i) == Some(l)
  {
    LiteralStart(s, i, l);
    var d := i + SignWidth(l);
    RunMaximal(s, d, l.digits, Digit);
    var g := Number(s, i).value;
    assert g.negative == l.negative && g.digits == Run(s, d, Digit);
    if l.digits < g.digits {
      SpanAt(s, d, d + g.digits, Digit, d + l.digits);
      assert l.fraction == 0;
    } else {
      NumberFraction(s, i, l);
    }
  }

  /** When the greedy integer digits are those of `l`, the greedy fraction
      is at least as long as that of `l`, and longer only when a digit or a
      point follows `l`. */
  lemma {:induction false} NumberFraction(s: string, i: nat, l: Literal)
    requires LiteralAt(s, i, l)
    requires Run(s, i + SignWidth(l), Digit) == l.digits
    requires Number(s, i).Some? && Number(s, i).value.negative == l.negative
    ensures Number(s, i).value.digits == l.digits
    ensures l.fraction <= Number(s, i).value.fraction
    ensures l.fraction < Number(s, i).value.fraction ==> !Boundary(s, i + Width(l))
  {
    var p := i + SignWidth(l) + l.digits;
    var f := Number(s, i).value.fraction;
    if 0 < l.fraction {
      RunMaximal(s, p + 1, l.fraction, Digit);
      assert f == Run(s, p + 1, Digit);
      if l.fraction < f {
        SpanAt(s, p + 1, p + 1 + f, Digit, p + 1 + l.fraction);
      }
    }
  }

  /** Where one match of the whole pattern lies in the query: its start,
      the widths of the three `\s*` runs, and the two literals. */
  datatype Match = Match(start: nat, lead: nat, lat: Literal, gap: nat, pad: nat, lng: Literal)

  function LatAt(m: Match): nat { m.start + m.lead }
  function CommaAt(m: Match): nat { LatAt(m) + Width(m.lat) + m.gap }
  function LngAt(m: Match): nat { CommaAt(m) + 1 + m.pad }
  function End(m: Match): nat { LngAt(m) + Width(m.lng) }

  /** `m` is a match of the pattern in `s`: from `m.start` the query holds
      whitespace, the first literal, whitespace, a comma, whitespace and the
      second literal. This is the declarative reading of the pattern. */
  predicate Spells(s: string, m: Match) {
    Head(s, m) && Tail(s, m)
  }

  /** The leading whitespace and the first literal of a match. */
  predicate Head(s: string, m: Match) {
    && LatAt(m) + Width(m.lat) <= |s|
    && Span(s, m.start, LatAt(m), Space)
    && LiteralAt(s, LatAt(m), m.lat)
  }

  /** The rest of a match: whitespace, the comma, whitespace, the second
      literal. */
  predicate Tail(s: string, m: Match) {
    && End(m) <= |s|
    && Span(s, LatAt(m) + Width(m.lat), CommaAt(m), Space)
    && s[CommaAt(m)] == ','
    && Span(s, CommaAt(m) + 1, LngAt(m), Space)
    && LiteralAt(s, LngAt(m), m.lng)
  }

  /** The pattern tried at start position `p`, every quantifier greedy. */
  function MatchAt(s: string, p: nat): (r: Option<Match>)
    requires p <= |s|
    ensures r.Some? ==> Spells(s, r.value) && r.value.start == p
  {
    var lead := Run(s, p, Space);
    match Number(s, p + lead)
    case None => None
    case Some(lat) => MatchAfter(s, p, lead, lat)
  }

  /** The rest of the greedy attempt at `p`, once `lead` whitespace
      characters and the first literal have been consumed: whitespace, a
      comma, whitespace and the second literal. */
  function MatchAfter(s: string, p: nat, lead: nat, lat: Literal): (r: Option<Match>)
    requires p + lead + Width(lat) <= |s|
    ensures r.Some? ==> Tail(s, r.value)
    ensures r.Some? ==> r.value.start == p && r.value.lead == lead && r.value.lat == lat
  {
    var q := p + lead + Width(lat);
    var gap := Run(s, q, Space);
    var c := q + gap;
    if c < |s| && s[c] == ',' then
      var pad := Run(s, c + 1, Space);
      match Number(s, c + 1 + pad)
      case None => None
      case Some(lng) => Some(Match(p, lead, lat, gap, pad, lng))
    else
      None
  }

  /** The leading whitespace of a match is maximal and its first literal is
      the greedy one, so the greedy attempt at its start reaches the comma
      part with the same prefix. */
  lemma {:induction false} MatchHead(s: string, m: Match)
    requires Spells(s, m)
    ensures MatchAt(s, m.start) == MatchAfter(s, m.start, m.lead, m.lat)
  {
    LiteralStart(s, LatAt(m), m.lat);
    RunExact(s, m.start, m.lead, Space);
    var q := LatAt(m) + Width(m.lat);
    assert Boundary(s, q) by {
      if m.gap > 0 {
        SpanAt(s, q, CommaAt(m), Space, q);
      }
    }
    NumberGreedy(s, LatAt(m), m.lat);
    MatchAtUnfold(s, m.start, m.lead, m.lat);
  }

  lemma {:induction false} MatchAtUnfold(s: string, p: nat, lead: nat, lat: Literal)
    requires p <= |s| && Run(s, p, Space) == lead && Number(s, p + lead) == Some(lat)
    ensures MatchAt(s, p) == MatchAfter(s, p, lead, lat)
  {
  }

  /** The two whitespace runs around the comma of a match are maximal, so
      the rest of the greedy attempt only differs in the second literal,
      which it reads greedily. */
  lemma {:induction false} MatchTail(s: string, m: Match)
    requires Spells(s, m)
    ensures Number(s, LngAt(m)).Some?
    ensures MatchAfter(s, m.start, m.lead, m.lat) == Some(m.(lng := Number(s, LngAt(m)).value))
  {
    RunExact(s, LatAt(m) + Width(m.lat), m.gap, Space);
    LiteralStart(s, LngAt(m), m.lng);
    RunExact(s, CommaAt(m) + 1, m.pad, Space);
    NumberGreedy(s, LngAt(m), m.lng);
    var n := m.(lng := Number(s, LngAt(m)).value);
    assert LatAt(n) == LatAt(m) && CommaAt(n) == CommaAt(m) && LngAt(n) == LngAt(m);
    MatchAfterUnfold(s, n);
  }

  /** The greedy attempt after the first literal of `m` reproduces `m` when
      each of its greedy steps stops where `m` says. */
  lemma {:induction false} MatchAfterUnfold(s: string, m: Match)
    requires CommaAt(m) < |s| && s[CommaAt(m)] == ','
    requires Run(s, LatAt(m) + Width(m.lat), Space) == m.gap
    requires Run(s, CommaAt(m) + 1, Space) == m.pad
    requires Number(s, LngAt(m)) == Some(m.lng)
    ensures MatchAfter(s, m.start, m.lead, m.lat) == Some(m)
  {
  }

  /** Every match at a start position is found by the greedy attempt there,
      which agrees with it up to the second literal and reaches at least as
      far; when it reaches exactly as far, it is that match. */
  lemma {:induction false} MatchAtComplete(s: string, m: Match)
    requires Spells(s, m)
    ensures MatchAt(s, m.start).Some?
    ensures MatchAt(s, m.start).value.lat == m.lat
    ensures End(m) <= End(MatchAt(s, m.start).value)
    ensures End(m) == End(MatchAt(s, m.start).value) ==> MatchAt(s, m.start) == Some(m)
  {
    MatchHead(s, m);
    MatchTail(s, m);
    NumberGreedy(s, LngAt(m), m.lng);
  }

  /** The greedy attempts from `p` onwards, leftmost first: the loop of
      RegExpBuiltinExec (section 22.2.7.2 of ECMA-262) for a pattern
      without the global and sticky flags, which runs the matcher at
      `lastIndex` and, when it fails, moves `lastIndex` one character on.

      The loop is written as three mutually recursive functions, `FindFrom`,
      `Scan` and `TryAt`, of which only the last runs the matcher. The
      verifier unfolds a recursive call only a bounded number of times, so
      proofs that mention `FindFrom` at several positions do not unfold the
      whole matcher at each of them. */
  function FindFrom(s: string, p: nat): (r: Option<Match>)
    requires p <= |s|
    ensures r.Some? ==> Spells(s, r.value) && p <= r.value.start
    decreases |s| - p, 2
  {
    Scan(s, p)
  }

  function Scan(s: string, p: nat): (r: Option<Match>)
    requires p <= |s|
    ensures r.Some? ==> Spells(s, r.value) && p <= r.value.start
    decreases |s| - p, 1
  {
    TryAt(s, p)
  }

  /** One iteration of the loop: the attempt at `p`, and on failure the
      search from `p + 1`, while there is one. */
  function TryAt(s: string, p: nat): (r: Option<Match>)
    requires p <= |s|
    ensures r.Some? ==> Spells(s, r.value) && p <= r.value.start
    decreases |s| - p, 0
  {
    match MatchAt(s, p)
    case Some(m) => Some(m)
    case None => if p < |s| then FindFrom(s, p + 1) else None
  }

  /** `f` starts before `m`, or at the same place and reaches at least as
      far, being `m` itself when it reaches exactly as far. */
  predicate Precedes(f: Match, m: Match) {
    || f.start < m.start
    || (f.start == m.start && End(m) <= End(f) && (End(m) == End(f) ==> f == m))
  }

  /** No match starts before the one `FindFrom` returns, and at its start no
      match reaches further. */
  lemma {:induction false} FindLeftmost(s: string, p: nat, m: Match)
    requires Spells(s, m) && p <= m.start
    ensures FindFrom(s, p).Some? && Precedes(FindFrom(s, p).value, m)
  {
    FindAtStart(s, m);
    FindBefore(s, p, m.start);
  }

  /** Searching from further left finds a match that starts further left,
      or the same one. */
  lemma {:induction false} FindBefore(s: string, p: nat, q: nat)
    requires p <= q <= |s| && FindFrom(s, q).Some?
    ensures FindFrom(s, p).Some?
    ensures FindFrom(s, p).value.start < q || FindFrom(s, p) == FindFrom(s, q)
    decreases q - p
  {
    if p < q {
      FindFromStep(s, p);
      if FindFrom(s, p) == FindFrom(s, p + 1) {
        FindBefore(s, p + 1, q);
      }
    }
  }

  lemma {:induction false} FindAtStart(s: string, m: Match)
    requires Spells(s, m)
    ensures FindFrom(s, m.start).Some? && Precedes(FindFrom(s, m.start).value, m)
  {
    MatchAtComplete(s, m);
    FindFromFirst(s, m.start);
  }

  /** The search from `p` either succeeds at `p` or continues from `p + 1`. */
  lemma {:induction false} FindFromStep(s: string, p: nat)
    requires p < |s|
    ensures || (FindFrom(s, p).Some? && FindFrom(s, p).value.start == p)
            || FindFrom(s, p) == FindFrom(s, p + 1)
  {
    assert FindFrom(s, p) == Scan(s, p) == TryAt(s, p);
  }

  /** A successful attempt at `p` is what the search from `p` returns. */
  lemma {:induction false} FindFromFirst(s: string, p: nat)
    requires p <= |s| && MatchAt(s, p).Some?
    ensures FindFrom(s, p) == MatchAt(s, p)
  {
    assert FindFrom(s, p) == Scan(s, p) == TryAt(s, p);
  }

  /** The match JavaScript reports: the leftmost one, and the longest at
      that start. */
  ghost predicate FirstMatch(s: string, m: Match) {
    Spells(s, m) &&
    forall o :: Spells(s, o) ==> m.start < o.start || (m.start == o.start && End(o) <= End(m))
  }

  /** A decimal literal as a capture group holds it: its sign, its integer
      digits and its fraction digits (empty when there is no fraction). */
  datatype Decimal = Decimal(negative: bool, whole: string, frac: string)

  predicate WellFormed(d: Decimal) {
    |d.whole| > 0 && AllIn(d.whole, Digit) && AllIn(d.frac, Digit)
  }

  /** The characters of the literal, as written. */
  function Text(d: Decimal): string {
    (if d.negative then "-" else "") + d.whole + (if d.frac == "" then "" else "." + d.frac)
  }

  /** The number a digit character stands for. */
  function DigitValue(c: char): (n: nat)
    requires In(c, Digit)
    ensures n < 10
  {
    (c - '0') as nat
  }

  /** The number a string of decimal digits denotes, most significant
      digit first. */
  function DigitsValue(t: string): nat
    requires AllIn(t, Digit)
  {
    if t == [] then 0 else 10 * DigitsValue(t[..|t| - 1]) + DigitValue(t[|t| - 1])
  }

  function Pow10(n: nat): (p: nat)
    ensures 0 < p
  {
    if n == 0 then 1 else 10 * Pow10(n - 1)
  }

  /** `n` digits denote a number below `10^n`. */
  lemma {:induction false} DigitsBound(t: string)
    requires AllIn(t, Digit)
    ensures DigitsValue(t) < Pow10(|t|)
  {
    if t != [] {
      var u := t[..|t| - 1];
      DigitsBound(u);
      assert DigitsValue(t) == 10 * DigitsValue(u) + DigitValue(t[|t| - 1]);
    }
  }

  /** A proper fraction `a / b` of naturals lies in [0, 1). */
  function Ratio(a: nat, b: nat): (q: real)
    requires a < b
    ensures 0.0 <= q < 1.0
  {
    a as real / b as real
  }

  /** The exact value of a decimal literal: the number `parseFloat` rounds
      to the nearest double. */
  function Value(d: Decimal): (v: real)
    requires WellFormed(d)
    ensures v < 0.0 ==> d.negative
    ensures d.negative ==> v <= 0.0
    ensures var a := if v < 0.0 then -v else v;
      DigitsValue(d.whole) as real <= a < (DigitsValue(d.whole) + 1) as real
  {
    DigitsBound(d.frac);
    var f := Ratio(DigitsValue(d.frac), Pow10(|d.frac|));
    var a := DigitsValue(d.whole) as real + f;
    if d.negative then -a else a
  }

  /** A zero written after the last fraction digit leaves the value as
      it is: `1.50` and `1.5` denote the same number. */
  lemma {:induction false} TrailingZero(d: Decimal)
    requires WellFormed(d)
    ensures WellFormed(d.(frac := d.frac + "0"))
    ensures Value(d.(frac := d.frac + "0")) == Value(d)
  {
    var e := d.(frac := d.frac + "0");
    assert AllIn(e.frac, Digit) by {
      forall i | 0 <= i < |e.frac|
        ensures In(e.frac[i], Digit)
      {
        if i < |d.frac| {
          assert e.frac[i] == d.frac[i];
        }
      }
    }
    assert e.frac[..|e.frac| - 1] == d.frac;
    assert DigitsValue(e.frac) == 10 * DigitsValue(d.frac);
    assert Pow10(|e.frac|) == 10 * Pow10(|d.frac|);
    DigitsBound(d.frac);
    RatioScale(DigitsValue(d.frac), Pow10(|d.frac|));
  }

  /** A literal without fraction digits denotes its integer digits, with
      its sign. */
  lemma {:induction false} NoFraction(d: Decimal)
    requires WellFormed(d) && d.frac == ""
    ensures Value(d) == if d.negative then -(DigitsValue(d.whole) as real) else DigitsValue(d.whole) as real
  {
    assert Ratio(DigitsValue(d.frac), Pow10(|d.frac|)) == 0.0;
  }

  /** The minus sign negates the value of the digits after it. */
  lemma {:induction false} SignNegates(d: Decimal)
    requires WellFormed(d)
    ensures Value(d.(negative := true)) == -Value(d.(negative := false))
  {
  }

  /** Each further fraction digit `c` adds `c / 10^k` to the magnitude,
      where `k` is its place after the point. With `NoFraction` this fixes
      the value of every literal, digit by digit. */
  lemma {:induction false} FractionDigit(d: Decimal, c: char)
    requires WellFormed(d) && In(c, Digit)
    ensures WellFormed(d.(frac := d.frac + [c]))
    ensures var x := DigitValue(c) as real / Pow10(|d.frac| + 1) as real;
      Value(d.(frac := d.frac + [c])) == if d.negative then Value(d) - x else Value(d) + x
  {
    var e := d.(frac := d.frac + [c]);
    assert AllIn(e.frac, Digit) by {
      forall i | 0 <= i < |e.frac|
        ensures In(e.frac[i], Digit)
      {
        if i < |d.frac| {
          assert e.frac[i] == d.frac[i];
        }
      }
    }
    assert e.frac[..|e.frac| - 1] == d.frac;
    assert DigitsValue(e.frac) == 10 * DigitsValue(d.frac) + DigitValue(c);
    assert Pow10(|e.frac|) == 10 * Pow10(|d.frac|);
    DigitsBound(d.frac);
    RatioDigit(DigitsValue(d.frac), Pow10(|d.frac|), DigitValue(c));
  }

  /** Appending a digit `c` to the numerator of a proper fraction with a
      denominator scaled by ten adds `c` tenths of the denominator's unit. */
  lemma {:induction false} RatioDigit(a: nat, b: nat, c: nat)
    requires a < b && c < 10
    ensures 10 * a + c < 10 * b
    ensures Ratio(10 * a + c, 10 * b) == Ratio(a, b) + c as real / (10 * b) as real
  {
    var x, y, z := a as real, b as real, c as real;
    assert (10 * a + c) as real == 10.0 * x + z && (10 * b) as real == 10.0 * y;
    assert (10.0 * x + z) / (10.0 * y) == x / y + z / (10.0 * y);
  }

  /** Scaling both terms of a proper fraction by ten keeps its value. */
  lemma {:induction false} RatioScale(a: nat, b: nat)
    requires a < b
    ensures Ratio(10 * a, 10 * b) == Ratio(a, b)
  {
    var x, y := a as real, b as real;
    assert (10 * a) as real == 10.0 * x && (10 * b) as real == 10.0 * y;
    assert (10.0 * x) / (10.0 * y) == x / y;
  }

  /** The capture group of a literal: its digits cut out of the query. */
  function Capture(s: string, i: nat, l: Literal): (d: Decimal)
    requires LiteralAt(s, i, l)
    ensures WellFormed(d)
    ensures d.negative == l.negative && |d.whole| == l.digits && |d.frac| == l.fraction
  {
    var w := i + SignWidth(l);
    var p := w + l.digits;
    SpanSlice(s, w, p, Digit);
    var frac := if l.fraction == 0 then "" else (SpanSlice(s, p + 1, p + 1 + l.fraction, Digit); s[p + 1..p + 1 + l.fraction]);
    Decimal(l.negative, s[w..p], frac)
  }

  /** A capture group holds exactly the characters its literal occupies. */
  lemma {:induction false} CaptureText(s: string, i: nat, l: Literal)
    requires LiteralAt(s, i, l)
    ensures Text(Capture(s, i, l)) == s[i..i + Width(l)]
  {
    var w := i + SignWidth(l);
    var p := w + l.digits;
    var e := i + Width(l);
    var d := Capture(s, i, l);
    assert d.whole == s[w..p];
    assert d.frac == (if p == e then "" else s[p + 1..e]);
    Reassemble(s, i, w, p, e, l.negative);
  }

  /** An optional minus sign, the digits from `w` to `p` and, when the text
      goes on past `p`, a point and the digits after it, put back together,
      are the text from `i` to `e`. */
  lemma {:induction false} Reassemble(s: string, i: nat, w: nat, p: nat, e: nat, negative: bool)
    requires i <= w <= p <= e <= |s|
    requires w == i + (if negative then 1 else 0) && (negative ==> s[i] == '-')
    requires p < e ==> s[p] == '.'
    ensures (if negative then "-" else "") + s[w..p] + (if p == e then "" else "." + s[p + 1..e]) == s[i..e]
  {
    assert s[i..w] == (if negative then "-" else "");
    assert s[i..p] == s[i..w] + s[w..p];
    if p < e {
      assert s[p..e] == "." + s[p + 1..e];
      assert s[i..e] == s[i..p] + s[p..e];
    }
  }

  /** The two capture groups of a match: groups 1 and 3 of the pattern. */
  function Captures(s: string, m: Match): (r: (Decimal, Decimal))
    requires Spells(s, m)
    ensures WellFormed(r.0) && WellFormed(r.1)
    ensures Text(r.0) == s[LatAt(m)..LatAt(m) + Width(m.lat)]
    ensures Text(r.1) == s[LngAt(m)..LngAt(m) + Width(m.lng)]
  {
    CaptureText(s, LatAt(m), m.lat);
    CaptureText(s, LngAt(m), m.lng);
    (Capture(s, LatAt(m), m.lat), Capture(s, LngAt(m), m.lng))
  }

  /** `query.match(...)` followed by reading capture groups 1 and 3. */
  function Recognise(query: string): (r: Option<(Decimal, Decimal)>)
    ensures r.Some? ==> WellFormed(r.value.0) && WellFormed(r.value.1)
  {
    match FindFrom(query, 0)
    case None => None
    case Some(m) => Some(Captures(query, m))
  }

  /** A query is recognised as coordinates exactly when some part of it
      matches the pattern, whatever text surrounds that part. */
  lemma {:induction false} RecogniseIffMatch(query: string)
    ensures Recognise(query).Some? <==> exists m :: Spells(query, m)
  {
    if exists m :: Spells(query, m) {
      var m :| Spells(query, m);
      FindLeftmost(query, 0, m);
    }
  }

  /** The first match is unique, and the literals recognised are its
      capture groups. */
  lemma {:induction false} RecogniseFirstMatch(query: string, m: Match)
    requires FirstMatch(query, m)
    ensures Recognise(query) == Some(Captures(query, m))
  {
    FindLeftmost(query, 0, m);
    var f := FindFrom(query, 0).value;
    assert Spells(query, f);
  }

  /** Whatever `Recognise` returns comes from the first match. */
  lemma {:induction false} RecogniseHasFirstMatch(query: string)
    requires Recognise(query).Some?
    ensures exists m :: FirstMatch(query, m) && Recognise(query) == Some(Captures(query, m))
  {
    var f := FindFrom(query, 0).value;
    forall o | Spells(query, o)
      ensures f.start < o.start || (f.start == o.start && End(o) <= End(f))
    {
      FindLeftmost(query, 0, o);
    }
    assert FirstMatch(query, f);
  }

  /** The pattern is not anchored: a query is recognised whenever any part
      of it is, whatever text comes before and after that part, so an
      address such as "Weg 5, 10115 Berlin" reads as the coordinates
      (5, 10115). */
  lemma {:induction false} RecogniseEmbedded(pre: string, t: string, post: string)
    requires Recognise(t).Some?
    ensures Recognise(pre + t + post).Some?
  {
    RecogniseIffMatch(t);
    var m :| Spells(t, m);
    MatchShift(pre, t, post, m);
    RecogniseIffMatch(pre + t + post);
  }

  /** A match inside `t` is a match inside any text around `t`. */
  lemma {:induction false} MatchShift(pre: string, t: string, post: string, m: Match)
    requires Spells(t, m)
    ensures Spells(pre + t + post, m.(start := |pre| + m.start))
  {
    HeadShift(pre, t, post, m);
    TailShift(pre, t, post, m);
  }

  lemma {:induction false} HeadShift(pre: string, t: string, post: string, m: Match)
    requires Head(t, m)
    ensures Head(pre + t + post, m.(start := |pre| + m.start))
  {
    var n := m.(start := |pre| + m.start);
    assert LatAt(n) == |pre| + LatAt(m);
    SpanShift(pre, t, post, m.start, LatAt(m), Space);
    LiteralShift(pre, t, post, LatAt(m), m.lat);
  }

  lemma {:induction false} TailShift(pre: string, t: string, post: string, m: Match)
    requires Tail(t, m)
    ensures Tail(pre + t + post, m.(start := |pre| + m.start))
  {
    var n := m.(start := |pre| + m.start);
    var u := pre + t + post;
    assert LatAt(n) == |pre| + LatAt(m) && CommaAt(n) == |pre| + CommaAt(m);
    SpanShift(pre, t, post, LatAt(m) + Width(m.lat), CommaAt(m), Space);
    assert u[CommaAt(n)] == t[CommaAt(m)];
    SpanShift(pre, t, post, CommaAt(m) + 1, LngAt(m), Space);
    LiteralShift(pre, t, post, LngAt(m), m.lng);
  }

  lemma {:induction false} LiteralShift(pre: string, t: string, post: string, i: nat, l: Literal)
    requires LiteralAt(t, i, l)
    ensures LiteralAt(pre + t + post, |pre| + i, l)
  {
    var u := pre + t + post;
    var d := i + SignWidth(l);
    var p := d + l.digits;
    if l.negative {
      assert u[|pre| + i] == t[i];
    }
    SpanShift(pre, t, post, d, p, Digit);
    if 0 < l.fraction {
      assert u[|pre| + p] == t[p];
      SpanShift(pre, t, post, p + 1, p + 1 + l.fraction, Digit);
    }
  }

  lemma {:induction false} SpanShift(pre: string, t: string, post: string, lo: nat, hi: nat, k: Class)
    requires Span(t, lo, hi, k)
    ensures Span(pre + t + post, |pre| + lo, |pre| + hi, k)
  {
    var u := pre + t + post;
    forall j | |pre| + lo <= j < |pre| + hi
      ensures InAt(u, j, k)
    {
      assert u[j] == t[j - |pre|];
      SpanAt(t, lo, hi, k, j - |pre|);
    }
  }
}
