/**
 The scanner of `benchmarks/claim_gate.py`: masks that keep every offset, the line search, and
 the binding of a citation marker to the number before it. Regular expressions are functions
 from a text to the spans they match.
 */
module ClaimGate {
  import opened Sets

  datatype Span = Span(start: nat, end: nat)

  type Finder = string -> seq<Span>

  /** What `finditer` yields: spans in order that do not overlap. */
  ghost predicate Ordered(spans: seq<Span>, length: nat) {
    && (forall k :: 0 <= k < |spans| ==> spans[k].start <= spans[k].end <= length)
    && (forall k :: 0 <= k < |spans| - 1 ==> spans[k].end <= spans[k + 1].start)
  }

  // ---------------------------------------------------------------- masking

  function Spaces(n: nat): (s: string)
    ensures |s| == n && forall i :: 0 <= i < n ==> s[i] == ' '
  {
    seq(n, _ => ' ')
  }

  /** `re.sub` with a blank of the match's length, on what follows offset `from`. */
  function Sub(text: string, spans: seq<Span>, from: nat): string
    requires from <= |text| && Ordered(spans, |text|) && (spans != [] ==> from <= spans[0].start)
    decreases |spans|
  {
    if spans == [] then text[from..]
    else text[from..spans[0].start] + Spaces(spans[0].end - spans[0].start) + Sub(text, spans[1..], spans[0].end)
  }

  ghost predicate Covered(spans: seq<Span>, i: nat) {
    exists k :: 0 <= k < |spans| && spans[k].start <= i < spans[k].end
  }

  lemma {:induction false} OrderedAhead(spans: seq<Span>, length: nat, k: nat)
    requires Ordered(spans, length) && k < |spans|
    ensures spans[0].end <= spans[k].start || k == 0
  {
    if k > 1 {
      OrderedAhead(spans, length, k - 1);
      assert spans[k - 1].end <= spans[k - 1 + 1].start;
    }
  }

  /** Substitution keeps the length, blanks the matches and leaves every other offset alone. */
  lemma {:induction false} SubKeepsOffsets(text: string, spans: seq<Span>, from: nat)
    requires from <= |text| && Ordered(spans, |text|) && (spans != [] ==> from <= spans[0].start)
    ensures |Sub(text, spans, from)| == |text| - from
    ensures forall i :: from <= i < |text| ==>
      Sub(text, spans, from)[i - from] == if Covered(spans, i) then ' ' else text[i]
    decreases |spans|
  {
    if spans != [] {
      var first, rest := spans[0], spans[1..];
      assert forall k :: 0 <= k < |rest| ==> rest[k] == spans[k + 1];
      SubKeepsOffsets(text, rest, first.end);
      forall i | from <= i < |text|
        ensures Sub(text, spans, from)[i - from] == if Covered(spans, i) then ' ' else text[i]
      {
        if i < first.end {
          forall k | 0 <= k < |spans| ensures spans[k].start <= i < spans[k].end ==> k == 0 {
            OrderedAhead(spans, |text|, k);
          }
        } else {
          assert Sub(text, spans, from)[i - from] == Sub(text, rest, first.end)[i - first.end];
          if Covered(spans, i) {
            var k :| 0 <= k < |spans| && spans[k].start <= i < spans[k].end;
            assert rest[k - 1] == spans[k];
          }
          if Covered(rest, i) {
            var k :| 0 <= k < |rest| && rest[k].start <= i < rest[k].end;
            assert spans[k + 1] == rest[k];
          }
        }
      }
    }
  }

  ghost predicate Reliable(find: Finder) {
    forall t: string :: Ordered(find(t), |t|)
  }

  ghost predicate AllReliable(rows: seq<Finder>) {
    forall k :: 0 <= k < |rows| ==> Reliable(rows[k])
  }

  /** The mask has the text's length and differs from it only by blanks. */
  ghost predicate Masks(masked: string, text: string) {
    |masked| == |text| && forall i :: 0 <= i < |text| ==> masked[i] == text[i] || masked[i] == ' '
  }

  /** Each row of the table works on what the rows before it left. */
  ghost function MaskOf(text: string, rows: seq<Finder>): (masked: string)
    requires AllReliable(rows)
    ensures Masks(masked, text)
  {
    if rows == [] then text
    else
      var n := |rows| - 1;
      var before := MaskOf(text, rows[..n]);
      assert Reliable(rows[n]);
      SubMasks(text, before, rows[n](before));
      Sub(before, rows[n](before), 0)
  }

  lemma SubMasks(text: string, masked: string, spans: seq<Span>)
    requires Masks(masked, text) && Ordered(spans, |masked|)
    ensures Masks(Sub(masked, spans, 0), text)
  {
    SubKeepsOffsets(masked, spans, 0);
    hide Sub, Covered;
  }

  /** Some row matches at offset i. */
  ghost predicate Blanked(text: string, rows: seq<Finder>, i: nat)
    requires AllReliable(rows)
  {
    rows != [] &&
    var n := |rows| - 1;
    Blanked(text, rows[..n], i) || Covered(rows[n](MaskOf(text, rows[..n])), i)
  }

  /** The mask is the text with a blank wherever a row matches. */
  lemma {:induction false} MaskIsExact(text: string, rows: seq<Finder>, i: nat)
    requires AllReliable(rows) && i < |text|
    ensures MaskOf(text, rows)[i] == if Blanked(text, rows, i) then ' ' else text[i]
  {
    if rows != [] {
      var n := |rows| - 1;
      var before := MaskOf(text, rows[..n]);
      assert Reliable(rows[n]);
      MaskIsExact(text, rows[..n], i);
      SubKeepsOffsets(before, rows[n](before), 0);
      hide Covered, Sub;
    }
  }

  /** `mask_excluded`, and `mask_code_only` with fewer rows. */
  method Mask(text: string, rows: seq<Finder>) returns (masked: string)
    requires AllReliable(rows)
    ensures masked == MaskOf(text, rows) && Masks(masked, text)
  {
    masked := text;
    for k := 0 to |rows|
      invariant masked == MaskOf(text, rows[..k])
    {
      assert rows[..k + 1][..k] == rows[..k];
      assert Reliable(rows[k]);
      masked := Sub(masked, rows[k](masked), 0);
    }
    assert rows[..|rows|] == rows;
  }

  // ---------------------------------------------------------------- lines

  function Newlines(text: string, n: nat): nat
    requires n <= |text|
  {
    if n == 0 then 0 else Newlines(text, n - 1) + if text[n - 1] == '\n' then 1 else 0
  }

  function Starts(text: string, n: nat): seq<nat>
    requires n <= |text|
  {
    if n == 0 then [0] else Starts(text, n - 1) + if text[n - 1] == '\n' then [n] else []
  }

  method LineStarts(text: string) returns (starts: seq<nat>)
    ensures starts == Starts(text, |text|)
  {
    starts := [0];
    for index := 0 to |text|
      invariant starts == Starts(text, index)
    {
      if text[index] == '\n' { starts := starts + [index + 1]; }
    }
  }

  lemma {:induction false} StartsCount(text: string, n: nat)
    requires n <= |text|
    ensures |Starts(text, n)| == 1 + Newlines(text, n)
    ensures forall k :: 0 <= k < |Starts(text, n)| ==> Starts(text, n)[k] <= n
  {
    if n > 0 { StartsCount(text, n - 1); }
  }

  /** The starts up to an offset are the ones its prefix already has. */
  lemma {:induction false} StartsUpTo(text: string, offset: nat, n: nat)
    requires offset <= n <= |text|
    ensures Starts(text, offset) <= Starts(text, n)
    ensures forall k :: |Starts(text, offset)| <= k < |Starts(text, n)| ==> offset < Starts(text, n)[k]
  {
    if offset < n { StartsUpTo(text, offset, n - 1); }
  }

  lemma {:induction false} NewlinesExactly(text: string, n: nat)
    requires n <= |text|
    ensures Newlines(text, n) == |set i: nat | i < n && text[i] == '\n'|
  {
    var now := set i: nat | i < n && text[i] == '\n';
    if n == 0 {
      assert now == {};
    } else {
      NewlinesExactly(text, n - 1);
      var before := set i: nat | i < n - 1 && text[i] == '\n';
      OneMore(before, now, n - 1, text[n - 1] == '\n');
    }
  }

  function Line(text: string, offset: nat): nat
    requires offset <= |text|
  {
    1 + Newlines(text, offset)
  }

  /** `_line_of`: the binary search returns one more than the number of newlines before the offset. */
  method LineOf(text: string, offset: nat, starts: seq<nat>) returns (line: nat)
    requires offset <= |text| && starts == Starts(text, |text|)
    ensures line == Line(text, offset) == 1 + |set i: nat | i < offset && text[i] == '\n'|
  {
    LineExactly(text, offset);
    StartsCount(text, offset);
    StartsUpTo(text, offset, |text|);
    hide Starts, Newlines;
    ghost var last := Newlines(text, offset);
    assert forall k :: 0 <= k < |starts| ==> (starts[k] <= offset <==> k <= last);
    var low, high := 0, |starts| - 1;
    while low < high
      invariant 0 <= low <= last <= high < |starts|
    {
      var mid := (low + high + 1) / 2;
      if starts[mid] <= offset { low := mid; } else { high := mid - 1; }
    }
    return low + 1;
  }

  lemma LineExactly(text: string, offset: nat)
    requires offset <= |text|
    ensures Line(text, offset) == 1 + |set i: nat | i < offset && text[i] == '\n'|
  {
    NewlinesExactly(text, offset);
  }

  lemma {:induction false} SameLine(text: string, a: nat, b: nat)
    requires a <= b <= |text| && forall i :: a <= i < b ==> text[i] != '\n'
    ensures Line(text, a) == Line(text, b)
  {
    if a < b { SameLine(text, a, b - 1); }
  }

  // ---------------------------------------------------------------- signs

  predicate AsciiAlnum(c: char) {
    '0' <= c <= '9' || 'a' <= c <= 'z' || 'A' <= c <= 'Z'
  }

  predicate SignIsReal(text: string, start: nat)
    requires start <= |text|
  {
    start == 0 || !AsciiAlnum(text[start - 1])
  }

  /** A consumed sign that is not real moves the start of the number past it; the end never moves. */
  function Number(text: string, masked: string, token: Span): Span
    requires token.start < |masked| && |masked| == |text|
  {
    if masked[token.start] in "-\U{2212}" && !SignIsReal(text, token.start)
    then Span(token.start + 1, token.end) else token
  }

  /** The token loses its first character exactly when that is a minus glued to an ASCII letter or digit. */
  ghost predicate IsNumber(text: string, masked: string, token: Span, number: Span)
    requires token.start < |masked| && |masked| == |text|
  {
    && number.end == token.end && token.start <= number.start <= token.start + 1
    && (number.start == token.start + 1 <==>
      && (masked[token.start] == '-' || masked[token.start] == '\U{2212}') && token.start > 0
      && var before := text[token.start - 1];
         '0' <= before <= '9' || 'a' <= before <= 'z' || 'A' <= before <= 'Z')
  }

  // ---------------------------------------------------------------- binding

  datatype Bound = Unmarked | Marked(at: nat)

  /** `_marker_for`, from the k-th marker on; `others` holds the starts of the other numbers. */
  function MarkerFor(text: string, end: nat, line: nat, markers: seq<nat>, others: set<nat>, k: nat): Bound
    requires k <= |markers| && forall m :: m in markers ==> m <= |text|
    decreases |markers| - k
  {
    if k == |markers| then Unmarked
    else
      var start := markers[k];
      assert start in markers;
      if start < end || Line(text, start) != line then MarkerFor(text, end, line, markers, others, k + 1)
      else if exists s :: s in others && end < s < start then Unmarked
      else Marked(start)
  }

  function OtherStarts(numbers: seq<Span>, start: nat): set<nat> {
    set k | 0 <= k < |numbers| && numbers[k].start != start :: numbers[k].start
  }

  function Binding(text: string, numbers: seq<Span>, markers: seq<nat>, i: nat): Bound
    requires i < |numbers| && numbers[i].start <= |text| && forall m :: m in markers ==> m <= |text|
  {
    MarkerFor(text, numbers[i].end, Line(text, numbers[i].start), markers, OtherStarts(numbers, numbers[i].start), 0)
  }

  /** `text` is the number as published. */
  datatype Claim = Claim(text: string, line: nat, bound: Bound)

  /**
   What the two scans hand over: numbers in order, each on one line and clear of every marker,
   and markers in order. TokensAreSound shows that the masks and the patterns provide it.
   */
  ghost predicate Sound(text: string, numbers: seq<Span>, markers: seq<nat>) {
    && (forall k :: 0 <= k < |numbers| ==> numbers[k].start < numbers[k].end <= |text|)
    && (forall k, l :: 0 <= k < l < |numbers| ==> numbers[k].end <= numbers[l].start)
    && (forall k, x :: 0 <= k < |numbers| && numbers[k].start <= x < numbers[k].end ==>
        text[x] != '\n' && x !in markers)
    && (forall m :: m in markers ==> m <= |text|)
    && (forall k, l :: 0 <= k < l < |markers| ==> markers[k] < markers[l])
  }

  /** What a match of the number pattern is made of: at least a digit, and no blank, newline or `<`. */
  ghost predicate IsToken(t: string, token: Span) {
    && token.start < token.end <= |t|
    && (t[token.start] in "-\U{2212}" ==> token.start + 1 < token.end)
    && forall x :: token.start <= x < token.end ==> t[x] !in " \n<"
  }

  ghost predicate AreTokens(t: string, tokens: seq<Span>) {
    Ordered(tokens, |t|) && forall k :: 0 <= k < |tokens| ==> IsToken(t, tokens[k])
  }

  /** Numbers are matched in the mask, so none of their characters is a blank, a newline or a `<`. */
  lemma TokensAreSound(text: string, masked: string, tokens: seq<Span>, markers: seq<nat>)
    requires Masks(masked, text) && AreTokens(masked, tokens)
    requires forall m :: m in markers ==> m < |text| && text[m] == '<'
    requires forall k, l :: 0 <= k < l < |markers| ==> markers[k] < markers[l]
    ensures var numbers := seq(|tokens|, k requires 0 <= k < |tokens| => Number(text, masked, tokens[k]));
      Sound(text, numbers, markers)
  {
    var numbers := seq(|tokens|, k requires 0 <= k < |tokens| => Number(text, masked, tokens[k]));
    forall k, l | 0 <= k < l < |numbers| ensures numbers[k].end <= numbers[l].start {
      OrderedPairs(tokens, |text|, k, l);
    }
    forall k, x | 0 <= k < |numbers| && numbers[k].start <= x < numbers[k].end
      ensures text[x] != '\n' && x !in markers {
      assert IsToken(masked, tokens[k]);
      assert masked[x] !in " \n<";
    }
  }

  lemma {:induction false} OrderedPairs(spans: seq<Span>, length: nat, k: nat, l: nat)
    requires Ordered(spans, length) && k < l < |spans|
    ensures spans[k].end <= spans[l].start
    decreases l
  {
    assert spans[l - 1].end <= spans[l - 1 + 1].start;
    if k < l - 1 { OrderedPairs(spans, length, k, l - 1); }
  }

  /** The loop of `scan_text` over the numbers. */
  method BindAll(text: string, numbers: seq<Span>, values: seq<string>, markers: seq<nat>) returns (claims: seq<Claim>)
    requires Sound(text, numbers, markers) && |values| == |numbers|
    ensures |claims| == |numbers|
    ensures forall i :: 0 <= i < |numbers| ==>
      claims[i] == Claim(values[i], Line(text, numbers[i].start), Binding(text, numbers, markers, i))
  {
    var starts := LineStarts(text);
    claims := [];
    for i := 0 to |numbers|
      invariant |claims| == i
      invariant forall k :: 0 <= k < i ==>
        claims[k] == Claim(values[k], Line(text, numbers[k].start), Binding(text, numbers, markers, k))
    {
      hide Starts;
      var line := LineOf(text, numbers[i].start, starts);
      claims := claims + [Claim(values[i], line, Binding(text, numbers, markers, i))];
    }
  }

  /** Nothing but this number stands between it and the first marker after it on its line. */
  ghost predicate Nearest(text: string, numbers: seq<Span>, markers: seq<nat>, i: nat, m: nat)
    requires i < |numbers| && Sound(text, numbers, markers)
  {
    && m in markers && numbers[i].end <= m && Line(text, m) == Line(text, numbers[i].start)
    && (forall n :: n in markers && numbers[i].end <= n < m ==> Line(text, n) != Line(text, numbers[i].start))
    && (forall k :: 0 <= k < |numbers| ==> !(numbers[i].end < numbers[k].start < m))
  }

  lemma {:induction false} MarkerForMeaning(text: string, end: nat, line: nat, markers: seq<nat>, others: set<nat>,
                                            k: nat, m: nat)
    requires k <= |markers| && forall n :: n in markers ==> n <= |text|
    requires forall a, b :: 0 <= a < b < |markers| ==> markers[a] < markers[b]
    ensures MarkerFor(text, end, line, markers, others, k) == Marked(m) <==>
      && m in markers && m in markers[k..] && end <= m && Line(text, m) == line
      && (forall n :: n in markers && n in markers[k..] && end <= n < m ==> Line(text, n) != line)
      && (forall s :: s in others ==> !(end < s < m))
    decreases |markers| - k
  {
    hide Line;
    if k < |markers| {
      var start := markers[k];
      assert start in markers;
      var rest := markers[k + 1..];
      assert markers[k..] == [start] + rest;
      assert forall l :: 0 <= l < |rest| ==> start < rest[l] && rest[l] in markers;
      MarkerForMeaning(text, end, line, markers, others, k + 1, m);
    }
  }

  /** A number is bound to a marker if and only if it is the nearest number before it. */
  lemma BindingIsNearest(text: string, numbers: seq<Span>, markers: seq<nat>, i: nat, m: nat)
    requires Sound(text, numbers, markers) && i < |numbers|
    ensures Binding(text, numbers, markers, i) == Marked(m) <==> Nearest(text, numbers, markers, i, m)
  {
    hide Line, MarkerFor;
    var line, end := Line(text, numbers[i].start), numbers[i].end;
    var others := OtherStarts(numbers, numbers[i].start);
    assert forall k :: 0 <= k < |numbers| && numbers[k].start > end ==> numbers[k].start in others;
    MarkerForMeaning(text, end, line, markers, others, 0, m);
    assert markers[0..] == markers;
  }

  /**
   Main result: exactly when one marker covers two numbers. The tokens must touch and be the
   last two before it, so a gap between them rules it out and three numbers never share one.
   */
  lemma SharedMarkerExactly(text: string, numbers: seq<Span>, markers: seq<nat>, i: nat, j: nat, m: nat)
    requires Sound(text, numbers, markers) && i < j < |numbers|
    ensures Binding(text, numbers, markers, i) == Marked(m) && Binding(text, numbers, markers, j) == Marked(m)
       <==> && Binding(text, numbers, markers, j) == Marked(m) && j == i + 1 && numbers[i].end == numbers[j].start
            && forall k :: j < k < |numbers| ==> numbers[k].start >= m
  {
    BindingIsNearest(text, numbers, markers, i, m);
    BindingIsNearest(text, numbers, markers, j, m);
    hide Binding;
    if Nearest(text, numbers, markers, i, m) && Nearest(text, numbers, markers, j, m) {
      assert numbers[j].start == numbers[i].end;
      assert numbers[i + 1].start < numbers[i + 1].end;
      forall k | j < k < |numbers| ensures numbers[k].start >= m {
        assert !(numbers[i].end < numbers[k].start < m);
      }
    }
    if Nearest(text, numbers, markers, j, m) && numbers[i].end == numbers[j].start
       && forall k :: j < k < |numbers| ==> numbers[k].start >= m {
      SameLine(text, numbers[i].start, numbers[i].end);
      hide Line;
      assert forall n :: n in markers && numbers[i].end <= n < m ==> numbers[j].end <= n;
      assert forall k :: 0 <= k < |numbers| ==> !(numbers[i].end < numbers[k].start < m);
      assert Nearest(text, numbers, markers, i, m);
    }
  }

  /** Where no two tokens touch, each marker covers at most one number. */
  lemma GapsMakeBindingUnique(text: string, numbers: seq<Span>, markers: seq<nat>, i: nat, j: nat, m: nat)
    requires Sound(text, numbers, markers) && i < |numbers| && j < |numbers|
    requires forall k, l :: 0 <= k < l < |numbers| ==> numbers[k].end < numbers[l].start
    requires Binding(text, numbers, markers, i) == Marked(m) && Binding(text, numbers, markers, j) == Marked(m)
    ensures i == j
  {
    hide Binding, Sound;
    if i < j {
      SharedMarkerExactly(text, numbers, markers, i, j, m);
    } else if j < i {
      SharedMarkerExactly(text, numbers, markers, j, i, m);
    }
  }

  /** `1,2345` scans as the touching tokens `1,234` and `5`, and one marker covers both. */
  lemma TouchingTokensShareAMarker()
    ensures var text, numbers, markers := "1,2345<", [Span(0, 5), Span(5, 6)], [6];
      && Sound(text, numbers, markers)
      && Binding(text, numbers, markers, 0) == Marked(6) && Binding(text, numbers, markers, 1) == Marked(6)
  {
    var text, numbers, markers := "1,2345<", [Span(0, 5), Span(5, 6)], [6];
    SameLine(text, 0, 6);
    SameLine(text, 5, 6);
    hide Line;
    BindingIsNearest(text, numbers, markers, 1, 6);
    SharedMarkerExactly(text, numbers, markers, 0, 1, 6);
  }

  // ---------------------------------------------------------------- the scan of a text

  ghost predicate FindsNumbers(find: Finder) {
    forall t: string :: AreTokens(t, find(t))
  }

  /** A marker begins with `<` and takes up some text. */
  ghost predicate AreMarkers(t: string, spans: seq<Span>) {
    Ordered(spans, |t|) && forall k :: 0 <= k < |spans| ==> spans[k].start < spans[k].end && t[spans[k].start] == '<'
  }

  ghost predicate FindsMarkers(find: Finder) {
    forall t: string :: AreMarkers(t, find(t))
  }

  /** The starts of the first n markers that the code mask leaves alone. */
  function Kept(text: string, codeMasked: string, spans: seq<Span>, n: nat): seq<nat>
    requires n <= |spans| && |codeMasked| == |text| && forall k :: 0 <= k < |spans| ==> spans[k].start < |text|
  {
    if n == 0 then []
    else
      var start := spans[n - 1].start;
      Kept(text, codeMasked, spans, n - 1) + if codeMasked[start] == text[start] then [start] else []
  }

  lemma {:induction false} KeptMembers(text: string, codeMasked: string, spans: seq<Span>, n: nat, m: nat)
    requires n <= |spans| && |codeMasked| == |text| && AreMarkers(text, spans)
    ensures m in Kept(text, codeMasked, spans, n) <==>
      m < |text| && codeMasked[m] == text[m] && exists k :: 0 <= k < n && spans[k].start == m
  {
    if n > 0 { KeptMembers(text, codeMasked, spans, n - 1, m); }
  }

  lemma {:induction false} KeptInOrder(text: string, codeMasked: string, spans: seq<Span>, n: nat)
    requires n <= |spans| && |codeMasked| == |text| && AreMarkers(text, spans)
    ensures var markers := Kept(text, codeMasked, spans, n);
      && (forall k, l :: 0 <= k < l < |markers| ==> markers[k] < markers[l])
      && (forall m :: m in markers ==> m < |text| && text[m] == '<')
  {
    if n > 0 {
      var before := Kept(text, codeMasked, spans, n - 1);
      KeptInOrder(text, codeMasked, spans, n - 1);
      forall k | 0 <= k < |before| ensures before[k] < spans[n - 1].start {
        KeptMembers(text, codeMasked, spans, n - 1, before[k]);
        var q :| 0 <= q < n - 1 && spans[q].start == before[k];
        OrderedPairs(spans, |text|, q, n - 1);
      }
      var markers := Kept(text, codeMasked, spans, n);
      hide Kept;
      assert markers == before || markers == before + [spans[n - 1].start];
    }
  }

  ghost function NumbersOf(text: string, excluded: seq<Finder>, find: Finder): seq<Span>
    requires AllReliable(excluded) && FindsNumbers(find)
  {
    var masked := MaskOf(text, excluded);
    var tokens := find(masked);
    assert AreTokens(masked, tokens);
    seq(|tokens|, k requires 0 <= k < |tokens| => assert IsToken(masked, tokens[k]); Number(text, masked, tokens[k]))
  }

  ghost function MarkersOf(text: string, code: seq<Finder>, find: Finder): seq<nat>
    requires AllReliable(code) && FindsMarkers(find)
  {
    assert AreMarkers(text, find(text));
    Kept(text, MaskOf(text, code), find(text), |find(text)|)
  }

  /** A marker counts if and only if no code pattern matches where it starts. */
  lemma MarkerCountsExactly(text: string, code: seq<Finder>, find: Finder, m: nat)
    requires AllReliable(code) && FindsMarkers(find)
    ensures m in MarkersOf(text, code, find) <==>
      (exists k :: 0 <= k < |find(text)| && find(text)[k].start == m) && !Blanked(text, code, m)
  {
    assert AreMarkers(text, find(text));
    var spans := find(text);
    KeptMembers(text, MaskOf(text, code), spans, |spans|, m);
    if m < |text| {
      MaskIsExact(text, code, m);
      if k :| 0 <= k < |spans| && spans[k].start == m { assert text[m] == '<'; }
    }
    hide MaskOf, Kept, Blanked;
  }

  /** The numbers are the matches in the mask, one for each, in order. */
  ghost predicate AreNumbers(text: string, masked: string, tokens: seq<Span>, numbers: seq<Span>) {
    && Masks(masked, text) && AreTokens(masked, tokens) && |numbers| == |tokens|
    && forall k :: 0 <= k < |tokens| ==>
         IsToken(masked, tokens[k]) && IsNumber(text, masked, tokens[k], numbers[k])
  }

  /** The claim of number i: its text and line as published, and the nearest marker or none. */
  ghost predicate ClaimFits(text: string, numbers: seq<Span>, markers: seq<nat>, i: nat, claim: Claim)
    requires Sound(text, numbers, markers) && i < |numbers|
  {
    && claim.text == text[numbers[i].start..numbers[i].end]
    && claim.line == 1 + |set j: nat | j < numbers[i].start && text[j] == '\n'|
    && forall m :: claim.bound == Marked(m) <==> Nearest(text, numbers, markers, i, m)
  }

  /** The comprehension over the marker matches. */
  method CollectMarkers(text: string, codeMasked: string, spans: seq<Span>) returns (markers: seq<nat>)
    requires |codeMasked| == |text| && AreMarkers(text, spans)
    ensures markers == Kept(text, codeMasked, spans, |spans|)
  {
    markers := [];
    for k := 0 to |spans|
      invariant markers == Kept(text, codeMasked, spans, k)
    {
      if codeMasked[spans[k].start] == text[spans[k].start] { markers := markers + [spans[k].start]; }
    }
  }

  /** The loop over the number matches: a sign that is not real is dropped from the front. */
  method CollectNumbers(text: string, masked: string, tokens: seq<Span>)
    returns (numbers: seq<Span>, values: seq<string>)
    requires Masks(masked, text) && AreTokens(masked, tokens)
    ensures |numbers| == |values| == |tokens|
    ensures forall k :: 0 <= k < |tokens| ==>
      IsToken(masked, tokens[k]) && numbers[k] == Number(text, masked, tokens[k]) &&
      IsNumber(text, masked, tokens[k], numbers[k])
    ensures forall k :: 0 <= k < |tokens| ==>
      numbers[k].start <= numbers[k].end <= |text| && values[k] == text[numbers[k].start..numbers[k].end]
  {
    numbers, values := [], [];
    for i := 0 to |tokens|
      invariant |numbers| == |values| == i
      invariant forall k :: 0 <= k < i ==>
        numbers[k] == Number(text, masked, tokens[k]) && IsNumber(text, masked, tokens[k], numbers[k])
      invariant forall k :: 0 <= k < i ==>
        numbers[k].start <= numbers[k].end <= |text| && values[k] == text[numbers[k].start..numbers[k].end]
    {
      assert IsToken(masked, tokens[i]);
      var start, end := tokens[i].start, tokens[i].end;
      TokenIsText(text, masked, tokens[i]);
      var value := masked[start..end];
      if value[0] in "-\U{2212}" && !SignIsReal(text, start) { start, value := start + 1, value[1..]; }
      numbers, values := numbers + [Span(start, end)], values + [value];
    }
  }

  lemma TokenIsText(text: string, masked: string, token: Span)
    requires Masks(masked, text) && IsToken(masked, token)
    ensures masked[token.start..token.end] == text[token.start..token.end]
  {
    forall x | token.start <= x < token.end ensures masked[x] == text[x] { assert masked[x] !in " \n<"; }
  }

  /**
   `scan_text`: from the text and the patterns to claims, each with the literal number, its line,
   and exactly the marker it is the nearest number before, markers inside code left out.
   */
  method ScanText(text: string, excluded: seq<Finder>, code: seq<Finder>, numberRe: Finder, markerRe: Finder)
    returns (claims: seq<Claim>)
    requires AllReliable(excluded) && AllReliable(code) && FindsNumbers(numberRe) && FindsMarkers(markerRe)
    ensures var numbers, markers := NumbersOf(text, excluded, numberRe), MarkersOf(text, code, markerRe);
      && Sound(text, numbers, markers) && |claims| == |numbers|
      && AreNumbers(text, MaskOf(text, excluded), numberRe(MaskOf(text, excluded)), numbers)
      && forall i :: 0 <= i < |claims| ==> ClaimFits(text, numbers, markers, i, claims[i])
  {
    hide MaskOf, Kept, Number, Sound, Nearest, Binding, Line;
    var masked := Mask(text, excluded);
    var codeMasked := Mask(text, code);
    assert AreMarkers(text, markerRe(text)) && AreTokens(masked, numberRe(masked));
    var markers := CollectMarkers(text, codeMasked, markerRe(text));
    var numbers, values := CollectNumbers(text, masked, numberRe(masked));
    assert numbers == NumbersOf(text, excluded, numberRe);
    KeptInOrder(text, codeMasked, markerRe(text), |markerRe(text)|);
    TokensAreSound(text, masked, numberRe(masked), markers);
    assert Sound(text, numbers, markers);
    claims := BindAll(text, numbers, values, markers);
    forall i | 0 <= i < |claims| ensures ClaimFits(text, numbers, markers, i, claims[i]) {
      LineExactly(text, numbers[i].start);
      forall m ensures claims[i].bound == Marked(m) <==> Nearest(text, numbers, markers, i, m) {
        BindingIsNearest(text, numbers, markers, i, m);
      }
    }
  }
}
