/**
 The language selection of `site/readme.js`: asynchronous translations that finish in any order,
 told apart by a selection version.
 */
module ReadmePage {
  import opened WhiteSpace
  import opened Sets

  const ENGLISH := "english"
  const BATCH_SIZE: nat := 24
  const MAX_NODES: nat := 512
  const MAX_BATCHES: nat := 22

  // ---------------------------------------------------------------- text nodes

  function Leading(raw: string): string {
    if raw == "" || !ScriptSpace(raw[0]) then "" else [raw[0]] + Leading(raw[1..])
  }

  function Trailing(raw: string): string {
    if raw == "" || !ScriptSpace(raw[|raw| - 1]) then "" else Trailing(raw[..|raw| - 1]) + [raw[|raw| - 1]]
  }

  /** A node's new value: its own outer whitespace around the translation. */
  function Dress(raw: string, text: string): string {
    Leading(raw) + text + Trailing(raw)
  }

  function TrimStart(s: string): string {
    if s == "" || !ScriptSpace(s[0]) then s else TrimStart(s[1..])
  }

  function Trim(s: string): string {
    if s == "" then ""
    else if ScriptSpace(s[|s| - 1]) then Trim(s[..|s| - 1])
    else TrimStart(s)
  }

  /** Each run of white space becomes one space. */
  function Squeeze(s: string): string {
    if s == "" then ""
    else if !ScriptSpace(s[0]) then [s[0]] + Squeeze(s[1..])
    else if |s| > 1 && ScriptSpace(s[1]) then Squeeze(s[1..])
    else " " + Squeeze(s[1..])
  }

  /** `cleanText`, which is what a provider is sent. */
  function Clean(raw: string): string {
    Squeeze(Trim(raw))
  }

  function Cleaned(nodes: seq<string>): (r: seq<string>)
    ensures |r| == |nodes|
  {
    seq(|nodes|, i requires 0 <= i < |nodes| => Clean(nodes[i]))
  }

  lemma {:induction false} StartSplits(s: string)
    ensures s == Leading(s) + TrimStart(s)
  {
    if s != "" && ScriptSpace(s[0]) {
      StartSplits(s[1..]);
      assert s == [s[0]] + s[1..];
    }
  }

  /** What makes `textNodes` accept a node. */
  predicate HasText(s: string) {
    s != "" && (!ScriptSpace(s[0]) || HasText(s[1..]))
  }

  lemma {:induction false} LeadingOfLonger(s: string, c: char)
    requires HasText(s)
    ensures Leading(s + [c]) == Leading(s)
  {
    assert (s + [c])[0] == s[0];
    if ScriptSpace(s[0]) {
      assert (s + [c])[1..] == s[1..] + [c];
      LeadingOfLonger(s[1..], c);
    }
  }

  lemma OneCharacter(c: char)
    ensures HasText([c]) <==> !ScriptSpace(c)
  {
    assert [c][1..] == "";
  }

  lemma {:induction false} TextBefore(s: string, c: char)
    requires HasText(s + [c]) && ScriptSpace(c)
    ensures HasText(s)
  {
    OneCharacter(c);
    assert s == "" ==> s + [c] == [c];
    if s != "" && ScriptSpace(s[0]) {
      assert (s + [c])[1..] == s[1..] + [c];
      TextBefore(s[1..], c);
    }
  }

  /** A node with visible text is its outer white space around its trimmed text. */
  lemma {:induction false} TrimSplits(s: string)
    requires HasText(s)
    ensures s == Leading(s) + Trim(s) + Trailing(s)
  {
    var n := |s| - 1;
    assert s != "";
    hide ScriptSpace, HasText, Leading;
    if ScriptSpace(s[n]) {
      assert s == s[..n] + [s[n]];
      TextBefore(s[..n], s[n]);
      TrimSplits(s[..n]);
      LeadingOfLonger(s[..n], s[n]);
    } else {
      StartSplits(s);
    }
  }

  /** Every white-space character is a blank, and none follows another. */
  predicate PlainInside(t: string) {
    forall i :: 0 <= i < |t| && ScriptSpace(t[i]) ==> t[i] == ' ' && (i + 1 < |t| ==> !ScriptSpace(t[i + 1]))
  }

  /** Cleaning the inside changes nothing if and only if its white space is single blanks. */
  lemma {:induction false} SqueezeKeepsExactly(t: string)
    ensures |Squeeze(t)| <= |t| && (Squeeze(t) == t <==> PlainInside(t))
  {
    if t != "" {
      var rest := t[1..];
      SqueezeKeepsExactly(rest);
      assert t == [t[0]] + rest;
      assert PlainInside(t) <==>
        (ScriptSpace(t[0]) ==> t[0] == ' ' && (|t| > 1 ==> !ScriptSpace(t[1]))) && PlainInside(rest) by {
        assert forall i :: 0 <= i < |rest| ==> rest[i] == t[i + 1];
        if PlainInside(rest) {
          forall i | 1 <= i < |t| && ScriptSpace(t[i]) ensures t[i] == ' ' && (i + 1 < |t| ==> !ScriptSpace(t[i + 1])) {
            assert rest[i - 1] == t[i];
          }
        }
      }
      hide PlainInside;
    }
  }

  /**
   A node whose batch failed keeps its text if and only if the white space inside it is single
   blanks: a newline, a tab or a run of blanks between words is lost.
   */
  lemma FailedNodeKeepsTextExactly(raw: string)
    requires HasText(raw)
    ensures Dress(raw, Clean(raw)) == raw <==> PlainInside(Trim(raw))
  {
    TrimSplits(raw);
    SqueezeKeepsExactly(Trim(raw));
    hide Trim, Squeeze, PlainInside;
    var a, b, c, d := Leading(raw), Clean(raw), Trim(raw), Trailing(raw);
    if a + b + d == a + c + d {
      assert |b| == |c|;
      assert (a + b + d)[|a|..|a| + |b|] == b && (a + c + d)[|a|..|a| + |c|] == c;
    }
  }

  /** Two words on two lines come back on one. */
  lemma FailedNodeLosesNewline()
    ensures HasText("a\nb") && Dress("a\nb", Clean("a\nb")) != "a\nb"
  {
    var raw := "a\nb";
    assert TrimStart(raw) == raw && Trim(raw) == raw;
    assert ScriptSpace(raw[1]) && raw[1] != ' ';
    FailedNodeKeepsTextExactly(raw);
  }

  // What dressing and cleaning do to a text taken apart.

  predicate AllSpace(s: string) {
    forall i :: 0 <= i < |s| ==> ScriptSpace(s[i])
  }

  predicate NoSpace(s: string) {
    forall i :: 0 <= i < |s| ==> !ScriptSpace(s[i])
  }

  predicate StartsVisible(s: string) {
    s != "" && !ScriptSpace(s[0])
  }

  lemma {:induction false} LeadingExactly(a: string, rest: string)
    requires AllSpace(a) && StartsVisible(rest)
    ensures Leading(a + rest) == a && TrimStart(a + rest) == rest
  {
    hide ScriptSpace;
    if a == "" {
      assert a + rest == rest;
    } else {
      assert (a + rest)[1..] == a[1..] + rest && (a + rest)[0] == a[0];
      LeadingExactly(a[1..], rest);
    }
  }

  lemma {:induction false} TrailingExactly(front: string, b: string)
    requires AllSpace(b) && front != "" && !ScriptSpace(front[|front| - 1])
    ensures Trailing(front + b) == b && Trim(front + b) == TrimStart(front)
  {
    hide ScriptSpace, TrimStart;
    var all := front + b;
    if b == "" {
      assert all == front;
    } else {
      assert all[..|all| - 1] == front + b[..|b| - 1] && all[|all| - 1] == b[|b| - 1];
      TrailingExactly(front, b[..|b| - 1]);
    }
  }

  /** A node is taken when it has a visible character; its white space at either end is kept, the rest replaced. */
  lemma DressExactly(a: string, core: string, b: string, text: string)
    requires AllSpace(a) && AllSpace(b) && StartsVisible(core) && !ScriptSpace(core[|core| - 1])
    ensures Dress(a + core + b, text) == a + text + b && Trim(a + core + b) == core && HasText(a + core + b)
  {
    hide ScriptSpace, Trim, Trailing;
    LeadingExactly(a, core + b);
    LeadingExactly(a, core);
    TrailingExactly(a + core, b);
    assert a + core + b == a + (core + b);
    HasTextExactly(a + core + b);
    assert (a + core + b)[|a|] == core[0];
  }

  lemma {:induction false} HasTextExactly(s: string)
    ensures HasText(s) <==> !AllSpace(s)
  {
    hide ScriptSpace;
    if s != "" && ScriptSpace(s[0]) {
      HasTextExactly(s[1..]);
      assert AllSpace(s[1..]) ==> forall i :: 1 <= i < |s| ==> s[i] == s[1..][i - 1];
      assert forall i :: 0 <= i < |s| - 1 ==> s[1..][i] == s[i + 1];
    }
  }

  lemma {:induction false} SqueezeGap(gap: string, rest: string)
    requires AllSpace(gap) && gap != "" && (rest == "" || StartsVisible(rest))
    ensures Squeeze(gap + rest) == " " + Squeeze(rest)
  {
    hide ScriptSpace;
    var all := gap + rest;
    assert all[1..] == gap[1..] + rest && all[0] == gap[0];
    if |gap| == 1 {
      assert all[1..] == rest;
    } else {
      assert all[1] == gap[1];
      SqueezeGap(gap[1..], rest);
    }
  }

  /** Squeezing, word by word: a run of white space after a word becomes one blank. */
  lemma {:induction false} SqueezeExactly(word: string, gap: string, rest: string)
    requires NoSpace(word) && AllSpace(gap) && gap != "" && (rest == "" || StartsVisible(rest))
    ensures Squeeze(word) == word && Squeeze(word + gap + rest) == word + " " + Squeeze(rest)
  {
    hide ScriptSpace;
    SqueezeGap(gap, rest);
    var all := word + gap + rest;
    if word == "" {
      assert all == gap + rest && word + " " + Squeeze(rest) == " " + Squeeze(rest);
    } else {
      var w := word[1..];
      assert word == [word[0]] + w && all[1..] == w + gap + rest && all[0] == word[0];
      SqueezeExactly(w, gap, rest);
      assert Squeeze(word) == [word[0]] + Squeeze(w) && Squeeze(all) == [word[0]] + Squeeze(w + gap + rest);
      hide Squeeze;
      assert [word[0]] + (w + " " + Squeeze(rest)) == word + " " + Squeeze(rest);
    }
  }

  /** `translated[index]` in a template: an index past the end reads "undefined". */
  function ValueAt(values: seq<string>, i: nat): string {
    if i < |values| then values[i] else "undefined"
  }

  /** `applyTranslations`. */
  function Apply(nodes: seq<string>, values: seq<string>): (r: seq<string>)
    ensures |r| == |nodes|
  {
    seq(|nodes|, i requires 0 <= i < |nodes| => Dress(nodes[i], ValueAt(values, i)))
  }

  // ---------------------------------------------------------------- batches

  /** What a batch request ends in; a provider's answer is only taken when its length is right. */
  datatype Outcome = Translated(values: seq<string>) | Failed

  function BatchCount(n: nat): nat {
    (n + BATCH_SIZE - 1) / BATCH_SIZE
  }

  function Min(a: nat, b: nat): nat {
    if a < b then a else b
  }

  /** `source.slice(start, start + BATCH_SIZE)` for the k-th batch. */
  function Batch(source: seq<string>, k: nat): seq<string> {
    source[Min(k * BATCH_SIZE, |source|)..Min((k + 1) * BATCH_SIZE, |source|)]
  }

  ghost predicate Answers(source: seq<string>, outcomes: seq<Outcome>) {
    && |outcomes| == BatchCount(|source|)
    && forall k :: 0 <= k < |outcomes| && outcomes[k].Translated? ==> |outcomes[k].values| == |Batch(source, k)|
  }

  /** The values of the first n batches; a failed batch keeps its source text. */
  function Gathered(source: seq<string>, outcomes: seq<Outcome>, n: nat): seq<string>
    requires n <= |outcomes|
  {
    if n == 0 then []
    else
      Gathered(source, outcomes, n - 1)
      + if outcomes[n - 1].Translated? then outcomes[n - 1].values else Batch(source, n - 1)
  }

  function FailedCount(outcomes: seq<Outcome>, n: nat): nat
    requires n <= |outcomes|
  {
    if n == 0 then 0 else FailedCount(outcomes, n - 1) + if outcomes[n - 1].Failed? then 1 else 0
  }

  /** `translateNodes` once its requests have settled. */
  method Gather(source: seq<string>, outcomes: seq<Outcome>) returns (values: seq<string>, failedBatches: nat)
    requires Answers(source, outcomes)
    ensures values == Gathered(source, outcomes, |outcomes|) && failedBatches == FailedCount(outcomes, |outcomes|)
    ensures failedBatches == |set k: nat | k < |outcomes| && outcomes[k].Failed?|
  {
    FailedCountExactly(outcomes, |outcomes|);
    values, failedBatches := [], 0;
    for k := 0 to |outcomes|
      invariant values == Gathered(source, outcomes, k) && failedBatches == FailedCount(outcomes, k)
    {
      match outcomes[k]
      case Translated(v) => values := values + v;
      case Failed => values, failedBatches := values + Batch(source, k), failedBatches + 1;
    }
  }

  lemma {:induction false} FailedCountExactly(outcomes: seq<Outcome>, n: nat)
    requires n <= |outcomes|
    ensures FailedCount(outcomes, n) == |set k: nat | k < n && outcomes[k].Failed?|
  {
    var failed := set k: nat | k < n && outcomes[k].Failed?;
    if n == 0 {
      assert failed == {};
    } else {
      FailedCountExactly(outcomes, n - 1);
      var before := set k: nat | k < n - 1 && outcomes[k].Failed?;
      OneMore(before, failed, n - 1, outcomes[n - 1].Failed?);
    }
  }

  lemma {:induction false} GatheredLength(source: seq<string>, outcomes: seq<Outcome>, n: nat)
    requires Answers(source, outcomes) && n <= |outcomes|
    ensures |Gathered(source, outcomes, n)| == Min(n * BATCH_SIZE, |source|)
  {
    if n > 0 { GatheredLength(source, outcomes, n - 1); }
  }

  lemma BatchStart(source: seq<string>, outcomes: seq<Outcome>, k: nat, i: nat)
    requires i < |Batch(source, k)| && Answers(source, outcomes) && k < |outcomes|
    ensures outcomes[k].Translated? ==> |outcomes[k].values| == |Batch(source, k)|
    ensures k * BATCH_SIZE + i < |source| && Min(k * BATCH_SIZE, |source|) == k * BATCH_SIZE
    ensures Batch(source, k)[i] == source[k * BATCH_SIZE + i]
  {
  }

  /** Each node's value is the one its own batch gave it at its place in that batch. */
  lemma {:induction false} GatheredInOrder(source: seq<string>, outcomes: seq<Outcome>, n: nat, k: nat, i: nat)
    requires Answers(source, outcomes) && k < n <= |outcomes| && i < |Batch(source, k)|
    ensures k * BATCH_SIZE + i < |Gathered(source, outcomes, n)|
    ensures Gathered(source, outcomes, n)[k * BATCH_SIZE + i]
         == if outcomes[k].Translated? then outcomes[k].values[i] else source[k * BATCH_SIZE + i]
  {
    hide Batch, Answers, BatchCount, Min;
    GatheredLength(source, outcomes, n - 1);
    BatchStart(source, outcomes, k, i);
    if k < n - 1 {
      GatheredInOrder(source, outcomes, n - 1, k, i);
    } else {
      var before := Gathered(source, outcomes, k);
      var values := if outcomes[k].Translated? then outcomes[k].values else Batch(source, k);
      assert Gathered(source, outcomes, n) == before + values;
      hide Gathered;
      assert |before| == k * BATCH_SIZE;
      assert (before + values)[|before| + i] == values[i];
    }
  }

  lemma GatheredMatchesNodes(source: seq<string>, outcomes: seq<Outcome>)
    requires Answers(source, outcomes)
    ensures |Gathered(source, outcomes, |outcomes|)| == |source|
  {
    GatheredLength(source, outcomes, |outcomes|);
  }

  /** The batches are the nodes by 24: no batch is empty, only the last may be short, and none is missing. */
  lemma BatchesExactly(source: seq<string>, k: nat)
    requires k < BatchCount(|source|)
    ensures var b, n := Batch(source, k), BatchCount(|source|);
      && b != [] && 24 * k + |b| <= |source| && b == source[24 * k..24 * k + |b|]
      && (k < n - 1 ==> |b| == 24) && (k == n - 1 ==> |b| <= 24 && 24 * k + |b| == |source|)
  {
  }

  /** The second limit of `translateNodes` cannot fire behind the first. */
  lemma BatchLimitIsImplied(n: nat)
    ensures n <= 512 ==> BatchCount(n) <= 22
    ensures n <= MAX_NODES <==> n <= 512
    ensures BatchCount(n) <= MAX_BATCHES <==> n <= 22 * 24
    ensures BatchCount(n) == 0 <==> n == 0
  {
  }

  // ---------------------------------------------------------------- the protocol

  /**
   One `selectLanguage` waiting for its translation: the generation of the nodes it collected,
   their cleaned text, and whether it collected them before the README had loaded.
   */
  datatype Task = Task(locale: string, generation: nat, source: seq<string>, early: bool)

  datatype Showing = English | Language(locale: string, version: nat)

  /**
   `generation` counts assignments of `content.innerHTML`, each of which makes new nodes;
   `shown` is the text of the current ones. `earlyCache` names the locales whose cached values
   come from a task that collected its nodes early.
   */
  datatype Page = Page(loaded: bool, english: seq<string>, shown: seq<string>, showing: Showing, generation: nat,
                       version: nat, selected: string, tasks: map<nat, Task>,
                       cache: map<string, seq<string>>, earlyCache: set<string>)

  datatype Event =
    | Load(nodes: seq<string>, initial: string)
    | Select(locale: string)
    | Complete(version: nat, outcomes: seq<Outcome>)
    | Fail(version: nat)

  const Blank := Page(false, [], [], English, 0, 0, ENGLISH, map[], map[], {})

  function Restore(p: Page): Page {
    p.(shown := p.english, showing := English, generation := p.generation + 1)
  }

  /**
   From the version check on: write the values over the nodes collected, which are on the page
   only if nothing replaced them since; then restore if every batch had failed.
   */
  function Present(p: Page, generation: nat, nodeCount: nat, locale: string, values: seq<string>,
                   failedBatches: nat): Page {
    var applied := p.(shown := if generation == p.generation then Apply(p.shown, values) else p.shown,
                      showing := Language(locale, p.version));
    if failedBatches == BatchCount(nodeCount) then Restore(applied) else applied
  }

  /** The part of `selectLanguage` that runs before its first wait. */
  function Choose(p: Page, locale: string): Page {
    var q := Restore(p.(version := p.version + 1, selected := locale));
    if locale == ENGLISH then q
    else if locale in q.cache then Present(q, q.generation, |q.shown|, locale, q.cache[locale], 0)
    else q.(tasks := q.tasks[q.version := Task(locale, q.generation, Cleaned(q.shown), !q.loaded)])
  }

  /** `state.translated.set`, reached only with no batch failed and before the version is looked at. */
  function Remember(p: Page, t: Task, values: seq<string>, failedBatches: nat): Page {
    if failedBatches > 0 then p
    else p.(cache := p.cache[t.locale := values],
            earlyCache := if t.early then p.earlyCache + {t.locale} else p.earlyCache - {t.locale})
  }

  /** The rest of it, once the batches have settled. */
  function Resume(p: Page, v: nat, outcomes: seq<Outcome>): Page
    requires v in p.tasks && |outcomes| == BatchCount(|p.tasks[v].source|)
  {
    var t, failedBatches := p.tasks[v], FailedCount(outcomes, |outcomes|);
    var values := Gathered(t.source, outcomes, |outcomes|);
    var q := Remember(p.(tasks := p.tasks - {v}), t, values, failedBatches);
    if v != q.version || q.selected != t.locale then q
    else Present(q, t.generation, |t.source|, t.locale, values, failedBatches)
  }

  /** The `catch` block. */
  function GiveUp(p: Page, v: nat): Page
    requires v in p.tasks
  {
    var q := p.(tasks := p.tasks - {v});
    if v != q.version || q.selected != p.tasks[v].locale then q else Restore(q)
  }

  /** The README has arrived: new nodes with its text. */
  function Loaded(p: Page, nodes: seq<string>): Page {
    p.(loaded := true, english := nodes, shown := nodes, showing := English, generation := p.generation + 1)
  }

  ghost function Step(p: Page, e: Event): Page {
    match e
    case Load(nodes, initial) =>
      if p.loaded then p
      else Choose(Loaded(p, nodes), initial)
    case Select(locale) => Choose(p, locale)
    case Complete(v, outcomes) =>
      if v in p.tasks && Answers(p.tasks[v].source, outcomes) then Resume(p, v, outcomes) else p
    case Fail(v) => if v in p.tasks then GiveUp(p, v) else p
  }

  ghost function Run(events: seq<Event>): Page {
    if events == [] then Blank else Step(Run(events[..|events| - 1]), events[|events| - 1])
  }

  // ---------------------------------------------------------------- stale results

  /**
   Every task in flight is at most the newest; the newest one holds the nodes on the page, which
   show the source; and a translation on the page is the newest selection's own.
   */
  ghost predicate Current(p: Page) {
    && (forall v :: v in p.tasks ==> v <= p.version)
    && (p.version in p.tasks ==>
         var t := p.tasks[p.version];
         && t.generation == p.generation && t.locale == p.selected && t.early == !p.loaded
         && p.showing.English? && p.shown == p.english && t.source == Cleaned(p.english))
    && (p.showing.English? ==> p.shown == p.english)
    && (p.showing.Language? ==>
          p.showing.version == p.version && p.showing.locale == p.selected && |p.shown| == |p.english|)
    && (!p.loaded ==> p.english == [])
  }

  lemma ChooseKeepsCurrent(p: Page, locale: string)
    requires (forall v :: v in p.tasks ==> v <= p.version) && (!p.loaded ==> p.english == [])
    ensures Current(Choose(p, locale))
  {
  }

  lemma StepKeepsCurrent(p: Page, e: Event)
    requires Current(p)
    ensures Current(Step(p, e))
  {
    match e
    case Load(nodes, initial) => if !p.loaded { ChooseKeepsCurrent(Loaded(p, nodes), initial); }
    case Select(locale) => ChooseKeepsCurrent(p, locale);
    case Complete(v, outcomes) =>
      if v in p.tasks && Answers(p.tasks[v].source, outcomes) { ResumeKeepsCurrent(p, v, outcomes); }
    case Fail(v) => if v in p.tasks { GiveUpKeepsCurrent(p, v); }
    hide Choose, Resume, GiveUp, Current, Answers;
  }

  lemma ResumeKeepsCurrent(p: Page, v: nat, outcomes: seq<Outcome>)
    requires Current(p) && v in p.tasks && |outcomes| == BatchCount(|p.tasks[v].source|)
    ensures Current(Resume(p, v, outcomes))
  {
    hide Apply, Gathered, FailedCount, BatchCount, Cleaned;
  }

  lemma GiveUpKeepsCurrent(p: Page, v: nat)
    requires Current(p) && v in p.tasks
    ensures Current(GiveUp(p, v))
  {
    hide Cleaned;
  }

  /**
   What choosing a language does at once: English, or one with cached values, is shown and starts
   nothing; any other shows the English text and starts a task for it over the new nodes.
   */
  lemma ChoiceExactly(p: Page, locale: string)
    ensures var q := Choose(p, locale);
      && q.version == p.version + 1 && q.selected == locale && q.generation > p.generation
      && q == p.(version := q.version, selected := q.selected, generation := q.generation,
                 shown := q.shown, showing := q.showing, tasks := q.tasks)
      && (locale == "english" || locale !in p.cache || p.english == [] ==> q.showing.English? && q.shown == p.english)
      && (locale == "english" || locale in p.cache ==> q.tasks == p.tasks)
      && (locale != "english" && locale !in p.cache ==>
           q.tasks == p.tasks[q.version := Task(locale, q.generation, Cleaned(p.english), !p.loaded)])
      && (locale != "english" && locale in p.cache && p.english != [] ==>
           q.showing == Language(locale, q.version) && q.shown == Apply(p.english, p.cache[locale]))
  {
    hide Apply, Cleaned;
  }

  /** The README arrives once: its nodes replace what was there, and the language asked for is chosen over them. */
  lemma LoadExactly(p: Page, nodes: seq<string>, initial: string)
    ensures var q := Step(p, Load(nodes, initial));
      && (p.loaded ==> q == p)
      && (!p.loaded ==>
        && q.loaded && q.english == nodes && q.cache == p.cache && q.earlyCache == p.earlyCache
        && q.version == p.version + 1 && q.selected == initial && q.generation > p.generation
        && (initial == "english" || initial !in p.cache || nodes == [] ==> q.showing.English? && q.shown == nodes)
        && (initial != "english" && initial in p.cache && nodes != [] ==>
             q.showing == Language(initial, q.version) && q.shown == Apply(nodes, p.cache[initial]))
        && q.tasks == if initial == "english" || initial in p.cache then p.tasks
                      else p.tasks[q.version := Task(initial, q.generation, Cleaned(nodes), false)])
  {
    hide Apply, Cleaned, Choose;
    if !p.loaded { ChoiceExactly(Loaded(p, nodes), initial); }
  }

  /** A task that fails is over; the page turns back to English if it was the newest, and else stays. */
  lemma FailureExactly(p: Page, v: nat)
    requires Current(p) && v in p.tasks
    ensures var q := Step(p, Fail(v));
      && q.tasks == p.tasks - {v} && q.cache == p.cache && q.version == p.version && q.selected == p.selected
      && (if v == p.version then q.showing.English? && q.shown == p.english && q.generation == p.generation + 1
          else q.shown == p.shown && q.showing == p.showing && q.generation == p.generation)
  {
    hide Cleaned;
  }

  /** Main result: over any interleaving the page only ever shows the newest selection. */
  lemma {:induction false} NewestSelectionOnly(events: seq<Event>)
    ensures Current(Run(events))
  {
    if events != [] {
      hide Step, Current;
      NewestSelectionOnly(events[..|events| - 1]);
      StepKeepsCurrent(Run(events[..|events| - 1]), events[|events| - 1]);
    } else {
      assert Current(Blank);
    }
  }

  /**
   What a finishing task may do to the page: a superseded one nothing; the newest one writes its
   values over the very nodes it collected, which still show the source text, and no others.
   */
  lemma FinishingTask(events: seq<Event>, v: nat, outcomes: seq<Outcome>)
    requires v in Run(events).tasks && Answers(Run(events).tasks[v].source, outcomes)
    ensures var p, q := Run(events), Step(Run(events), Complete(v, outcomes));
      var t, values := p.tasks[v], Gathered(p.tasks[v].source, outcomes, |outcomes|);
      && q.tasks == p.tasks - {v} && q.version == p.version && q.selected == p.selected && q.english == p.english
      && if v != p.version then q.shown == p.shown && q.showing == p.showing && q.generation == p.generation
      else
        && t.generation == p.generation && t.source == Cleaned(p.shown) && |values| == |p.shown|
        && (if FailedCount(outcomes, |outcomes|) == BatchCount(|p.shown|)
            then q.showing.English? && q.shown == p.english
            else q.showing == Language(p.selected, v) && q.shown == Apply(p.english, values))
  {
    NewestSelectionOnly(events);
    GatheredMatchesNodes(Run(events).tasks[v].source, outcomes);
    hide Run, Apply, Gathered, FailedCount, BatchCount, Answers;
  }

  // ---------------------------------------------------------------- the cache

  /** Cached values are one per node, except those of an early task, which are none at all. */
  ghost predicate CacheSized(p: Page) {
    && (forall v :: v in p.tasks ==> |p.tasks[v].source| == if p.tasks[v].early then 0 else |p.english|)
    && (forall v :: v in p.tasks && !p.tasks[v].early ==> p.loaded)
    && (forall l :: l in p.cache ==> |p.cache[l]| == if l in p.earlyCache then 0 else |p.english|)
    && (forall l :: l in p.cache && l !in p.earlyCache ==> p.loaded)
    && (!p.loaded ==> p.english == [])
  }

  lemma StepKeepsCache(p: Page, e: Event)
    requires CacheSized(p)
    ensures CacheSized(Step(p, e))
  {
    match e
    case Load(nodes, initial) =>
      if !p.loaded {
        LoadKeepsCache(p, nodes);
        ChooseKeepsCache(Loaded(p, nodes), initial);
      }
    case Select(locale) => ChooseKeepsCache(p, locale);
    case Complete(v, outcomes) =>
      if v in p.tasks && Answers(p.tasks[v].source, outcomes) { ResumeKeepsCache(p, v, outcomes); }
    case Fail(v) => if v in p.tasks { GiveUpKeepsCache(p, v); }
    hide Choose, Resume, GiveUp, CacheSized, Answers, Loaded;
  }

  lemma LoadKeepsCache(p: Page, nodes: seq<string>)
    requires CacheSized(p) && !p.loaded
    ensures CacheSized(Loaded(p, nodes))
  {
  }

  lemma GiveUpKeepsCache(p: Page, v: nat)
    requires CacheSized(p) && v in p.tasks
    ensures CacheSized(GiveUp(p, v))
  {
  }

  /** Presenting changes what is shown and nothing else. */
  lemma PresentKeepsRest(p: Page, generation: nat, nodeCount: nat, locale: string, values: seq<string>,
                         failedBatches: nat)
    ensures var q := Present(p, generation, nodeCount, locale, values, failedBatches);
      q == p.(shown := q.shown, showing := q.showing, generation := q.generation)
  {
  }

  lemma ResumeKeepsCache(p: Page, v: nat, outcomes: seq<Outcome>)
    requires CacheSized(p) && v in p.tasks && Answers(p.tasks[v].source, outcomes)
    ensures CacheSized(Resume(p, v, outcomes))
  {
    var t, failedBatches := p.tasks[v], FailedCount(outcomes, |outcomes|);
    var values := Gathered(t.source, outcomes, |outcomes|);
    GatheredMatchesNodes(t.source, outcomes);
    hide Gathered, FailedCount, Answers, BatchCount;
    RememberKeepsCache(p.(tasks := p.tasks - {v}), t, values, failedBatches);
    PresentKeepsRest(Remember(p.(tasks := p.tasks - {v}), t, values, failedBatches),
                     t.generation, |t.source|, t.locale, values, failedBatches);
    hide Present, Remember;
  }

  lemma ChooseKeepsCache(p: Page, locale: string)
    requires CacheSized(p)
    ensures CacheSized(Choose(p, locale))
  {
    hide Apply, BatchCount, Clean;
  }

  lemma RememberKeepsCache(p: Page, t: Task, values: seq<string>, failedBatches: nat)
    requires CacheSized(p) && |values| == (if t.early then 0 else |p.english|) && (!t.early ==> p.loaded)
    ensures CacheSized(Remember(p, t, values, failedBatches))
  {
  }

  lemma {:induction false} CacheIsSized(events: seq<Event>)
    ensures CacheSized(Run(events))
  {
    if events == [] {
      assert CacheSized(Blank);
    } else {
      hide Step, CacheSized;
      CacheIsSized(events[..|events| - 1]);
      StepKeepsCache(Run(events[..|events| - 1]), events[|events| - 1]);
    }
  }

  /**
   The cached values match the nodes exactly when they do not come from a selection made before
   the README had loaded. On a page with text such an entry is empty, and empty is not absent:
   choosing the language again shows "undefined" in every node.
   */
  lemma CachedLanguageExactly(events: seq<Event>, locale: string)
    requires locale != ENGLISH && locale in Run(events).cache && Run(events).loaded && Run(events).english != []
    ensures var p, q := Run(events), Step(Run(events), Select(locale));
      && (|p.cache[locale]| == |p.english| <==> locale !in p.earlyCache)
      && q.showing.Language? && |q.shown| == |p.english|
      && forall i :: 0 <= i < |p.english| ==>
           q.shown[i] == Dress(p.english[i], if locale in p.earlyCache then "undefined" else p.cache[locale][i])
  {
    CacheIsSized(events);
    hide Run, Dress;
  }

  /** The shortest such history: choose a language, let it settle, then let the README load. */
  lemma EarlySelectionShowsUndefined(locale: string, nodes: seq<string>)
    requires locale != ENGLISH && nodes != []
    ensures var p := Run([Select(locale), Complete(1, []), Load(nodes, ENGLISH), Select(locale)]);
      p.showing.Language? && p.shown == Apply(nodes, [])
  {
    var a, b, c := Select(locale), Complete(1, []), Load(nodes, ENGLISH);
    assert [a][..0] == [] && [a, b][..1] == [a] && [a, b, c][..2] == [a, b] && [a, b, c, a][..3] == [a, b, c];
    assert Run([]) == Blank;
    var p1 := Run([a]);
    assert p1 == Choose(Blank, locale) && p1.tasks == map[1 := Task(locale, 1, [], true)];
    var p2 := Run([a, b]);
    assert p2 == Resume(p1, 1, []) && p2.cache == map[locale := []];
    var p3 := Run([a, b, c]);
    assert p3.cache == map[locale := []] && p3.english == nodes && p3.loaded;
    assert Run([a, b, c, a]) == Choose(p3, locale);
  }

  ghost predicate NoEarlySelection(events: seq<Event>) {
    forall i :: 0 <= i < |events| && events[i].Select? && events[i].locale != ENGLISH ==> Run(events[..i]).loaded
  }

  ghost predicate NothingEarly(p: Page) {
    p.earlyCache == {} && forall v :: v in p.tasks ==> !p.tasks[v].early
  }

  lemma StepKeepsLate(p: Page, e: Event)
    requires NothingEarly(p) && (e.Select? && e.locale != ENGLISH ==> p.loaded)
    ensures NothingEarly(Step(p, e))
  {
    match e
    case Load(nodes, initial) => if !p.loaded { ChooseKeepsLate(Loaded(p, nodes), initial); }
    case Select(locale) => ChooseKeepsLate(p, locale);
    case Complete(v, outcomes) =>
      if v in p.tasks && Answers(p.tasks[v].source, outcomes) {
        var t, failed := p.tasks[v], FailedCount(outcomes, |outcomes|);
        var values := Gathered(t.source, outcomes, |outcomes|);
        PresentKeepsRest(Remember(p.(tasks := p.tasks - {v}), t, values, failed),
                         t.generation, |t.source|, t.locale, values, failed);
      }
    case Fail(v) =>
    hide Choose, Present, Gathered, FailedCount, Answers;
  }

  lemma ChooseKeepsLate(p: Page, locale: string)
    requires NothingEarly(p) && (locale != ENGLISH ==> p.loaded)
    ensures NothingEarly(Choose(p, locale))
  {
    var q := Restore(p.(version := p.version + 1, selected := locale));
    if locale in q.cache { PresentKeepsRest(q, q.generation, |q.shown|, locale, q.cache[locale], 0); }
    hide Present, Cleaned;
  }

  // What the cache holds.

  ghost predicate AllTranslated(outcomes: seq<Outcome>) {
    forall k :: 0 <= k < |outcomes| ==> outcomes[k].Translated?
  }

  lemma {:induction false} NoneFailedExactly(outcomes: seq<Outcome>, n: nat)
    requires n <= |outcomes|
    ensures FailedCount(outcomes, n) == 0 <==> forall k :: 0 <= k < n ==> outcomes[k].Translated?
  {
    if n > 0 { NoneFailedExactly(outcomes, n - 1); }
  }

  /** The event ends a task for locale l with every batch translated, and `values` is what they gave. */
  ghost predicate Fills(p: Page, e: Event, l: string, values: seq<string>) {
    && e.Complete? && e.version in p.tasks && p.tasks[e.version].locale == l
    && Answers(p.tasks[e.version].source, e.outcomes) && AllTranslated(e.outcomes)
    && values == Gathered(p.tasks[e.version].source, e.outcomes, |e.outcomes|)
  }

  /** One step: a task whose batches all came back sets its language, stale or not; nothing else touches the cache. */
  lemma StepCachesExactly(p: Page, e: Event)
    ensures Step(p, e).cache ==
      if e.Complete? && e.version in p.tasks && Answers(p.tasks[e.version].source, e.outcomes)
         && AllTranslated(e.outcomes)
      then var t := p.tasks[e.version]; p.cache[t.locale := Gathered(t.source, e.outcomes, |e.outcomes|)]
      else p.cache
  {
    match e
    case Load(nodes, initial) => if !p.loaded { ChooseKeepsValues(Loaded(p, nodes), initial); }
    case Select(locale) => ChooseKeepsValues(p, locale);
    case Complete(v, outcomes) =>
      if v in p.tasks && Answers(p.tasks[v].source, outcomes) {
        var t, failed := p.tasks[v], FailedCount(outcomes, |outcomes|);
        var values := Gathered(t.source, outcomes, |outcomes|);
        NoneFailedExactly(outcomes, |outcomes|);
        PresentKeepsRest(Remember(p.(tasks := p.tasks - {v}), t, values, failed),
                         t.generation, |t.source|, t.locale, values, failed);
      }
    case Fail(v) =>
    hide Choose, Present, Gathered, FailedCount, Answers;
  }

  lemma ChooseKeepsValues(p: Page, locale: string)
    ensures Choose(p, locale).cache == p.cache
  {
    var q := Restore(p.(version := p.version + 1, selected := locale));
    if locale in q.cache { PresentKeepsRest(q, q.generation, |q.shown|, locale, q.cache[locale], 0); }
    hide Present, Cleaned;
  }

  /** Over any interleaving, each cached language was filled by a task all of whose batches came back. */
  lemma {:induction false} CacheIsBatchComplete(events: seq<Event>, l: string) returns (n: nat)
    requires l in Run(events).cache
    ensures n < |events| && Fills(Run(events[..n]), events[n], l, Run(events).cache[l])
  {
    hide Step, Fills;
    n := |events| - 1;
    var before := events[..n];
    StepCachesExactly(Run(before), events[n]);
    if !Fills(Run(before), events[n], l, Run(events).cache[l]) {
      OneFill(Run(before), events[n], l);
      n := CacheIsBatchComplete(before, l);
      assert before[..n] == events[..n] && before[n] == events[n];
    }
  }

  lemma OneFill(p: Page, e: Event, l: string)
    requires l in Step(p, e).cache && !Fills(p, e, l, Step(p, e).cache[l])
    ensures l in p.cache && p.cache[l] == Step(p, e).cache[l]
  {
    hide Step, Gathered, Answers, AllTranslated;
    StepCachesExactly(p, e);
  }

  /** Value i of batch k is the one the provider gave for it. */
  predicate FromBatch(values: seq<string>, outcomes: seq<Outcome>, k: nat, i: nat) {
    && k < |outcomes| && outcomes[k].Translated? && i < |outcomes[k].values|
    && k * BATCH_SIZE + i < |values| && values[k * BATCH_SIZE + i] == outcomes[k].values[i]
  }

  /** So each cached value is what a provider gave for that node's own text: no failed batch's English is kept. */
  lemma CachedValuesAreTranslations(events: seq<Event>, l: string) returns (n: nat)
    requires l in Run(events).cache
    ensures n < |events| && Fills(Run(events[..n]), events[n], l, Run(events).cache[l])
    ensures var values, source := Run(events).cache[l], Run(events[..n]).tasks[events[n].version].source;
      |values| == |source| &&
      forall k: nat, i: nat :: k < BatchCount(|source|) && i < |Batch(source, k)| ==>
        FromBatch(values, events[n].outcomes, k, i)
  {
    hide Run, Step;
    n := CacheIsBatchComplete(events, l);
    var source, outcomes := Run(events[..n]).tasks[events[n].version].source, events[n].outcomes;
    GatheredMatchesNodes(source, outcomes);
    hide Gathered, FromBatch;
    forall k: nat, i: nat | k < BatchCount(|source|) && i < |Batch(source, k)|
      ensures FromBatch(Run(events).cache[l], outcomes, k, i)
    {
      TranslatedValue(source, outcomes, k, i);
    }
  }

  lemma TranslatedValue(source: seq<string>, outcomes: seq<Outcome>, k: nat, i: nat)
    requires Answers(source, outcomes) && AllTranslated(outcomes) && k < |outcomes| && i < |Batch(source, k)|
    ensures FromBatch(Gathered(source, outcomes, |outcomes|), outcomes, k, i)
  {
    GatheredInOrder(source, outcomes, |outcomes|, k, i);
    hide Gathered, Batch;
  }

  /** A site that offers its languages only once the README is there caches one value for every node. */
  lemma {:induction false} LateSelectionsCacheWhole(events: seq<Event>)
    requires NoEarlySelection(events)
    ensures NothingEarly(Run(events))
    ensures forall l :: l in Run(events).cache ==> |Run(events).cache[l]| == |Run(events).english|
  {
    hide Step;
    CacheIsSized(events);
    if events != [] {
      var n := |events| - 1;
      var before := events[..n];
      assert NoEarlySelection(before) by {
        assert forall i :: 0 <= i < n ==> before[i] == events[i] && before[..i] == events[..i];
      }
      LateSelectionsCacheWhole(before);
      StepKeepsLate(Run(before), events[n]);
    }
  }

  // ---------------------------------------------------------------- the script

  /** The shared `state` object and the document, changed in place. */
  class Script {
    var loaded: bool
    var english: seq<string>
    var shown: seq<string>
    var showing: Showing
    var generation: nat
    var version: nat
    var selected: string
    var tasks: map<nat, Task>
    var cache: map<string, seq<string>>
    var earlyCache: set<string>

    function Now(): Page
      reads this
    {
      Page(loaded, english, shown, showing, generation, version, selected, tasks, cache, earlyCache)
    }

    constructor ()
      ensures Now() == Blank
    {
      loaded, english, shown, showing, generation := false, [], [], English, 0;
      version, selected, tasks, cache, earlyCache := 0, ENGLISH, map[], map[], {};
    }

    method RestoreEnglish()
      modifies this
      ensures Now() == Restore(old(Now()))
    {
      shown, showing, generation := english, English, generation + 1;
    }

    method ApplyTranslations(values: seq<string>)
      modifies this`shown
      ensures shown == Apply(old(shown), values)
    {
      var index := 0;
      while index < |shown|
        invariant index <= |shown| == |old(shown)|
        invariant forall i :: 0 <= i < index ==> shown[i] == Dress(old(shown)[i], ValueAt(values, i))
        invariant forall i :: index <= i < |shown| ==> shown[i] == old(shown)[i]
      {
        shown := shown[index := Dress(shown[index], ValueAt(values, index))];
        index := index + 1;
      }
    }

    method PresentValues(collected: nat, nodeCount: nat, locale: string, values: seq<string>, failedBatches: nat)
      modifies this
      ensures Now() == Present(old(Now()), collected, nodeCount, locale, values, failedBatches)
    {
      if collected == generation { ApplyTranslations(values); }
      showing := Language(locale, version);
      if failedBatches == BatchCount(nodeCount) { RestoreEnglish(); }
    }

    method SelectLanguage(locale: string)
      modifies this
      ensures Now() == Choose(old(Now()), locale)
    {
      version, selected := version + 1, locale;
      RestoreEnglish();
      if locale == ENGLISH { return; }
      if locale in cache {
        PresentValues(generation, |shown|, locale, cache[locale], 0);
      } else {
        tasks := tasks[version := Task(locale, generation, Cleaned(shown), !loaded)];
      }
    }

    method Settle(v: nat, outcomes: seq<Outcome>)
      requires v in tasks && Answers(tasks[v].source, outcomes)
      modifies this
      ensures Now() == Resume(old(Now()), v, outcomes)
    {
      var t := tasks[v];
      var values, failedBatches := Gather(t.source, outcomes);
      hide Answers, Gathered, FailedCount;
      tasks := tasks - {v};
      if failedBatches == 0 {
        cache := cache[t.locale := values];
        earlyCache := if t.early then earlyCache + {t.locale} else earlyCache - {t.locale};
      }
      if v == version && selected == t.locale {
        PresentValues(t.generation, |t.source|, t.locale, values, failedBatches);
      }
    }

    method Abandon(v: nat)
      requires v in tasks
      modifies this
      ensures Now() == GiveUp(old(Now()), v)
    {
      var t := tasks[v];
      tasks := tasks - {v};
      if v == version && selected == t.locale { RestoreEnglish(); }
    }

    method Start(nodes: seq<string>, initial: string)
      requires !loaded
      modifies this
      ensures Now() == Step(old(Now()), Load(nodes, initial))
    {
      hide Choose, Cleaned;
      loaded, english, shown, showing, generation := true, nodes, nodes, English, generation + 1;
      assert Now() == Loaded(old(Now()), nodes);
      SelectLanguage(initial);
    }
  }
}
