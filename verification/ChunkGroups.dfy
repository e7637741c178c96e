/** Greedy grouping under a token budget (src/corpus/chunking.py). */
module ChunkGroups {
  import opened ChunkWindows
  import opened Wrappers

  const MAX_CHUNKS_PER_CASE := 50000
  const UNIT_BOUND_ERROR := "chunk collection exceeds the per-case bound"

  datatype Role = Question | Answer | Basis | Facts | Table

  function RoleName(r: Role): string {
    match r
    case Question => "question"
    case Answer => "answer"
    case Basis => "basis"
    case Facts => "facts"
    case Table => "table"
  }

  function MinTokens(r: Role): nat { if r.Question? then 80 else 250 }

  function MaxTokens(r: Role): nat { if r.Question? then 250 else 450 }

  datatype Header = Header(text: string, rawText: string, spanIndex: nat, evidence: string)

  /** A fragment of one role, bound to a source span; table fragments also name their header. */
  datatype RoleSource = RoleSource(role: Role, text: string, spanIndex: nat, header: Option<Header>)

  /** `pages[i]` is the page of source span `i`; `heading` is hierarchy and title. */
  datatype ChunkCase = ChunkCase(caseId: string, heading: string, audit: bool, piiClass: string,
                                 searchEligible: bool, answerEligible: bool, pages: seq<int>)

  /** The locked tokenizer: token count and offsets of a text. */
  datatype Tokenizer = Tokenizer(count: string -> nat, offsets: string -> seq<Offset>)

  function EmbeddingPrefix(c: ChunkCase, r: Role): string {
    c.caseId + "\n" + c.heading + "\n" + RoleName(r) + "\n"
  }

  /** The fragment is bound to spans of the case, and its header lies on the same page. */
  predicate Bound(c: ChunkCase, s: RoleSource) {
    && s.spanIndex < |c.pages| && (s.role.Table? <==> s.header.Some?)
    && (s.header.Some? ==>
      s.header.value.spanIndex < |c.pages| && c.pages[s.header.value.spanIndex] == c.pages[s.spanIndex])
  }

  predicate AllBound(c: ChunkCase, sources: seq<RoleSource>) {
    forall i :: 0 <= i < |sources| ==> Bound(c, sources[i])
  }

  function Joined(group: seq<RoleSource>): string
    requires group != []
  {
    if |group| == 1 then group[0].text
    else Joined(group[..|group| - 1]) + "\n" + group[|group| - 1].text
  }

  function GroupText(group: seq<RoleSource>): string
    requires group != []
  {
    if group[0].header.Some? then group[0].header.value.text + "\n" + Joined(group) else Joined(group)
  }

  function AddIndex(indexes: seq<nat>, i: nat): seq<nat> {
    if i in indexes then indexes else indexes + [i]
  }

  /** The spans of a group: table header first, each once, in order of appearance. */
  function GroupSpanIndexes(group: seq<RoleSource>): seq<nat> {
    if group == [] then []
    else
      var before := GroupSpanIndexes(group[..|group| - 1]);
      var s := group[|group| - 1];
      AddIndex(if s.header.Some? then AddIndex(before, s.header.value.spanIndex) else before, s.spanIndex)
  }

  predicate SourcesCanGroup(c: ChunkCase, first: RoleSource, candidate: RoleSource)
    requires Bound(c, first) && Bound(c, candidate)
  {
    && first.role == candidate.role && c.pages[first.spanIndex] == c.pages[candidate.spanIndex]
    && (first.role.Table? ==> first.header == candidate.header)
  }

  /** Token count of a group behind its embedding prefix. */
  function Cost(c: ChunkCase, tk: Tokenizer, group: seq<RoleSource>): nat
    requires group != []
  {
    tk.count(EmbeddingPrefix(c, group[0].role) + GroupText(group))
  }

  predicate Uniform(c: ChunkCase, group: seq<RoleSource>)
    requires AllBound(c, group)
  {
    forall i, j :: 0 <= i < |group| && 0 <= j < |group| ==> SourcesCanGroup(c, group[i], group[j])
  }

  predicate Fits(c: ChunkCase, tk: Tokenizer, group: seq<RoleSource>)
    requires group != []
  {
    Cost(c, tk, group) <= MaxTokens(group[0].role)
  }

  /** The rule for a group: any single fragment, or several alike that fit together. */
  predicate WellGrouped(c: ChunkCase, tk: Tokenizer, group: seq<RoleSource>) {
    && group != [] && AllBound(c, group)
    && (|group| > 1 ==> Uniform(c, group) && Fits(c, tk, group))
  }

  function Flatten(groups: seq<seq<RoleSource>>): seq<RoleSource> {
    if groups == [] then [] else Flatten(groups[..|groups| - 1]) + groups[|groups| - 1]
  }

  /** A grouping of `sources` that keeps their order and obeys the rule. */
  predicate Grouping(c: ChunkCase, tk: Tokenizer, sources: seq<RoleSource>, groups: seq<seq<RoleSource>>) {
    Flatten(groups) == sources && AllWellGrouped(c, tk, groups)
  }

  /** Greed: `group` was closed before `next` because `next` does not belong or does not fit, or
      because `group` is a single fragment that is already too long. */
  predicate ClosedBefore(c: ChunkCase, tk: Tokenizer, group: seq<RoleSource>, next: RoleSource)
    requires group != [] && AllBound(c, group) && Bound(c, next)
  {
    || !SourcesCanGroup(c, group[0], next) || !Fits(c, tk, group + [next])
    || (|group| == 1 && !Fits(c, tk, group))
  }

  /** Groups `k` and `k + 1` obey the rule, and the first was not closed too early. */
  predicate GreedyAt(c: ChunkCase, tk: Tokenizer, groups: seq<seq<RoleSource>>, k: nat)
    requires k + 1 < |groups|
  {
    WellGrouped(c, tk, groups[k]) && WellGrouped(c, tk, groups[k + 1])
      && ClosedBefore(c, tk, groups[k], groups[k + 1][0])
  }

  predicate Greedy(c: ChunkCase, tk: Tokenizer, groups: seq<seq<RoleSource>>) {
    forall k :: 0 <= k < |groups| - 1 ==> GreedyAt(c, tk, groups, k)
  }

  predicate AllWellGrouped(c: ChunkCase, tk: Tokenizer, groups: seq<seq<RoleSource>>) {
    forall k :: 0 <= k < |groups| ==> WellGrouped(c, tk, groups[k])
  }

  // ----- chunk units -----

  datatype Unit = Unit(role: Role, text: string, indexes: seq<nat>)

  function Texts(units: seq<Unit>): seq<string> {
    seq(|units|, i requires 0 <= i < |units| => units[i].text)
  }

  /** What decides how a group is cut: its text with the tokenizer's answer, and the tokens left for it. */
  datatype Piece = Piece(whole: bool, text: string, offsets: seq<Offset>, tokens: nat, capacity: int)

  function PieceOf(c: ChunkCase, tk: Tokenizer, group: seq<RoleSource>): Piece
    requires group != []
  {
    var text := GroupText(group);
    Piece(|group| > 1, text, tk.offsets(text), tk.count(text),
          MaxTokens(group[0].role) - tk.count(EmbeddingPrefix(c, group[0].role)))
  }

  /** Its texts, one for each unit: the whole text, or its windows. */
  ghost predicate PieceTexts(p: Piece, texts: seq<string>) {
    if p.whole || p.tokens <= p.capacity then texts == [p.text]
    else
      && p.capacity >= 2 && OrderedOffsets(p.offsets, |p.text|)
      && exists ranges ::
           WindowRanges(p.tokens, p.capacity, ranges) && WindowTexts(p.text, p.offsets, ranges, texts)
  }

  /** The texts of a group: its own text, or the windows of a single fragment that is too long. */
  ghost predicate GroupTexts(c: ChunkCase, tk: Tokenizer, group: seq<RoleSource>, texts: seq<string>)
    requires group != []
  {
    PieceTexts(PieceOf(c, tk, group), texts)
  }

  ghost predicate GroupUnits(c: ChunkCase, tk: Tokenizer, group: seq<RoleSource>, units: seq<Unit>)
    requires group != []
  {
    && GroupTexts(c, tk, group, Texts(units))
    && forall i :: 0 <= i < |units| ==> units[i].role == group[0].role && units[i].indexes == GroupSpanIndexes(group)
  }

  /** `perGroup[k]` are the units of group `k`. */
  ghost predicate UnitsOf(c: ChunkCase, tk: Tokenizer, groups: seq<seq<RoleSource>>, perGroup: seq<seq<Unit>>,
                          units: seq<Unit>)
  {
    && |perGroup| == |groups| && FlattenUnits(perGroup) == units
    && forall k :: 0 <= k < |groups| ==> groups[k] != [] && GroupUnits(c, tk, groups[k], perGroup[k])
  }

  function FlattenUnits(perGroup: seq<seq<Unit>>): seq<Unit> {
    if perGroup == [] then [] else FlattenUnits(perGroup[..|perGroup| - 1]) + perGroup[|perGroup| - 1]
  }

  /** The tokenizer's answer lets the fragment be cut into windows. */
  predicate WindowsPossible(c: ChunkCase, tk: Tokenizer, source: RoleSource) {
    var text := GroupText([source]);
    var capacity := MaxTokens(source.role) - tk.count(EmbeddingPrefix(c, source.role));
    && capacity >= 1 && OrderedOffsets(tk.offsets(text), |text|) && |tk.offsets(text)| == tk.count(text)
    && (tk.count(text) <= capacity || capacity >= 2)
  }

  predicate AllWindowsPossible(c: ChunkCase, tk: Tokenizer, sources: seq<RoleSource>) {
    forall i :: 0 <= i < |sources| ==> WindowsPossible(c, tk, sources[i])
  }

  /** Every group of a single fragment can be cut into windows. */
  predicate GroupsPossible(c: ChunkCase, tk: Tokenizer, groups: seq<seq<RoleSource>>) {
    forall k :: 0 <= k < |groups| ==> GroupPossible(c, tk, groups[k])
  }

  predicate GroupPossible(c: ChunkCase, tk: Tokenizer, group: seq<RoleSource>) {
    |group| > 1 || (|group| == 1 && WindowsPossible(c, tk, group[0]))
  }

  // ----- the cut that the loop makes -----

  /** The test of the loop: `source` is alike and the group still fits with it. */
  predicate Joins(c: ChunkCase, tk: Tokenizer, group: seq<RoleSource>, source: RoleSource)
    requires group != [] && AllBound(c, group) && Bound(c, source)
  {
    && SourcesCanGroup(c, group[0], source)
    && tk.count(EmbeddingPrefix(c, source.role) + GroupText(group + [source])) <= MaxTokens(source.role)
  }

  predicate TooLong(c: ChunkCase, tk: Tokenizer, source: RoleSource)
    requires Bound(c, source)
  {
    tk.count(EmbeddingPrefix(c, source.role) + GroupText([source])) > MaxTokens(source.role)
  }

  /** What the next fragment leaves open behind the open group `open`. */
  function NextOpen(c: ChunkCase, tk: Tokenizer, open: seq<RoleSource>, source: RoleSource): (next: seq<RoleSource>)
    requires AllBound(c, open) && Bound(c, source)
    ensures AllBound(c, next)
  {
    if open != [] && Joins(c, tk, open, source) then open + [source]
    else if TooLong(c, tk, source) then []
    else [source]
  }

  /** The groups that the next fragment closes behind the open group `open`. */
  function Closes(c: ChunkCase, tk: Tokenizer, open: seq<RoleSource>, source: RoleSource): seq<seq<RoleSource>>
    requires AllBound(c, open) && Bound(c, source)
  {
    if open != [] && Joins(c, tk, open, source) then []
    else OpenGroup(open) + if TooLong(c, tk, source) then [[source]] else []
  }

  function OpenGroup(open: seq<RoleSource>): seq<seq<RoleSource>> { if open == [] then [] else [open] }

  function OpenOf(c: ChunkCase, tk: Tokenizer, sources: seq<RoleSource>): (open: seq<RoleSource>)
    requires AllBound(c, sources)
    ensures AllBound(c, open)
  {
    if sources == [] then []
    else NextOpen(c, tk, OpenOf(c, tk, sources[..|sources| - 1]), sources[|sources| - 1])
  }

  function ClosedOf(c: ChunkCase, tk: Tokenizer, sources: seq<RoleSource>): seq<seq<RoleSource>>
    requires AllBound(c, sources)
  {
    if sources == [] then []
    else
      var front := sources[..|sources| - 1];
      ClosedOf(c, tk, front) + Closes(c, tk, OpenOf(c, tk, front), sources[|sources| - 1])
  }

  /** The groups of the sources. */
  function GroupsOf(c: ChunkCase, tk: Tokenizer, sources: seq<RoleSource>): seq<seq<RoleSource>>
    requires AllBound(c, sources)
  {
    ClosedOf(c, tk, sources) + OpenGroup(OpenOf(c, tk, sources))
  }

  lemma PossibleBoth(c: ChunkCase, tk: Tokenizer, a: seq<seq<RoleSource>>, b: seq<seq<RoleSource>>)
    ensures GroupsPossible(c, tk, a + b) <==> GroupsPossible(c, tk, a) && GroupsPossible(c, tk, b)
  {
    var both := a + b;
    if GroupsPossible(c, tk, both) {
      forall k | 0 <= k < |a| ensures GroupPossible(c, tk, a[k]) { assert both[k] == a[k]; }
      forall k | 0 <= k < |b| ensures GroupPossible(c, tk, b[k]) { assert both[|a| + k] == b[k]; }
    } else {
      var k :| 0 <= k < |both| && !GroupPossible(c, tk, both[k]);
      assert if k < |a| then !GroupPossible(c, tk, a[k]) else !GroupPossible(c, tk, b[k - |a|]);
    }
  }

  /** A group that was closed and cannot be cut into windows is among the groups of all sources. */
  lemma {:induction false} ImpossibleStays(c: ChunkCase, tk: Tokenizer, sources: seq<RoleSource>, i: nat)
    requires AllBound(c, sources) && i <= |sources| && !GroupsPossible(c, tk, ClosedOf(c, tk, sources[..i]))
    ensures !GroupsPossible(c, tk, ClosedOf(c, tk, sources)) && !GroupsPossible(c, tk, GroupsOf(c, tk, sources))
  {
    if i < |sources| {
      var front := sources[..|sources| - 1];
      assert front[..i] == sources[..i];
      ImpossibleStays(c, tk, front, i);
      PossibleBoth(c, tk, ClosedOf(c, tk, front), Closes(c, tk, OpenOf(c, tk, front), sources[|sources| - 1]));
    } else {
      assert sources[..i] == sources;
    }
    PossibleBoth(c, tk, ClosedOf(c, tk, sources), OpenGroup(OpenOf(c, tk, sources)));
  }

  lemma FragmentGives(c: ChunkCase, tk: Tokenizer, open: seq<RoleSource>, source: RoleSource)
    requires AllBound(c, open) && Bound(c, source) && AllWindowsPossible(c, tk, open) && WindowsPossible(c, tk, source)
    ensures GroupsPossible(c, tk, Closes(c, tk, open, source))
            && AllWindowsPossible(c, tk, NextOpen(c, tk, open, source))
  {
  }

  /** When every fragment can be cut into windows, so can every group. */
  lemma {:induction false} FragmentsGiveGroups(c: ChunkCase, tk: Tokenizer, sources: seq<RoleSource>)
    requires AllBound(c, sources) && AllWindowsPossible(c, tk, sources)
    ensures GroupsPossible(c, tk, ClosedOf(c, tk, sources)) && AllWindowsPossible(c, tk, OpenOf(c, tk, sources))
    ensures GroupsPossible(c, tk, GroupsOf(c, tk, sources))
  {
    if sources != [] {
      var front := sources[..|sources| - 1];
      FragmentsGiveGroups(c, tk, front);
      FragmentGives(c, tk, OpenOf(c, tk, front), sources[|sources| - 1]);
      PossibleBoth(c, tk, ClosedOf(c, tk, front), Closes(c, tk, OpenOf(c, tk, front), sources[|sources| - 1]));
    }
    PossibleBoth(c, tk, ClosedOf(c, tk, sources), OpenGroup(OpenOf(c, tk, sources)));
  }

  lemma FragmentsSuffice(c: ChunkCase, tk: Tokenizer, sources: seq<RoleSource>)
    requires AllBound(c, sources)
    ensures AllWindowsPossible(c, tk, sources) ==> GroupsPossible(c, tk, GroupsOf(c, tk, sources))
  {
    if AllWindowsPossible(c, tk, sources) { FragmentsGiveGroups(c, tk, sources); }
  }

  // ----- how many units a group gives -----

  /** One unit, or the windows of a single fragment that is too long. */
  function UnitCount(c: ChunkCase, tk: Tokenizer, group: seq<RoleSource>): nat
    requires group != []
  {
    PieceCount(PieceOf(c, tk, group))
  }

  function PieceCount(p: Piece): nat {
    if p.whole || p.tokens <= p.capacity || p.capacity < 2 then 1 else WindowCount(p.tokens, p.capacity)
  }

  function UnitTotal(c: ChunkCase, tk: Tokenizer, groups: seq<seq<RoleSource>>): nat {
    if groups == [] then 0
    else
      var last := groups[|groups| - 1];
      UnitTotal(c, tk, groups[..|groups| - 1]) + if last == [] then 0 else UnitCount(c, tk, last)
  }

  lemma UnitCountPositive(c: ChunkCase, tk: Tokenizer, group: seq<RoleSource>)
    requires group != []
    ensures UnitCount(c, tk, group) >= 1
  {
  }

  lemma GroupUnitCount(c: ChunkCase, tk: Tokenizer, group: seq<RoleSource>, units: seq<Unit>)
    requires group != [] && GroupUnits(c, tk, group, units)
    ensures |units| == UnitCount(c, tk, group)
  {
    assert |Texts(units)| == |units|;
    PieceTextsCounted(PieceOf(c, tk, group), Texts(units));
  }

  lemma PieceTextsCounted(p: Piece, texts: seq<string>)
    ensures PieceTexts(p, texts) ==> |texts| == PieceCount(p)
  {
    if PieceTexts(p, texts) && !p.whole && p.tokens > p.capacity {
      WindowTextsCounted(p.text, p.offsets, p.tokens, p.capacity, texts);
    }
  }

  lemma {:induction false} WindowTextsCounted(text: string, offsets: seq<Offset>, n: nat, capacity: nat,
                                              texts: seq<string>)
    requires OrderedOffsets(offsets, |text|) && capacity >= 2
    requires exists ranges :: WindowRanges(n, capacity, ranges) && WindowTexts(text, offsets, ranges, texts)
    ensures |texts| == WindowCount(n, capacity)
  {
    var ranges :| WindowRanges(n, capacity, ranges) && WindowTexts(text, offsets, ranges, texts);
    AllWindowsCounted(n, capacity, ranges);
    SameLength(text, offsets, ranges, texts);
  }

  /** The number of units is known from the groups and the token counts. */
  lemma {:induction false} UnitsCounted(c: ChunkCase, tk: Tokenizer, groups: seq<seq<RoleSource>>,
                                        perGroup: seq<seq<Unit>>, units: seq<Unit>)
    requires UnitsOf(c, tk, groups, perGroup, units)
    ensures |units| == UnitTotal(c, tk, groups)
  {
    if groups != [] {
      var n := |groups| - 1;
      UnitsCounted(c, tk, groups[..n], perGroup[..n], FlattenUnits(perGroup[..n]));
      GroupUnitCount(c, tk, groups[n], perGroup[n]);
    }
  }

  lemma RangesGiveTexts(text: string, offsets: seq<Offset>, ranges: seq<(nat, nat)>, s: seq<string>, t: seq<string>)
    requires OrderedOffsets(offsets, |text|) && WindowTexts(text, offsets, ranges, s)
             && WindowTexts(text, offsets, ranges, t)
    ensures s == t
  {
  }

  lemma SameTexts(text: string, offsets: seq<Offset>, n: nat, capacity: nat, a: seq<(nat, nat)>, s: seq<string>,
                  b: seq<(nat, nat)>, t: seq<string>)
    requires OrderedOffsets(offsets, |text|) && WindowRanges(n, capacity, a) && WindowRanges(n, capacity, b)
    requires WindowTexts(text, offsets, a, s) && WindowTexts(text, offsets, b, t)
    ensures s == t
  {
    SameRanges(n, capacity, a, b);
    RangesGiveTexts(text, offsets, a, s, t);
  }

  lemma PieceTextsUnique(p: Piece, s: seq<string>, t: seq<string>)
    ensures PieceTexts(p, s) && PieceTexts(p, t) ==> s == t
  {
    if PieceTexts(p, s) && PieceTexts(p, t) && !p.whole && p.tokens > p.capacity {
      WindowedTextsUnique(p.text, p.offsets, p.tokens, p.capacity, s, t);
    }
  }

  lemma GroupTextsUnique(c: ChunkCase, tk: Tokenizer, group: seq<RoleSource>, s: seq<string>, t: seq<string>)
    requires group != []
    ensures GroupTexts(c, tk, group, s) && GroupTexts(c, tk, group, t) ==> s == t
  {
    PieceTextsUnique(PieceOf(c, tk, group), s, t);
  }

  lemma WindowedTextsUnique(text: string, offsets: seq<Offset>, n: nat, capacity: nat, s: seq<string>, t: seq<string>)
    requires OrderedOffsets(offsets, |text|)
    requires exists a :: WindowRanges(n, capacity, a) && WindowTexts(text, offsets, a, s)
    requires exists b :: WindowRanges(n, capacity, b) && WindowTexts(text, offsets, b, t)
    ensures s == t
  {
    var a :| WindowRanges(n, capacity, a) && WindowTexts(text, offsets, a, s);
    var b :| WindowRanges(n, capacity, b) && WindowTexts(text, offsets, b, t);
    SameTexts(text, offsets, n, capacity, a, s, b, t);
  }

  lemma GroupUnitsUnique(c: ChunkCase, tk: Tokenizer, group: seq<RoleSource>, u: seq<Unit>, v: seq<Unit>)
    requires group != [] && GroupUnits(c, tk, group, u) && GroupUnits(c, tk, group, v)
    ensures u == v
  {
    GroupTextsUnique(c, tk, group, Texts(u), Texts(v));
    assert |Texts(u)| == |u| && |Texts(v)| == |v|;
    forall i | 0 <= i < |u| ensures u[i] == v[i] { assert Texts(u)[i] == u[i].text && Texts(v)[i] == v[i].text; }
  }

  /** The groups determine their units. */
  lemma {:induction false} UnitsUnique(c: ChunkCase, tk: Tokenizer, groups: seq<seq<RoleSource>>, p: seq<seq<Unit>>,
                                       u: seq<Unit>,
                                       q: seq<seq<Unit>>, v: seq<Unit>)
    requires UnitsOf(c, tk, groups, p, u) && UnitsOf(c, tk, groups, q, v)
    ensures u == v
  {
    if groups != [] {
      var n := |groups| - 1;
      UnitsUnique(c, tk, groups[..n], p[..n], FlattenUnits(p[..n]), q[..n], FlattenUnits(q[..n]));
      GroupUnitsUnique(c, tk, groups[n], p[n], q[n]);
    }
  }

  /** The units of one finished group. */
  method UnitsFor(c: ChunkCase, tk: Tokenizer, group: seq<RoleSource>) returns (r: Result<seq<Unit>>)
    requires group != []
    ensures r.Ok? ==> GroupUnits(c, tk, group, r.value)
    ensures r.Ok? <==> |group| > 1 || WindowsPossible(c, tk, group[0])
  {
    var first := group[0];
    assert |group| == 1 ==> group == [first] && GroupText(group) == GroupText([first]);
    var text := GroupText(group);
    var indexes := GroupSpanIndexes(group);
    var windows := [text];
    if |group| == 1 {
      ghost var ranges;
      var chunked;
      chunked, ranges :=
        ChunkTextWindows(tk.count(EmbeddingPrefix(c, first.role)), text, tk.count(text), tk.offsets(text),
                         MaxTokens(first.role));
      if chunked.Err? { return Err(chunked.message); }
      windows := chunked.value;
    }
    var units := MakeUnits(first.role, windows, indexes);
    return Ok(units);
  }

  /** One unit per window, all bound to the same spans. */
  method MakeUnits(role: Role, windows: seq<string>, indexes: seq<nat>) returns (units: seq<Unit>)
    ensures Texts(units) == windows
    ensures forall i :: 0 <= i < |units| ==> units[i].role == role && units[i].indexes == indexes
  {
    units := [];
    for i := 0 to |windows|
      invariant |units| == i
      invariant forall j :: 0 <= j < i ==> units[j] == Unit(role, windows[j], indexes)
    {
      units := units + [Unit(role, windows[i], indexes)];
    }
  }

  /** `flush`: moves the units of the current group, if there is one, to the result. */
  method Flush(c: ChunkCase, tk: Tokenizer, group: seq<RoleSource>, units: seq<Unit>,
               ghost groups: seq<seq<RoleSource>>, ghost perGroup: seq<seq<Unit>>)
      returns (r: Result<seq<Unit>>, ghost perGroup': seq<seq<Unit>>)
    requires UnitsOf(c, tk, groups, perGroup, units)
    ensures r.Ok? <==> GroupsPossible(c, tk, OpenGroup(group))
    ensures r.Ok? ==> UnitsOf(c, tk, groups + OpenGroup(group), perGroup', r.value)
  {
    if group == [] {
      assert groups + [] == groups;
      return Ok(units), perGroup;
    }
    var more := UnitsFor(c, tk, group);
    assert GroupsPossible(c, tk, [group]) <==> GroupPossible(c, tk, group) by { assert [group][0] == group; }
    if more.Err? { return Err(more.message), perGroup; }
    AppendUnits(c, tk, groups, perGroup, units, group, more.value);
    return Ok(units + more.value), perGroup + [more.value];
  }

  /** One fragment: join it to the current group, or flush and start a new one. */
  method Place(c: ChunkCase, tk: Tokenizer, source: RoleSource, units: seq<Unit>, group: seq<RoleSource>,
               ghost groups: seq<seq<RoleSource>>, ghost perGroup: seq<seq<Unit>>)
      returns (r: Result<seq<Unit>>, group': seq<RoleSource>, ghost perGroup': seq<seq<Unit>>)
    requires AllBound(c, group) && Bound(c, source) && UnitsOf(c, tk, groups, perGroup, units)
    ensures r.Ok? <==> GroupsPossible(c, tk, Closes(c, tk, group, source))
    ensures r.Ok? ==> group' == NextOpen(c, tk, group, source)
    ensures r.Ok? ==> UnitsOf(c, tk, groups + Closes(c, tk, group, source), perGroup', r.value)
  {
    if group != [] && Joins(c, tk, group, source) {
      assert groups + [] == groups;
      return Ok(units), group + [source], perGroup;
    }
    ghost var alone := if TooLong(c, tk, source) then [[source]] else [];
    PossibleBoth(c, tk, OpenGroup(group), alone);
    r, perGroup' := Flush(c, tk, group, units, groups, perGroup);
    group' := [source];
    if r.Err? { return; }
    assert groups + (OpenGroup(group) + alone) == groups + OpenGroup(group) + alone;
    if TooLong(c, tk, source) {
      r, perGroup' := Flush(c, tk, group', r.value, groups + OpenGroup(group), perGroup');
      group' := [];
    } else {
      assert groups + OpenGroup(group) + [] == groups + OpenGroup(group);
    }
  }

  /** `_grouped_chunk_units`. */
  method GroupedChunkUnits(c: ChunkCase, sources: seq<RoleSource>, tk: Tokenizer)
      returns (r: Result<seq<Unit>>, ghost perGroup: seq<seq<Unit>>)
    requires AllBound(c, sources)
    ensures var groups := GroupsOf(c, tk, sources);
            && (r.Ok? <==> GroupsPossible(c, tk, groups) && UnitTotal(c, tk, groups) <= MAX_CHUNKS_PER_CASE)
            && (r.Ok? ==> UnitsOf(c, tk, groups, perGroup, r.value))
            && (r.Err? && GroupsPossible(c, tk, groups) ==> r.message == UNIT_BOUND_ERROR)
    ensures AllWindowsPossible(c, tk, sources) && r.Err? ==> r.message == UNIT_BOUND_ERROR
  {
    FragmentsSuffice(c, tk, sources);
    var group;
    r, group, perGroup := CutSources(c, sources, tk);
    if r.Err? { return; }
    PossibleBoth(c, tk, ClosedOf(c, tk, sources), OpenGroup(group));
    r, perGroup := Flush(c, tk, group, r.value, ClosedOf(c, tk, sources), perGroup);
    if r.Err? { return; }
    UnitsCounted(c, tk, GroupsOf(c, tk, sources), perGroup, r.value);
    if |r.value| > MAX_CHUNKS_PER_CASE { r := Err(UNIT_BOUND_ERROR); }
  }

  /** The loop over the fragments, and the group that it leaves open. */
  method CutSources(c: ChunkCase, sources: seq<RoleSource>, tk: Tokenizer)
      returns (r: Result<seq<Unit>>, group: seq<RoleSource>, ghost perGroup: seq<seq<Unit>>)
    requires AllBound(c, sources)
    ensures r.Ok? <==> GroupsPossible(c, tk, ClosedOf(c, tk, sources))
    ensures r.Err? ==> !GroupsPossible(c, tk, GroupsOf(c, tk, sources))
    ensures r.Ok? ==> group == OpenOf(c, tk, sources) && UnitsOf(c, tk, ClosedOf(c, tk, sources), perGroup, r.value)
  {
    var units: seq<Unit> := [];
    group, perGroup := [], [];
    for i := 0 to |sources|
      invariant CutSoFar(c, tk, sources[..i], group, perGroup, units)
    {
      r, group, perGroup := PlaceNext(c, sources, i, tk, units, group, perGroup);
      if r.Err? { return; }
      units := r.value;
    }
    assert sources[..|sources|] == sources;
    r := Ok(units);
  }

  /** The open group, and the units of the closed ones, after these sources. */
  ghost predicate CutSoFar(c: ChunkCase, tk: Tokenizer, done: seq<RoleSource>, group: seq<RoleSource>,
                           perGroup: seq<seq<Unit>>, units: seq<Unit>) {
    && AllBound(c, done) && group == OpenOf(c, tk, done) && GroupsPossible(c, tk, ClosedOf(c, tk, done))
    && UnitsOf(c, tk, ClosedOf(c, tk, done), perGroup, units)
  }

  /** The body of the loop for fragment `i`. */
  method PlaceNext(c: ChunkCase, sources: seq<RoleSource>, i: nat, tk: Tokenizer, units: seq<Unit>,
                   group: seq<RoleSource>, ghost perGroup: seq<seq<Unit>>)
      returns (r: Result<seq<Unit>>, group': seq<RoleSource>, ghost perGroup': seq<seq<Unit>>)
    requires AllBound(c, sources) && i < |sources| && CutSoFar(c, tk, sources[..i], group, perGroup, units)
    ensures r.Ok? ==> CutSoFar(c, tk, sources[..i + 1], group', perGroup', r.value)
    ensures r.Err? ==>
              !GroupsPossible(c, tk, ClosedOf(c, tk, sources)) && !GroupsPossible(c, tk, GroupsOf(c, tk, sources))
  {
    NextCut(c, tk, sources, i);
    r, group', perGroup' := Place(c, tk, sources[i], units, group, ClosedOf(c, tk, sources[..i]), perGroup);
    if r.Err? { ImpossibleStays(c, tk, sources, i + 1); }
  }

  /** The cut of one fragment more. */
  lemma {:induction false} NextCut(c: ChunkCase, tk: Tokenizer, sources: seq<RoleSource>, i: nat)
    requires AllBound(c, sources) && i < |sources|
    ensures var front, next := sources[..i], sources[..i + 1];
            var closes := Closes(c, tk, OpenOf(c, tk, front), sources[i]);
            && ClosedOf(c, tk, next) == ClosedOf(c, tk, front) + closes
            && OpenOf(c, tk, next) == NextOpen(c, tk, OpenOf(c, tk, front), sources[i])
            && (GroupsPossible(c, tk, ClosedOf(c, tk, next))
                <==> GroupsPossible(c, tk, ClosedOf(c, tk, front)) && GroupsPossible(c, tk, closes))
  {
    SliceGrows(sources, 0, i);
    PrefixStep(c, tk, sources[..i], sources[i], sources[..i + 1]);
    PossibleBoth(c, tk, ClosedOf(c, tk, sources[..i]), Closes(c, tk, OpenOf(c, tk, sources[..i]), sources[i]));
  }

  lemma {:induction false} PrefixStep(c: ChunkCase, tk: Tokenizer, front: seq<RoleSource>, source: RoleSource,
                                      more: seq<RoleSource>)
    requires AllBound(c, front) && Bound(c, source) && more == front + [source]
    ensures AllBound(c, more)
    ensures ClosedOf(c, tk, more) == ClosedOf(c, tk, front) + Closes(c, tk, OpenOf(c, tk, front), source)
    ensures OpenOf(c, tk, more) == NextOpen(c, tk, OpenOf(c, tk, front), source)
  {
    assert more[..|more| - 1] == front;
  }

  // ----- the groups obey the rule -----

  /** The last closed group was not closed too early before `group`. */
  predicate MayFollow(c: ChunkCase, tk: Tokenizer, groups: seq<seq<RoleSource>>, group: seq<RoleSource>) {
    groups != [] ==>
      var last := groups[|groups| - 1];
      && last != [] && AllBound(c, last)
      && if group == [] then |last| == 1 && !Fits(c, tk, last)
         else Bound(c, group[0]) && ClosedBefore(c, tk, last, group[0])
  }

  /** Closed groups obey the rule and were closed greedily, and the open one may follow them. */
  predicate GoodCut(c: ChunkCase, tk: Tokenizer, groups: seq<seq<RoleSource>>, open: seq<RoleSource>) {
    && AllWellGrouped(c, tk, groups) && Greedy(c, tk, groups)
    && (open != [] ==> WellGrouped(c, tk, open)) && MayFollow(c, tk, groups, open)
  }

  lemma JoinStep(c: ChunkCase, tk: Tokenizer, groups: seq<seq<RoleSource>>, group: seq<RoleSource>, source: RoleSource)
    requires WellGrouped(c, tk, group) && Bound(c, source) && MayFollow(c, tk, groups, group)
             && Joins(c, tk, group, source)
    ensures WellGrouped(c, tk, group + [source]) && MayFollow(c, tk, groups, group + [source])
  {
    UniformGrows(c, group, source);
    assert (group + [source])[0] == group[0];
  }

  lemma CloseStep(c: ChunkCase, tk: Tokenizer, groups: seq<seq<RoleSource>>, group: seq<RoleSource>, source: RoleSource)
    requires Bound(c, source) && (group != [] ==> WellGrouped(c, tk, group) && !Joins(c, tk, group, source))
    requires MayFollow(c, tk, groups, group)
    ensures WellGrouped(c, tk, [source])
    ensures MayFollow(c, tk, if group == [] then groups else groups + [group], [source])
  {
  }

  lemma UniformGrows(c: ChunkCase, group: seq<RoleSource>, s: RoleSource)
    requires group != [] && AllBound(c, group) && Bound(c, s)
    requires (|group| > 1 ==> Uniform(c, group)) && SourcesCanGroup(c, group[0], s)
    ensures AllBound(c, group + [s]) && Uniform(c, group + [s])
  {
  }

  /** Closing the open group keeps the rule and the order. */
  lemma {:induction false} CloseOpen(c: ChunkCase, tk: Tokenizer, groups: seq<seq<RoleSource>>, open: seq<RoleSource>)
    requires GoodCut(c, tk, groups, open)
    ensures AllWellGrouped(c, tk, groups + OpenGroup(open)) && Greedy(c, tk, groups + OpenGroup(open))
    ensures Flatten(groups + OpenGroup(open)) == Flatten(groups) + open
  {
    if open == [] {
      assert groups + [] == groups && Flatten(groups) + [] == Flatten(groups);
    } else {
      AppendGreedy(c, tk, groups, open);
      assert (groups + [open])[..|groups|] == groups;
    }
  }

  /** A fragment that is too long already is a closed group of its own. */
  lemma NewGroup(c: ChunkCase, tk: Tokenizer, groups: seq<seq<RoleSource>>, source: RoleSource)
    requires Bound(c, source) && GoodCut(c, tk, groups, [source])
    ensures var long := TooLong(c, tk, source);
            var more := groups + if long then [[source]] else [];
            var open := if long then [] else [source];
            GoodCut(c, tk, more, open) && Flatten(more) + open == Flatten(groups) + [source]
  {
    assert groups + [] == groups;
    CloseOpen(c, tk, groups, [source]);
  }

  /** A good cut of exactly these sources. */
  predicate CutFits(c: ChunkCase, tk: Tokenizer, sources: seq<RoleSource>, groups: seq<seq<RoleSource>>,
                    open: seq<RoleSource>) {
    GoodCut(c, tk, groups, open) && Flatten(groups) + open == sources
  }

  lemma JoinFits(c: ChunkCase, tk: Tokenizer, sources: seq<RoleSource>, groups: seq<seq<RoleSource>>,
                 open: seq<RoleSource>,
                 source: RoleSource)
    requires CutFits(c, tk, sources, groups, open) && Bound(c, source) && AllBound(c, open)
    requires open != [] && Joins(c, tk, open, source)
    ensures CutFits(c, tk, sources + [source], groups, open + [source])
  {
    JoinStep(c, tk, groups, open, source);
    assert Flatten(groups) + (open + [source]) == Flatten(groups) + open + [source];
  }

  lemma {:induction false} FlushFits(c: ChunkCase, tk: Tokenizer, sources: seq<RoleSource>,
                                     groups: seq<seq<RoleSource>>,
                                     open: seq<RoleSource>,
                                     source: RoleSource)
    requires CutFits(c, tk, sources, groups, open) && Bound(c, source) && AllBound(c, open)
    requires open == [] || !Joins(c, tk, open, source)
    ensures GoodCut(c, tk, groups + OpenGroup(open), [source])
    ensures Flatten(groups + OpenGroup(open)) == sources
  {
    CloseStep(c, tk, groups, open, source);
    CloseOpen(c, tk, groups, open);
    assert groups + [] == groups;
  }

  /** One fragment more keeps the rule and the order. */
  lemma CutFitsStep(c: ChunkCase, tk: Tokenizer, sources: seq<RoleSource>, groups: seq<seq<RoleSource>>,
                    open: seq<RoleSource>,
                    source: RoleSource)
    requires CutFits(c, tk, sources, groups, open) && Bound(c, source) && AllBound(c, open)
    ensures CutFits(c, tk, sources + [source], groups + Closes(c, tk, open, source), NextOpen(c, tk, open, source))
  {
    if open != [] && Joins(c, tk, open, source) {
      JoinFits(c, tk, sources, groups, open, source);
      assert groups + [] == groups;
    } else {
      FlushFits(c, tk, sources, groups, open, source);
      NewGroup(c, tk, groups + OpenGroup(open), source);
      assert groups + Closes(c, tk, open, source)
             == groups + OpenGroup(open) + if TooLong(c, tk, source) then [[source]] else [];
    }
  }

  /** The loop's cut of the first `i` sources is good. */
  predicate PrefixFits(c: ChunkCase, tk: Tokenizer, sources: seq<RoleSource>, i: nat)
    requires AllBound(c, sources) && i <= |sources|
  {
    CutFits(c, tk, sources[..i], ClosedOf(c, tk, sources[..i]), OpenOf(c, tk, sources[..i]))
  }

  lemma NoSourceFits(c: ChunkCase, tk: Tokenizer, sources: seq<RoleSource>)
    requires AllBound(c, sources)
    ensures PrefixFits(c, tk, sources, 0)
  {
  }

  lemma NextSourceFits(c: ChunkCase, tk: Tokenizer, sources: seq<RoleSource>, i: nat)
    requires AllBound(c, sources) && i < |sources|
    ensures PrefixFits(c, tk, sources, i) ==> PrefixFits(c, tk, sources, i + 1)
  {
    SliceGrows(sources, 0, i);
    PrefixStep(c, tk, sources[..i], sources[i], sources[..i + 1]);
    if PrefixFits(c, tk, sources, i) {
      CutFitsStep(c, tk, sources[..i], ClosedOf(c, tk, sources[..i]), OpenOf(c, tk, sources[..i]), sources[i]);
    }
  }

  lemma {:induction false} SourcesFit(c: ChunkCase, tk: Tokenizer, sources: seq<RoleSource>, i: nat)
    requires AllBound(c, sources) && i <= |sources|
    ensures PrefixFits(c, tk, sources, i)
  {
    if i == 0 {
      NoSourceFits(c, tk, sources);
    } else {
      SourcesFit(c, tk, sources, i - 1);
      NextSourceFits(c, tk, sources, i - 1);
    }
  }

  /** The loop's groups keep every fragment in order, obey the rule and are closed greedily. */
  lemma GroupsAreGreedy(c: ChunkCase, tk: Tokenizer, sources: seq<RoleSource>)
    requires AllBound(c, sources)
    ensures Grouping(c, tk, sources, GroupsOf(c, tk, sources)) && Greedy(c, tk, GroupsOf(c, tk, sources))
  {
    SourcesFit(c, tk, sources, |sources|);
    assert sources[..|sources|] == sources;
    CloseOpen(c, tk, ClosedOf(c, tk, sources), OpenOf(c, tk, sources));
  }

  lemma AppendGreedy(c: ChunkCase, tk: Tokenizer, groups: seq<seq<RoleSource>>, group: seq<RoleSource>)
    requires AllWellGrouped(c, tk, groups) && Greedy(c, tk, groups) && WellGrouped(c, tk, group)
    requires groups != [] ==> ClosedBefore(c, tk, groups[|groups| - 1], group[0])
    ensures AllWellGrouped(c, tk, groups + [group]) && Greedy(c, tk, groups + [group])
  {
    var more := groups + [group];
    forall k | 0 <= k < |more| - 1 ensures GreedyAt(c, tk, more, k) {
      assert more[k] == groups[k] && more[k + 1] == if k < |groups| - 1 then groups[k + 1] else group;
      if k < |groups| - 1 { assert GreedyAt(c, tk, groups, k); }
    }
    forall k | 0 <= k < |more| ensures WellGrouped(c, tk, more[k]) {
      assert more[k] == if k < |groups| then groups[k] else group;
    }
  }

  lemma AppendUnits(c: ChunkCase, tk: Tokenizer, groups: seq<seq<RoleSource>>, perGroup: seq<seq<Unit>>,
                    units: seq<Unit>,
                    group: seq<RoleSource>, more: seq<Unit>)
    requires UnitsOf(c, tk, groups, perGroup, units) && group != [] && GroupUnits(c, tk, group, more)
    ensures UnitsOf(c, tk, groups + [group], perGroup + [more], units + more)
  {
    assert (perGroup + [more])[..|perGroup|] == perGroup;
  }

  // ----- no grouping is coarser -----

  /** Fewer neighbouring fragments never take more tokens. */
  ghost predicate MonotoneTokens(c: ChunkCase, tk: Tokenizer) {
    forall g: seq<RoleSource>, i: nat, j: nat {:trigger Cost(c, tk, g[i..j])} | i < j <= |g| && AllBound(c, g)
      && Uniform(c, g) ::
      Cost(c, tk, g[i..j]) <= Cost(c, tk, g)
  }

  /** Where group `k` starts in the source sequence. */
  function StartOf(groups: seq<seq<RoleSource>>, k: nat): nat
    requires k <= |groups|
  {
    |Flatten(groups[..k])|
  }

  lemma {:induction false} GroupIsSlice(groups: seq<seq<RoleSource>>, k: nat)
    requires k < |groups|
    ensures StartOf(groups, k) <= StartOf(groups, k + 1) <= |Flatten(groups)|
    ensures StartOf(groups, k + 1) == StartOf(groups, k) + |groups[k]|
    ensures groups[k] == Flatten(groups)[StartOf(groups, k)..StartOf(groups, k + 1)]
  {
    var n := |groups|;
    assert groups[..k + 1][..k] == groups[..k];
    if k == n - 1 {
      assert groups[..n] == groups;
    } else {
      var front := groups[..n - 1];
      GroupIsSlice(front, k);
      assert front[..k] == groups[..k] && front[..k + 1] == groups[..k + 1];
      assert Flatten(groups) == Flatten(front) + groups[n - 1];
    }
  }

  /** Any slice of a group that obeys the rule obeys it too. */
  lemma SliceWellGrouped(c: ChunkCase, tk: Tokenizer, group: seq<RoleSource>, i: nat, j: nat)
    requires WellGrouped(c, tk, group) && MonotoneTokens(c, tk) && i < j <= |group|
    ensures WellGrouped(c, tk, group[i..j])
  {
    if |group| > 1 {
      assert Cost(c, tk, group[i..j]) <= Cost(c, tk, group);
    }
  }

  /** A greedy group cannot be extended by the next fragment. */
  lemma GreedyCannotExtend(c: ChunkCase, tk: Tokenizer, group: seq<RoleSource>, next: RoleSource)
    requires WellGrouped(c, tk, group) && Bound(c, next) && ClosedBefore(c, tk, group, next) && MonotoneTokens(c, tk)
    ensures !WellGrouped(c, tk, group + [next])
  {
    var more := group + [next];
    assert more[0..|group|] == group && more[0] == group[0] && more[|group|] == next;
  }

  lemma SliceGrows(s: seq<RoleSource>, g: nat, h: nat)
    requires g <= h < |s|
    ensures s[g..h + 1] == s[g..h] + [s[h]]
  {
  }

  lemma SliceOfSlice(s: seq<RoleSource>, a: nat, b: nat, g: nat, h: nat)
    requires a <= g <= h <= b <= |s|
    ensures s[a..b][g - a..h - a] == s[g..h]
    ensures h < b ==> s[a..b][h - a] == s[h]
  {
    forall k | 0 <= k < h - g ensures s[a..b][g - a..h - a][k] == s[g..h][k] {
      assert s[a..b][g - a + k] == s[g + k];
    }
  }

  /** A group that lies inside another one, and ends before it, was not closed by the rule. */
  lemma InnerGroupExtends(c: ChunkCase, tk: Tokenizer, whole: seq<RoleSource>, i: nat, j: nat)
    requires i < j < |whole| && WellGrouped(c, tk, whole) && MonotoneTokens(c, tk)
    ensures WellGrouped(c, tk, whole[i..j]) && Bound(c, whole[j]) && !ClosedBefore(c, tk, whole[i..j], whole[j])
  {
    SliceWellGrouped(c, tk, whole, i, j);
    SliceWellGrouped(c, tk, whole, i, j + 1);
    SliceGrows(whole, i, j);
    if ClosedBefore(c, tk, whole[i..j], whole[j]) { GreedyCannotExtend(c, tk, whole[i..j], whole[j]); }
  }

  /** The greedy grouping stays ahead of every other one. */
  lemma {:induction false} GreedyStaysAhead(c: ChunkCase, tk: Tokenizer, sources: seq<RoleSource>,
                                            greedy: seq<seq<RoleSource>>,
                                            other: seq<seq<RoleSource>>, k: nat)
    requires Grouping(c, tk, sources, greedy) && Greedy(c, tk, greedy) && Grouping(c, tk, sources, other)
    requires MonotoneTokens(c, tk) && k <= |greedy| && k <= |other|
    ensures StartOf(greedy, k) >= StartOf(other, k)
  {
    if k > 0 {
      GreedyStaysAhead(c, tk, sources, greedy, other, k - 1);
      GroupIsSlice(greedy, k - 1);
      GroupIsSlice(other, k - 1);
      var a, b := StartOf(other, k - 1), StartOf(other, k);
      var g, h := StartOf(greedy, k - 1), StartOf(greedy, k);
      if h < b {
        NextGroupExists(sources, greedy, k);
        GroupIsSlice(greedy, k);
        assert GreedyAt(c, tk, greedy, k - 1);
        StepReaches(c, tk, sources, a, b, g, h, other[k - 1], greedy[k - 1]);
      }
    }
  }

  /** If the greedy group over `[g, h)` starts inside another group `[a, b)`, it ends no earlier. */
  lemma StepReaches(c: ChunkCase, tk: Tokenizer, sources: seq<RoleSource>, a: nat, b: nat, g: nat, h: nat,
                    whole: seq<RoleSource>, group: seq<RoleSource>)
    requires a <= g < h < b <= |sources| && whole == sources[a..b] && group == sources[g..h]
    requires WellGrouped(c, tk, whole) && MonotoneTokens(c, tk)
    ensures WellGrouped(c, tk, group) && Bound(c, sources[h]) && !ClosedBefore(c, tk, group, sources[h])
  {
    SliceOfSlice(sources, a, b, g, h);
    InnerGroupAt(c, tk, whole, g - a, h - a, group, sources[h]);
  }

  lemma InnerGroupAt(c: ChunkCase, tk: Tokenizer, whole: seq<RoleSource>, i: nat, j: nat, group: seq<RoleSource>,
                     next: RoleSource)
    requires i < j < |whole| && group == whole[i..j] && next == whole[j] && WellGrouped(c, tk, whole)
             && MonotoneTokens(c, tk)
    ensures WellGrouped(c, tk, group) && Bound(c, next) && !ClosedBefore(c, tk, group, next)
  {
    InnerGroupExtends(c, tk, whole, i, j);
  }

  lemma {:induction false} NextGroupExists(sources: seq<RoleSource>, groups: seq<seq<RoleSource>>, k: nat)
    requires Flatten(groups) == sources && k <= |groups| && StartOf(groups, k) < |sources|
    ensures k < |groups|
  {
    assert StartOf(groups, |groups|) == |sources| by { assert groups[..|groups|] == groups; }
  }

  /** No grouping that obeys the same rules has fewer groups than the greedy one. */
  lemma GreedyIsMinimal(c: ChunkCase, tk: Tokenizer, sources: seq<RoleSource>, greedy: seq<seq<RoleSource>>,
                        other: seq<seq<RoleSource>>)
    requires Grouping(c, tk, sources, greedy) && Greedy(c, tk, greedy) && Grouping(c, tk, sources, other)
    requires MonotoneTokens(c, tk)
    ensures |greedy| <= |other|
  {
    if |other| < |greedy| {
      var k := |other|;
      GreedyStaysAhead(c, tk, sources, greedy, other, k);
      assert other[..k] == other;
      GroupIsSlice(greedy, k);
    }
  }

  /** The rule leaves one greedy grouping. */
  lemma GreedyIsUnique(c: ChunkCase, tk: Tokenizer, sources: seq<RoleSource>, a: seq<seq<RoleSource>>,
                       b: seq<seq<RoleSource>>)
    requires Grouping(c, tk, sources, a) && Greedy(c, tk, a) && Grouping(c, tk, sources, b) && Greedy(c, tk, b)
    requires MonotoneTokens(c, tk)
    ensures a == b
  {
    GreedyIsMinimal(c, tk, sources, a, b);
    GreedyIsMinimal(c, tk, sources, b, a);
    forall k | 0 <= k < |a| ensures a[k] == b[k] {
      SameStart(c, tk, sources, a, b, k);
      SameStart(c, tk, sources, a, b, k + 1);
      GroupIsSlice(a, k);
      GroupIsSlice(b, k);
    }
  }

  lemma SameStart(c: ChunkCase, tk: Tokenizer, sources: seq<RoleSource>, a: seq<seq<RoleSource>>,
                  b: seq<seq<RoleSource>>, k: nat)
    requires Grouping(c, tk, sources, a) && Greedy(c, tk, a) && Grouping(c, tk, sources, b) && Greedy(c, tk, b)
    requires MonotoneTokens(c, tk) && k <= |a| == |b|
    ensures StartOf(a, k) == StartOf(b, k)
  {
    GreedyStaysAhead(c, tk, sources, a, b, k);
    GreedyStaysAhead(c, tk, sources, b, a, k);
  }
}
