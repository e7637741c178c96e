/** What becomes of the source texts (src/corpus/chunking.py). */
module ChunkTexts {
  // From fragments to the text and the spans of their group, and to units that keep every fragment.

  import opened ChunkGroups
  import opened ChunkWindows

  // ----- the text of a group -----

  /** `part` stands in `whole` at this place. */
  predicate StandsAt(part: string, whole: string, at: int) {
    0 <= at <= at + |part| <= |whole| && whole[at..at + |part|] == part
  }

  /** One line end lies between these places. */
  predicate LineEndAt(text: string, end: int, next: int) { 0 <= end < |text| && text[end] == '\n' && next == end + 1 }

  /** Fragment `i` starts at `starts[i]`, one line end stands between two fragments, and the last one ends the text. */
  predicate Placed(group: seq<RoleSource>, text: string, starts: seq<int>)
    requires group != []
  {
    && |starts| == |group|
    && (forall i :: 0 <= i < |group| ==> StandsAt(group[i].text, text, starts[i]))
    && (forall i :: 0 < i < |group| ==> LineEndAt(text, starts[i - 1] + |group[i - 1].text|, starts[i]))
    && starts[|group| - 1] + |group[|group| - 1].text| == |text|
  }

  /** The fragments fill the text, behind the header and one more line end if there is one. */
  predicate Laid(group: seq<RoleSource>, text: string, starts: seq<int>)
    requires group != []
  {
    && Placed(group, text, starts)
    && match group[0].header
       case None => starts[0] == 0
       case Some(h) => StandsAt(h.text, text, 0) && LineEndAt(text, |h.text|, starts[0])
  }

  lemma StandsInFront(part: string, whole: string, more: string, at: int)
    requires StandsAt(part, whole, at)
    ensures StandsAt(part, whole + more, at)
  {
    assert (whole + more)[at..at + |part|] == whole[at..at + |part|];
  }

  lemma StandsBehind(part: string, before: string, whole: string, at: int)
    requires StandsAt(part, whole, at)
    ensures StandsAt(part, before + whole, |before| + at)
  {
    assert (before + whole)[|before| + at..|before| + at + |part|] == whole[at..at + |part|];
  }

  lemma PlacedMore(front: seq<RoleSource>, text: string, starts: seq<int>, last: RoleSource)
    requires front != [] && Placed(front, text, starts)
    ensures Placed(front + [last], text + "\n" + last.text, starts + [|text| + 1])
  {
    var group, whole, all := front + [last], text + "\n" + last.text, starts + [|text| + 1];
    assert whole == text + ("\n" + last.text);
    forall i | 0 <= i < |group| ensures StandsAt(group[i].text, whole, all[i]) {
      if i < |front| {
        assert StandsAt(front[i].text, text, starts[i]);
        StandsInFront(front[i].text, text, "\n" + last.text, starts[i]);
      }
    }
    forall i | 0 < i < |group| ensures LineEndAt(whole, all[i - 1] + |group[i - 1].text|, all[i]) {
      if i < |front| { assert LineEndAt(text, starts[i - 1] + |front[i - 1].text|, starts[i]); }
    }
  }

  function Shifted(starts: seq<int>, n: int): (all: seq<int>)
    ensures |all| == |starts| && forall i :: 0 <= i < |starts| ==> all[i] == n + starts[i]
  {
    seq(|starts|, i requires 0 <= i < |starts| => n + starts[i])
  }

  lemma PlacedBehind(group: seq<RoleSource>, before: string, text: string, starts: seq<int>, all: seq<int>)
    requires group != [] && Placed(group, text, starts) && all == Shifted(starts, |before|)
    ensures Placed(group, before + text, all)
  {
    forall i | 0 <= i < |group| ensures StandsAt(group[i].text, before + text, all[i]) {
      StandsBehind(group[i].text, before, text, starts[i]);
    }
    LineEndsBehind(group, before, text, starts, all);
  }

  lemma LineEndsBehind(group: seq<RoleSource>, before: string, text: string, starts: seq<int>, all: seq<int>)
    requires group != [] && Placed(group, text, starts) && all == Shifted(starts, |before|)
    ensures forall i :: 0 < i < |group| ==> LineEndAt(before + text, all[i - 1] + |group[i - 1].text|, all[i])
  {
    forall i | 0 < i < |group| ensures LineEndAt(before + text, all[i - 1] + |group[i - 1].text|, all[i]) {
      LineEndBehind(before, text, starts[i - 1] + |group[i - 1].text|, starts[i]);
    }
  }

  lemma LineEndBehind(before: string, text: string, end: int, next: int)
    requires LineEndAt(text, end, next)
    ensures LineEndAt(before + text, |before| + end, |before| + next)
  {
  }

  lemma {:induction false} OnePlaced(group: seq<RoleSource>)
    requires |group| == 1
    ensures Placed(group, Joined(group), [0])
  {
    assert StandsAt(group[0].text, Joined(group), 0);
  }

  lemma {:induction false} JoinedMore(front: seq<RoleSource>, last: RoleSource)
    requires front != []
    ensures Joined(front + [last]) == Joined(front) + "\n" + last.text
  {
    assert (front + [last])[..|front|] == front;
  }

  lemma {:induction false} JoinedPlaced(group: seq<RoleSource>) returns (starts: seq<int>)
    requires group != []
    ensures Placed(group, Joined(group), starts) && starts[0] == 0
    decreases |group|, 0
  {
    if |group| == 1 {
      OnePlaced(group);
      starts := [0];
    } else {
      starts := JoinedStep(group[..|group| - 1], group[|group| - 1]);
      assert group[..|group| - 1] + [group[|group| - 1]] == group;
    }
  }

  lemma JoinedStep(front: seq<RoleSource>, last: RoleSource) returns (starts: seq<int>)
    requires front != []
    ensures Placed(front + [last], Joined(front + [last]), starts) && starts[0] == 0
    decreases |front|, 1
  {
    var earlier := JoinedPlaced(front);
    PlacedMore(front, Joined(front), earlier, last);
    JoinedMore(front, last);
    starts := earlier + [|Joined(front)| + 1];
  }

  lemma HeaderStands(h: string, text: string)
    ensures StandsAt(h, h + "\n" + text, 0) && LineEndAt(h + "\n" + text, |h|, |h| + 1)
  {
    assert h + "\n" + text == h + ("\n" + text);
    StandsInFront(h, h, "\n" + text, 0);
  }

  lemma LaidBehind(group: seq<RoleSource>, h: string, text: string, starts: seq<int>)
    requires group != [] && group[0].header.Some? && group[0].header.value.text == h
    requires Placed(group, text, starts) && starts[0] == 0
    ensures Laid(group, h + "\n" + text, Shifted(starts, |h + "\n"|))
  {
    PlacedBehind(group, h + "\n", text, starts, Shifted(starts, |h + "\n"|));
    HeaderStands(h, text);
  }

  /** The text of a group holds its fragments in order and whole, one line end apart, behind the header. */
  lemma GroupTextLaid(group: seq<RoleSource>) returns (starts: seq<int>)
    requires group != []
    ensures Laid(group, GroupText(group), starts)
  {
    starts := JoinedPlaced(group);
    if group[0].header.Some? {
      var h := group[0].header.value.text;
      LaidBehind(group, h, Joined(group), starts);
      starts := Shifted(starts, |h + "\n"|);
    }
  }

  /** And that is the only such text. */
  lemma LaidUnique(group: seq<RoleSource>, s: string, a: seq<int>, t: string, b: seq<int>)
    requires group != [] && Laid(group, s, a) && Laid(group, t, b)
    ensures s == t && a == b
  {
    forall i | 0 <= i < |group| ensures a[i] == b[i] { SameStart(group, s, a, t, b, i); }
    SamePrefix(group, s, a, t, b, |group| - 1);
    var n := |group| - 1;
    assert s == s[..a[n] + |group[n].text|] && t == t[..a[n] + |group[n].text|];
  }

  lemma {:induction false} SameStart(group: seq<RoleSource>, s: string, a: seq<int>, t: string, b: seq<int>, i: nat)
    requires i < |group| && Laid(group, s, a) && Laid(group, t, b)
    ensures a[i] == b[i]
  {
    if i > 0 {
      SameStart(group, s, a, t, b, i - 1);
      assert LineEndAt(s, a[i - 1] + |group[i - 1].text|, a[i]);
      assert LineEndAt(t, b[i - 1] + |group[i - 1].text|, b[i]);
    }
  }

  lemma {:induction false} SamePrefix(group: seq<RoleSource>, s: string, a: seq<int>, t: string, b: seq<int>, i: nat)
    requires i < |group| && Laid(group, s, a) && Laid(group, t, b)
    ensures a[i] == b[i] && StandsAt(group[i].text, s, a[i]) && StandsAt(group[i].text, t, a[i])
    ensures s[..a[i] + |group[i].text|] == t[..a[i] + |group[i].text|]
  {
    SameStart(group, s, a, t, b, i);
    assert StandsAt(group[i].text, s, a[i]) && StandsAt(group[i].text, t, b[i]);
    var before := a[i];
    if i > 0 {
      SamePrefix(group, s, a, t, b, i - 1);
      assert LineEndAt(s, a[i - 1] + |group[i - 1].text|, a[i]);
      assert LineEndAt(t, a[i - 1] + |group[i - 1].text|, a[i]);
      OneMore(s, t, before - 1);
    } else if group[0].header.Some? {
      var h := group[0].header.value.text;
      assert s[..|h|] == s[0..0 + |h|] == h == t[0..0 + |h|] == t[..|h|];
      OneMore(s, t, before - 1);
    }
    SlicesJoin(s, before, before + |group[i].text|);
    SlicesJoin(t, before, before + |group[i].text|);
  }

  lemma OneMore(s: string, t: string, n: nat)
    requires n < |s| && n < |t| && s[..n] == t[..n] && s[n] == t[n]
    ensures s[..n + 1] == t[..n + 1]
  {
    assert s[..n + 1] == s[..n] + [s[n]] && t[..n + 1] == t[..n] + [t[n]];
  }

  lemma SlicesJoin(s: string, a: nat, b: nat)
    requires a <= b <= |s|
    ensures s[..b] == s[..a] + s[a..b]
  {
  }

  // ----- the spans of a group -----

  /** The spans in the order in which the fragments name them, the header first. */
  function Appearances(group: seq<RoleSource>): seq<nat> {
    if group == [] then []
    else
      var s := group[|group| - 1];
      Appearances(group[..|group| - 1]) + (if s.header.Some? then [s.header.value.spanIndex] else []) + [s.spanIndex]
  }

  predicate FirstSeen(x: nat, all: seq<nat>, p: int) {
    0 <= p < |all| && all[p] == x && forall q :: 0 <= q < p ==> all[q] != x
  }

  /** `indexes` are the values of `all`, each once, in the order of their first appearance. */
  ghost predicate EachOnce(indexes: seq<nat>, all: seq<nat>) {
    && (forall x :: x in indexes <==> x in all)
    && forall i, j, p, q :: 0 <= i < j < |indexes| && FirstSeen(indexes[i], all, p) && FirstSeen(indexes[j], all, q) ==>
         p < q
  }

  lemma SeenEarlier(x: nat, all: seq<nat>, more: nat, p: int)
    requires x in all
    ensures FirstSeen(x, all + [more], p) <==> FirstSeen(x, all, p)
  {
    var k :| 0 <= k < |all| && all[k] == x;
    assert (all + [more])[k] == x;
    if FirstSeen(x, all, p) { assert forall q :: 0 <= q < p ==> (all + [more])[q] == all[q]; }
    if FirstSeen(x, all + [more], p) { assert forall q :: 0 <= q < p ==> all[q] == (all + [more])[q]; }
  }

  lemma AddOnce(indexes: seq<nat>, all: seq<nat>, x: nat)
    requires EachOnce(indexes, all)
    ensures EachOnce(AddIndex(indexes, x), all + [x])
  {
    var next, more := AddIndex(indexes, x), all + [x];
    forall i, j, p, q | 0 <= i < j < |next| && FirstSeen(next[i], more, p) && FirstSeen(next[j], more, q)
      ensures p < q
    {
      assert next[i] == indexes[i] && next[i] in all;
      SeenEarlier(next[i], all, x, p);
      if j < |indexes| {
        assert next[j] == indexes[j] && next[j] in all;
        SeenEarlier(next[j], all, x, q);
      } else {
        assert x !in all;
      }
    }
  }

  /** A group is bound to the spans that its fragments name, each once, in the order of their appearance. */
  lemma {:induction false} SpansEachOnce(group: seq<RoleSource>)
    ensures EachOnce(GroupSpanIndexes(group), Appearances(group))
  {
    if group != [] {
      var front, s := group[..|group| - 1], group[|group| - 1];
      SpansEachOnce(front);
      var before, all := GroupSpanIndexes(front), Appearances(front);
      if s.header.Some? {
        AddOnce(before, all, s.header.value.spanIndex);
        AddOnce(AddIndex(before, s.header.value.spanIndex), all + [s.header.value.spanIndex], s.spanIndex);
      } else {
        AddOnce(before, all, s.spanIndex);
        assert all + [] == all;
      }
    }
  }

  lemma {:induction false} AppearsIn(group: seq<RoleSource>, i: nat)
    requires i < |group|
    ensures group[i].spanIndex in Appearances(group)
    ensures group[i].header.Some? ==> group[i].header.value.spanIndex in Appearances(group)
  {
    if i < |group| - 1 {
      AppearsIn(group[..|group| - 1], i);
    }
  }

  // ----- units keep the fragments -----

  /** The unit has the fragment's role and is bound to its span and its header's. */
  predicate Carries(u: Unit, s: RoleSource) {
    && u.role == s.role && s.spanIndex in u.indexes
    && (s.header.Some? ==> s.header.value.spanIndex in u.indexes)
  }

  /** What a fragment is cut from: its own text, behind its header if it has one. */
  function OwnText(s: RoleSource): string {
    if s.header.Some? then s.header.value.text + "\n" + s.text else s.text
  }

  /** The unit holds the fragment whole, and begins with its header. */
  predicate HoldsWhole(u: Unit, s: RoleSource, at: int) {
    && Carries(u, s) && StandsAt(s.text, u.text, at)
    && (s.header.Some? ==> StandsAt(s.header.value.text, u.text, 0) && |s.header.value.text| < at
                           && u.text[|s.header.value.text|] == '\n')
  }

  /** The unit is a slice of the fragment's text around this character. */
  predicate HoldsAround(u: Unit, s: RoleSource, character: int, from: int, to: int) {
    Carries(u, s) && 0 <= from <= character < to <= |OwnText(s)| && u.text == OwnText(s)[from..to]
  }

  /** Some unit holds the fragment whole, or every character from its first token to its last one is held by some
      unit. */
  ghost predicate Keeps(tk: Tokenizer, s: RoleSource, units: seq<Unit>) {
    || (exists k, at :: 0 <= k < |units| && HoldsWhole(units[k], s, at))
    || KeepsTokens(tk.offsets(OwnText(s)), s, units)
  }

  ghost predicate KeepsTokens(offsets: seq<Offset>, s: RoleSource, units: seq<Unit>) {
    && offsets != []
    && forall character :: offsets[0].0 <= character < offsets[|offsets| - 1].1 ==> KeepsCharacter(s, units, character)
  }

  ghost predicate KeepsCharacter(s: RoleSource, units: seq<Unit>, character: int) {
    exists k, from, to :: 0 <= k < |units| && HoldsAround(units[k], s, character, from, to)
  }

  lemma UniformHeaders(c: ChunkCase, tk: Tokenizer, group: seq<RoleSource>, i: nat)
    requires WellGrouped(c, tk, group) && i < |group|
    ensures group[i].role == group[0].role && group[i].header == group[0].header
  {
    if i > 0 { assert SourcesCanGroup(c, group[0], group[i]); }
  }

  lemma {:induction false} CarriesAll(c: ChunkCase, tk: Tokenizer, group: seq<RoleSource>, u: Unit, i: nat)
    requires WellGrouped(c, tk, group) && i < |group|
    requires u.role == group[0].role && u.indexes == GroupSpanIndexes(group)
    ensures Carries(u, group[i])
  {
    UniformHeaders(c, tk, group, i);
    AppearsIn(group, i);
    SpansEachOnce(group);
  }

  /** The unit of a group that is not cut holds each of its fragments. */
  lemma WholeGroupKeeps(c: ChunkCase, tk: Tokenizer, group: seq<RoleSource>, u: Unit, i: nat) returns (at: int)
    requires WellGrouped(c, tk, group) && i < |group|
    requires u.role == group[0].role && u.indexes == GroupSpanIndexes(group) && u.text == GroupText(group)
    ensures HoldsWhole(u, group[i], at)
  {
    var starts := GroupTextLaid(group);
    at := starts[i];
    CarriesAll(c, tk, group, u, i);
    UniformHeaders(c, tk, group, i);
    StartsGrow(group, GroupText(group), starts, i);
  }

  lemma {:induction false} StartsGrow(group: seq<RoleSource>, text: string, starts: seq<int>, i: nat)
    requires i < |group| && Laid(group, text, starts)
    ensures StandsAt(group[i].text, text, starts[i]) && starts[0] <= starts[i]
  {
    if i > 0 {
      StartsGrow(group, text, starts, i - 1);
      assert LineEndAt(text, starts[i - 1] + |group[i - 1].text|, starts[i]);
    }
  }

  lemma OwnGroupText(s: RoleSource)
    ensures GroupText([s]) == OwnText(s)
  {
    assert Joined([s]) == s.text;
  }

  predicate AllCarry(units: seq<Unit>, s: RoleSource) { forall i :: 0 <= i < |units| ==> Carries(units[i], s) }

  ghost predicate AreWindows(text: string, offsets: seq<Offset>, capacity: nat, texts: seq<string>) {
    && OrderedOffsets(offsets, |text|) && capacity >= 2
    && exists ranges :: WindowRanges(|offsets|, capacity, ranges) && WindowTexts(text, offsets, ranges, texts)
  }

  lemma CharacterKept(text: string, offsets: seq<Offset>, capacity: nat, s: RoleSource, units: seq<Unit>,
                      character: int)
    requires text == OwnText(s) && AreWindows(text, offsets, capacity, Texts(units)) && AllCarry(units, s)
    requires offsets != [] && offsets[0].0 <= character < offsets[|offsets| - 1].1
    ensures KeepsCharacter(s, units, character)
  {
    var ranges: seq<(nat, nat)> :| WindowRanges(|offsets|, capacity, ranges)
                                   && WindowTexts(text, offsets, ranges, Texts(units));
    WindowKeeps(offsets, capacity, ranges, s, units, character);
  }

  /** The windows of a text that is cut hold every character between its first and its last token. */
  lemma CutKeeps(text: string, offsets: seq<Offset>, capacity: nat, s: RoleSource, units: seq<Unit>)
    requires text == OwnText(s) && AreWindows(text, offsets, capacity, Texts(units)) && AllCarry(units, s)
    ensures offsets != [] ==> KeepsTokens(offsets, s, units)
  {
    if offsets != [] {
      forall character | offsets[0].0 <= character < offsets[|offsets| - 1].1
        ensures KeepsCharacter(s, units, character)
      {
        CharacterKept(text, offsets, capacity, s, units, character);
      }
    }
  }

  lemma PieceWindows(p: Piece, texts: seq<string>)
    requires !p.whole && p.tokens > p.capacity && |p.offsets| == p.tokens && PieceTexts(p, texts)
    ensures p.capacity >= 2 && AreWindows(p.text, p.offsets, p.capacity, texts)
  {
  }

  /** A fragment that is cut loses nothing between its first and its last token. */
  lemma WindowsKeep(c: ChunkCase, tk: Tokenizer, group: seq<RoleSource>, s: RoleSource, units: seq<Unit>)
    requires group == [s] && WellGrouped(c, tk, group) && WindowsPossible(c, tk, s)
    requires GroupUnits(c, tk, group, units)
    ensures var p := PieceOf(c, tk, group); p.tokens > p.capacity ==> KeepsTokens(tk.offsets(OwnText(s)), s, units)
  {
    OwnGroupText(s);
    forall i | 0 <= i < |units| ensures Carries(units[i], s) { CarriesAll(c, tk, group, units[i], 0); }
    var p := PieceOf(c, tk, group);
    if p.tokens > p.capacity {
      PieceWindows(p, Texts(units));
      CutKeeps(p.text, p.offsets, p.capacity, s, units);
    }
  }

  lemma WindowKeeps(offsets: seq<Offset>, capacity: nat, ranges: seq<(nat, nat)>, s: RoleSource, units: seq<Unit>,
                    character: int)
    requires OrderedOffsets(offsets, |OwnText(s)|) && capacity >= 2 && WindowRanges(|offsets|, capacity, ranges)
    requires WindowTexts(OwnText(s), offsets, ranges, Texts(units))
    requires AllCarry(units, s)
    requires offsets != [] && offsets[0].0 <= character < offsets[|offsets| - 1].1
    ensures KeepsCharacter(s, units, character)
  {
    var k := WindowAt(offsets, |OwnText(s)|, capacity, ranges, character);
    assert Texts(units)[k] == units[k].text;
    assert HoldsAround(units[k], s, character, offsets[ranges[k].0].0, offsets[ranges[k].1 - 1].1);
  }

  /** The units of a group keep each of its fragments. */
  lemma GroupKeeps(c: ChunkCase, tk: Tokenizer, group: seq<RoleSource>, units: seq<Unit>, i: nat)
    requires WellGrouped(c, tk, group) && GroupPossible(c, tk, group) && GroupUnits(c, tk, group, units)
    requires i < |group|
    ensures Keeps(tk, group[i], units)
  {
    var p := PieceOf(c, tk, group);
    if p.whole || p.tokens <= p.capacity {
      assert Texts(units) == [p.text] && |units| == |Texts(units)|;
      assert Texts(units)[0] == units[0].text;
      var at := WholeGroupKeeps(c, tk, group, units[0], i);
    } else {
      WindowsKeep(c, tk, group, group[0], units);
    }
  }

  lemma MoreKeep(tk: Tokenizer, s: RoleSource, a: seq<Unit>, b: seq<Unit>)
    requires Keeps(tk, s, a) || Keeps(tk, s, b)
    ensures Keeps(tk, s, a + b)
  {
    var both := a + b;
    if Keeps(tk, s, a) { PartKeeps(tk, s, a, both, 0); } else { PartKeeps(tk, s, b, both, |a|); }
  }

  lemma PartKeeps(tk: Tokenizer, s: RoleSource, part: seq<Unit>, units: seq<Unit>, first: nat)
    requires Keeps(tk, s, part) && first + |part| <= |units| && units[first..first + |part|] == part
    ensures Keeps(tk, s, units)
  {
    assert forall k :: 0 <= k < |part| ==> units[first + k] == part[k];
    if k, at :| 0 <= k < |part| && HoldsWhole(part[k], s, at) {
      assert HoldsWhole(units[first + k], s, at);
    } else {
      var offsets := tk.offsets(OwnText(s));
      forall character | offsets[0].0 <= character < offsets[|offsets| - 1].1
        ensures KeepsCharacter(s, units, character)
      {
        assert KeepsCharacter(s, part, character);
        var k, from, to :| 0 <= k < |part| && HoldsAround(part[k], s, character, from, to);
        assert HoldsAround(units[first + k], s, character, from, to);
      }
    }
  }

  /** The units of all groups keep every fragment. */
  lemma {:induction false} UnitsKeep(c: ChunkCase, tk: Tokenizer, groups: seq<seq<RoleSource>>,
                                     perGroup: seq<seq<Unit>>, units: seq<Unit>, i: nat)
    requires AllWellGrouped(c, tk, groups) && GroupsPossible(c, tk, groups)
    requires UnitsOf(c, tk, groups, perGroup, units) && i < |Flatten(groups)|
    ensures Keeps(tk, Flatten(groups)[i], units)
  {
    var n := |groups| - 1;
    var front, s := groups[..n], Flatten(groups)[i];
    if i < |Flatten(front)| {
      FrontUnits(c, tk, groups, perGroup, units);
      UnitsKeep(c, tk, front, perGroup[..n], FlattenUnits(perGroup[..n]), i);
    } else {
      LastUnits(c, tk, groups, perGroup, units);
      GroupKeeps(c, tk, groups[n], perGroup[n], i - |Flatten(front)|);
    }
    MoreKeep(tk, s, FlattenUnits(perGroup[..n]), perGroup[n]);
  }

  lemma FrontUnits(c: ChunkCase, tk: Tokenizer, groups: seq<seq<RoleSource>>, perGroup: seq<seq<Unit>>,
                   units: seq<Unit>)
    requires groups != [] && AllWellGrouped(c, tk, groups) && GroupsPossible(c, tk, groups)
    requires UnitsOf(c, tk, groups, perGroup, units)
    ensures var n := |groups| - 1;
            AllWellGrouped(c, tk, groups[..n]) && GroupsPossible(c, tk, groups[..n])
            && UnitsOf(c, tk, groups[..n], perGroup[..n], FlattenUnits(perGroup[..n]))
  {
    var n := |groups| - 1;
    assert forall k :: 0 <= k < n ==> groups[..n][k] == groups[k] && perGroup[..n][k] == perGroup[k];
  }

  lemma LastUnits(c: ChunkCase, tk: Tokenizer, groups: seq<seq<RoleSource>>, perGroup: seq<seq<Unit>>,
                  units: seq<Unit>)
    requires groups != [] && AllWellGrouped(c, tk, groups) && GroupsPossible(c, tk, groups)
    requires UnitsOf(c, tk, groups, perGroup, units)
    ensures var n := |groups| - 1;
            WellGrouped(c, tk, groups[n]) && GroupPossible(c, tk, groups[n])
            && GroupUnits(c, tk, groups[n], perGroup[n])
  {
  }

  // ----- why fragments share a group -----

  /** Same role, same page, and the same header. */
  predicate Alike(c: ChunkCase, a: RoleSource, b: RoleSource)
    requires Bound(c, a) && Bound(c, b)
  {
    a.role == b.role && c.pages[a.spanIndex] == c.pages[b.spanIndex] && a.header == b.header
  }

  /** The text that holds these fragments fits behind its prefix: 250 tokens for a question, 450 for any other. */
  ghost predicate FitsLaid(c: ChunkCase, tk: Tokenizer, group: seq<RoleSource>)
    requires group != []
  {
    forall text, starts :: Laid(group, text, starts) ==>
      tk.count(EmbeddingPrefix(c, group[0].role) + text) <= if group[0].role.Question? then 250 else 450
  }

  lemma FitsExactly(c: ChunkCase, tk: Tokenizer, group: seq<RoleSource>)
    requires group != []
    ensures FitsLaid(c, tk, group) <==> Fits(c, tk, group)
  {
    var places := GroupTextLaid(group);
    forall text, starts | Laid(group, text, starts) ensures text == GroupText(group) {
      LaidUnique(group, text, starts, GroupText(group), places);
    }
  }

  lemma AlikeExactly(c: ChunkCase, a: RoleSource, b: RoleSource)
    requires Bound(c, a) && Bound(c, b)
    ensures Alike(c, a, b) <==> SourcesCanGroup(c, a, b)
  {
  }

  /** Fragments of one group are alike, and several of them fit together. */
  lemma GroupsAlike(c: ChunkCase, tk: Tokenizer, sources: seq<RoleSource>, k: nat, i: nat)
    requires AllBound(c, sources) && k < |GroupsOf(c, tk, sources)| && i < |GroupsOf(c, tk, sources)[k]|
    ensures var group := GroupsOf(c, tk, sources)[k];
            && Bound(c, group[0]) && Bound(c, group[i]) && Alike(c, group[0], group[i])
            && (|group| > 1 ==> FitsLaid(c, tk, group))
  {
    GroupsAreGreedy(c, tk, sources);
    var group := GroupsOf(c, tk, sources)[k];
    assert WellGrouped(c, tk, group);
    AlikeExactly(c, group[0], group[i]);
    FitsExactly(c, tk, group);
    if i > 0 { assert SourcesCanGroup(c, group[0], group[i]); }
  }

  /** The next fragment is in another group because it is not alike, because it does not fit as well, or because
      the group is one fragment that is too long already. */
  lemma GroupsApart(c: ChunkCase, tk: Tokenizer, sources: seq<RoleSource>, k: nat)
    requires AllBound(c, sources) && k + 1 < |GroupsOf(c, tk, sources)|
    ensures var group, after := GroupsOf(c, tk, sources)[k], GroupsOf(c, tk, sources)[k + 1];
            && group != [] && after != [] && Bound(c, group[0]) && Bound(c, after[0])
            && (|| !Alike(c, group[0], after[0])
                || !FitsLaid(c, tk, group + [after[0]])
                || (|group| == 1 && !FitsLaid(c, tk, group)))
  {
    GroupsAreGreedy(c, tk, sources);
    var groups := GroupsOf(c, tk, sources);
    assert GreedyAt(c, tk, groups, k);
    AlikeExactly(c, groups[k][0], groups[k + 1][0]);
    FitsExactly(c, tk, groups[k]);
    FitsExactly(c, tk, groups[k] + [groups[k + 1][0]]);
  }
}
