/** Overlapping token windows (src/corpus/chunking.py). */
module ChunkWindows {
  import opened Wrappers

  type Offset = (int, int)

  /** What `_token_offsets` accepts: nonempty character ranges, in order, inside the text. */
  predicate OrderedOffsets(offsets: seq<Offset>, length: nat) {
    forall i :: 0 <= i < |offsets| ==>
      0 <= offsets[i].0 < offsets[i].1 <= length && (i > 0 ==> offsets[i - 1].1 <= offsets[i].0)
  }

  method TokenOffsets(offsets: seq<Offset>, length: nat) returns (ok: bool)
    ensures ok <==> OrderedOffsets(offsets, length)
  {
    var previousEnd := 0;
    for i := 0 to |offsets|
      invariant OrderedOffsets(offsets[..i], length)
      invariant previousEnd == if i == 0 then 0 else offsets[i - 1].1
    {
      var (start, end) := offsets[i];
      if start < previousEnd || start < 0 || end <= start || end > length {
        assert i > 0 ==> offsets[..i][i - 1] == offsets[i - 1];
        return false;
      }
      previousEnd := end;
    }
    assert offsets[..|offsets|] == offsets;
    return true;
  }

  /** `max(1, round(capacity * 0.12))`; twelve hundredths of an integer are never a tie. */
  function Overlap(capacity: nat): (v: nat)
    ensures v >= 1
  {
    var rounded := (12 * capacity + 50) / 100;
    if rounded < 1 then 1 else rounded
  }

  /** The overlap is the nearest integer, which is never a tie, but at least one. */
  lemma OverlapIsNearest(capacity: nat, v: nat)
    ensures v >= 1 ==>
              (Overlap(capacity) == v <==> 12 * capacity < 100 * v + 50 && (v > 1 ==> 100 * v - 50 < 12 * capacity))
  {
    Rounded(capacity, (12 * capacity + 50) / 100);
  }

  lemma Rounded(capacity: nat, r: nat)
    requires 100 * r <= 12 * capacity + 50 < 100 * r + 100
    ensures 100 * r < 12 * capacity + 50
  {
    assert 12 * capacity + 50 == 4 * (3 * capacity + 12) + 2 && 100 * r == 4 * (25 * r);
  }

  function Min(a: int, b: int): int { if a <= b then a else b }

  /** Token ranges that step through `n` tokens by `capacity - overlap`, each `capacity` wide, until
      one reaches the last token. */
  predicate WindowRanges(n: nat, capacity: nat, ranges: seq<(nat, nat)>) {
    && ranges != [] && ranges[0].0 == 0
    && (forall k :: 0 <= k < |ranges| ==> ranges[k].0 < ranges[k].1 == Min(ranges[k].0 + capacity, n))
    && (forall k :: 0 <= k < |ranges| - 1 ==>
          ranges[k].0 + capacity < n && ranges[k + 1].0 == ranges[k].0 + capacity - Overlap(capacity))
    && ranges[|ranges| - 1].0 + capacity >= n
  }

  predicate WindowTexts(text: string, offsets: seq<Offset>, ranges: seq<(nat, nat)>, windows: seq<string>)
    requires OrderedOffsets(offsets, |text|)
  {
    && |windows| == |ranges|
    && forall k :: 0 <= k < |ranges| ==>
         && ranges[k].0 < ranges[k].1 <= |offsets|
         && offsets[ranges[k].0].0 <= offsets[ranges[k].1 - 1].1
         && windows[k] == text[offsets[ranges[k].0].0..offsets[ranges[k].1 - 1].1]
  }

  lemma {:induction false} OffsetsIncrease(offsets: seq<Offset>, length: nat, i: nat, j: nat)
    requires OrderedOffsets(offsets, length) && i <= j < |offsets|
    ensures offsets[i].0 <= offsets[j].0 && offsets[i].1 <= offsets[j].1
  {
    if i < j {
      OffsetsIncrease(offsets, length, i, j - 1);
    }
  }

  /** Ranges of a loop that has not reached the last token yet. */
  predicate OpenRanges(n: nat, capacity: nat, ranges: seq<(nat, nat)>) {
    && (ranges != [] ==> ranges[0].0 == 0)
    && (forall k :: 0 <= k < |ranges| ==>
      ranges[k].0 < ranges[k].1 == Min(ranges[k].0 + capacity, n) && ranges[k].0 + capacity < n)
    && (forall k :: 0 <= k < |ranges| - 1 ==> ranges[k + 1].0 == ranges[k].0 + capacity - Overlap(capacity))
  }

  lemma AddRange(n: nat, capacity: nat, ranges: seq<(nat, nat)>, start: nat)
    requires OpenRanges(n, capacity, ranges) && start < n && capacity >= 1
    requires start == if ranges == [] then 0 else ranges[|ranges| - 1].0 + capacity - Overlap(capacity)
    ensures var more := ranges + [(start, Min(start + capacity, n))];
            if start + capacity < n then OpenRanges(n, capacity, more) else WindowRanges(n, capacity, more)
  {
  }

  lemma AddText(text: string, offsets: seq<Offset>, ranges: seq<(nat, nat)>, windows: seq<string>, start: nat, end: nat)
    requires OrderedOffsets(offsets, |text|) && WindowTexts(text, offsets, ranges, windows) && start < end <= |offsets|
    ensures offsets[start].0 <= offsets[end - 1].1
    ensures WindowTexts(text, offsets, ranges + [(start, end)], windows + [text[offsets[start].0..offsets[end - 1].1]])
  {
    OffsetsIncrease(offsets, |text|, start, end - 1);
  }

  /** `_chunk_text_windows`. `tokens` and `offsets` are what the tokenizer returns for `text`. */
  method ChunkTextWindows(prefixTokens: nat, text: string, tokens: nat, offsets: seq<Offset>, maximum: nat)
      returns (r: Result<seq<string>>, ghost ranges: seq<(nat, nat)>)
    ensures var capacity := maximum - prefixTokens;
            r.Ok? <==> capacity >= 1 && OrderedOffsets(offsets, |text|) && |offsets| == tokens
                       && (tokens <= capacity || capacity >= 2)
    ensures r.Ok? && tokens <= maximum - prefixTokens ==> r.value == [text]
    ensures r.Ok? && tokens > maximum - prefixTokens ==>
              WindowRanges(tokens, maximum - prefixTokens, ranges) && WindowTexts(text, offsets, ranges, r.value)
  {
    ranges := [];
    var capacity := maximum - prefixTokens;
    if capacity < 1 { return Err("chunk metadata exceeds the role token limit"), []; }
    var ordered := TokenOffsets(offsets, |text|);
    if !ordered { return Err("locked tokenizer returned invalid offsets"), []; }
    if tokens != |offsets| { return Err("locked tokenizer token and offset counts differ"), []; }
    if tokens <= capacity { return Ok([text]), []; }
    var overlap := Overlap(capacity);
    var step := capacity - overlap;
    if step < 1 { return Err("chunk overlap policy is invalid"), []; }
    var windows := [];
    var start := 0;
    while start < tokens
      invariant 0 <= start < tokens
      invariant OpenRanges(tokens, capacity, ranges)
      invariant start == if ranges == [] then 0 else ranges[|ranges| - 1].0 + step
      invariant WindowTexts(text, offsets, ranges, windows)
      decreases tokens - start
    {
      var end := Min(start + capacity, tokens);
      AddRange(tokens, capacity, ranges, start);
      AddText(text, offsets, ranges, windows, start, end);
      windows := windows + [text[offsets[start].0..offsets[end - 1].1]];
      ranges := ranges + [(start, end)];
      if start + capacity >= tokens { break; }
      start := start + step;
    }
    return Ok(windows), ranges;
  }

  // ----- nothing is lost -----

  /** No window is too wide, neighbours share exactly the overlap, and the last one ends at the
      last token. */
  lemma WindowShape(n: nat, capacity: nat, ranges: seq<(nat, nat)>)
    requires WindowRanges(n, capacity, ranges)
    ensures forall k :: 0 <= k < |ranges| ==> ranges[k].1 - ranges[k].0 <= capacity
    ensures forall k :: 0 <= k < |ranges| - 1 ==> ranges[k].1 - ranges[k + 1].0 == Overlap(capacity)
    ensures ranges[|ranges| - 1].1 == n
  {
  }

  /** The window ranges are determined by the token count and the capacity. */
  lemma {:induction false} WindowRangesUnique(n: nat, capacity: nat, a: seq<(nat, nat)>, b: seq<(nat, nat)>, k: nat)
    requires WindowRanges(n, capacity, a) && WindowRanges(n, capacity, b) && k < |a|
    ensures k < |b| && a[k] == b[k]
    ensures k == |a| - 1 ==> |b| == |a|
  {
    if k > 0 {
      WindowRangesUnique(n, capacity, a, b, k - 1);
    }
  }

  /** How many windows `n` tokens take. */
  function WindowCount(n: nat, capacity: nat): nat
    requires capacity >= 2
  {
    if n <= capacity then 1 else 1 + WindowCount(n - (capacity - Overlap(capacity)), capacity)
  }

  lemma {:induction false} WindowsCounted(n: nat, capacity: nat, ranges: seq<(nat, nat)>, k: nat)
    requires WindowRanges(n, capacity, ranges) && k < |ranges| && capacity >= 2
    ensures |ranges| - k == WindowCount(n - ranges[k].0, capacity)
    decreases |ranges| - k
  {
    if k < |ranges| - 1 {
      WindowsCounted(n, capacity, ranges, k + 1);
    }
  }

  lemma {:induction false} AllWindowsCounted(n: nat, capacity: nat, ranges: seq<(nat, nat)>)
    requires WindowRanges(n, capacity, ranges) && capacity >= 2
    ensures |ranges| == WindowCount(n, capacity)
  {
    WindowsCounted(n, capacity, ranges, 0);
  }

  lemma SameLength(text: string, offsets: seq<Offset>, ranges: seq<(nat, nat)>, texts: seq<string>)
    requires OrderedOffsets(offsets, |text|) && WindowTexts(text, offsets, ranges, texts)
    ensures |texts| == |ranges|
  {
  }

  lemma SameRanges(n: nat, capacity: nat, a: seq<(nat, nat)>, b: seq<(nat, nat)>)
    requires WindowRanges(n, capacity, a) && WindowRanges(n, capacity, b)
    ensures a == b
  {
    forall k | 0 <= k < |a| ensures k < |b| && a[k] == b[k] { WindowRangesUnique(n, capacity, a, b, k); }
    WindowRangesUnique(n, capacity, a, b, |a| - 1);
  }

  /** Every token, together with the next one, lies in one window. */
  lemma {:induction false} NeighboursShareWindow(n: nat, capacity: nat, ranges: seq<(nat, nat)>, t: nat, k: nat)
    requires WindowRanges(n, capacity, ranges) && capacity >= 2 && Overlap(capacity) < capacity
    requires t < n && k < |ranges| && ranges[k].0 <= t
    ensures exists j :: k <= j < |ranges| && ranges[j].0 <= t < ranges[j].1 && (t + 1 < n ==> t + 1 < ranges[j].1)
    decreases |ranges| - k
  {
    if t + 1 < ranges[k].1 || ranges[k].1 == n {
    } else {
      NeighboursShareWindow(n, capacity, ranges, t, k + 1);
    }
  }

  /** Every character from the first token's start to the last token's end is in some window,
      whether it belongs to a token or lies between two. */
  lemma WindowsLoseNothing(text: string, offsets: seq<Offset>, capacity: nat, ranges: seq<(nat, nat)>,
                           windows: seq<string>, c: nat)
    requires OrderedOffsets(offsets, |text|) && capacity >= 2
    requires WindowRanges(|offsets|, capacity, ranges) && WindowTexts(text, offsets, ranges, windows)
    requires offsets != [] && offsets[0].0 <= c < offsets[|offsets| - 1].1
    ensures exists k :: 0 <= k < |windows| && offsets[ranges[k].0].0 <= c < offsets[ranges[k].1 - 1].1
                        && windows[k][c - offsets[ranges[k].0].0] == text[c]
  {
    var k := WindowAt(offsets, |text|, capacity, ranges, c);
    SliceAt(text, offsets[ranges[k].0].0, offsets[ranges[k].1 - 1].1, c);
  }

  lemma WindowAt(offsets: seq<Offset>, length: nat, capacity: nat, ranges: seq<(nat, nat)>, c: nat) returns (k: nat)
    requires OrderedOffsets(offsets, length) && capacity >= 2 && WindowRanges(|offsets|, capacity, ranges)
    requires offsets != [] && offsets[0].0 <= c < offsets[|offsets| - 1].1
    ensures k < |ranges| && ranges[k].0 < ranges[k].1 <= |offsets|
            && offsets[ranges[k].0].0 <= c < offsets[ranges[k].1 - 1].1
  {
    var t := TokenAt(offsets, length, c, |offsets| - 1);
    NeighboursShareWindow(|offsets|, capacity, ranges, t, 0);
    k :| 0 <= k < |ranges| && ranges[k].0 <= t < ranges[k].1 && (t + 1 < |offsets| ==> t + 1 < ranges[k].1);
    CharacterInRange(offsets, length, t, c, ranges[k]);
  }

  lemma SliceAt(text: string, from: int, to: int, c: int)
    requires 0 <= from <= c < to <= |text|
    ensures text[from..to][c - from] == text[c]
  {
  }

  lemma CharacterInRange(offsets: seq<Offset>, length: nat, t: nat, c: nat, range: (nat, nat))
    requires OrderedOffsets(offsets, length) && range.0 <= t < range.1 <= |offsets|
    requires offsets[t].0 <= c
             && (if t + 1 < |offsets| then t + 1 < range.1 && c < offsets[t + 1].0 else c < offsets[t].1)
    ensures offsets[range.0].0 <= c < offsets[range.1 - 1].1
  {
    OffsetsIncrease(offsets, length, range.0, t);
    if t + 1 < |offsets| { OffsetsIncrease(offsets, length, t + 1, range.1 - 1); }
  }

  /** The last token that starts at or before a character. */
  lemma {:induction false} TokenAt(offsets: seq<Offset>, length: nat, c: nat, last: nat) returns (t: nat)
    requires OrderedOffsets(offsets, length) && last < |offsets| && offsets[0].0 <= c
    requires last + 1 < |offsets| ==> c < offsets[last + 1].0
    ensures t <= last && offsets[t].0 <= c && (t + 1 < |offsets| ==> c < offsets[t + 1].0)
  {
    if offsets[last].0 <= c {
      t := last;
    } else {
      t := TokenAt(offsets, length, c, last - 1);
    }
  }
}
