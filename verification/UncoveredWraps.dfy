/** Soft wraps across removed lines (src/ingestion/normalize.py). */
module UncoveredWraps {
  // A soft wrap stands over a line end, so joining lines makes one exactly where a line that ends in a
  // letter and a soft hyphen is followed by a line that starts with a letter; the passes after the
  // removal of lines neither make one nor close one.

  import opened NormalForms
  import opened Normalizer
  import opened Strings

  predicate EndsSoft(l: string) { |l| >= 2 && Letter(l[|l| - 2]) && l[|l| - 1] == SOFT }

  predicate StartsLetter(l: string) { l != "" && Letter(l[0]) }

  // ----- the passes after the removal -----

  lemma {:induction false} SqueezeKeepsWraps(s: string)
    requires NoSoftWrap(Squeeze(s))
    ensures NoSoftWrap(s)
  {
    if s != "" {
      if ThreeEnds(s) {
        SqueezeKeepsWraps(s[1..]);
      } else {
        assert ([s[0]] + Squeeze(s[1..]))[1..] == Squeeze(s[1..]);
        SqueezeKeepsWraps(s[1..]);
        if SoftWrap(s) { WrapSqueezed(s); }
      }
    }
  }

  lemma {:induction false} WrapSqueezed(s: string)
    requires SoftWrap(s)
    ensures SoftWrap(Squeeze(s))
  {
    assert s[1..][1..] == s[2..] && s[2..][1..] == s[3..];
    assert s[1..][0] == SOFT && s[2..][0] == '\n' && s[3..][0] == s[3];
    assert !ThreeEnds(s[1..]) && !ThreeEnds(s[2..]) && !ThreeEnds(s[3..]);
    assert Squeeze(s[1..]) == [SOFT] + Squeeze(s[2..]) && Squeeze(s[2..]) == ['\n'] + Squeeze(s[3..]);
    SqueezeHead(s[3..]);
  }

  lemma {:induction false} StripLeftKeepsWraps(s: string)
    requires NoSoftWrap(StripLeft(s))
    ensures NoSoftWrap(s)
  {
    if s != "" && s[0] == '\n' { StripLeftKeepsWraps(s[1..]); }
  }

  lemma {:induction false} EndAppended(s: string)
    requires NoSoftWrap(s)
    ensures NoSoftWrap(s + ['\n'])
  {
    if s != "" {
      EndAppended(s[1..]);
      assert (s + ['\n'])[1..] == s[1..] + ['\n'];
    } else {
      assert (s + ['\n'])[1..] == "";
    }
  }

  lemma {:induction false} StripRightKeepsWraps(s: string)
    requires NoSoftWrap(StripRight(s))
    ensures NoSoftWrap(s)
  {
    if s != "" && s[|s| - 1] == '\n' {
      StripRightKeepsWraps(s[..|s| - 1]);
      EndAppended(s[..|s| - 1]);
      assert s == s[..|s| - 1] + ['\n'];
    }
  }

  lemma {:induction false} StripSqueezeWraps(s: string)
    requires Tidy(s)
    ensures NoSoftWrap(Strip(Squeeze(s))) <==> NoSoftWrap(s)
  {
    SqueezeTidy('\n', s);
    StripLeftKeeps(Squeeze(s));
    StripRightKeeps(StripLeft(Squeeze(s)));
    if NoSoftWrap(s) { SqueezeNoSoftWrap(s); }
    if NoSoftWrap(Strip(Squeeze(s))) {
      StripRightKeepsWraps(StripLeft(Squeeze(s)));
      StripLeftKeepsWraps(Squeeze(s));
      SqueezeKeepsWraps(s);
    }
  }

  // ----- joined lines -----

  /** The wraps of two texts with a line end between them. */
  lemma {:induction false} WrapsOfJoin(a: string, b: string)
    ensures NoSoftWrap(a + "\n" + b) <==> NoSoftWrap(a) && NoSoftWrap(b) && !(EndsSoft(a) && StartsLetter(b))
  {
    var s := a + "\n" + b;
    if a == "" {
      assert s == ['\n'] + b && s[1..] == b;
    } else {
      assert s[1..] == a[1..] + "\n" + b;
      WrapsOfJoin(a[1..], b);
      WrapAcross(a, b);
    }
  }

  lemma WrapAcross(a: string, b: string)
    requires a != ""
    ensures SoftWrap(a + "\n" + b) <==> SoftWrap(a) || (|a| == 2 && EndsSoft(a) && StartsLetter(b))
    ensures |a| != 2 ==> (EndsSoft(a) <==> EndsSoft(a[1..]))
    ensures |a| == 2 ==> !EndsSoft(a[1..])
  {
    var s := a + "\n" + b;
    assert s[|a|] == '\n' && forall i :: 0 <= i < |a| ==> s[i] == a[i];
    assert |s| > |a| + 1 ==> s[|a| + 1] == b[0];
  }

  lemma {:induction false} OneLineWraps(l: string)
    requires OneLine(l)
    ensures NoSoftWrap(l)
  {
    if l != "" {
      assert forall i :: 0 <= i < |l| ==> l[i] in l;
      assert forall c :: c in l[1..] ==> c in l;
      OneLineWraps(l[1..]);
    }
  }

  lemma LastLineEnds(a: string, l: string)
    ensures EndsSoft(a + "\n" + l) <==> EndsSoft(l)
  {
    var s := a + "\n" + l;
    assert s[|a|] == '\n' && forall i :: 0 <= i < |l| ==> s[|a| + 1 + i] == l[i];
  }

  predicate Meets(lines: seq<string>, k: nat)
    requires k + 1 < |lines|
  {
    EndsSoft(lines[k]) && StartsLetter(lines[k + 1])
  }

  /** Joined lines have a soft wrap exactly where two neighbours meet in one. */
  lemma {:induction false} WrapsOfLines(lines: seq<string>)
    requires forall l :: l in lines ==> OneLine(l)
    ensures NoSoftWrap(JoinLines(lines)) <==> forall k :: 0 <= k < |lines| - 1 ==> !Meets(lines, k)
    ensures lines != [] ==> (EndsSoft(JoinLines(lines)) <==> EndsSoft(lines[|lines| - 1]))
  {
    if |lines| == 1 {
      OneLineWraps(lines[0]);
    } else if |lines| > 1 {
      var front, last := lines[..|lines| - 1], lines[|lines| - 1];
      assert last in lines;
      WrapsOfLines(front);
      OneLineWraps(last);
      WrapsOfJoin(JoinLines(front), last);
      LastLineEnds(JoinLines(front), last);
      forall k | 0 <= k < |front| - 1 ensures Meets(lines, k) <==> Meets(front, k) {}
      assert Meets(lines, |front| - 1) <==> EndsSoft(front[|front| - 1]) && StartsLetter(last);
    }
  }

  // ----- removed lines -----

  /** The lines among the first `n` that stay. */
  function Staying(lines: seq<string>, gone: seq<bool>, n: nat): seq<string>
    requires n <= |lines| == |gone|
  {
    if n == 0 then [] else Staying(lines, gone, n - 1) + if gone[n - 1] then [] else [lines[n - 1]]
  }

  /** Lines `i` and `j` stay, and all lines between them are removed. */
  predicate BecomeNeighbours(gone: seq<bool>, i: nat, j: nat)
    requires i < j < |gone|
  {
    !gone[i] && !gone[j] && forall k :: i < k < j ==> gone[k]
  }

  /** Before line `n` comes to stand a line with which it makes a soft wrap. */
  ghost predicate MeetsBefore(lines: seq<string>, gone: seq<bool>, n: nat)
    requires n < |lines| == |gone|
  {
    exists i: nat :: i < n && BecomeNeighbours(gone, i, n) && EndsSoft(lines[i]) && StartsLetter(lines[n])
  }

  /** Some line that ends in a letter and a soft hyphen comes to stand before one that starts with a letter. */
  ghost predicate Uncovers(lines: seq<string>, gone: seq<bool>)
    requires |lines| == |gone|
  {
    exists j: nat :: j < |lines| && MeetsBefore(lines, gone, j)
  }

  predicate LastStaying(gone: seq<bool>, n: nat, i: nat)
    requires i < n <= |gone|
  {
    !gone[i] && forall k :: i < k < n ==> gone[k]
  }

  lemma {:induction false} LastStays(lines: seq<string>, gone: seq<bool>, n: nat)
    requires n <= |lines| == |gone|
    ensures var kept := Staying(lines, gone, n);
            if kept == [] then forall k :: 0 <= k < n ==> gone[k]
            else exists i: nat :: i < n && LastStaying(gone, n, i) && kept[|kept| - 1] == lines[i]
  {
    if n > 0 {
      LastStays(lines, gone, n - 1);
      var kept := Staying(lines, gone, n - 1);
      if !gone[n - 1] {
        assert LastStaying(gone, n, n - 1);
      } else if kept != [] {
        var i: nat :| i < n - 1 && LastStaying(gone, n - 1, i) && kept[|kept| - 1] == lines[i];
        assert LastStaying(gone, n, i) && Staying(lines, gone, n) == kept;
      }
    }
  }

  /** The line before a line `n` that stays, if there is one, is the last that stays before it. */
  lemma NewNeighbour(lines: seq<string>, gone: seq<bool>, n: nat)
    requires n < |lines| == |gone| && !gone[n]
    ensures var kept := Staying(lines, gone, n);
            MeetsBefore(lines, gone, n) <==> kept != [] && EndsSoft(kept[|kept| - 1]) && StartsLetter(lines[n])
  {
    LastStays(lines, gone, n);
    var kept := Staying(lines, gone, n);
    if kept != [] {
      var i: nat :| i < n && LastStaying(gone, n, i) && kept[|kept| - 1] == lines[i];
      assert BecomeNeighbours(gone, i, n);
      forall j: nat | j < n && BecomeNeighbours(gone, j, n) ensures j == i { assert !(i < j) && !(j < i); }
    }
  }

  lemma OneMoreMeets(kept: seq<string>, last: string)
    ensures (exists k :: 0 <= k < |kept + [last]| - 1 && Meets(kept + [last], k))
            <==> (exists k :: 0 <= k < |kept| - 1 && Meets(kept, k))
                 || (kept != [] && EndsSoft(kept[|kept| - 1]) && StartsLetter(last))
  {
    var more := kept + [last];
    forall k | 0 <= k < |kept| - 1 ensures Meets(more, k) <==> Meets(kept, k) {}
    if kept != [] { assert Meets(more, |kept| - 1) <==> EndsSoft(kept[|kept| - 1]) && StartsLetter(last); }
  }

  lemma {:induction false} StayingMeets(lines: seq<string>, gone: seq<bool>, n: nat)
    requires n <= |lines| == |gone|
    ensures var kept := Staying(lines, gone, n);
            (exists k :: 0 <= k < |kept| - 1 && Meets(kept, k))
              <==> exists j: nat :: j < n && MeetsBefore(lines, gone, j)
  {
    if n > 0 {
      StayingMeets(lines, gone, n - 1);
      var kept := Staying(lines, gone, n - 1);
      if !gone[n - 1] {
        NewNeighbour(lines, gone, n - 1);
        OneMoreMeets(kept, lines[n - 1]);
      } else {
        assert Staying(lines, gone, n) == kept;
      }
    }
  }

  /** Joining the lines that stay makes a soft wrap exactly where the removal uncovers one. */
  lemma {:induction false} StayingWraps(lines: seq<string>, gone: seq<bool>)
    requires |lines| == |gone| && forall l :: l in lines ==> OneLine(l)
    ensures NoSoftWrap(JoinLines(Staying(lines, gone, |lines|))) <==> !Uncovers(lines, gone)
  {
    StayingWithin(lines, gone, |lines|);
    WrapsOfLines(Staying(lines, gone, |lines|));
    StayingMeets(lines, gone, |lines|);
  }

  lemma {:induction false} StayingWithin(lines: seq<string>, gone: seq<bool>, n: nat)
    requires n <= |lines| == |gone|
    ensures forall l :: l in Staying(lines, gone, n) ==> l in lines
  {
    if n > 0 { StayingWithin(lines, gone, n - 1); }
  }
}
