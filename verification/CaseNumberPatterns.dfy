/** Which case numbers are refused, and what is left of the others (src/corpus/ids.py). */
module CaseNumberPatterns {
  import opened CaseIdNames
  import opened CaseIdPatterns
  import opened CaseIds
  import opened Patterns
  import opened Strings
  import opened TextWords
  import opened Wrappers

  // ----- digits in a row and in groups -----

  /** `[0-9]{10,64}` */
  function CompactNumber(): Pattern { Digits(10, 64) }

  lemma CompactExactly(s: string)
    ensures Found(CompactNumber(), s) <==> exists i :: 0 <= i < |s| && TenDigitsAt(s, i)
  {
    if i, j :| 0 <= i <= j <= |s| && Matches(CompactNumber(), s[i..j]) {
      RunsExactly(IsDigit, 10, Some(64), s[i..j]);
      assert s[i..i + 10] == s[i..j][..10];
      assert TenDigitsAt(s, i);
    }
    if i :| 0 <= i < |s| && TenDigitsAt(s, i) {
      RunsExactly(IsDigit, 10, Some(64), s[i..i + 10]);
    }
  }

  /** `[0-9]{6}-[1-8][0-9]{6}` */
  function ResidentNumber(): Pattern { Then(Digits(6, 6), Then(Text("-"), Then(Class(OneToEight), Digits(6, 6)))) }

  predicate SixBehind(s: string) { |s| == 8 && s[0] == '-' && OneToEight(s[1]) && AllDigits(s[2..]) }

  lemma {:induction false} SixBehindExactly(s: string)
    ensures Matches(Then(Text("-"), Then(Class(OneToEight), Digits(6, 6))), s) <==> SixBehind(s)
  {
    TextThen("-", Then(Class(OneToEight), Digits(6, 6)), s);
    assert "-" <= s <==> s != "" && s[0] == '-';
    if s != "" {
      ClassThen(OneToEight, Digits(6, 6), s[1..]);
      if |s| > 1 {
        assert s[1..][1..] == s[2..];
        RunsExactly(IsDigit, 6, Some(6), s[2..]);
      }
    }
  }

  lemma {:induction false} ResidentRead(s: string)
    ensures Matches(ResidentNumber(), s) <==> |s| == 14 && ResidentNumberAt(s, 0)
  {
    RunThen(IsDigit, 6, Some(6), Then(Text("-"), Then(Class(OneToEight), Digits(6, 6))), s);
    if |s| >= 6 { SixBehindExactly(s[6..]); }
    if |s| == 14 { assert s[6..][2..] == s[8..14] && s[..6] == s[0..6]; }
  }

  lemma ResidentMoves(s: string, i: nat)
    requires i + 14 <= |s|
    ensures ResidentNumberAt(s[i..i + 14], 0) <==> ResidentNumberAt(s, i)
  {
    var t := s[i..i + 14];
    assert t[0..6] == s[i..i + 6] && t[8..14] == s[i + 8..i + 14];
  }

  lemma ResidentExactly(s: string)
    ensures Found(ResidentNumber(), s) <==> exists i :: 0 <= i < |s| && ResidentNumberAt(s, i)
  {
    if i, j :| 0 <= i <= j <= |s| && Matches(ResidentNumber(), s[i..j]) {
      ResidentRead(s[i..j]);
      ResidentMoves(s, i);
      assert ResidentNumberAt(s, i);
    }
    if i :| 0 <= i < |s| && ResidentNumberAt(s, i) {
      ResidentMoves(s, i);
      ResidentRead(s[i..i + 14]);
    }
  }

  /** `[0-9]{2,6}(?:-[0-9]{2,6}){2,5}` */
  function GroupedNumber(): Pattern { Then(Digits(2, 6), Times(LaterGroup(), 2, Some(5))) }

  function LaterGroup(): Pattern { Then(Text("-"), Digits(2, 6)) }

  predicate IsGroup(s: string) { 3 <= |s| <= 7 && s[0] == '-' && AllDigits(s[1..]) }

  lemma {:induction false} LaterGroupExactly(s: string)
    ensures Matches(LaterGroup(), s) <==> IsGroup(s)
  {
    TextThen("-", Digits(2, 6), s);
    assert "-" <= s <==> s != "" && s[0] == '-';
    if s != "" { RunsExactly(IsDigit, 2, Some(6), s[1..]); }
  }

  /** Two groups of digits behind a number, and what follows. */
  predicate IsGrouped(s: string, k: nat, second: string, third: string, rest: string) {
    2 <= k <= |s| && AllDigits(s[..k]) && IsGroup(second) && IsGroup(third) && s[k..] == second + (third + rest)
  }

  ghost predicate HasGroups(s: string) {
    exists k: nat, second, third, rest :: IsGrouped(s, k, second, third, rest)
  }

  lemma {:induction false} GroupsRead(s: string)
    requires Matches(GroupedNumber(), s)
    ensures HasGroups(s)
  {
    var k := ThenSplits(Digits(2, 6), Times(LaterGroup(), 2, Some(5)), s);
    RunsExactly(IsDigit, 2, Some(6), s[..k]);
    var second, third, rest := LaterGroupsRead(s[k..]);
    assert IsGrouped(s, k, second, third, rest);
  }

  lemma {:induction false} LaterGroupsRead(s: string) returns (second: string, third: string, rest: string)
    requires Matches(Times(LaterGroup(), 2, Some(5)), s)
    ensures IsGroup(second) && IsGroup(third) && s == second + (third + rest)
  {
    var pieces := TimesSplits(LaterGroup(), 2, Some(5), s);
    second, third, rest := pieces[0], pieces[1], Concat(pieces[2..]);
    LaterGroupExactly(second);
    LaterGroupExactly(third);
    assert pieces[1..][1..] == pieces[2..] && pieces[1..][0] == third;
  }

  lemma GroupedWithin(s: string, k: nat, second: string, third: string, rest: string)
    requires IsGrouped(s, k, second, third, rest)
    ensures GroupedAt(s, k - 2, |second| - 1) && 2 <= |second| - 1 <= 6
  {
    var w := |second| - 1;
    assert s[k - 2..k] == s[..k][k - 2..];
    assert s == s[..k] + (second + (third + rest));
    assert s[k] == '-' && s[k + 1..k + 1 + w] == second[1..];
    assert s[k + 1 + w] == '-' && s[k + 2 + w..k + 4 + w] == third[1..3];
  }

  lemma GroupedReads(s: string, i: nat, width: nat)
    requires GroupedAt(s, i, width) && 2 <= width <= 6
    ensures Matches(GroupedNumber(), s[i..i + 6 + width])
  {
    var first, second, third := s[i..i + 2], "-" + s[i + 3..i + 3 + width], "-" + s[i + 4 + width..i + 6 + width];
    assert s[i..i + 6 + width] == first + (second + third);
    ThreeGroups(first, second, third);
  }

  lemma {:induction false} ThreeGroups(first: string, second: string, third: string)
    requires |first| == 2 && AllDigits(first) && IsGroup(second) && IsGroup(third)
    ensures Matches(GroupedNumber(), first + (second + third))
  {
    LaterGroupExactly(second);
    LaterGroupExactly(third);
    RunsExactly(IsDigit, 2, Some(6), first);
    TimesJoins(LaterGroup(), 2, Some(5), [second, third]);
    ThenJoins(Digits(2, 6), Times(LaterGroup(), 2, Some(5)), first, Concat([second, third]));
    TwoPieces(second, third);
  }

  lemma TwoPieces(a: string, b: string)
    ensures Concat([a, b]) == a + b
  {
    assert [a, b][1..] == [b] && [b][1..] == [];
    assert Concat([b]) == b + Concat([]) && b + "" == b;
  }

  lemma GroupedFound(t: string) returns (k: nat, width: nat)
    requires HasGroups(t)
    ensures 2 <= width <= 6 && GroupedAt(t, k, width)
  {
    var n: nat, second, third, rest :| IsGrouped(t, n, second, third, rest);
    GroupedWithin(t, n, second, third, rest);
    k, width := n - 2, |second| - 1;
  }

  lemma GroupedExactly(s: string)
    ensures Found(GroupedNumber(), s) <==> exists i, width :: 0 <= i < |s| && 2 <= width <= 6 && GroupedAt(s, i, width)
  {
    if i, j :| 0 <= i <= j <= |s| && Matches(GroupedNumber(), s[i..j]) {
      GroupsRead(s[i..j]);
      var k, width := GroupedFound(s[i..j]);
      GroupedMoves(s, i, j, k, width);
    }
    if i, width :| 0 <= i < |s| && 2 <= width <= 6 && GroupedAt(s, i, width) {
      GroupedReads(s, i, width);
      FoundAt(GroupedNumber(), s, i, i + 6 + width);
    }
  }

  lemma SliceOfSlice(s: string, i: nat, j: nat, a: nat, b: nat)
    requires i <= j <= |s| && a <= b <= j - i
    ensures s[i..j][a..b] == s[i + a..i + b]
  {
    forall m | 0 <= m < b - a ensures s[i..j][a..b][m] == s[i + a..i + b][m] {
      assert s[i..j][a + m] == s[i + (a + m)];
    }
  }

  lemma GroupedMoves(s: string, i: nat, j: nat, k: nat, width: nat)
    requires i <= j <= |s| && GroupedAt(s[i..j], k, width)
    ensures i + k < |s| && GroupedAt(s, i + k, width)
  {
    SliceOfSlice(s, i, j, k, k + 2);
    SliceOfSlice(s, i, j, k + 3, k + 3 + width);
    SliceOfSlice(s, i, j, k + 4 + width, k + 6 + width);
  }

  // ----- tokens of providers -----

  function Tail(high: nat): Pattern { Times(Class(TokenChar), 16, Some(high)) }

  /** `(?:akia|asia)[a-z0-9]{16}` */
  function AccessKey(): Pattern {
    Then(Either(Text("akia"), Text("asia")), Times(Class(LowerOrDigit), 16, Some(16)))
  }

  /** `sk-(?:proj-|ant-)?[a-z0-9-]{16,256}` */
  function SecretKey(): Pattern { Then(Text("sk-"), Then(Maybe(Either(Text("proj-"), Text("ant-"))), Tail(256))) }

  /** `xox[baprs]-[a-z0-9-]{16,255}` */
  function ChatToken(): Pattern { Then(Text("xox"), Then(Class(Baprs), Then(Text("-"), Tail(255)))) }

  /** `(?:sk|rk)-(?:live|test)-[a-z0-9-]{16,255}` */
  function PaymentKey(): Pattern {
    Then(Either(Text("sk"), Text("rk")), Then(Text("-"), Live()))
  }

  function ProviderToken(): Pattern { Either(AccessKey(), Either(SecretKey(), Either(ChatToken(), PaymentKey()))) }

  /** At least sixteen characters of a token behind `lead`. */
  predicate Behind(lead: string, t: string) { lead <= t && TokenTail(t, |lead|) }

  lemma TailBehind(high: nat, lead: string, t: string)
    requires lead <= t && high >= 16
    ensures Matches(Tail(high), t[|lead|..]) ==> Behind(lead, t)
    ensures Behind(lead, t) && |t| == |lead| + 16 ==> Matches(Tail(high), t[|lead|..])
  {
    RunsExactly(TokenChar, 16, Some(high), t[|lead|..]);
    assert forall i :: |lead| <= i < |t| ==> t[i] == t[|lead|..][i - |lead|];
  }

  lemma {:induction false} AccessKeyExactly(t: string)
    ensures Matches(AccessKey(), t) <==> |t| == 20 && (Behind("akia", t) || Behind("asia", t)) && '-' !in t[4..20]
  {
    AccessLead(t, Times(Class(LowerOrDigit), 16, Some(16)));
    if |t| >= 4 { RunsExactly(LowerOrDigit, 16, Some(16), t[4..]); }
    if |t| == 20 { SixteenBehind(t); }
  }

  lemma {:induction false} AccessLead(t: string, q: Pattern)
    ensures Matches(Then(Either(Text("akia"), Text("asia")), q), t) <==>
            ("akia" <= t || "asia" <= t) && Matches(q, t[4..])
  {
    forall k | 0 <= k <= |t|
      ensures Matches(Either(Text("akia"), Text("asia")), t[..k]) <==> k == 4 && ("akia" <= t || "asia" <= t)
    {
      assert |t[..k]| == k;
    }
  }

  lemma SixteenBehind(t: string)
    requires |t| == 20
    ensures All(LowerOrDigit, t[4..]) <==> TokenTail(t, 4) && '-' !in t[4..20]
  {
    var u := t[4..];
    assert u == t[4..20] && forall i :: 4 <= i < 20 ==> t[i] == u[i - 4];
    if All(LowerOrDigit, u) {
      forall c | c in u ensures c != '-' { var i :| 0 <= i < |u| && u[i] == c; assert LowerOrDigit(u[i]); }
      forall i | 4 <= i < 20 ensures IsDigit(t[i]) || IsLower(t[i]) { assert LowerOrDigit(u[i - 4]); }
    }
    if TokenTail(t, 4) && '-' !in u {
      forall i | 0 <= i < 16 ensures LowerOrDigit(u[i]) { assert u[i] in u && u[i] == t[i + 4]; }
    }
  }

  lemma {:induction false} SecretKeyReads(t: string)
    ensures Matches(SecretKey(), t) ==> Behind("sk-", t)
    ensures Behind("sk-", t) && |t| == 19 ==> Matches(SecretKey(), t)
  {
    var named := Maybe(Either(Text("proj-"), Text("ant-")));
    TextThen("sk-", Then(named, Tail(256)), t);
    if "sk-" <= t {
      var u := t[3..];
      if Matches(Then(named, Tail(256)), u) {
        var k := ThenSplits(named, Tail(256), u);
        NamedTail(u, k);
      }
      if |t| == 19 && Behind("sk-", t) {
        TailBehind(256, "sk-", t);
        assert "" + u == u;
        ThenJoins(named, Tail(256), "", u);
      }
    }
  }

  /** The optional name in front of a tail is part of a longer tail. */
  lemma NamedTail(u: string, k: nat)
    requires k <= |u| && Matches(Maybe(Either(Text("proj-"), Text("ant-"))), u[..k]) && Matches(Tail(256), u[k..])
    ensures |u| >= 16 && All(TokenChar, u)
  {
    RunsExactly(TokenChar, 16, Some(256), u[k..]);
    NameIsToken(u[..k]);
    AllJoins(TokenChar, u[..k], u[k..]);
    assert u == u[..k] + u[k..];
  }

  lemma {:induction false} NameIsToken(name: string)
    requires Matches(Maybe(Either(Text("proj-"), Text("ant-"))), name)
    ensures All(TokenChar, name)
  {
    if name != "" {
      assert Matches(Either(Text("proj-"), Text("ant-")), name);
      assert name == "proj-" || name == "ant-";
    }
  }

  lemma AllJoins(ok: char -> bool, a: string, b: string)
    requires All(ok, a) && All(ok, b)
    ensures All(ok, a + b)
  {
  }

  lemma {:induction false} ChatTokenReads(t: string)
    ensures Matches(ChatToken(), t) ==> |t| >= 5 && "xox" <= t && Baprs(t[3]) && t[4] == '-' && TokenTail(t, 5)
    ensures |t| == 21 && "xox" <= t && Baprs(t[3]) && t[4] == '-' && TokenTail(t, 5) ==> Matches(ChatToken(), t)
  {
    TextThen("xox", Then(Class(Baprs), Then(Text("-"), Tail(255))), t);
    if "xox" <= t {
      ClassThen(Baprs, Then(Text("-"), Tail(255)), t[3..]);
      if |t| > 3 {
        assert t[3..][1..] == t[4..];
        TextThen("-", Tail(255), t[4..]);
        assert "-" <= t[4..] <==> |t| > 4 && t[4] == '-';
        if |t| > 4 {
          assert t[4..][1..] == t[5..];
          TailBehind(255, t[..5], t);
        }
      }
    }
  }

  /** `(?:live|test)-` and a tail */
  function Live(): Pattern { Then(Either(Text("live"), Text("test")), Then(Text("-"), Tail(255))) }

  lemma {:induction false} LiveReads(u: string)
    ensures Matches(Live(), u) ==> Behind("live-", u) || Behind("test-", u)
    ensures (Behind("live-", u) || Behind("test-", u)) && |u| == 21 ==> Matches(Live(), u)
  {
    LiveLead(u, Then(Text("-"), Tail(255)));
    if |u| >= 4 {
      TextThen("-", Tail(255), u[4..]);
      assert "-" <= u[4..] <==> |u| > 4 && u[4] == '-';
      if |u| > 4 {
        assert u[4..][1..] == u[5..];
        LiveTail(u, "live");
        LiveTail(u, "test");
      }
    }
  }

  lemma LiveTail(u: string, word: string)
    requires |word| == 4 < |u|
    ensures word <= u && u[4] == '-' && Matches(Tail(255), u[5..]) ==> Behind(word + "-", u)
    ensures Behind(word + "-", u) && |u| == 21 ==> word <= u && u[4] == '-' && Matches(Tail(255), u[5..])
  {
    var lead := word + "-";
    assert word <= u && u[4] == '-' <==> lead <= u;
    if lead <= u { TailBehind(255, lead, u); }
  }

  lemma {:induction false} LiveLead(u: string, q: Pattern)
    ensures Matches(Then(Either(Text("live"), Text("test")), q), u) <==>
            ("live" <= u || "test" <= u) && Matches(q, u[4..])
  {
    forall k | 0 <= k <= |u|
      ensures Matches(Either(Text("live"), Text("test")), u[..k]) <==> k == 4 && ("live" <= u || "test" <= u)
    {
      assert |u[..k]| == k;
    }
  }

  lemma {:induction false} PaymentKeyExactly(t: string)
    ensures Matches(PaymentKey(), t) <==>
            |t| > 3 && (t[..2] == "sk" || t[..2] == "rk") && t[2] == '-' && Matches(Live(), t[3..])
  {
    var q := Then(Text("-"), Live());
    forall k | 0 <= k <= |t|
      ensures Matches(Either(Text("sk"), Text("rk")), t[..k]) <==> k == 2 && (t[..2] == "sk" || t[..2] == "rk")
    {
      assert |t[..k]| == k;
    }
    if |t| >= 2 {
      TextThen("-", Live(), t[2..]);
      assert "-" <= t[2..] <==> |t| > 2 && t[2] == '-';
      if |t| > 2 {
        assert t[2..][1..] == t[3..];
        LiveReads(t[3..]);
      }
    }
  }

  /** What the four alternatives come to at the start of a text; secret keys absorb half of the payment keys. */
  predicate TokenAhead(t: string) {
    || ((Behind("akia", t) || Behind("asia", t)) && '-' !in t[4..20])
    || Behind("sk-", t)
    || (|t| >= 5 && "xox" <= t && Baprs(t[3]) && t[4] == '-' && TokenTail(t, 5))
    || Behind("rk-live-", t) || Behind("rk-test-", t)
  }

  lemma {:induction false} PaymentKeyReads(t: string)
    requires Matches(PaymentKey(), t)
    ensures Behind("sk-", t) || Behind("rk-live-", t) || Behind("rk-test-", t)
  {
    PaymentKeyExactly(t);
    LiveReads(t[3..]);
    if t[..2] == "sk" {
      SecretAbsorbs(t);
    } else {
      assert t[..3] == "rk-";
      LeadMore(t, "rk-", "live-");
      LeadMore(t, "rk-", "test-");
    }
  }

  lemma {:induction false} PaymentKeyRead(t: string, word: string)
    requires |t| == 24 && (word == "live-" || word == "test-") && Behind("rk-" + word, t)
    ensures Matches(PaymentKey(), t)
  {
    LeadMore(t, "rk-", word);
    assert t[..3] == "rk-";
    assert t[..2] == t[..3][..2] && t[2] == t[..3][2];
    LiveReads(t[3..]);
    PaymentKeyExactly(t);
  }

  /** What any of the patterns reads begins a token. */
  lemma {:induction false} TokenReads(t: string)
    requires Matches(ProviderToken(), t)
    ensures TokenAhead(t)
  {
    TokenOf(t);
    if Matches(AccessKey(), t) {
      AccessKeyExactly(t);
    } else if Matches(SecretKey(), t) {
      SecretKeyReads(t);
    } else if Matches(ChatToken(), t) {
      ChatTokenReads(t);
    } else {
      PaymentKeyReads(t);
    }
  }

  /** The length of the shortest text that a pattern reads at the start of `t`. */
  lemma TokenRead(t: string) returns (n: nat)
    requires TokenAhead(t)
    ensures n <= |t| && Matches(ProviderToken(), t[..n])
  {
    if (Behind("akia", t) || Behind("asia", t)) && '-' !in t[4..20] {
      n := 20;
      Shortened("akia", t, n);
      Shortened("asia", t, n);
      assert t[..n][4..20] == t[4..20];
      AccessKeyExactly(t[..n]);
    } else if Behind("sk-", t) {
      n := 19;
      Shortened("sk-", t, n);
      SecretKeyReads(t[..n]);
    } else if |t| >= 5 && "xox" <= t && Baprs(t[3]) && t[4] == '-' && TokenTail(t, 5) {
      n := 21;
      Shortened("xox", t, n);
      ChatTokenReads(t[..n]);
    } else {
      n := 24;
      PaymentRead(t);
    }
    TokenOf(t[..n]);
  }

  lemma PaymentRead(t: string)
    requires Behind("rk-live-", t) || Behind("rk-test-", t)
    ensures |t| >= 24 && Matches(PaymentKey(), t[..24])
  {
    if Behind("rk-live-", t) {
      Shortened("rk-live-", t, 24);
      assert "rk-" + "live-" == "rk-live-";
      PaymentKeyRead(t[..24], "live-");
    } else {
      Shortened("rk-test-", t, 24);
      assert "rk-" + "test-" == "rk-test-";
      PaymentKeyRead(t[..24], "test-");
    }
  }

  lemma Shortened(lead: string, t: string, n: nat)
    ensures |lead| + 16 <= n <= |t| && Behind(lead, t) ==> Behind(lead, t[..n])
    ensures n <= |t| && |lead| <= n && lead <= t ==> lead <= t[..n]
  {
  }

  lemma {:induction false} TokenOf(t: string)
    ensures Matches(AccessKey(), t) || Matches(SecretKey(), t) || Matches(ChatToken(), t) || Matches(PaymentKey(), t)
            <==> Matches(ProviderToken(), t)
  {
    assert Matches(ProviderToken(), t) <==>
           Matches(AccessKey(), t) || Matches(Either(SecretKey(), Either(ChatToken(), PaymentKey())), t);
    assert Matches(Either(SecretKey(), Either(ChatToken(), PaymentKey())), t) <==>
           Matches(SecretKey(), t) || Matches(Either(ChatToken(), PaymentKey()), t);
  }

  lemma LeadMore(t: string, lead: string, word: string)
    ensures Behind(lead + word, t) <==> lead <= t && Behind(word, t[|lead|..])
  {
    if lead <= t {
      var u := t[|lead|..];
      assert lead + word <= t <==> word <= u;
      assert forall i :: |lead| <= i < |t| ==> t[i] == u[i - |lead|];
      assert forall i :: 0 <= i < |u| ==> u[i] == t[i + |lead|];
    }
  }

  lemma SecretAbsorbs(t: string)
    requires |t| > 3 && t[..2] == "sk" && t[2] == '-' && (Behind("live-", t[3..]) || Behind("test-", t[3..]))
    ensures Behind("sk-", t)
  {
    var u := t[3..];
    assert t[..3] == "sk-";
    forall i | 3 <= i < 19 ensures IsDigit(t[i]) || IsLower(t[i]) || t[i] == '-' { assert t[i] == u[i - 3]; }
  }

  lemma BehindGrows(lead: string, t: string, n: nat)
    requires n <= |t| && Behind(lead, t[..n])
    ensures Behind(lead, t)
  {
    assert forall i :: 0 <= i < n ==> t[i] == t[..n][i];
    assert lead <= t[..n] <= t;
  }

  lemma TokenGrows(t: string, n: nat)
    requires n <= |t| && TokenAhead(t[..n])
    ensures TokenAhead(t)
  {
    var u := t[..n];
    if (Behind("akia", u) || Behind("asia", u)) && '-' !in u[4..20] {
      if Behind("akia", u) { BehindGrows("akia", t, n); } else { BehindGrows("asia", t, n); }
      assert u[4..20] == t[4..20];
    } else if Behind("sk-", u) {
      BehindGrows("sk-", t, n);
    } else if Behind("rk-live-", u) {
      BehindGrows("rk-live-", t, n);
    } else if Behind("rk-test-", u) {
      BehindGrows("rk-test-", t, n);
    } else {
      BehindGrows(u[..5], t, n);
      assert "xox" <= u[..5] && u[..5] <= t && t[3] == u[3] && t[4] == u[4];
    }
  }

  lemma ProviderAhead(s: string, i: nat)
    requires i <= |s|
    ensures ProviderTokenAt(s, i) <==> TokenAhead(s[i..])
  {
  }

  lemma ProviderExactly(s: string)
    ensures Found(ProviderToken(), s) <==> exists i :: 0 <= i < |s| && ProviderTokenAt(s, i)
  {
    if i, j :| 0 <= i <= j <= |s| && Matches(ProviderToken(), s[i..j]) {
      TokenReads(s[i..j]);
      assert s[i..][..j - i] == s[i..j];
      TokenGrows(s[i..], j - i);
      ProviderAhead(s, i);
      assert ProviderTokenAt(s, i) && i < |s|;
    }
    if i :| 0 <= i < |s| && ProviderTokenAt(s, i) {
      ProviderAhead(s, i);
      var n := TokenRead(s[i..]);
      assert s[i..][..n] == s[i..i + n];
      FoundAt(ProviderToken(), s, i, i + n);
    }
  }

  // ----- components -----

  /** The components between hyphens. */
  function Components(s: string): seq<string> { WordsOf(IsHyphen, s) }

  predicate HasLongComponent(s: string) { exists w :: w in Components(s) && |w| >= 24 }

  lemma {:induction false} CompactIsConcat(s: string)
    ensures WithoutHyphens(s) == Concat(Components(s))
    decreases |s|
  {
    if s != "" {
      if IsHyphen(s[0]) {
        CompactIsConcat(s[1..]);
      } else {
        var k := WordEnd(IsHyphen, s, 0);
        FirstWord(IsHyphen, s, k);
        CompactIsConcat(s[k..]);
        RunStays(s[..k], s[k..]);
        assert s == s[..k] + s[k..];
        assert ([s[..k]] + Components(s[k..]))[1..] == Components(s[k..]);
      }
    }
  }

  lemma {:induction false} RunStays(run: string, rest: string)
    requires forall i :: 0 <= i < |run| ==> run[i] != '-'
    ensures WithoutHyphens(run + rest) == run + WithoutHyphens(rest)
  {
    var s := run + rest;
    if run == "" {
      assert s == rest;
    } else {
      RunStays(run[1..], rest);
      assert s[1..] == run[1..] + rest;
    }
  }

  lemma LongFurther(s: string, k: nat, i: nat)
    requires k <= |s|
    ensures LongComponentAt(s[k..], i) <==> LongComponentAt(s, k + i)
  {
    if k + i + 24 <= |s| { assert s[k..][i..i + 24] == s[k + i..k + i + 24]; }
  }

  /** A long part without a hyphen starts in the first component or behind it. */
  lemma LongInFirst(s: string, k: nat, i: nat)
    requires k <= |s| && (k < |s| ==> s[k] == '-') && LongComponentAt(s, i) && i < k
    ensures k >= 24
  {
  }

  lemma {:induction false} LongExactly(s: string)
    ensures HasLongComponent(s) <==> exists i :: 0 <= i < |s| && LongComponentAt(s, i)
    decreases |s|
  {
    if s != "" {
      var k := if IsHyphen(s[0]) then 1 else WordEnd(IsHyphen, s, 0);
      LongExactly(s[k..]);
      if IsHyphen(s[0]) {
        LongBehind(s, 1, []);
      } else {
        FirstWord(IsHyphen, s, k);
        LongBehind(s, k, [s[..k]]);
      }
    }
  }

  /** From the rest behind a hyphen or a component to the whole. */
  lemma LongBehind(s: string, k: nat, front: seq<string>)
    requires 1 <= k <= |s| && Components(s) == front + Components(s[k..])
    requires if s[0] == '-' then k == 1 && front == []
             else front == [s[..k]] && '-' !in s[..k] && (k < |s| ==> s[k] == '-')
    requires HasLongComponent(s[k..]) <==> exists i :: 0 <= i < |s[k..]| && LongComponentAt(s[k..], i)
    ensures HasLongComponent(s) <==> exists i :: 0 <= i < |s| && LongComponentAt(s, i)
  {
    if w :| w in Components(s) && |w| >= 24 { LongFromComponent(s, k, front, w); }
    if i :| 0 <= i < |s| && LongComponentAt(s, i) { ComponentFromLong(s, k, front, i); }
  }

  lemma LongFromComponent(s: string, k: nat, front: seq<string>, w: string)
    requires 1 <= k <= |s| && Components(s) == front + Components(s[k..]) && w in Components(s) && |w| >= 24
    requires front == [] || (front == [s[..k]] && '-' !in s[..k])
    requires HasLongComponent(s[k..]) ==> exists i :: 0 <= i < |s[k..]| && LongComponentAt(s[k..], i)
    ensures exists i :: 0 <= i < |s| && LongComponentAt(s, i)
  {
    if w in front {
      assert s[0..24] == s[..k][..24];
      assert LongComponentAt(s, 0);
    } else {
      assert w in Components(s[k..]);
      var i :| 0 <= i < |s[k..]| && LongComponentAt(s[k..], i);
      LongFurther(s, k, i);
      assert LongComponentAt(s, k + i);
    }
  }

  lemma ComponentFromLong(s: string, k: nat, front: seq<string>, i: nat)
    requires 1 <= k <= |s| && Components(s) == front + Components(s[k..]) && i < |s| && LongComponentAt(s, i)
    requires if s[0] == '-' then k == 1 && front == []
             else front == [s[..k]] && (k < |s| ==> s[k] == '-')
    requires (exists i :: 0 <= i < |s[k..]| && LongComponentAt(s[k..], i)) ==> HasLongComponent(s[k..])
    ensures HasLongComponent(s)
  {
    if i >= k {
      LongFurther(s, k, i - k);
      assert LongComponentAt(s[k..], i - k);
      var w :| w in Components(s[k..]) && |w| >= 24;
      assert w in Components(s);
    } else if s[0] != '-' {
      LongInFirst(s, k, i);
      assert front[0] in Components(s);
    }
  }

  // ----- refused numbers -----

  /** A number is refused for its digits, a sensitive part, its length or a long component. */
  lemma RejectedExactly(value: string)
    ensures NumberRequiresRejection(value) <==>
            || (|Concat(Components(value))| >= 10 && AllDigits(Concat(Components(value))))
            || Found(CompactNumber(), value) || Found(Either(ResidentNumber(), GroupedNumber()), value)
            || Found(ProviderToken(), value) || |value| > 64 || HasLongComponent(value)
  {
    CompactIsConcat(value);
    CompactExactly(value);
    EitherFound(ResidentNumber(), GroupedNumber(), value);
    ResidentExactly(value);
    GroupedExactly(value);
    ProviderExactly(value);
    LongExactly(value);
  }

  lemma EitherFound(p: Pattern, q: Pattern, s: string)
    ensures Found(Either(p, q), s) <==> Found(p, s) || Found(q, s)
  {
    forall t ensures Matches(Either(p, q), t) <==> Matches(p, t) || Matches(q, t) {}
    if i, j :| 0 <= i <= j <= |s| && Matches(Either(p, q), s[i..j]) {
      assert Matches(p, s[i..j]) || Matches(q, s[i..j]);
    }
    if i, j :| 0 <= i <= j <= |s| && Matches(p, s[i..j]) { assert Matches(Either(p, q), s[i..j]); }
    if i, j :| 0 <= i <= j <= |s| && Matches(q, s[i..j]) { assert Matches(Either(p, q), s[i..j]); }
  }

  // ----- issued numbers -----

  lemma {:induction false} StrippedIsDecimal(s: string)
    requires s != "" && AllDigits(s)
    ensures StripLeadingZeros(s) == Decimal(Value(s))
  {
    if |s| > 1 && s[0] == '0' {
      StrippedIsDecimal(s[1..]);
      PaddedValue(s[1..]);
      assert s == "0" + s[1..];
    } else {
      DecimalOfValue(s);
    }
  }

  /** Each blank of a number becomes a hyphen, and each capital its small letter. */
  predicate Canonicalized(sentence: string, typed: string, canonical: string) {
    && |sentence| == |typed| == |canonical|
    && forall i :: 0 <= i < |sentence| ==>
         && typed[i] == (if sentence[i] == ' ' then '-' else sentence[i])
         && canonical[i] == (if 'A' <= typed[i] <= 'Z' then typed[i] - 'A' + 'a' else typed[i])
  }

  lemma CanonicalizedBy(sentence: string, typed: string, canonical: string)
    requires Canonicalized(sentence, typed, canonical)
    ensures typed == Replace(sentence, ' ', '-') && canonical == Lower(typed)
  {
  }

  lemma OneLineNumber(typed: string, canonical: string)
    requires Hyphenated(typed, IsCaseNumberChar) && canonical == Lower(typed)
    ensures '\n' !in canonical && canonical != ""
  {
    forall c | c in canonical ensures c != '\n' {
      var i :| 0 <= i < |canonical| && canonical[i] == c;
      assert typed[i] == '-' || IsCaseNumberChar(typed[i]);
    }
  }

  /** A reserved form, or one that looks sensitive. */
  ghost predicate Refused(canonical: string) {
    || Matches(Duplicate(), canonical) || Matches(Opaque(), canonical)
    || (|Concat(Components(canonical))| >= 10 && AllDigits(Concat(Components(canonical))))
    || Found(CompactNumber(), canonical) || Found(Either(ResidentNumber(), GroupedNumber()), canonical)
    || Found(ProviderToken(), canonical) || |canonical| > 64 || HasLongComponent(canonical)
  }

  /** A case number is normalized exactly when its words, joined by hyphens, are runs of letters and digits that are
      not refused; digits alone give the numeral of their value. */
  lemma {:induction false} NumberExactly(caseNo: string, typed: string, canonical: string)
    requires Canonicalized(Sentence(Words(caseNo)), typed, canonical)
    ensures NormalizeCaseNumber(caseNo).Ok? <==>
            Words(caseNo) != [] && Matches(Runs(IsCaseNumberChar), typed) && !Refused(canonical)
    ensures NormalizeCaseNumber(caseNo).Ok? ==>
              NormalizeCaseNumber(caseNo).value
              == if AllDigits(canonical) then Decimal(Value(canonical)) else canonical
  {
    CleanedIsSentence(caseNo);
    CanonicalizedBy(Sentence(Words(caseNo)), typed, canonical);
    HyphenatedExactly(IsCaseNumberChar, typed);
    if Words(caseNo) != [] && Hyphenated(typed, IsCaseNumberChar) {
      OneLineNumber(typed, canonical);
      CheckedExactly(canonical);
    }
  }

  lemma {:induction false} CheckedExactly(canonical: string)
    requires '\n' !in canonical && canonical != ""
    ensures CheckedNumber(canonical).Ok? <==> !Refused(canonical)
    ensures CheckedNumber(canonical).Ok? ==>
              CheckedNumber(canonical).value
              == if AllDigits(canonical) then Decimal(Value(canonical)) else canonical
  {
    DuplicateExactly(canonical);
    OpaqueExactly(canonical);
    RejectedExactly(canonical);
    if AllDigits(canonical) { StrippedIsDecimal(canonical); }
  }
}
