/**
 The call around the cursor, as the language server's signature help finds it: a backward scan for
 the open parenthesis, a forward count of commas, and the name before the parenthesis.  A line is
 its bytes.
 */
module CallContext {
  import opened Options
  import opened Text

  datatype Kind = Paren | Bracket | Brace

  datatype Context = Context(funcName: string, qualifier: Option<string>, activeParam: nat, paramCount: nat)

  function Weight(kind: Kind, c: char): (w: int)
    ensures -1 <= w <= 1
  {
    match kind
    case Paren => if c == '(' then 1 else if c == ')' then -1 else 0
    case Bracket => if c == '[' then 1 else if c == ']' then -1 else 0
    case Brace => if c == '{' then 1 else if c == '}' then -1 else 0
  }

  /** Openers minus closers. */
  function Level(kind: Kind, s: string): int
    decreases |s|
  {
    if s == "" then 0 else Weight(kind, s[0]) + Level(kind, s[1..])
  }

  lemma {:induction false} LevelAdds(kind: Kind, a: string, b: string)
    ensures Level(kind, a + b) == Level(kind, a) + Level(kind, b)
    decreases |a|
  {
    if a == "" {
      assert a + b == b;
    } else {
      assert (a + b)[1..] == a[1..] + b;
      LevelAdds(kind, a[1..], b);
    }
  }

  lemma LevelSplits(kind: Kind, s: string, i: nat, j: nat)
    requires i <= j <= |s|
    ensures Level(kind, s[i..]) == Level(kind, s[i..j]) + Level(kind, s[j..])
  {
    assert s[i..] == s[i..j] + s[j..];
    LevelAdds(kind, s[i..j], s[j..]);
  }

  lemma LevelSteps(kind: Kind, s: string, i: nat)
    requires i < |s|
    ensures Level(kind, s[i..]) == Weight(kind, s[i]) + Level(kind, s[i + 1..])
    ensures Level(kind, s[..i + 1]) == Level(kind, s[..i]) + Weight(kind, s[i])
  {
    assert s[i..][1..] == s[i + 1..];
    assert s[..i + 1] == s[..i] + [s[i]];
    LevelAdds(kind, s[..i], [s[i]]);
    assert [s[i]][1..] == "";
  }

  /** No closer without its opener: no beginning of the text closes more than it opens. */
  ghost predicate NoStray(kind: Kind, s: string) {
    forall j :: 0 <= j <= |s| ==> Level(kind, s[..j]) >= 0
  }

  /** An opener at `k` whose closer is not in the text: every closer behind it has its own opener. */
  ghost predicate Unmatched(kind: Kind, s: string, k: nat) {
    k < |s| && Weight(kind, s[k]) == 1 && NoStray(kind, s[k + 1..])
  }

  ghost predicate AllMatched(kind: Kind, s: string) {
    forall k: nat :: k < |s| ==> !Unmatched(kind, s, k)
  }

  ghost predicate Balanced(kind: Kind, s: string) {
    NoStray(kind, s) && Level(kind, s) == 0
  }

  ghost predicate Innermost(kind: Kind, s: string, k: nat) {
    Unmatched(kind, s, k) && forall m :: k < m < |s| ==> !Unmatched(kind, s, m)
  }

  // ---------------------------------------------------------------------------------------
  // The backward scan
  // ---------------------------------------------------------------------------------------

  /** What the scan knows of the text from `i` on. */
  ghost predicate Scanned(s: string, i: nat) {
    && i <= |s|
    && (forall m :: i <= m <= |s| ==> Level(Paren, s[m..]) <= 0)
    && (forall m :: i <= m < |s| && s[m] == '(' ==> Level(Paren, s[m + 1..]) < 0)
  }

  lemma ScannedHasNone(s: string, i: nat)
    requires Scanned(s, i)
    ensures forall m :: i <= m < |s| ==> !Unmatched(Paren, s, m)
  {
    forall m | i <= m < |s| && s[m] == '('
      ensures !Unmatched(Paren, s, m)
    {
      var t := s[m + 1..];
      assert t[..|t|] == t;
    }
  }

  lemma ScanStops(s: string, k: nat)
    requires k < |s| && s[k] == '(' && Scanned(s, k + 1) && Level(Paren, s[k + 1..]) == 0
    ensures Innermost(Paren, s, k)
  {
    hide Level;
    ScannedHasNone(s, k + 1);
    var t := s[k + 1..];
    forall j | 0 <= j <= |t|
      ensures Level(Paren, t[..j]) >= 0
    {
      assert t[..j] == s[k + 1..k + 1 + j] && t[j..] == s[k + 1 + j..];
      LevelSplits(Paren, s, k + 1, k + 1 + j);
    }
  }

  lemma ScanStarts(s: string)
    ensures Scanned(s, |s|) && Level(Paren, s[|s|..]) == 0
  {
  }

  /** What a character does to the depth, and whether the scan goes on. */
  lemma ScanGoesOn(s: string, i: nat)
    requires i < |s| && Scanned(s, i + 1)
    ensures Level(Paren, s[i + 1..]) <= 0
    ensures Weight(Paren, s[i]) == if s[i] == '(' then 1 else if s[i] == ')' then -1 else 0
    ensures s[i] != '(' || Level(Paren, s[i + 1..]) < 0 ==> Scanned(s, i)
  {
    LevelSteps(Paren, s, i);
    hide Level;
  }

  lemma OneIsUnmatched(s: string, k: nat)
    requires Innermost(Paren, s, k)
    ensures !AllMatched(Paren, s)
  {
    hide Level, NoStray;
    assert Unmatched(Paren, s, k);
  }

  lemma ScanEnds(s: string)
    requires Scanned(s, 0)
    ensures AllMatched(Paren, s)
  {
    hide Level, Unmatched, Scanned;
    ScannedHasNone(s, 0);
  }

  /** The scan finds the innermost unmatched parenthesis, and nothing exactly when there is none. */
  method FindOpenParen(s: string) returns (pos: Option<nat>)
    ensures pos.Some? ==> Innermost(Paren, s, pos.value)
    ensures pos.None? <==> AllMatched(Paren, s)
  {
    ScanStarts(s);
    hide *;
    var depth, i := 0, |s|;
    while i > 0
      invariant 0 <= i && Scanned(s, i) && depth == -Level(Paren, s[i..])
    {
      i := i - 1;
      LevelSteps(Paren, s, i);
      ScanGoesOn(s, i);
      if s[i] == ')' {
        depth := depth + 1;
      } else if s[i] == '(' {
        if depth == 0 {
          ScanStops(s, i);
          OneIsUnmatched(s, i);
          return Some(i);
        }
        depth := depth - 1;
      }
    }
    ScanEnds(s);
    return None;
  }

  lemma {:induction false} MatchedSuffix(kind: Kind, s: string, m: nat)
    requires m <= |s| && forall k: nat :: m <= k < |s| ==> !Unmatched(kind, s, k)
    ensures Level(kind, s[m..]) <= 0
    decreases |s| - m
  {
    if m < |s| {
      LevelSteps(kind, s, m);
      MatchedSuffix(kind, s, m + 1);
      if Weight(kind, s[m]) == 1 {
        var t := s[m + 1..];
        assert !Unmatched(kind, s, m);
        var j :| 0 <= j <= |t| && Level(kind, t[..j]) < 0;
        assert t[..j] == s[m + 1..m + 1 + j];
        LevelSplits(kind, s, m + 1, m + 1 + j);
        MatchedSuffix(kind, s, m + 1 + j);
      }
    }
  }

  /** Behind the innermost open parenthesis (bracket, brace) the parentheses pair up. */
  lemma {:induction false} BalancedBehind(kind: Kind, s: string, k: nat)
    requires Innermost(kind, s, k)
    ensures Balanced(kind, s[k + 1..])
  {
    var t := s[k + 1..];
    assert t[..|t|] == t;
    MatchedSuffix(kind, s, k + 1);
  }

  /** A text in which everything pairs up leaves the parenthesis before it the innermost one. */
  lemma {:induction false} OpenBefore(before: string, t: string)
    requires Balanced(Paren, t)
    ensures Innermost(Paren, before + "(" + t, |before|)
  {
    var s, k := before + "(" + t, |before|;
    assert s[k + 1..] == t;
    forall m | k < m < |s|
      ensures !Unmatched(Paren, s, m)
    {
      var i := m - k - 1;
      var u := s[m + 1..];
      assert u[..|u|] == u == t[i + 1..];
      assert t == t[0..] && t[0..i] == t[..i];
      LevelSplits(Paren, t, 0, i);
      LevelSteps(Paren, t, i);
    }
  }

  // ---------------------------------------------------------------------------------------
  // The commas
  // ---------------------------------------------------------------------------------------

  ghost predicate AtLevelZero(s: string) {
    Level(Paren, s) == 0 && Level(Bracket, s) == 0 && Level(Brace, s) == 0
  }

  /** The commas before which every counter stands at zero. */
  ghost function LevelCommas(t: string): nat
    decreases |t|
  {
    if t == "" then 0
    else
      var init := t[..|t| - 1];
      LevelCommas(init) + if t[|t| - 1] == ',' && AtLevelZero(init) then 1 else 0
  }

  method CountCommas(t: string) returns (commas: nat)
    ensures commas == LevelCommas(t)
  {
    var parens, brackets, braces := 0, 0, 0;
    commas := 0;
    for i := 0 to |t|
      invariant commas == LevelCommas(t[..i])
      invariant parens == Level(Paren, t[..i])
      invariant brackets == Level(Bracket, t[..i])
      invariant braces == Level(Brace, t[..i])
    {
      LevelSteps(Paren, t, i);
      LevelSteps(Bracket, t, i);
      LevelSteps(Brace, t, i);
      assert t[..i + 1][..i] == t[..i];
      match t[i]
      case '(' => parens := parens + 1;
      case ')' => parens := parens - 1;
      case '[' => brackets := brackets + 1;
      case ']' => brackets := brackets - 1;
      case '{' => braces := braces + 1;
      case '}' => braces := braces - 1;
      case ',' =>
        if parens == 0 && brackets == 0 && braces == 0 {
          commas := commas + 1;
        }
      case _ =>
    }
    assert t[..|t|] == t;
  }

  /** Behind `s` one is outside every pair: no opener of any kind waits for its closer. */
  ghost predicate Outside(s: string) {
    AllMatched(Paren, s) && AllMatched(Bracket, s) && AllMatched(Brace, s)
  }

  ghost predicate Clean(s: string) {
    NoStray(Paren, s) && NoStray(Bracket, s) && NoStray(Brace, s)
  }

  /** The commas that stand outside every pair. */
  ghost function OuterCommas(t: string): nat
    decreases |t|
  {
    if t == "" then 0
    else
      var init := t[..|t| - 1];
      OuterCommas(init) + if t[|t| - 1] == ',' && Outside(init) then 1 else 0
  }

  lemma {:induction false} MatchedAtZero(kind: Kind, s: string)
    requires AllMatched(kind, s)
    ensures Level(kind, s) == 0 <==> NoStray(kind, s)
  {
    assert s[..|s|] == s == s[0..];
    MatchedSuffix(kind, s, 0);
    if Level(kind, s) == 0 {
      forall j | 0 <= j <= |s|
        ensures Level(kind, s[..j]) >= 0
      {
        assert s[0..j] == s[..j];
        LevelSplits(kind, s, 0, j);
        MatchedSuffix(kind, s, j);
      }
    }
  }

  lemma {:induction false} OpenAboveZero(kind: Kind, s: string, k: nat)
    requires NoStray(kind, s) && Unmatched(kind, s, k)
    ensures Level(kind, s) > 0
  {
    assert s == s[0..] && s[0..k] == s[..k];
    LevelSplits(kind, s, 0, k);
    LevelSteps(kind, s, k);
    var t := s[k + 1..];
    assert t[..|t|] == t;
  }

  /** A comma outside every pair is counted if and only if nothing before it closes what was not opened. */
  lemma {:induction false} OuterCommaCountsIffClean(s: string)
    requires Outside(s)
    ensures AtLevelZero(s) <==> Clean(s)
  {
    MatchedAtZero(Paren, s);
    MatchedAtZero(Bracket, s);
    MatchedAtZero(Brace, s);
  }

  /** A comma inside a pair is not counted, if nothing before it closes what was not opened. */
  lemma {:induction false} InnerCommaIsSkipped(s: string)
    requires Clean(s) && !Outside(s)
    ensures !AtLevelZero(s)
  {
    var kind :| !AllMatched(kind, s);
    assert !AllMatched(kind, s);
    var k: nat :| k < |s| && Unmatched(kind, s, k);
    OpenAboveZero(kind, s, k);
  }

  lemma CleanPrefix(s: string, n: nat)
    requires Clean(s) && n <= |s|
    ensures Clean(s[..n])
  {
    forall kind: Kind, j | 0 <= j <= n
      ensures Level(kind, s[..n][..j]) >= 0
    {
      assert s[..n][..j] == s[..j];
      assert NoStray(kind, s);
    }
  }

  /** The counters count the commas outside every pair. */
  lemma {:induction false} CountersSeeOuterCommas(t: string)
    requires Clean(t)
    ensures LevelCommas(t) == OuterCommas(t)
    decreases |t|
  {
    if t != "" {
      var init := t[..|t| - 1];
      CleanPrefix(t, |t| - 1);
      CountersSeeOuterCommas(init);
      if Outside(init) {
        OuterCommaCountsIffClean(init);
      } else {
        InnerCommaIsSkipped(init);
      }
    }
  }

  // ---------------------------------------------------------------------------------------
  // Any text: what the counters count
  // ---------------------------------------------------------------------------------------

  /** A closer at `k` whose opener is not in the text: no stretch that ends before it opens more than it closes. */
  ghost predicate Stray(kind: Kind, s: string, k: nat) {
    k < |s| && Weight(kind, s[k]) == -1 && forall j: nat :: j <= k ==> Level(kind, s[..k][j..]) <= 0
  }

  ghost function Openers(kind: Kind, s: string): set<nat> {
    set k: nat | k < |s| && Unmatched(kind, s, k)
  }

  ghost function Strays(kind: Kind, s: string): set<nat> {
    set k: nat | k < |s| && Stray(kind, s, k)
  }

  lemma {:induction false} LastOpener(kind: Kind, s: string, n: nat) returns (k: nat)
    requires n <= |s| && forall m :: n <= m < |s| ==> !Unmatched(kind, s, m)
    requires !AllMatched(kind, s)
    ensures Innermost(kind, s, k)
    decreases n
  {
    if n > 0 && Unmatched(kind, s, n - 1) {
      k := n - 1;
    } else if n > 0 {
      k := LastOpener(kind, s, n - 1);
    }
  }

  /** One character more leaves an opener waiting unless it is a closer with nothing left to close. */
  lemma {:induction false} StillUnmatched(kind: Kind, s: string, c: char, k: nat)
    requires k < |s|
    ensures Unmatched(kind, s + [c], k)
       <==> Unmatched(kind, s, k) && Level(kind, s[k + 1..]) + Weight(kind, c) >= 0
  {
    var t := s[k + 1..];
    var u := t + [c];
    assert (s + [c])[k + 1..] == u;
    LevelSteps(kind, u, |t|);
    assert u[..|t|] == t && u[..|u|] == u && t[..|t|] == t;
    assert forall j :: 0 <= j <= |t| ==> u[..j] == t[..j];
    hide Level;
    if NoStray(kind, u) {
      forall j | 0 <= j <= |t| ensures Level(kind, t[..j]) >= 0 {
        assert Level(kind, u[..j]) >= 0;
      }
      assert Level(kind, u[..|u|]) >= 0;
    }
    if NoStray(kind, t) && Level(kind, t) + Weight(kind, c) >= 0 {
      forall j | 0 <= j <= |u| ensures Level(kind, u[..j]) >= 0 {
      }
    }
  }

  lemma StillStray(kind: Kind, s: string, c: char)
    ensures Strays(kind, s + [c]) == Strays(kind, s) + if Stray(kind, s + [c], |s|) then {|s|} else {}
  {
    assert forall k: nat :: k < |s| ==> (s + [c])[..k] == s[..k];
    forall k: nat | k < |s| ensures Stray(kind, s + [c], k) <==> Stray(kind, s, k) {
    }
  }

  lemma StrayIffAllMatched(kind: Kind, s: string, c: char)
    requires Weight(kind, c) == -1
    ensures Stray(kind, s + [c], |s|) <==> AllMatched(kind, s)
  {
    assert (s + [c])[..|s|] == s;
    if AllMatched(kind, s) {
      forall j: nat | j <= |s| ensures Level(kind, s[j..]) <= 0 {
        MatchedSuffix(kind, s, j);
      }
    } else {
      var k: nat :| k < |s| && Unmatched(kind, s, k);
      LevelSteps(kind, s, k);
      var t := s[k + 1..];
      assert t[..|t|] == t;
      assert Level(kind, s[k..]) > 0;
    }
  }

  lemma OpenerAfter(kind: Kind, s: string, c: char, k: nat)
    ensures k in Openers(kind, s + [c])
       <==> if k == |s| then Weight(kind, c) == 1
            else k in Openers(kind, s) && Level(kind, s[k + 1..]) + Weight(kind, c) >= 0
    ensures k in Openers(kind, s) ==> k < |s| && Level(kind, s[k + 1..]) >= 0
  {
    if k == |s| {
      assert (s + [c])[|s| + 1..] == "";
    } else if k < |s| {
      StillUnmatched(kind, s, c, k);
      var t := s[k + 1..];
      assert t[..|t|] == t;
    }
  }

  lemma NoOpeners(kind: Kind, s: string)
    ensures AllMatched(kind, s) <==> Openers(kind, s) == {}
  {
    hide Unmatched;
    if !AllMatched(kind, s) {
      var k: nat :| k < |s| && Unmatched(kind, s, k);
      assert k in Openers(kind, s);
    }
    if AllMatched(kind, s) {
      assert forall k :: k !in Openers(kind, s);
    }
  }

  /** A closer takes the innermost waiting opener. */
  lemma CloserTakesTheInnermost(kind: Kind, s: string, c: char, last: nat)
    requires Weight(kind, c) == -1 && Innermost(kind, s, last)
    ensures last in Openers(kind, s) && Openers(kind, s + [c]) == Openers(kind, s) - {last}
  {
    LastIsClosed(kind, s, last);
    assert forall k :: k in Openers(kind, s) && k != last ==> k < last && Level(kind, s[k + 1..]) > 0;
    assert last in Openers(kind, s);
    hide *;
    forall k: nat ensures k in Openers(kind, s + [c]) <==> k in Openers(kind, s) && k != last {
      OpenerAfter(kind, s, c, k);
    }
  }

  lemma NoCloserTakesNone(kind: Kind, s: string, c: char)
    requires Weight(kind, c) == -1 ==> AllMatched(kind, s)
    ensures Openers(kind, s + [c]) == Openers(kind, s) + if Weight(kind, c) == 1 then {|s|} else {}
  {
    NoOpeners(kind, s);
    hide *;
    forall k: nat
      ensures k in Openers(kind, s + [c]) <==> k in Openers(kind, s) || (k == |s| && Weight(kind, c) == 1)
    {
      OpenerAfter(kind, s, c, k);
    }
  }

  lemma {:induction false} OpenersStep(kind: Kind, s: string, c: char)
    ensures |Openers(kind, s + [c])| == |Openers(kind, s)|
         + if Weight(kind, c) == 1 then 1 else if Weight(kind, c) == -1 && !AllMatched(kind, s) then -1 else 0
  {
    hide *;
    if Weight(kind, c) == -1 && !AllMatched(kind, s) {
      var last := LastOpener(kind, s, |s|);
      CloserTakesTheInnermost(kind, s, c, last);
    } else {
      NoCloserTakesNone(kind, s, c);
      OpenerAfter(kind, s, c, |s|);
    }
  }

  /** Of the waiting openers, only behind the innermost the levels are even. */
  lemma {:induction false} LastIsClosed(kind: Kind, s: string, last: nat)
    requires Innermost(kind, s, last)
    ensures Level(kind, s[last + 1..]) == 0
    ensures forall k: nat :: k < last && Unmatched(kind, s, k) ==> Level(kind, s[k + 1..]) > 0
  {
    BalancedBehind(kind, s, last);
    forall k: nat | k < last && Unmatched(kind, s, k) ensures Level(kind, s[k + 1..]) > 0 {
      LevelSplits(kind, s, k + 1, last);
      LevelSteps(kind, s, last);
      var t := s[k + 1..];
      assert t[..last - k - 1] == s[k + 1..last];
    }
  }

  /** The level of any text: openers that wait minus closers that close nothing. */
  lemma {:induction false} LevelCountsUnmatched(kind: Kind, s: string)
    ensures Level(kind, s) == |Openers(kind, s)| - |Strays(kind, s)|
    decreases |s|
  {
    if s != "" {
      var n := |s| - 1;
      var init, c := s[..n], s[n];
      assert s == init + [c] && s[..n + 1] == s;
      LevelCountsUnmatched(kind, init);
      LevelSteps(kind, s, n);
      OpenersStep(kind, init, c);
      StillStray(kind, init, c);
      if Weight(kind, c) == -1 {
        StrayIffAllMatched(kind, init, c);
      }
      assert n !in Strays(kind, init);
    }
  }

  /** Any comma, outside or inside, counts exactly if for each kind as many closers are stray as openers wait. */
  lemma {:induction false} CommaCountsIff(s: string)
    ensures AtLevelZero(s) <==> forall kind :: |Openers(kind, s)| == |Strays(kind, s)|
  {
    hide Level, Openers, Strays;
    forall kind ensures Level(kind, s) == |Openers(kind, s)| - |Strays(kind, s)| {
      LevelCountsUnmatched(kind, s);
    }
    if forall kind :: |Openers(kind, s)| == |Strays(kind, s)| {
      assert |Openers(Paren, s)| == |Strays(Paren, s)|;
      assert |Openers(Bracket, s)| == |Strays(Bracket, s)|;
      assert |Openers(Brace, s)| == |Strays(Brace, s)|;
    } else {
      var kind: Kind :| |Openers(kind, s)| != |Strays(kind, s)|;
      assert kind == Paren || kind == Bracket || kind == Brace;
    }
  }

  /** The counters go below zero: behind a stray bracket a comma outside every pair is missed. */
  lemma StrayBracketHidesAComma()
    ensures OuterCommas("],") == 1 && LevelCommas("],") == 0
  {
    assert "],"[..1] == "]" && "]"[..0] == "" && "]"[1..] == "";
    assert Level(Bracket, "]") == -1;
  }

  /** And a stray bracket before an open one lets a comma inside of it count. */
  lemma StrayBracketCountsAnInnerComma()
    ensures OuterCommas("][,") == 0 && LevelCommas("][,") == 1
  {
    var s := "][";
    assert "][,"[..2] == s && s[..1] == "]" && "]"[..0] == "" && s[2..] == "";
    LevelsOfStrays();
    hide Level;
    assert Weight(Bracket, s[1]) == 1 && NoStray(Bracket, s[2..]);
    assert Unmatched(Bracket, s, 1);
  }

  lemma LevelsOfStrays()
    ensures forall kind :: Level(kind, "") == 0
    ensures Level(Bracket, "][") == 0 && Level(Paren, "][") == 0 && Level(Brace, "][") == 0
  {
    assert "]["[1..] == "[" && "["[1..] == "";
  }

  // ---------------------------------------------------------------------------------------
  // The name
  // ---------------------------------------------------------------------------------------

  predicate IsIdent(c: char) {
    c == '_' || '0' <= c <= '9' || 'A' <= c <= 'Z' || 'a' <= c <= 'z'
  }

  /** The end of the last word of a text, and where that word begins. */
  function WordEnd(s: string): (end: nat)
    ensures end <= |s| && (end > 0 ==> IsIdent(s[end - 1]))
    ensures forall i :: end <= i < |s| ==> !IsIdent(s[i])
    decreases |s|
  {
    if s == "" || IsIdent(s[|s| - 1]) then |s| else WordEnd(s[..|s| - 1])
  }

  function WordStart(s: string, end: nat): (start: nat)
    requires end <= |s|
    ensures start <= end && (start > 0 ==> !IsIdent(s[start - 1]))
    ensures forall i :: start <= i < end ==> IsIdent(s[i])
    decreases end
  {
    if end == 0 || !IsIdent(s[end - 1]) then end else WordStart(s, end - 1)
  }

  method LastWord(s: string) returns (start: nat, end: nat)
    ensures end == WordEnd(s) && start == WordStart(s, end)
  {
    hide WordEnd;
    end := |s|;
    while end > 0 && !IsIdent(s[end - 1])
      invariant end <= |s|
      invariant forall i :: end <= i < |s| ==> !IsIdent(s[i])
    {
      end := end - 1;
    }
    assert end == WordEnd(s);
    start := end;
    while start > 0 && IsIdent(s[start - 1])
      invariant start <= end && WordStart(s, start) == WordStart(s, end)
    {
      start := start - 1;
    }
  }

  /** The word before a dot, if `s` ends in the dot. */
  function QualifierOf(s: string): Option<string> {
    if |s| < 2 || s[|s| - 1] != '.' then None
    else
      var t := s[..|s| - 1];
      var end := WordEnd(t);
      var start := WordStart(t, end);
      if start < end then Some(t[start..end]) else None
  }

  /** The context for the text before the parenthesis and the commas behind it. */
  function NamedContext(beforeParen: string, commas: nat): Option<Context> {
    var s := TrimEnd(beforeParen);
    var end := WordEnd(s);
    if end == 0 then None
    else
      var start := WordStart(s, end);
      Some(Context(s[start..end], QualifierOf(s[..start]), commas, commas + 1))
  }

  method ParseName(beforeParen: string, commas: nat) returns (context: Option<Context>)
    ensures context == NamedContext(beforeParen, commas)
  {
    hide WordEnd, WordStart, TrimEnd, QualifierOf;
    var s := TrimEnd(beforeParen);
    if s == "" {
      return None;
    }
    var start, end := LastWord(s);
    if end == 0 {
      return None;
    }
    var qualifier := ParseQualifier(s[..start]);
    return Some(Context(s[start..end], qualifier, commas, commas + 1));
  }

  method ParseQualifier(beforeName: string) returns (qualifier: Option<string>)
    ensures qualifier == QualifierOf(beforeName)
  {
    hide WordEnd, WordStart;
    qualifier := None;
    var start := |beforeName|;
    if start >= 2 {
      if beforeName[start - 1] == '.' {
        var beforeDot := beforeName[..start - 1];
        var qStart, qEnd := LastWord(beforeDot);
        if qStart < qEnd {
          qualifier := Some(beforeDot[qStart..qEnd]);
        }
      }
    }
  }

  predicate IsWord(s: string) {
    s != "" && forall i :: 0 <= i < |s| ==> IsIdent(s[i])
  }

  predicate EndsInWord(s: string) {
    s != "" && IsIdent(s[|s| - 1])
  }

  lemma {:induction false} WordIsLast(lead: string, word: string)
    requires !EndsInWord(lead) && IsWord(word)
    ensures var s := lead + word;
            && WordEnd(s) == |s| && WordStart(s, |s|) == |lead| && s[|lead|..] == word && s[..|lead|] == lead
  {
    hide WordStart;
    var s := lead + word;
    assert IsIdent(s[|s| - 1]) by {
      assert s[|s| - 1] == word[|word| - 1];
    }
    var start := WordStart(s, |s|);
    assert forall i :: |lead| <= i < |s| ==> IsIdent(s[i]) by {
      assert forall i :: |lead| <= i < |s| ==> s[i] == word[i - |lead|];
    }
    assert |lead| > 0 ==> !IsIdent(s[|lead| - 1]);
  }

  lemma WordIsTrimmed(lead: string, word: string, blank: string)
    requires IsWord(word) && Blank(blank)
    ensures TrimEnd(lead + word + blank) == lead + word
  {
    var s := lead + word;
    assert s[|s| - 1] == word[|word| - 1];
    TrimEndSkips(s, blank);
  }

  lemma {:induction false} NameIsLastWord(lead: string, name: string, blank: string, commas: nat)
    requires !EndsInWord(lead) && IsWord(name) && Blank(blank)
    ensures NamedContext(lead + name + blank, commas) == Some(Context(name, QualifierOf(lead), commas, commas + 1))
  {
    hide WordEnd, WordStart, TrimEnd, QualifierOf;
    WordIsTrimmed(lead, name, blank);
    WordIsLast(lead, name);
    var s := lead + name;
    assert s[|lead|..|s|] == name && s[..|lead|] == lead;
  }

  lemma {:induction false} QualifierIsRead(lead: string, qualifier: string)
    requires !EndsInWord(lead) && IsWord(qualifier)
    ensures QualifierOf(lead + qualifier + ".") == Some(qualifier)
  {
    hide WordEnd, WordStart;
    var s := lead + qualifier + ".";
    assert s[|s| - 1] == '.' && s[..|s| - 1] == lead + qualifier;
    WordIsLast(lead, qualifier);
    assert (lead + qualifier)[|lead|..|lead + qualifier|] == qualifier;
  }

  /** Written as a call, with or without a qualifier, the name is read. */
  lemma {:induction false} NameIsRead(lead: string, name: string, blank: string, commas: nat)
    requires !EndsInWord(lead) && IsWord(name) && Blank(blank)
    requires lead == "" || lead[|lead| - 1] != '.'
    ensures NamedContext(lead + name + blank, commas) == Some(Context(name, None, commas, commas + 1))
  {
    hide NamedContext;
    NameIsLastWord(lead, name, blank, commas);
  }

  lemma {:induction false} QualifiedNameIsRead(lead: string, qualifier: string, name: string, blank: string, commas: nat)
    requires !EndsInWord(lead) && IsWord(qualifier) && IsWord(name) && Blank(blank)
    ensures NamedContext(lead + qualifier + "." + name + blank, commas)
         == Some(Context(name, Some(qualifier), commas, commas + 1))
  {
    hide NamedContext, QualifierOf;
    QualifierIsRead(lead, qualifier);
    NameIsLastWord(lead + qualifier + ".", name, blank, commas);
  }

  // ---------------------------------------------------------------------------------------
  // The whole function
  // ---------------------------------------------------------------------------------------

  ghost function ContextAt(s: string, k: nat): Option<Context>
    requires k < |s|
  {
    NamedContext(s[..k], LevelCommas(s[k + 1..]))
  }

  method ParseCallContext(line: string, col: nat) returns (context: Option<Context>)
    ensures col == 0 || col > |line| ==> context == None
    ensures 0 < col <= |line| && AllMatched(Paren, line[..col]) ==> context == None
    ensures 0 < col <= |line| ==>
              forall k :: Innermost(Paren, line[..col], k) ==> context == ContextAt(line[..col], k)
  {
    if col == 0 || col > |line| {
      return None;
    }
    var beforeCursor := line[..col];
    hide LevelCommas, NamedContext, Unmatched;
    var pos := FindOpenParen(beforeCursor);
    if pos == None {
      return None;
    }
    var commas := CountCommas(beforeCursor[pos.value + 1..]);
    context := ParseName(beforeCursor[..pos.value], commas);
    forall k | Innermost(Paren, beforeCursor, k)
      ensures k == pos.value
    {
      assert !(k < pos.value) && !(pos.value < k);
    }
  }

  /** Arguments, each with the comma behind it. */
  function WithCommas(args: seq<string>): string
    decreases |args|
  {
    if args == [] then "" else WithCommas(args[..|args| - 1]) + args[|args| - 1] + ","
  }

  ghost predicate PairsUp(s: string) {
    Balanced(Paren, s) && Balanced(Bracket, s) && Balanced(Brace, s)
  }

  /** A written-out argument: everything in it pairs up, and its own commas are inside of pairs. */
  ghost predicate IsArgument(a: string) {
    PairsUp(a) && OuterCommas(a) == 0
  }

  /** The part of an argument that is already written: brackets and braces may still be open. */
  ghost predicate IsPartOfArgument(a: string) {
    Balanced(Paren, a) && Clean(a) && OuterCommas(a) == 0
  }

  lemma NoStrayAdds(kind: Kind, a: string, b: string)
    requires Balanced(kind, a) && NoStray(kind, b)
    ensures NoStray(kind, a + b) && Level(kind, a + b) == Level(kind, b)
  {
    hide Level;
    var s := a + b;
    LevelAdds(kind, a, b);
    forall j | 0 <= j <= |s|
      ensures Level(kind, s[..j]) >= 0
    {
      if j <= |a| {
        assert s[..j] == a[..j];
      } else {
        assert s[..j] == a + b[..j - |a|];
        LevelAdds(kind, a, b[..j - |a|]);
      }
    }
  }

  lemma {:induction false} LevelCommasAdd(a: string, b: string)
    requires AtLevelZero(a)
    ensures LevelCommas(a + b) == LevelCommas(a) + LevelCommas(b)
    decreases |b|
  {
    hide Level;
    if b == "" {
      assert a + b == a;
    } else {
      var init := b[..|b| - 1];
      assert (a + b)[..|a + b| - 1] == a + init;
      LevelCommasAdd(a, init);
      LevelAdds(Paren, a, init);
      LevelAdds(Bracket, a, init);
      LevelAdds(Brace, a, init);
    }
  }

  lemma {:induction false} PairsUpThenClean(a: string, b: string)
    requires PairsUp(a) && Clean(b)
    ensures Clean(a + b) && (Balanced(Paren, b) ==> Balanced(Paren, a + b)) && (PairsUp(b) ==> PairsUp(a + b))
    ensures LevelCommas(a + b) == LevelCommas(a) + LevelCommas(b)
  {
    NoStrayAdds(Paren, a, b);
    NoStrayAdds(Bracket, a, b);
    NoStrayAdds(Brace, a, b);
    LevelCommasAdd(a, b);
  }

  lemma CommaPairsUp()
    ensures PairsUp(",") && LevelCommas(",") == 1
  {
    assert ","[..0] == "" && ","[..1] == ",";
    assert Level(Paren, ",") == 0 && Level(Bracket, ",") == 0 && Level(Brace, ",") == 0;
  }

  /** The commas of the arguments that stand outside every pair. */
  ghost function OuterSum(args: seq<string>): nat
    decreases |args|
  {
    if args == [] then 0 else OuterSum(args[..|args| - 1]) + OuterCommas(args[|args| - 1])
  }

  lemma {:induction false} OuterSumIsZeroIff(args: seq<string>)
    ensures OuterSum(args) == 0 <==> forall i :: 0 <= i < |args| ==> OuterCommas(args[i]) == 0
    decreases |args|
  {
    hide OuterCommas;
    if args != [] {
      OuterSumIsZeroIff(args[..|args| - 1]);
    }
  }

  lemma {:induction false} ArgumentsCount(args: seq<string>)
    requires forall i :: 0 <= i < |args| ==> PairsUp(args[i])
    ensures PairsUp(WithCommas(args)) && LevelCommas(WithCommas(args)) == |args| + OuterSum(args)
    decreases |args|
  {
    hide Balanced, NoStray, LevelCommas, OuterCommas;
    if args == [] {
      NothingPairsUp();
    } else {
      var front, a := WithCommas(args[..|args| - 1]), args[|args| - 1];
      ArgumentsCount(args[..|args| - 1]);
      BalancedIsClean(a);
      CountersSeeOuterCommas(a);
      PairsUpThenClean(front, a);
      CommaPairsUp();
      BalancedIsClean(",");
      PairsUpThenClean(front + a, ",");
    }
  }

  lemma NothingPairsUp()
    ensures PairsUp("") && LevelCommas("") == 0
  {
  }

  lemma BalancedIsClean(s: string)
    requires PairsUp(s)
    ensures Clean(s)
  {
  }

  /** A parenthesis is taken for the call's exactly if those behind it pair up, in string literals or not. */
  lemma CallIsTakenIff(before: string, t: string)
    ensures Innermost(Paren, before + "(" + t, |before|) <==> Balanced(Paren, t)
  {
    var s := before + "(" + t;
    assert s[|before| + 1..] == t;
    if Innermost(Paren, s, |before|) {
      BalancedBehind(Paren, s, |before|);
    }
    if Balanced(Paren, t) {
      OpenBefore(before, t);
    }
  }

  /** The commas of `a` that the counters count when they come to it from `before`. */
  ghost function CountedIn(before: string, a: string): nat
    decreases |a|
  {
    if a == "" then 0
    else
      var init := a[..|a| - 1];
      CountedIn(before, init) + if a[|a| - 1] == ',' && AtLevelZero(before + init) then 1 else 0
  }

  /** The commas counted inside of the arguments. */
  ghost function Counted(args: seq<string>): nat
    decreases |args|
  {
    if args == [] then 0
    else
      var front := args[..|args| - 1];
      Counted(front) + CountedIn(WithCommas(front), args[|args| - 1])
  }

  /** The commas behind the arguments that are not counted. */
  ghost function Missed(args: seq<string>): nat
    decreases |args|
  {
    if args == [] then 0
    else
      var front := args[..|args| - 1];
      Missed(front) + if AtLevelZero(WithCommas(front) + args[|args| - 1]) then 0 else 1
  }

  lemma {:induction false} CommasContinue(before: string, a: string)
    ensures LevelCommas(before + a) == LevelCommas(before) + CountedIn(before, a)
    decreases |a|
  {
    hide AtLevelZero;
    if a == "" {
      assert before + a == before;
    } else {
      assert (before + a)[..|before + a| - 1] == before + a[..|a| - 1];
      CommasContinue(before, a[..|a| - 1]);
    }
  }

  lemma {:induction false} CommasOfArguments(args: seq<string>)
    ensures LevelCommas(WithCommas(args)) + Missed(args) == |args| + Counted(args)
    decreases |args|
  {
    hide AtLevelZero, CountedIn;
    if args != [] {
      var front, a := WithCommas(args[..|args| - 1]), args[|args| - 1];
      CommasOfArguments(args[..|args| - 1]);
      CommasContinue(front, a);
      assert (front + a + ",")[..|front + a|] == front + a;
    }
  }

  /**
   A call with any arguments at all.  It is taken for the call around the cursor exactly if the
   parentheses behind its own pair up.  The index is that of the argument the cursor is in exactly if as
   many of the commas behind arguments are missed as commas inside of arguments are counted.
   */
  lemma {:induction false} AnyCallIsUnderstoodIff(lead: string, name: string, blank: string, args: seq<string>, last: string)
    requires !EndsInWord(lead) && IsWord(name) && Blank(blank)
    ensures var before, t := lead + name + blank, WithCommas(args) + last;
            var s, n := before + "(" + t, LevelCommas(t);
            && (Innermost(Paren, s, |before|) <==> Balanced(Paren, t))
            && ContextAt(s, |before|) == Some(Context(name, QualifierOf(lead), n, n + 1))
            && (n == |args| <==> Missed(args) == Counted(args) + CountedIn(WithCommas(args), last))
  {
    hide Balanced, LevelCommas, Missed, Counted, CountedIn, NamedContext, QualifierOf, WithCommas, Innermost;
    var before, t := lead + name + blank, WithCommas(args) + last;
    CallIsTakenIff(before, t);
    CommasOfArguments(args);
    CommasContinue(WithCommas(args), last);
    var s := before + "(" + t;
    assert s[..|before|] == before && s[|before| + 1..] == t;
    NameIsLastWord(lead, name, blank, LevelCommas(t));
  }

  /**
   A call whose arguments pair up, and whose last one has nothing stray: the index is off by the commas of
   the arguments that stand outside every pair, so it is right exactly if there are none.
   */
  lemma {:induction false} CallIsUnderstoodIff(lead: string, name: string, blank: string, args: seq<string>, last: string)
    requires !EndsInWord(lead) && IsWord(name) && Blank(blank)
    requires (forall i :: 0 <= i < |args| ==> PairsUp(args[i])) && Balanced(Paren, last) && Clean(last)
    ensures var before := lead + name + blank;
            var s, n := before + "(" + (WithCommas(args) + last), |args| + OuterSum(args) + OuterCommas(last);
            && Innermost(Paren, s, |before|)
            && ContextAt(s, |before|) == Some(Context(name, QualifierOf(lead), n, n + 1))
            && (n == |args| <==> OuterCommas(last) == 0 && forall i :: 0 <= i < |args| ==> OuterCommas(args[i]) == 0)
  {
    hide *;
    CommasOfCall(args, last);
    OuterSumIsZeroIff(args);
    AnyCallIsUnderstoodIff(lead, name, blank, args, last);
  }

  lemma CommasOfCall(args: seq<string>, last: string)
    requires (forall i :: 0 <= i < |args| ==> PairsUp(args[i])) && Balanced(Paren, last) && Clean(last)
    ensures var t := WithCommas(args) + last;
            Balanced(Paren, t) && LevelCommas(t) == |args| + OuterSum(args) + OuterCommas(last)
  {
    hide *;
    ArgumentsCount(args);
    CountersSeeOuterCommas(last);
    PairsUpThenClean(WithCommas(args), last);
  }

  /**
   With the cursor in a call, behind `args` finished arguments and in the next, the scanner finds the
   call, its name and qualifier, and the index of the argument the cursor is in.
   */
  lemma {:induction false} CallIsUnderstood(lead: string, name: string, blank: string, args: seq<string>, last: string)
    requires !EndsInWord(lead) && IsWord(name) && Blank(blank)
    requires (forall i :: 0 <= i < |args| ==> IsArgument(args[i])) && IsPartOfArgument(last)
    ensures var before := lead + name + blank;
            var s := before + "(" + (WithCommas(args) + last);
            Innermost(Paren, s, |before|)
            && ContextAt(s, |before|) == Some(Context(name, QualifierOf(lead), |args|, |args| + 1))
  {
    hide Balanced, NoStray, LevelCommas, OuterCommas, NamedContext, QualifierOf, Innermost, ContextAt;
    CallIsUnderstoodIff(lead, name, blank, args, last);
  }

  /** Quotes mean nothing to the scanner: a comma in a string literal counts, and a parenthesis in one is taken for the call's. */
  lemma QuotesAreNotSeen()
    ensures LevelCommas("\",\"") == 1
    ensures Innermost(Paren, "f(\"(\"", 3)
  {
    var comma := "\",\"";
    assert comma[..2] == "\"," && "\","[..1] == "\"" && "\""[..0] == "" && "\""[1..] == "";
    assert Level(Paren, "\"") == 0 && Level(Bracket, "\"") == 0 && Level(Brace, "\"") == 0;
    assert "\""[..1] == "\"";
    assert Balanced(Paren, "\"");
    OpenBefore("f(\"", "\"");
    assert "f(\"" + "(" + "\"" == "f(\"(\"";
  }

  /** The characters that pair up, and those of a name. */
  lemma PairsAre(c: char)
    ensures Weight(Paren, c) == (if c as int == 40 then 1 else if c as int == 41 then -1 else 0)
    ensures Weight(Bracket, c) == (if c as int == 91 then 1 else if c as int == 93 then -1 else 0)
    ensures Weight(Brace, c) == (if c as int == 123 then 1 else if c as int == 125 then -1 else 0)
    ensures IsIdent(c) <==> c as int == 95 || 48 <= c as int <= 57 || 65 <= c as int <= 90 || 97 <= c as int <= 122
  {
  }

  /** No word before the parenthesis, no context; none before the dot, no qualifier. */
  lemma NoNameNoContext(s: string, commas: nat)
    requires forall i :: 0 <= i < |s| ==> !IsIdent(s[i])
    ensures NamedContext(s, commas) == None && QualifierOf(s + ".") == None
  {
    hide WordEnd, TrimEnd, WordStart;
    assert (s + ".")[..|s|] == s;
    var t := TrimEnd(s);
    assert forall i :: 0 <= i < |t| ==> t[i] == s[i];
  }
}
