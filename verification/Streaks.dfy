/** The streak statistics of a player's bets. */
module Streaks {
  datatype Outcome = Win | Loss | Unresolved

  /** The bets that count, in order. */
  function Resolved(bets: seq<Outcome>): seq<Outcome> {
    if bets == [] then []
    else
      var last := bets[|bets| - 1];
      Resolved(bets[..|bets| - 1]) + (if last.Unresolved? then [] else [last])
  }

  predicate IsRun(s: seq<Outcome>, i: int, j: int, o: Outcome) {
    0 <= i <= j <= |s| && forall k :: i <= k < j ==> s[k] == o
  }

  /** `n` is the length of the longest run of `o`. */
  ghost predicate IsLongest(s: seq<Outcome>, o: Outcome, n: int) {
    && (exists i, j :: IsRun(s, i, j, o) && j - i == n)
    && (forall i, j :: IsRun(s, i, j, o) ==> j - i <= n)
  }

  /** `n` is the signed length of the last run: positive for wins, negative for losses. */
  predicate IsCurrent(s: seq<Outcome>, n: int) {
    var k := if n < 0 then -n else n;
    var o := if n < 0 then Loss else Win;
    if s == [] then n == 0
    else n != 0 && IsRun(s, |s| - k, |s|, o) && (k < |s| ==> s[|s| - k - 1] != o)
  }

  /** The number of `o` at the end. */
  function Trailing(s: seq<Outcome>, o: Outcome): (n: nat)
    ensures n <= |s|
    ensures IsRun(s, |s| - n, |s|, o)
    ensures n < |s| ==> s[|s| - n - 1] != o
  {
    if s == [] || s[|s| - 1] != o then 0 else Trailing(s[..|s| - 1], o) + 1
  }

  function Max(a: nat, b: nat): nat {
    if a < b then b else a
  }

  function Longest(s: seq<Outcome>, o: Outcome): (n: nat)
    ensures Trailing(s, o) <= n
  {
    if s == [] then 0 else Max(Longest(s[..|s| - 1], o), Trailing(s, o))
  }

  lemma {:induction false} TrailingMost(s: seq<Outcome>, o: Outcome, i: nat)
    requires IsRun(s, i, |s|, o)
    ensures |s| - i <= Trailing(s, o)
  {
    if i < |s| {
      TrailingMost(s[..|s| - 1], o, i);
    }
  }

  lemma {:induction false} LongestBounds(s: seq<Outcome>, o: Outcome, i: int, j: int)
    requires IsRun(s, i, j, o)
    ensures j - i <= Longest(s, o)
    decreases |s|
  {
    if s != [] {
      if j < |s| {
        LongestBounds(s[..|s| - 1], o, i, j);
      } else {
        TrailingMost(s, o, i);
      }
    }
  }

  lemma {:induction false} LongestReached(s: seq<Outcome>, o: Outcome) returns (i: int, j: int)
    ensures IsRun(s, i, j, o) && j - i == Longest(s, o)
    decreases |s|
  {
    if s == [] {
      i, j := 0, 0;
    } else if Longest(s, o) == Trailing(s, o) {
      i, j := |s| - Trailing(s, o), |s|;
    } else {
      var init := s[..|s| - 1];
      i, j := LongestReached(init, o);
      assert forall k :: i <= k < j ==> s[k] == init[k];
    }
  }

  lemma LongestMeaning(s: seq<Outcome>, o: Outcome)
    ensures IsLongest(s, o, Longest(s, o))
  {
    var i, j := LongestReached(s, o);
    forall i, j | IsRun(s, i, j, o)
      ensures j - i <= Longest(s, o)
    {
      LongestBounds(s, o, i, j);
    }
  }

  /** At most one length fits each description. */
  lemma StreaksUnique(s: seq<Outcome>, o: Outcome, m: int, n: int)
    ensures IsLongest(s, o, m) && IsLongest(s, o, n) ==> m == n
    ensures IsCurrent(s, m) && IsCurrent(s, n) ==> m == n
  {
    if IsCurrent(s, m) && IsCurrent(s, n) && s != [] {
      assert s[|s| - 1] == (if m < 0 then Loss else Win);
      assert s[|s| - 1] == (if n < 0 then Loss else Win);
    }
  }

  /** The current streak is one of the runs. */
  lemma CurrentWithinLongest(s: seq<Outcome>, n: int, wins: int, losses: int)
    requires IsCurrent(s, n) && IsLongest(s, Win, wins) && IsLongest(s, Loss, losses)
    ensures n <= wins && -n <= losses
  {
    if s != [] {
      var k := if n < 0 then -n else n;
      assert IsRun(s, |s| - k, |s|, if n < 0 then Loss else Win);
    }
    assert IsRun(s, 0, 0, Win) && IsRun(s, 0, 0, Loss);
  }

  lemma ResolvedStep(bets: seq<Outcome>, i: nat)
    requires i < |bets|
    ensures Resolved(bets[..i + 1]) == Resolved(bets[..i]) + (if bets[i].Unresolved? then [] else [bets[i]])
  {
    assert bets[..i + 1][..i] == bets[..i];
  }

  function Signed(streak: nat, o: Outcome): int {
    if o == Win then streak else -(streak as int)
  }

  /** The backward scan has passed the last `streak` resolved bets, all of one kind. */
  predicate BackScanned(bets: seq<Outcome>, i: nat, streak: nat, o: Outcome) {
    var s := Resolved(bets);
    && i <= |bets| && streak <= |s| && (o.Unresolved? <==> streak == 0)
    && Resolved(bets[..i]) == s[..|s| - streak]
    && IsRun(s, |s| - streak, |s|, o)
  }

  lemma PassedBet(bets: seq<Outcome>, i: nat, streak: nat, o: Outcome)
    requires i < |bets| && BackScanned(bets, i + 1, streak, o) && !bets[i].Unresolved?
    ensures
      var s := Resolved(bets);
      streak < |s| && s[|s| - streak - 1] == bets[i] && Resolved(bets[..i]) == s[..|s| - streak - 1]
  {
    var s := Resolved(bets);
    var t := s[..|s| - streak];
    ResolvedStep(bets, i);
    assert t == Resolved(bets[..i]) + [bets[i]];
    assert t[..|t| - 1] == Resolved(bets[..i]);
  }

  lemma BackSkip(bets: seq<Outcome>, i: nat, streak: nat, o: Outcome)
    requires i < |bets| && BackScanned(bets, i + 1, streak, o) && bets[i].Unresolved?
    ensures BackScanned(bets, i, streak, o)
  {
    ResolvedStep(bets, i);
  }

  lemma RunGrows(s: seq<Outcome>, streak: nat, o: Outcome)
    requires streak < |s| && IsRun(s, |s| - streak, |s|, o)
    requires streak == 0 || s[|s| - streak - 1] == o
    ensures IsRun(s, |s| - streak - 1, |s|, s[|s| - streak - 1])
  {
  }

  lemma BackGrow(bets: seq<Outcome>, i: nat, streak: nat, o: Outcome)
    requires i < |bets| && BackScanned(bets, i + 1, streak, o) && !bets[i].Unresolved?
    requires o.Unresolved? || bets[i] == o
    ensures BackScanned(bets, i, streak + 1, bets[i])
  {
    PassedBet(bets, i, streak, o);
    RunGrows(Resolved(bets), streak, o);
  }

  lemma RunEnds(s: seq<Outcome>, streak: nat, o: Outcome)
    requires 0 < streak < |s| && IsRun(s, |s| - streak, |s|, o) && !o.Unresolved?
    requires s[|s| - streak - 1] != o
    ensures IsCurrent(s, Signed(streak, o))
  {
  }

  lemma BackStop(bets: seq<Outcome>, i: nat, streak: nat, o: Outcome)
    requires i < |bets| && BackScanned(bets, i + 1, streak, o) && !bets[i].Unresolved?
    requires !o.Unresolved? && bets[i] != o
    ensures IsCurrent(Resolved(bets), Signed(streak, o))
  {
    var s := Resolved(bets);
    assert streak < |s| && s[|s| - streak - 1] == bets[i] by {
      PassedBet(bets, i, streak, o);
    }
    RunEnds(s, streak, o);
  }

  lemma BackDone(bets: seq<Outcome>, streak: nat, o: Outcome)
    requires BackScanned(bets, 0, streak, o)
    ensures IsCurrent(Resolved(bets), Signed(streak, o))
  {
    assert Resolved(bets[..0]) == [];
  }

  /** What the scan still has to return after the bets from i on. */
  function BackScan(bets: seq<Outcome>, i: nat, streak: nat, o: Outcome): int
    requires i <= |bets|
  {
    if i == 0 then Signed(streak, o)
    else
      var b := bets[i - 1];
      if b.Unresolved? then BackScan(bets, i - 1, streak, o)
      else if o.Unresolved? then BackScan(bets, i - 1, 1, b)
      else if b == o then BackScan(bets, i - 1, streak + 1, o)
      else Signed(streak, o)
  }

  lemma {:induction false} BackScanMeaning(bets: seq<Outcome>, i: nat, streak: nat, o: Outcome)
    requires i <= |bets| && BackScanned(bets, i, streak, o)
    ensures IsCurrent(Resolved(bets), BackScan(bets, i, streak, o))
    decreases i
  {
    if i == 0 {
      BackDone(bets, streak, o);
    } else if bets[i - 1].Unresolved? {
      BackSkip(bets, i - 1, streak, o);
      BackScanMeaning(bets, i - 1, streak, o);
    } else if o.Unresolved? || bets[i - 1] == o {
      BackGrow(bets, i - 1, streak, o);
      BackScanMeaning(bets, i - 1, streak + 1, bets[i - 1]);
    } else {
      BackStop(bets, i - 1, streak, o);
    }
  }

  lemma ScanIsCurrent(bets: seq<Outcome>)
    ensures IsCurrent(Resolved(bets), BackScan(bets, |bets|, 0, Unresolved))
  {
    assert bets[..|bets|] == bets;
    BackScanMeaning(bets, |bets|, 0, Unresolved);
  }

  /** The backward scan stops at the first resolved bet of the other kind. */
  method CurrentStreak(bets: seq<Outcome>) returns (current: int)
    ensures IsCurrent(Resolved(bets), current)
  {
    ScanIsCurrent(bets);
    var streak: nat := 0;
    var streakType := Unresolved;
    var i: nat := |bets|;
    ghost var answer := BackScan(bets, i, streak, streakType);
    while i > 0
      invariant i <= |bets| && BackScan(bets, i, streak, streakType) == answer
    {
      var b := bets[i - 1];
      if !b.Unresolved? {
        if streakType.Unresolved? {
          streakType, streak := b, 1;
        } else if b == streakType {
          streak := streak + 1;
        } else {
          break;
        }
      }
      i := i - 1;
    }
    current := Signed(streak, streakType);
  }

  /** One more resolved bet. */
  lemma Extended(s: seq<Outcome>, b: Outcome, o: Outcome)
    ensures Trailing(s + [b], o) == if b == o then Trailing(s, o) + 1 else 0
    ensures Longest(s + [b], o) == if b == o then Max(Longest(s, o), Trailing(s, o) + 1) else Longest(s, o)
  {
    assert (s + [b])[..|s + [b]| - 1] == s;
  }

  /** The scan's variables describe the resolved bets seen so far. */
  ghost predicate Scanned(s: seq<Outcome>, ws: nat, ls: nat, cur: nat, curType: Outcome) {
    && Trailing(s, Win) == (if curType == Win then cur else 0)
    && Trailing(s, Loss) == (if curType == Loss then cur else 0)
    && Longest(s, Win) == Max(ws, Trailing(s, Win))
    && Longest(s, Loss) == Max(ls, Trailing(s, Loss))
  }

  lemma ScannedMore(s: seq<Outcome>, b: Outcome, ws: nat, ls: nat, cur: nat, curType: Outcome)
    requires Scanned(s, ws, ls, cur, curType) && !b.Unresolved?
    ensures Scanned(
              s + [b],
              if curType == Win && b != Win then Max(ws, cur) else ws,
              if curType == Loss && b != Loss then Max(ls, cur) else ls,
              if curType == b then cur + 1 else 1, b)
  {
    Extended(s, b, Win);
    Extended(s, b, Loss);
  }

  lemma ScannedAll(s: seq<Outcome>, ws: nat, ls: nat, cur: nat, curType: Outcome)
    requires Scanned(s, ws, ls, cur, curType)
    ensures IsLongest(s, Win, if curType == Win then Max(ws, cur) else ws)
    ensures IsLongest(s, Loss, if curType == Loss then Max(ls, cur) else ls)
  {
    LongestMeaning(s, Win);
    LongestMeaning(s, Loss);
  }

  /** The one-pass scan for the longest run of each kind. */
  method LongestStreaks(bets: seq<Outcome>) returns (ws: nat, ls: nat)
    ensures IsLongest(Resolved(bets), Win, ws)
    ensures IsLongest(Resolved(bets), Loss, ls)
  {
    ws, ls := 0, 0;
    var cur: nat, curType := 0, Unresolved;
    for i := 0 to |bets|
      invariant Scanned(Resolved(bets[..i]), ws, ls, cur, curType)
    {
      var b := bets[i];
      ResolvedStep(bets, i);
      if b.Unresolved? {
        assert Resolved(bets[..i + 1]) == Resolved(bets[..i]);
      } else {
        ScannedMore(Resolved(bets[..i]), b, ws, ls, cur, curType);
        if curType == b {
          cur := cur + 1;
        } else {
          if curType == Win {
            ws := Max(ws, cur);
          } else if curType == Loss {
            ls := Max(ls, cur);
          }
          curType, cur := b, 1;
        }
      }
    }
    assert bets[..|bets|] == bets;
    ScannedAll(Resolved(bets), ws, ls, cur, curType);
    if curType == Win {
      ws := Max(ws, cur);
    } else if curType == Loss {
      ls := Max(ls, cur);
    }
  }

  // ----- What the statistics report -----

  /** The streak fields of the answer. */
  datatype StreakStats = StreakStats(current: int, longestWin: int, longestLoss: int)

  lemma {:induction false} ResolvedMembers(bets: seq<Outcome>, o: Outcome)
    requires !o.Unresolved?
    ensures o in Resolved(bets) <==> o in bets
  {
    if bets != [] {
      ResolvedMembers(bets[..|bets| - 1], o);
      assert bets == bets[..|bets| - 1] + [bets[|bets| - 1]];
    }
  }

  lemma {:induction false} ResolvedNoneIff(bets: seq<Outcome>)
    ensures Resolved(bets) == [] <==> forall o :: o in bets ==> o.Unresolved?
  {
    if bets != [] {
      ResolvedNoneIff(bets[..|bets| - 1]);
      assert bets == bets[..|bets| - 1] + [bets[|bets| - 1]];
    }
  }

  lemma RunMember(s: seq<Outcome>, i: int, j: int, o: Outcome)
    requires IsRun(s, i, j, o)
    ensures i < j ==> o in s
  {
    if i < j {
      assert s[i] == o;
    }
  }

  lemma NoRunIff(s: seq<Outcome>, o: Outcome)
    ensures IsLongest(s, o, 0) <==> o !in s
  {
    assert IsRun(s, 0, 0, o);
    if o in s {
      var k :| 0 <= k < |s| && s[k] == o;
      assert IsRun(s, k, k + 1, o);
    } else {
      forall i, j | IsRun(s, i, j, o)
        ensures j - i <= 0
      {
        RunMember(s, i, j, o);
      }
    }
  }

  /** A reported longest streak of 0 is right exactly for a player without such a bet. */
  lemma ZeroIsLongestIff(bets: seq<Outcome>, o: Outcome)
    requires !o.Unresolved?
    ensures IsLongest(Resolved(bets), o, 0) <==> o !in bets
  {
    NoRunIff(Resolved(bets), o);
    ResolvedMembers(bets, o);
  }

  /** And the current streak stays within zeros exactly for a player without a resolved bet. */
  lemma CurrentWithinZeroIff(bets: seq<Outcome>, current: int)
    requires IsCurrent(Resolved(bets), current)
    ensures current <= 0 && -current <= 0 <==> forall o :: o in bets ==> o.Unresolved?
  {
    ResolvedNoneIff(bets);
  }

  /** `get_player_stats` runs both scans and leaves out what the second found: the longest
      streaks it reports are the zeros they were set to at first. */
  method PlayerStreaks(bets: seq<Outcome>) returns (stats: StreakStats)
    ensures IsCurrent(Resolved(bets), stats.current)
    ensures stats.longestWin == 0 && stats.longestLoss == 0
    ensures IsLongest(Resolved(bets), Win, stats.longestWin) <==> Win !in bets
    ensures IsLongest(Resolved(bets), Loss, stats.longestLoss) <==> Loss !in bets
    ensures stats.current <= stats.longestWin && -stats.current <= stats.longestLoss
            <==> forall o :: o in bets ==> o.Unresolved?
  {
    var longestWin, longestLoss := 0, 0;
    var current := CurrentStreak(bets);
    var ws, ls := LongestStreaks(bets);
    ZeroIsLongestIff(bets, Win);
    ZeroIsLongestIff(bets, Loss);
    CurrentWithinZeroIff(bets, current);
    stats := StreakStats(current, longestWin, longestLoss);
  }

  /** One won bet: a current streak of 1, a longest of 0 reported. */
  lemma OneWinMisreported(current: int)
    requires IsCurrent(Resolved([Win]), current)
    ensures current == 1 && IsLongest(Resolved([Win]), Win, 1) && !IsLongest(Resolved([Win]), Win, 0)
  {
    var s := [Win];
    assert s[..0] == [] && Resolved([]) == [];
    assert Resolved(s) == s;
    assert IsRun(s, 0, 1, Win);
    ZeroIsLongestIff(s, Win);
  }
}
