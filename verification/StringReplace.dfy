/** `String::replace` of `WString.cpp`, in place on a buffer that ends with a NUL. */
module StringReplace {

  const NUL: char := 0 as char
  const CAPACITY_MAX: nat := 65535

  predicate NoNul(s: string) {
    forall i :: 0 <= i < |s| ==> s[i] != NUL
  }

  predicate MatchAt(s: string, find: string, k: int) {
    0 <= k && k + |find| <= |s| && forall j :: 0 <= j < |find| ==> s[k + j] == find[j]
  }

  lemma MatchFits(s: string, find: string, k: int)
    requires MatchAt(s, find, k)
    ensures 0 <= k && k + |find| <= |s|
  {
  }

  /** The first match from `from` on, or -1. */
  function Find(s: string, find: string, from: nat): (k: int)
    requires from <= |s|
    ensures k == -1 || (from <= k && MatchAt(s, find, k))
    ensures forall i :: from <= i < (if k < 0 then |s| else k) ==> !MatchAt(s, find, i)
    decreases |s| - from
  {
    if MatchAt(s, find, from) then from else if from == |s| then -1 else Find(s, find, from + 1)
  }

  /** `s` from `from` on with each match, from the left and without overlap, replaced. */
  function ReplaceFrom(s: string, find: string, repl: string, from: nat): string
    requires find != [] && from <= |s|
    decreases |s| - from
  {
    var k := Find(s, find, from);
    if k < 0 then s[from..] else s[from..k] + repl + ReplaceFrom(s, find, repl, k + |find|)
  }

  function ReplaceAll(s: string, find: string, repl: string): string
    requires find != []
  {
    ReplaceFrom(s, find, repl, 0)
  }

  /** The first match is where nothing matches before. */
  lemma FindIs(s: string, find: string, from: nat, k: int)
    requires find != [] && from <= |s|
    requires k == -1 || (from <= k && MatchAt(s, find, k))
    requires forall i :: from <= i < (if k < 0 then |s| else k) ==> !MatchAt(s, find, i)
    ensures Find(s, find, from) == k
  {
  }

  lemma FindSuffix(s: string, t: string, find: string, from: nat)
    requires find != [] && |s| == |t| && from <= |s| && forall i :: from <= i < |s| ==> s[i] == t[i]
    ensures Find(s, find, from) == Find(t, find, from)
  {
    var k := Find(s, find, from);
    forall i | from <= i
      ensures MatchAt(s, find, i) <==> MatchAt(t, find, i)
    {
    }
    FindIs(t, find, from, k);
  }

  lemma Unfold(s: string, find: string, repl: string, from: nat)
    requires find != [] && from <= |s|
    ensures var k := Find(s, find, from);
            ReplaceFrom(s, find, repl, from) ==
            if k < 0 then s[from..] else s[from..k] + repl + ReplaceFrom(s, find, repl, k + |find|)
  {
    hide Find;
  }

  lemma ReplaceStep(s: string, find: string, repl: string, from: nat, done: string)
    requires find != [] && from <= |s| && Find(s, find, from) >= 0
    ensures var k := Find(s, find, from);
            && k + |find| <= |s|
            && done + ReplaceFrom(s, find, repl, from) ==
               (done + s[from..k] + repl) + ReplaceFrom(s, find, repl, k + |find|)
  {
    hide Find;
    hide ReplaceFrom;
    Unfold(s, find, repl, from);
    var k := Find(s, find, from);
    Regroup(done, s[from..k], repl, ReplaceFrom(s, find, repl, k + |find|));
  }

  lemma Regroup(a: string, b: string, c: string, d: string)
    ensures a + (b + c + d) == (a + b + c) + d
  {
  }

  lemma ReplaceEnd(s: string, find: string, repl: string, from: nat, done: string)
    requires find != [] && from <= |s| && Find(s, find, from) < 0
    ensures done + ReplaceFrom(s, find, repl, from) == done + s[from..]
  {
  }

  /** Replaced up to `from`, which gives `done`. */
  ghost predicate Progress(s: string, find: string, repl: string, from: nat, done: string) {
    && find != [] && from <= |s| && NoNul(s) && NoNul(repl) && NoNul(done)
    && done + ReplaceFrom(s, find, repl, from) == ReplaceAll(s, find, repl)
  }

  // ----- what replacing means

  /** The texts between the matches. */
  function Pieces(s: string, find: string, from: nat): (pieces: seq<string>)
    requires find != [] && from <= |s|
    ensures pieces != []
    decreases |s| - from
  {
    var k := Find(s, find, from);
    if k < 0 then [s[from..]] else [s[from..k]] + Pieces(s, find, k + |find|)
  }

  function Join(pieces: seq<string>, separator: string): string
    requires pieces != []
  {
    if |pieces| == 1 then pieces[0] else pieces[0] + separator + Join(pieces[1..], separator)
  }

  /** The pattern does not begin in a piece before its end, nor in the last one. */
  ghost predicate Leftmost(pieces: seq<string>, find: string) {
    forall p :: 0 <= p < |pieces| ==> NoneBefore(pieces[p], if p < |pieces| - 1 then find else "", find)
  }

  /** The pattern does not begin in `piece`, with `behind` behind it. */
  ghost predicate NoneBefore(piece: string, behind: string, find: string) {
    forall i :: 0 <= i < |piece| ==> !MatchAt(piece + behind, find, i)
  }

  /**
    A text and what replacing makes of it are the same pieces, joined by the pattern and by the replacement; the pieces
    end at the leftmost matches.
  */
  lemma {:induction false} ReplacedPieces(s: string, find: string, repl: string, from: nat)
    requires find != [] && from <= |s|
    ensures Join(Pieces(s, find, from), find) == s[from..]
    ensures Join(Pieces(s, find, from), repl) == ReplaceFrom(s, find, repl, from)
    ensures Leftmost(Pieces(s, find, from), find)
    decreases |s| - from
  {
    hide Leftmost;
    hide MatchAt;
    hide Find;
    var k := Find(s, find, from);
    if k < 0 {
      OnePiece(s, find, from);
    } else {
      MatchFits(s, find, k);
      var rest := Pieces(s, find, k + |find|);
      ReplacedPieces(s, find, repl, k + |find|);
      PieceInFront(s, find, from, rest);
      JoinMore(s[from..k], rest, find);
      JoinMore(s[from..k], rest, repl);
      MatchIs(s, find, k);
      assert s[from..k] + s[k..k + |find|] + s[k + |find|..] == s[from..];
    }
  }

  lemma MatchIs(s: string, find: string, k: nat)
    requires MatchAt(s, find, k)
    ensures k + |find| <= |s| && s[k..k + |find|] == find
  {
  }

  lemma JoinMore(piece: string, rest: seq<string>, separator: string)
    requires rest != []
    ensures Join([piece] + rest, separator) == piece + separator + Join(rest, separator)
  {
    assert ([piece] + rest)[1..] == rest;
  }

  lemma OnePiece(s: string, find: string, from: nat)
    requires find != [] && from <= |s| && Find(s, find, from) < 0
    ensures Leftmost([s[from..]], find)
  {
    hide Find;
    assert s[from..] + "" == s[from..];
    assert forall i :: 0 <= i < |s[from..]| && MatchAt(s[from..], find, i) ==> MatchAt(s, find, from + i);
  }

  lemma PieceInFront(s: string, find: string, from: nat, rest: seq<string>)
    requires find != [] && from <= |s| && Find(s, find, from) >= 0 && rest != [] && Leftmost(rest, find)
    ensures Leftmost([s[from..Find(s, find, from)]] + rest, find)
  {
    hide Find;
    hide NoneBefore;
    var k := Find(s, find, from);
    FirstPiece(s, find, from, k);
    var all := [s[from..k]] + rest;
    forall p | 0 <= p < |all|
      ensures NoneBefore(all[p], if p < |all| - 1 then find else "", find)
    {
      if p > 0 {
        assert all[p] == rest[p - 1];
      }
    }
  }

  lemma FirstPiece(s: string, find: string, from: nat, k: nat)
    requires find != [] && from <= k && MatchAt(s, find, k) && forall i :: from <= i < k ==> !MatchAt(s, find, i)
    ensures NoneBefore(s[from..k], find, find)
  {
    MatchIs(s, find, k);
    var piece := s[from..k];
    assert piece + find == s[from..k + |find|];
    forall i | 0 <= i < |piece|
      ensures !MatchAt(piece + find, find, i)
    {
      assert !MatchAt(s, find, from + i);
      MatchWithin(s, find, from, k + |find|, i);
    }
  }

  lemma MatchWithin(s: string, find: string, from: nat, to: nat, i: nat)
    requires from <= to <= |s| && i + |find| <= to - from
    ensures MatchAt(s[from..to], find, i) <==> MatchAt(s, find, from + i)
  {
  }

  // ----- replacing step by step

  lemma StartProgress(s: string, find: string, repl: string)
    requires find != [] && NoNul(s) && NoNul(repl)
    ensures Progress(s, find, repl, 0, "")
  {
    hide ReplaceFrom;
  }

  lemma StepProgress(s: string, find: string, repl: string, from: nat, done: string)
    requires Progress(s, find, repl, from, done) && Find(s, find, from) >= 0
    ensures var k := Find(s, find, from);
            from <= k && k + |find| <= |s| && Progress(s, find, repl, k + |find|, done + s[from..k] + repl)
  {
    hide ReplaceFrom;
    hide Find;
    ReplaceStep(s, find, repl, from, done);
  }

  lemma EndProgress(s: string, find: string, repl: string, from: nat, done: string)
    requires Progress(s, find, repl, from, done) && Find(s, find, from) < 0
    ensures done + s[from..] == ReplaceAll(s, find, repl) && NoNul(done + s[from..])
  {
    hide ReplaceFrom;
    hide Find;
    ReplaceEnd(s, find, repl, from, done);
  }

  lemma EmptyText(s: string, find: string, repl: string)
    requires s == [] || find == []
    ensures s == [] && find != [] ==> ReplaceAll(s, find, repl) == s == GrowFromRight(s, find, repl, -1)
  {
  }

  lemma Joined(s: string, a: string, b: string, c: string)
    requires |s| == |a| + |b| + |c| && forall i :: 0 <= i < |a| ==> s[i] == a[i]
    requires forall i :: 0 <= i < |b| ==> s[|a| + i] == b[i]
    requires forall i :: 0 <= i < |c| ==> s[|a| + |b| + i] == c[i]
    ensures s == a + b + c
  {
    forall i | 0 <= i < |s|
      ensures s[i] == (a + b + c)[i]
    {
      if i >= |a| + |b| {
        assert s[|a| + |b| + (i - |a| - |b|)] == c[i - |a| - |b|];
      } else if i >= |a| {
        assert s[|a| + (i - |a|)] == b[i - |a|];
      }
    }
  }

  // ----- growing from the right

  /** The last match at or before `limit`, or -1 if there is none. */
  ghost predicate IsLastMatch(s: string, find: string, limit: int, k: int) {
    && -1 <= k <= limit && (k >= 0 ==> MatchAt(s, find, k))
    && forall i :: k < i <= limit ==> !MatchAt(s, find, i)
  }

  function LastMatch(s: string, find: string, limit: int): (k: int)
    requires limit >= -1
    ensures IsLastMatch(s, find, limit, k)
    decreases limit + 1
  {
    if limit < 0 || MatchAt(s, find, limit) then limit else LastMatch(s, find, limit - 1)
  }

  lemma LastMatchIs(s: string, find: string, limit: int, k: int)
    requires IsLastMatch(s, find, limit, k)
    ensures LastMatch(s, find, limit) == k
  {
    hide LastMatch;
  }

  /** One match replaced. */
  function ReplacedAt(s: string, find: string, repl: string, k: nat): string
    requires k + |find| <= |s|
  {
    s[..k] + repl + s[k + |find|..]
  }

  /**
    The loop of the third branch: the last match at or before `index`, and so on before it, in the text as it then is.
  */
  function GrowFromRight(s: string, find: string, repl: string, index: int): string
    requires index >= -1
    decreases index + 1
  {
    var k := LastMatch(s, find, index);
    if k < 0 then s else GrowFromRight(ReplacedAt(s, find, repl, k), find, repl, k - 1)
  }

  lemma GrowStep(s: string, find: string, repl: string, index: int)
    requires index >= -1
    ensures var k := LastMatch(s, find, index);
            GrowFromRight(s, find, repl, index) == if k < 0 then s
              else GrowFromRight(ReplacedAt(s, find, repl, k), find, repl, k - 1)
  {
    hide LastMatch;
  }

  /** Each match makes the text longer. */
  lemma {:induction false} GrowGrows(s: string, find: string, repl: string, index: int)
    requires index >= -1 && |repl| > |find|
    ensures |GrowFromRight(s, find, repl, index)| >= |s|
    ensures LastMatch(s, find, index) >= 0 ==> |GrowFromRight(s, find, repl, index)| >= |s| + |repl| - |find|
    decreases index + 1
  {
    hide GrowFromRight;
    hide LastMatch;
    GrowStep(s, find, repl, index);
    var k := LastMatch(s, find, index);
    if k >= 0 {
      GrowGrows(ReplacedAt(s, find, repl, k), find, repl, k - 1);
    }
  }

  /** The last `n` characters of the pattern, but not all of it, begin `s`. */
  ghost predicate SuffixStarts(find: string, n: int, s: string) {
    0 < n < |find| && find[|find| - n..] <= s
  }

  /** The end of one match can be the beginning of another, or of the replacement. */
  ghost predicate Clashes(find: string, repl: string) {
    exists n :: SuffixStarts(find, n, find) || SuffixStarts(find, n, repl)
  }

  /** Two matches, or a match and a replacement, that meet at `i` make the pattern clash. */
  lemma MeetIsClash(text: string, find: string, j: nat, i: nat, tail: string)
    requires MatchAt(text, find, j) && j < i < j + |find| && |tail| >= |find| && i + |tail| <= |text|
    requires forall m :: 0 <= m < |tail| ==> text[i + m] == tail[m]
    ensures SuffixStarts(find, |find| - (i - j), tail)
  {
    var n := |find| - (i - j);
    forall m | 0 <= m < n
      ensures find[|find| - n..][m] == tail[m]
    {
      assert text[j + (i - j + m)] == find[i - j + m];
    }
  }

  // ----- where it equals replacement from the left

  /** No match begins in between, so nothing is replaced in between. */
  lemma Untouched(s: string, find: string, repl: string, a: nat, b: nat)
    requires find != [] && a <= b <= |s| && forall m :: a <= m < b ==> !MatchAt(s, find, m)
    ensures ReplaceFrom(s, find, repl, a) == s[a..b] + ReplaceFrom(s, find, repl, b)
  {
    hide Find;
    hide ReplaceFrom;
    hide MatchAt;
    var k := Find(s, find, b);
    FindIs(s, find, a, k);
    Unfold(s, find, repl, a);
    Unfold(s, find, repl, b);
    if k < 0 {
      assert s[a..] == s[a..b] + s[b..];
    } else {
      MatchFits(s, find, k);
      assert s[a..k] == s[a..b] + s[b..k];
      Regroup(s[a..b], s[b..k], repl, ReplaceFrom(s, find, repl, k + |find|));
    }
  }

  lemma Matched(s: string, find: string, repl: string, k: nat)
    requires find != [] && MatchAt(s, find, k)
    ensures ReplaceFrom(s, find, repl, k) == repl + ReplaceFrom(s, find, repl, k + |find|)
  {
    hide Find;
    hide ReplaceFrom;
    FindIs(s, find, k, k);
    Unfold(s, find, repl, k);
    assert s[k..k] == [];
  }

  /** The loop has come down to `i`: before it the old text, behind it the new, which begins with a replacement. */
  ghost predicate RightOf(s: string, find: string, repl: string, i: nat, text: string) {
    && find != [] && i <= |s| && text == s[..i] + ReplaceFrom(s, find, repl, i) && (i < |s| ==> MatchAt(s, find, i))
  }

  lemma StartRight(s: string, find: string, repl: string)
    requires find != []
    ensures RightOf(s, find, repl, |s|, s)
  {
    hide Find;
    FindIs(s, find, |s|, -1);
    assert s[..|s|] + [] == s;
  }

  /** Without a clash, the matches before `i` in the text are those of the old text. */
  lemma SameMatches(s: string, find: string, repl: string, i: nat, text: string, j: nat)
    requires RightOf(s, find, repl, i, text) && j < i && |repl| > |find| && !Clashes(find, repl)
    ensures MatchAt(text, find, j) <==> MatchAt(s, find, j)
    ensures MatchAt(s, find, j) ==> j + |find| <= i
  {
    hide ReplaceFrom;
    hide Clashes;
    if i < |s| {
      Matched(s, find, repl, i);
      var rest := ReplaceFrom(s, find, repl, i + |find|);
      assert text == s[..i] + repl + rest;
      if j + |find| > i {
        if MatchAt(s, find, j) {
          MeetIsClash(s, find, j, i, find);
          NoClash(find, repl, |find| - (i - j));
        }
        if MatchAt(text, find, j) {
          MeetIsClash(text, find, j, i, repl);
          NoClash(find, repl, |find| - (i - j));
        }
      }
    } else {
      assert ReplaceFrom(s, find, repl, i) == [] by {
        StartRight(s, find, repl);
      }
    }
  }

  lemma NoClash(find: string, repl: string, n: int)
    requires !Clashes(find, repl)
    ensures !SuffixStarts(find, n, find) && !SuffixStarts(find, n, repl)
  {
  }

  lemma {:induction false} GrowIsReplace(s: string, find: string, repl: string, i: nat, text: string)
    requires RightOf(s, find, repl, i, text) && |repl| > |find| && !Clashes(find, repl)
    ensures GrowFromRight(text, find, repl, i - 1) == ReplaceAll(s, find, repl)
    decreases i
  {
    hide ReplaceFrom;
    hide GrowFromRight;
    hide LastMatch;
    hide Clashes;
    GrowStep(text, find, repl, i - 1);
    var k := LastMatch(text, find, i - 1);
    forall j | 0 <= j < i
      ensures MatchAt(text, find, j) <==> MatchAt(s, find, j)
      ensures MatchAt(s, find, j) ==> j + |find| <= i
    {
      SameMatches(s, find, repl, i, text, j);
    }
    if k < 0 {
      Untouched(s, find, repl, 0, i);
      assert s[0..i] == s[..i];
    } else {
      NextRight(s, find, repl, i, text, k);
      GrowIsReplace(s, find, repl, k, ReplacedAt(text, find, repl, k));
    }
  }

  lemma NextRight(s: string, find: string, repl: string, i: nat, text: string, k: nat)
    requires RightOf(s, find, repl, i, text) && MatchAt(s, find, k) && k + |find| <= i
    requires forall m :: k < m < i ==> !MatchAt(s, find, m)
    ensures k + |find| <= |text| && RightOf(s, find, repl, k, ReplacedAt(text, find, repl, k))
  {
    hide ReplaceFrom;
    var e := k + |find|;
    Untouched(s, find, repl, e, i);
    Matched(s, find, repl, k);
    assert text[..k] == s[..k] && text[e..] == s[e..i] + ReplaceFrom(s, find, repl, i);
    assert s[..k] + repl + text[e..] == s[..k] + (repl + text[e..]);
  }

  lemma WithoutClash(s: string, find: string, repl: string)
    requires find != [] && |repl| > |find|
    ensures !Clashes(find, repl) ==> GrowFromRight(s, find, repl, |s| - 1) == ReplaceAll(s, find, repl)
  {
    hide GrowFromRight;
    hide ReplaceAll;
    if !Clashes(find, repl) {
      StartRight(s, find, repl);
      GrowIsReplace(s, find, repl, |s|, s);
    }
  }

  // ----- and where it does not

  /** The text that goes wrong: what comes before the clash, and the pattern. */
  function Trap(find: string, n: nat): string
    requires n <= |find|
  {
    find[..|find| - n] + find
  }

  /** The first step from the right replaces the pattern at the end. */
  lemma TrapStep(find: string, repl: string, n: nat)
    requires 0 < n < |find|
    ensures var s, v := Trap(find, n), find[..|find| - n];
            GrowFromRight(s, find, repl, |s| - 1) == GrowFromRight(v + repl, find, repl, |v| - 1)
  {
    hide GrowFromRight;
    hide LastMatch;
    var s, v := Trap(find, n), find[..|find| - n];
    GrowStep(s, find, repl, |s| - 1);
    assert MatchAt(s, find, |v|);
    LastMatchIs(s, find, |s| - 1, |v|);
    assert s[..|v|] == v && s[|v| + |find|..] == [];
    assert ReplacedAt(s, find, repl, |v|) == v + repl;
  }

  /** From the left, one match is replaced: the rest is too short for another. */
  lemma TrapFromLeft(find: string, repl: string, n: nat)
    requires 0 < n < |find|
    ensures var s, k := Trap(find, n), Find(Trap(find, n), find, 0);
            0 <= k <= |find| - n && ReplaceAll(s, find, repl) == s[..k] + repl + s[k + |find|..]
  {
    hide Find;
    hide ReplaceFrom;
    var s, v := Trap(find, n), find[..|find| - n];
    assert MatchAt(s, find, |v|);
    var k := Find(s, find, 0);
    Unfold(s, find, repl, 0);
    Unfold(s, find, repl, k + |find|);
    FindIs(s, find, k + |find|, -1);
    assert s[0..k] == s[..k];
  }

  /**
    If the replacement begins like the pattern ends, a match forms across the seam, and more is replaced than there
    was.
  */
  lemma SeamGrows(find: string, repl: string, n: nat)
    requires |repl| > |find| && SuffixStarts(find, n, repl)
    ensures var s := Trap(find, n); |GrowFromRight(s, find, repl, |s| - 1)| > |ReplaceAll(s, find, repl)|
  {
    hide GrowFromRight;
    hide ReplaceAll;
    hide LastMatch;
    hide Find;
    var s, v := Trap(find, n), find[..|find| - n];
    TrapStep(find, repl, n);
    TrapFromLeft(find, repl, n);
    var seam := v + repl;
    forall m | 0 <= m < |find|
      ensures seam[m] == find[m]
    {
      if m >= |v| {
        assert find[|find| - n..][m - |v|] == repl[m - |v|];
      }
    }
    assert MatchAt(seam, find, 0);
    GrowGrows(seam, find, repl, |v| - 1);
  }

  /**
    If only the pattern itself begins like it ends, another match is replaced than from the left, and the text comes
    out different.
  */
  lemma OverlapDiffers(find: string, repl: string, n: nat)
    requires |repl| > |find| && SuffixStarts(find, n, find) && forall m :: !SuffixStarts(find, m, repl)
    ensures var s := Trap(find, n); GrowFromRight(s, find, repl, |s| - 1) != ReplaceAll(s, find, repl)
  {
    hide GrowFromRight;
    hide ReplaceAll;
    hide LastMatch;
    hide Find;
    hide MatchAt;
    hide SuffixStarts;
    hide Clashes;
    SuffixLength(find, n, find);
    var s, v := Trap(find, n), find[..|find| - n];
    TrapStep(find, repl, n);
    TrapFromLeft(find, repl, n);
    TrapMatchesFirst(find, n);
    FindIs(s, find, 0, 0);
    NoMatchAtSeam(find, repl, n);
    GrowStep(v + repl, find, repl, |v| - 1);
    NothingBefore(s, repl, |find|);
    PeriodDiffers(find, repl, n, s[|find|..]);
  }

  lemma NothingBefore(s: string, repl: string, n: nat)
    requires n <= |s|
    ensures s[..0] + repl + s[0 + n..] == repl + s[n..]
  {
  }

  lemma PeriodDiffers(find: string, repl: string, n: nat, w: string)
    requires |repl| > |find| && 0 < n < |find| && SuffixStarts(find, n, find)
    requires forall m :: !SuffixStarts(find, m, repl)
    ensures find[..|find| - n] + repl != repl + w
  {
    hide SuffixStarts;
    if find[..|find| - n] + repl == repl + w {
      PeriodIsClash(find, repl, n, w);
    }
  }

  lemma TrapMatchesFirst(find: string, n: nat)
    requires SuffixStarts(find, n, find)
    ensures MatchAt(Trap(find, n), find, 0)
  {
    var s, v := Trap(find, n), find[..|find| - n];
    forall m | 0 <= m < |find|
      ensures s[m] == find[m]
    {
      if m >= |v| {
        assert find[|find| - n..][m - |v|] == find[m - |v|];
      }
    }
  }

  lemma NoMatchAtSeam(find: string, repl: string, n: nat)
    requires 0 < n < |find| < |repl| && forall m :: !SuffixStarts(find, m, repl)
    ensures var v := find[..|find| - n]; LastMatch(v + repl, find, |v| - 1) < 0
  {
    hide SuffixStarts;
    hide LastMatch;
    var v := find[..|find| - n];
    var seam := v + repl;
    forall j | 0 <= j < |v|
      ensures !MatchAt(seam, find, j)
    {
      if MatchAt(seam, find, j) {
        MeetIsClash(seam, find, j, |v|, repl);
      }
    }
  }

  /** If shifting makes no difference, the pattern begins the replacement. */
  lemma PeriodIsClash(find: string, repl: string, n: nat, w: string)
    requires |repl| > |find| && SuffixStarts(find, n, find) && find[..|find| - n] + repl == repl + w
    ensures SuffixStarts(find, n, repl)
  {
    var v := find[..|find| - n];
    forall i | 0 <= i < |find|
      ensures repl[i] == find[i]
    {
      PeriodAt(find, repl, n, w, i);
    }
    assert forall m :: 0 <= m < n ==> find[|find| - n..][m] == find[m] == repl[m];
  }

  lemma {:induction false} PeriodAt(find: string, repl: string, n: nat, w: string, i: nat)
    requires |repl| > |find| && SuffixStarts(find, n, find) && find[..|find| - n] + repl == repl + w && i < |find|
    ensures repl[i] == find[i]
    decreases i
  {
    var v := find[..|find| - n];
    assert (v + repl)[i] == (repl + w)[i] == repl[i];
    if i >= |v| {
      PeriodAt(find, repl, n, w, i - |v|);
      assert find[|find| - n..][i - |v|] == find[i - |v|];
    }
  }

  /**
    Growing from the right is leftmost replacement, for all texts, if and only if no end of the pattern begins the
    pattern or the replacement.
  */
  lemma GrowthRightExactly(find: string, repl: string)
    requires find != [] && |repl| > |find|
    ensures (forall s: string :: GrowFromRight(s, find, repl, |s| - 1) == ReplaceAll(s, find, repl)) <==>
              !Clashes(find, repl)
  {
    hide GrowFromRight;
    hide ReplaceAll;
    hide Clashes;
    if !Clashes(find, repl) {
      forall s: string
        ensures GrowFromRight(s, find, repl, |s| - 1) == ReplaceAll(s, find, repl)
      {
        WithoutClash(s, find, repl);
      }
    } else {
      var s := ClashShows(find, repl);
    }
  }

  lemma ClashShows(find: string, repl: string) returns (s: string)
    requires find != [] && |repl| > |find| && Clashes(find, repl)
    ensures GrowFromRight(s, find, repl, |s| - 1) != ReplaceAll(s, find, repl)
  {
    hide GrowFromRight;
    hide ReplaceAll;
    hide SuffixStarts;
    var n :| SuffixStarts(find, n, find) || SuffixStarts(find, n, repl);
    if m :| SuffixStarts(find, m, repl) {
      SuffixLength(find, m, repl);
      SeamGrows(find, repl, m);
      s := Trap(find, m);
    } else {
      SuffixLength(find, n, find);
      OverlapDiffers(find, repl, n);
      s := Trap(find, n);
    }
  }

  lemma SuffixLength(find: string, n: int, tail: string)
    requires SuffixStarts(find, n, tail)
    ensures 0 < n < |find|
  {
  }

  class Str {
    var buf: array<char>
    var len: nat

    ghost predicate Terminated(from: nat, end: nat)
      reads this, buf
    {
      from <= end < buf.Length && buf[end] == NUL && forall i :: from <= i < end ==> buf[i] != NUL
    }

    ghost predicate Valid()
      reads this, buf
    {
      Terminated(0, len)
    }

    ghost function Text(): string
      requires Valid()
      reads this, buf
    {
      buf[..len]
    }

    constructor (text: string, capacity: nat)
      requires NoNul(text) && |text| <= capacity
      ensures Valid() && fresh(buf) && Text() == text && buf.Length == capacity + 1
    {
      buf := new char[capacity + 1](i => if 0 <= i < |text| then text[i] else NUL);
      len := |text|;
    }

    /** `strstr`; the text from `from` on ends at `end`. */
    method Strstr(from: nat, find: string, ghost end: nat) returns (k: int)
      requires find != [] && NoNul(find) && Terminated(from, end)
      ensures k == Find(buf[..end], find, from)
    {
      ghost var s := buf[..end];
      var p := from;
      while buf[p] != NUL
        invariant from <= p <= end
        invariant forall i :: from <= i < p ==> !MatchAt(s, find, i)
        decreases end - p
      {
        var j := 0;
        while j < |find| && buf[p + j] == find[j]
          invariant 0 <= j <= |find| && p + j <= end
          invariant forall i :: 0 <= i < j ==> s[p + i] == find[i]
        {
          j := j + 1;
        }
        if j == |find| {
          FindIs(s, find, from, p);
          return p;
        }
        assert p + j < end ==> s[p + j] != find[j];
        p := p + 1;
      }
      FindIs(s, find, from, -1);
      return -1;
    }

    method Strlen(from: nat, ghost end: nat) returns (n: nat)
      requires Terminated(from, end)
      ensures n == end - from
    {
      n := 0;
      while buf[from + n] != NUL
        invariant from + n <= end
        decreases end - n
      {
        n := n + 1;
      }
    }

    /** `memmove` within the buffer. */
    method MoveWithin(to: nat, from: nat, n: nat)
      requires to + n <= buf.Length && from + n <= buf.Length
      modifies buf
      ensures forall i :: to <= i < to + n ==> buf[i] == old(buf[from + (i - to)])
      ensures forall i :: 0 <= i < to || to + n <= i < buf.Length ==> buf[i] == old(buf[i])
    {
      forall i | 0 <= i < n {
        buf[to + i] := buf[from + i];
      }
    }

    /** `memmove` from another string. */
    method CopyIn(to: nat, src: string)
      requires to + |src| <= buf.Length
      modifies buf
      ensures forall i :: to <= i < to + |src| ==> buf[i] == src[i - to]
      ensures forall i :: 0 <= i < to || to + |src| <= i < buf.Length ==> buf[i] == old(buf[i])
    {
      forall i | 0 <= i < |src| {
        buf[to + i] := src[i];
      }
    }

    /** The replacement is written over a match; `done` and `mid` lie before it. */
    method OverwriteAt(readFrom: nat, foundAt: nat, repl: string, ghost done: string, ghost mid: string)
      requires readFrom <= foundAt && foundAt + |repl| <= buf.Length
      requires buf[..readFrom] == done && buf[readFrom..foundAt] == mid
      modifies buf
      ensures buf[..foundAt + |repl|] == done + mid + repl
      ensures forall i :: foundAt + |repl| <= i < buf.Length ==> buf[i] == old(buf[i])
    {
      assert buf[..foundAt] == done + mid;
      CopyIn(foundAt, repl);
      assert buf[..foundAt] == old(buf[..foundAt]);
    }

    lemma SameText(text: string)
      requires |text| == len < buf.Length && buf[len] == NUL && NoNul(text) &&
               forall i :: 0 <= i < len ==> buf[i] == text[i]
      ensures Valid() && Text() == text
    {
    }

    lemma EndsHere(text: string)
      requires |text| == len < buf.Length && NoNul(text) && buf[..len + 1] == text + [NUL]
      ensures Valid() && Text() == text
    {
      assert forall i :: 0 <= i <= len ==> buf[i] == (text + [NUL])[i];
      SameText(text);
    }

    /** `s` from `from` on is still in the buffer, with the NUL behind it. */
    ghost predicate Ahead(s: string, from: nat)
      reads `buf, buf
    {
      from <= |s| < buf.Length && buf[|s|] == NUL && forall i :: from <= i < |s| ==> buf[i] == s[i]
    }

    lemma AllAhead()
      requires Valid()
      ensures NoNul(Text()) && Ahead(Text(), 0) && |Text()| == len && buf[..0] == ""
    {
    }

    lemma StillAhead(from: nat)
      requires Valid() && from <= len
      ensures Ahead(Text(), from)
    {
    }

    lemma AheadIs(s: string, from: nat)
      requires NoNul(s) && Ahead(s, from)
      ensures Terminated(from, |s|) && buf[from..|s|] == s[from..] && forall i :: from <= i < |s| ==> buf[i] == s[i]
    {
    }

    lemma WholeText(s: string, from: nat, done: string)
      requires Ahead(s, from) && len == |s| && buf[..from] == done && NoNul(done + s[from..])
      ensures Valid() && Text() == done + s[from..]
    {
      var text := done + s[from..];
      forall i | 0 <= i < len
        ensures buf[i] == text[i]
      {
        if i < from {
          assert buf[i] == done[i];
        }
      }
      SameText(text);
    }

    /** The next match in what is ahead. */
    method NextMatch(from: nat, find: string, ghost s: string) returns (k: int)
      requires find != [] && NoNul(find) && NoNul(s) && Ahead(s, from)
      ensures k == Find(s, find, from)
    {
      hide Find;
      hide NoNul;
      AheadIs(s, from);
      FindSuffix(s, buf[..|s|], find, from);
      k := Strstr(from, find, |s|);
    }

    /** One match of the first branch. */
    method OverwriteNext(readFrom: nat, foundAt: nat, repl: string, ghost s: string, ghost done: string)
      requires Ahead(s, readFrom) && buf[..readFrom] == done && readFrom <= foundAt && foundAt + |repl| <= |s|
      modifies buf
      ensures Ahead(s, foundAt + |repl|) && buf[..foundAt + |repl|] == done + s[readFrom..foundAt] + repl
    {
      assert buf[readFrom..foundAt] == s[readFrom..foundAt];
      OverwriteAt(readFrom, foundAt, repl, done, s[readFrom..foundAt]);
    }

    /** The first branch of `replace`: a replacement of the same length is written over each match. */
    method ReplaceSame(find: string, repl: string)
      requires Valid() && find != [] && |repl| == |find| && NoNul(find) && NoNul(repl)
      modifies buf
      ensures Valid() && Text() == ReplaceAll(old(Text()), find, repl)
    {
      hide Find;
      hide Progress;
      hide NoNul;
      hide Ahead;
      hide ReplaceAll;
      ghost var s, done := Text(), "";
      AllAhead();
      StartProgress(s, find, repl);
      var readFrom := 0;
      var foundAt := NextMatch(readFrom, find, s);
      while foundAt >= 0
        invariant 0 <= readFrom <= |s| && Ahead(s, readFrom) && foundAt == Find(s, find, readFrom)
        invariant buf[..readFrom] == done && Progress(s, find, repl, readFrom, done)
        decreases |s| - readFrom
      {
        StepProgress(s, find, repl, readFrom, done);
        OverwriteNext(readFrom, foundAt, repl, s, done);
        done := done + s[readFrom..foundAt] + repl;
        readFrom := foundAt + |repl|;
        foundAt := NextMatch(readFrom, find, s);
      }
      EndProgress(s, find, repl, readFrom, done);
      WholeText(s, readFrom, done);
    }

    /** What lies before a match moves down. */
    method MoveText(writeTo: nat, readFrom: nat, n: nat, ghost done: string, ghost mid: string)
      requires writeTo <= readFrom && readFrom + n <= buf.Length && buf[..writeTo] == done &&
               buf[readFrom..readFrom + n] == mid
      modifies buf
      ensures buf[..writeTo + n] == done + mid
      ensures forall i :: writeTo + n <= i < buf.Length ==> buf[i] == old(buf[i])
    {
      MoveWithin(writeTo, readFrom, n);
      forall i | 0 <= i < writeTo + n
        ensures buf[i] == (done + mid)[i]
      {
        if i >= writeTo {
          assert mid[i - writeTo] == old(buf[readFrom + (i - writeTo)]);
        }
      }
    }

    /** One match of the second branch: what lies before it moves down, and the replacement follows. */
    method MoveDown(writeTo: nat, readFrom: nat, foundAt: nat, repl: string, ghost done: string, ghost mid: string)
      requires writeTo <= readFrom <= foundAt && writeTo + (foundAt - readFrom) + |repl| <= buf.Length &&
               foundAt <= buf.Length
      requires buf[..writeTo] == done && buf[readFrom..foundAt] == mid
      modifies buf
      ensures buf[..writeTo + (foundAt - readFrom) + |repl|] == done + mid + repl
      ensures forall i :: writeTo + (foundAt - readFrom) + |repl| <= i < buf.Length ==> buf[i] == old(buf[i])
    {
      var n := foundAt - readFrom;
      MoveText(writeTo, readFrom, n, done, mid);
      assert buf[writeTo + n..writeTo + n] == "" && (done + mid) + "" == done + mid;
      OverwriteAt(writeTo + n, writeTo + n, repl, done + mid, "");
    }

    /** The same, within what is ahead. */
    method MoveNext(writeTo: nat, readFrom: nat, foundAt: nat, repl: string, ghost size: nat, ghost s: string,
                    ghost done: string)
      requires Ahead(s, readFrom) && writeTo <= readFrom <= foundAt && foundAt + size <= |s|
      requires buf[..writeTo] == done && |repl| < size
      modifies buf
      ensures Ahead(s, foundAt + size)
      ensures buf[..writeTo + (foundAt - readFrom) + |repl|] == done + s[readFrom..foundAt] + repl
    {
      assert buf[readFrom..foundAt] == s[readFrom..foundAt];
      MoveDown(writeTo, readFrom, foundAt, repl, done, s[readFrom..foundAt]);
    }

    /** The second branch of `replace`: the text closes up behind each shorter replacement. */
    method ReplaceShorter(find: string, repl: string)
      requires Valid() && find != [] && |repl| < |find| && NoNul(find) && NoNul(repl)
      modifies buf, `len
      ensures Valid() && Text() == ReplaceAll(old(Text()), find, repl)
    {
      hide Find;
      hide Progress;
      hide NoNul;
      hide Ahead;
      hide ReplaceAll;
      ghost var s, done := Text(), "";
      AllAhead();
      StartProgress(s, find, repl);
      var readFrom, writeTo := 0, 0;
      var foundAt := NextMatch(readFrom, find, s);
      while foundAt >= 0
        invariant 0 <= writeTo <= readFrom <= |s| && Ahead(s, readFrom) && foundAt == Find(s, find, readFrom)
        invariant writeTo <= buf.Length && buf[..writeTo] == done && Progress(s, find, repl, readFrom, done)
        invariant len == |s| - (readFrom - writeTo)
        decreases |s| - readFrom
      {
        StepProgress(s, find, repl, readFrom, done);
        MoveNext(writeTo, readFrom, foundAt, repl, |find|, s, done);
        done := done + s[readFrom..foundAt] + repl;
        writeTo := writeTo + (foundAt - readFrom) + |repl|;
        readFrom := foundAt + |find|;
        len := len + |repl| - |find|;
        foundAt := NextMatch(readFrom, find, s);
      }
      EndProgress(s, find, repl, readFrom, done);
      AheadIs(s, readFrom);
      CloseUp(writeTo, readFrom, |s|, done, s[readFrom..]);
    }

    /** The end of the second branch: the rest of the text moves down with its NUL. */
    method CloseUp(writeTo: nat, readFrom: nat, ghost n: nat, ghost done: string, ghost rest: string)
      requires Terminated(readFrom, n) && writeTo <= readFrom && len == n - (readFrom - writeTo)
      requires buf[..writeTo] == done && buf[readFrom..n] == rest && NoNul(done + rest)
      modifies buf
      ensures Valid() && Text() == done + rest
    {
      hide NoNul;
      var k := Strlen(readFrom, n);
      assert buf[readFrom..readFrom + (k + 1)] == rest + [NUL];
      MoveText(writeTo, readFrom, k + 1, done, rest + [NUL]);
      assert done + (rest + [NUL]) == (done + rest) + [NUL];
      EndsHere(done + rest);
    }

    /** `lastIndexOf`: the last match at or before `fromIndex`, or -1. */
    method LastIndexOf(find: string, fromIndex: nat) returns (found: int)
      requires Valid() && NoNul(find)
      ensures find == [] ==> found == -1
      ensures find != [] ==> IsLastMatch(Text(), find, fromIndex, found)
    {
      hide Find;
      if |find| == 0 || len == 0 || |find| > len {
        return -1;
      }
      var limit := if fromIndex >= len then len - 1 else fromIndex;
      found := -1;
      var p := 0;
      while p <= limit
        invariant 0 <= p <= len && -1 <= found < p &&
                  (found >= 0 ==> MatchAt(buf[..len], find, found) && found <= limit)
        invariant forall i :: found < i < p && i <= limit ==> !MatchAt(buf[..len], find, i)
        decreases len - p
      {
        var q := Strstr(p, find, len);
        if q < 0 {
          break;
        }
        p := q;
        if p <= limit {
          found := p;
        }
        p := p + 1;
      }
    }

    /** `changeBuffer` for a text that does not fit in the object itself; `memory` says whether `realloc` succeeds. */
    method ChangeBuffer(maxStrLen: nat, memory: bool) returns (ok: bool)
      requires Valid() && len <= maxStrLen
      modifies this
      ensures Valid() && len == old(len) && Text() == old(Text())
      ensures ok ==> fresh(buf) && maxStrLen < buf.Length
      ensures !ok ==> buf == old(buf)
      ensures ok == (maxStrLen + 16 - (maxStrLen + 16) % 16 <= CAPACITY_MAX && memory)
    {
      var newSize := maxStrLen + 16 - (maxStrLen + 16) % 16;
      if newSize > CAPACITY_MAX || !memory {
        return false;
      }
      var text := buf[..len];
      buf := new char[newSize](i => if 0 <= i < |text| then text[i] else NUL);
      SameText(text);
      return true;
    }

    /** The size of the result, counted as the third branch does. */
    method SizeOfResult(find: string, repl: string) returns (size: nat)
      requires Valid() && find != [] && |repl| > |find| && NoNul(find) && NoNul(repl)
      ensures size == |ReplaceAll(Text(), find, repl)| >= len
      ensures size == len ==> ReplaceAll(Text(), find, repl) == Text()
    {
      hide Find;
      hide Progress;
      hide NoNul;
      hide Ahead;
      hide ReplaceAll;
      ghost var s, done := Text(), "";
      AllAhead();
      StartProgress(s, find, repl);
      size := len;
      var readFrom := 0;
      var foundAt := NextMatch(readFrom, find, s);
      while foundAt >= 0
        invariant 0 <= readFrom <= len && foundAt == Find(s, find, readFrom) && Progress(s, find, repl, readFrom, done)
        invariant size == |done| + (len - readFrom) && |done| >= readFrom && (readFrom > 0 ==> |done| > readFrom)
        decreases len - readFrom
      {
        StepProgress(s, find, repl, readFrom, done);
        done := done + s[readFrom..foundAt] + repl;
        readFrom := foundAt + |find|;
        size := size + |repl| - |find|;
        StillAhead(readFrom);
        foundAt := NextMatch(readFrom, find, s);
      }
      EndProgress(s, find, repl, readFrom, done);
      assert readFrom == 0 && done == "" ==> done + s[readFrom..] == s;
    }

    /** One match of the third branch: the rest moves up and the replacement is written. */
    method MakeRoom(index: nat, width: nat, repl: string, ghost before: string, ghost after: string)
      requires Valid() && |repl| > width && |before| == index && len == index + width + |after| &&
               len + |repl| - width < buf.Length
      requires (forall i :: 0 <= i < index ==> buf[i] == before[i]) &&
               (forall i :: 0 <= i < |after| ==> buf[index + width + i] == after[i])
      requires NoNul(before + repl + after)
      modifies buf, `len
      ensures Valid() && Text() == before + repl + after
    {
      hide NoNul;
      var readFrom, diff := index + width, |repl| - width;
      MoveWithin(readFrom + diff, readFrom, len - readFrom);
      assert forall i :: 0 <= i < |after| ==> buf[readFrom + diff + i] == after[i];
      var newLen := len + diff;
      CopyIn(index, repl);
      len := newLen;
      buf[newLen] := NUL;
      assert forall i :: 0 <= i < |repl| ==> buf[index + i] == repl[i];
      assert forall i :: 0 <= i < |after| ==> buf[index + |repl| + i] == after[i];
      Joined(buf[..len], before, repl, after);
      SameText(before + repl + after);
    }

    /** The loop of the third branch, if all that it writes fits the buffer. */
    method ReplaceFromRight(find: string, repl: string)
      requires Valid() && find != [] && |repl| > |find| && NoNul(find) && NoNul(repl)
      requires |GrowFromRight(Text(), find, repl, len - 1)| < buf.Length
      modifies buf, `len
      ensures Valid() && Text() == GrowFromRight(old(Text()), find, repl, old(len) - 1)
    {
      hide GrowFromRight;
      hide LastMatch;
      ghost var s, result := Text(), GrowFromRight(Text(), find, repl, len - 1);
      var index := len - 1;
      while index >= 0
        invariant Valid() && -1 <= index < len && GrowFromRight(Text(), find, repl, index) == result
        decreases index
      {
        var k := LastIndexOf(find, index);
        ghost var text := Text();
        LastMatchIs(text, find, index, k);
        GrowStep(text, find, repl, index);
        if k < 0 {
          return;
        }
        GrowGrows(ReplacedAt(text, find, repl, k), find, repl, k - 1);
        MakeRoom(k, |find|, repl, text[..k], text[k + |find|..]);
        index := k - 1;
      }
      GrowStep(Text(), find, repl, -1);
    }

    /** The third branch of `replace`: room for as many matches as there are from the left, and then from the right. */
    method ReplaceLonger(find: string, repl: string, memory: bool) returns (ok: bool)
      requires Valid() && find != [] && |repl| > |find| && NoNul(find) && NoNul(repl)
      requires |GrowFromRight(Text(), find, repl, len - 1)| <= |ReplaceAll(Text(), find, repl)|
      modifies this, buf
      ensures Valid() && Text() == if ok then GrowFromRight(old(Text()), find, repl, old(len) - 1) else old(Text())
      ensures var size := |ReplaceAll(old(Text()), find, repl)|;
              ok <==> size < old(buf.Length) || (memory && size < 65520)
    {
      hide ReplaceAll;
      hide GrowFromRight;
      hide LastMatch;
      var size := SizeOfResult(find, repl);
      if size == len {
        GrowGrows(Text(), find, repl, len - 1);
        GrowStep(Text(), find, repl, len - 1);
        return true;
      }
      if size > buf.Length - 1 {
        ok := ChangeBuffer(size, memory);
        if !ok {
          return;
        }
      }
      ReplaceFromRight(find, repl);
      return true;
    }

    /**
      `replace`: each match is replaced, from the left and without overlap, if the memory suffices. Where the
      replacement is longer the text grows from the right, which may not find more matches than were counted, or they do
      not fit the buffer; it does not, and gives the same text, if no end of the pattern begins the pattern or the
      replacement.
    */
    method Replace(find: string, repl: string, memory: bool) returns (ok: bool)
      requires Valid() && NoNul(find) && NoNul(repl)
      requires find != [] && |repl| > |find| && Clashes(find, repl) ==>
                 |GrowFromRight(Text(), find, repl, len - 1)| <= |ReplaceAll(Text(), find, repl)|
      modifies this, buf
      ensures Valid() && (find == [] || !ok ==> Text() == old(Text()))
      ensures find != [] && ok && (|repl| <= |find| || !Clashes(find, repl)) ==>
                Text() == ReplaceAll(old(Text()), find, repl)
      ensures find != [] && ok && |repl| > |find| ==> Text() == GrowFromRight(old(Text()), find, repl, old(len) - 1)
      ensures !ok <==>
                && find != [] && |repl| > |find| && |ReplaceAll(old(Text()), find, repl)| >= old(buf.Length)
                && !(memory && |ReplaceAll(old(Text()), find, repl)| < 65520)
    {
      hide Clashes;
      hide ReplaceAll;
      hide GrowFromRight;
      hide NoNul;
      if len == 0 || |find| == 0 {
        EmptyText(Text(), find, repl);
        return true;
      }
      if |repl| == |find| {
        ReplaceSame(find, repl);
      } else if |repl| < |find| {
        ReplaceShorter(find, repl);
      } else {
        WithoutClash(Text(), find, repl);
        ok := ReplaceLonger(find, repl, memory);
        return;
      }
      return true;
    }
  }
}
