/** main.rs: finding the engine version string in a binary with a skipping scan. */
module UnityVersion {
  import opened Words

  predicate Digit(b: byte) { '0' as int <= b <= '9' as int }

  /** ASCII alphanumeric or '.': the bytes a candidate runs over. */
  predicate RunByte(b: byte) {
    Digit(b) || 'A' as int <= b <= 'Z' as int || 'a' as int <= b <= 'z' as int || b == '.' as int
  }

  const DOT: byte := 46
  const LETTERS: set<byte> := {102, 98, 97, 112}  // f b a p

  /** The scan looks only at starts with more than twelve bytes left. */
  predicate Head(d: seq<byte>, i: nat) {
    && i + 12 < |d|
    && d[i] == '2' as int && d[i + 1] == '0' as int
    && Digit(d[i + 2]) && Digit(d[i + 3]) && d[i + 4] == DOT && Digit(d[i + 5])
  }

  /** The scan over byte codes: what a run consists of, and the shape of a head. */
  lemma HeadIs(d: seq<byte>, i: nat, b: byte)
    ensures RunByte(b) <==> 0x30 <= b <= 0x39 || 0x41 <= b <= 0x5A || 0x61 <= b <= 0x7A || b == 0x2E
    ensures Head(d, i) <==>
            && i + 12 < |d| && d[i..i + 2] == [0x32, 0x30] && 0x30 <= d[i + 2] <= 0x39 && 0x30 <= d[i + 3] <= 0x39
            && d[i + 4] == 0x2E && 0x30 <= d[i + 5] <= 0x39
  {
    if i + 12 < |d| { assert d[i..i + 2] == [d[i], d[i + 1]]; }
  }

  /** The first index at or after `k` that is not a run byte, or `|w|`. */
  function RunEnd(w: seq<byte>, k: nat): (e: nat)
    requires k <= |w|
    ensures k <= e <= |w| && (forall j :: k <= j < e ==> RunByte(w[j])) && (e < |w| ==> !RunByte(w[e]))
    decreases |w| - k
  {
    if k == |w| || !RunByte(w[k]) then k else RunEnd(w, k + 1)
  }

  /** The run of version characters from `i` on, cut off after 24 bytes. */
  function CandidateLength(d: seq<byte>, i: nat): (n: nat)
    requires i <= |d|
    ensures i + n <= |d| && n <= 24 && (forall j :: i <= j < i + n ==> RunByte(d[j]))
    ensures n == 24 || i + n == |d| || !RunByte(d[i + n])
  {
    var w := d[i..i + Min(24, |d| - i)];
    var n := RunEnd(w, 0);
    assert forall j :: i <= j < i + n ==> d[j] == w[j - i];
    n
  }

  function Candidate(d: seq<byte>, i: nat): seq<byte>
    requires i <= |d|
  {
    d[i..i + CandidateLength(d, i)]
  }

  function CountDots(s: seq<byte>): nat {
    if s == [] then 0 else CountDots(s[..|s| - 1]) + (if s[|s| - 1] == DOT then 1 else 0)
  }

  predicate Accepted(s: seq<byte>) {
    && 8 <= |s| <= 20
    && CountDots(s) == 2
    && (exists c :: c in LETTERS && c in s)
    && Digit(s[|s| - 1])
  }

  /** The filters: 8 to 20 bytes, exactly two dots, one of the letters, a digit at the end. */
  lemma AcceptedIff(s: seq<byte>)
    ensures Accepted(s) <==>
            && 8 <= |s| <= 20 && |DotsIn(s)| == 2
            && (exists j :: 0 <= j < |s| && s[j] < 128 && s[j] as char in "fbap")
            && 0x30 <= s[|s| - 1] <= 0x39
  {
    CountDotsIs(s);
    hide CountDots, DotsIn;
    var letters := "fbap";
    assert letters[0] == 'f' && letters[1] == 'b' && letters[2] == 'a' && letters[3] == 'p';
    if c :| c in LETTERS && c in s {
      var j :| 0 <= j < |s| && s[j] == c;
      assert s[j] as char in letters;
    }
  }

  ghost function DotsIn(s: seq<byte>): set<int> { set j | 0 <= j < |s| && s[j] == '.' as int }

  lemma {:induction false} CountDotsIs(s: seq<byte>)
    ensures CountDots(s) == |DotsIn(s)|
  {
    if s == [] {
      assert DotsIn(s) == {};
    } else {
      var n := |s| - 1;
      CountDotsIs(s[..n]);
      assert DotsIn(s) == DotsIn(s[..n]) + if s[n] == '.' as int then {n} else {};
      assert n !in DotsIn(s[..n]);
    }
  }

  // ----- the order of strings -----

  /** `Ord for str`: bytes are compared one by one, and a prefix comes first. */
  function Compare(a: seq<byte>, b: seq<byte>): int {
    if a == [] then (if b == [] then 0 else -1)
    else if b == [] then 1
    else if a[0] != b[0] then a[0] - b[0]
    else Compare(a[1..], b[1..])
  }

  /** The lexicographic order: a prefix, or smaller at the first difference. */
  predicate AtMost(a: seq<byte>, b: seq<byte>) {
    a <= b || exists k :: 0 <= k < |a| && k < |b| && Differs(a, b, k)
  }

  predicate Differs(a: seq<byte>, b: seq<byte>, k: nat)
    requires k < |a| && k < |b|
  {
    a[..k] == b[..k] && a[k] < b[k]
  }

  lemma {:induction false} CompareIsOrder(a: seq<byte>, b: seq<byte>)
    ensures Compare(a, b) <= 0 <==> AtMost(a, b)
  {
    if a != [] && b != [] && a[0] == b[0] {
      CompareIsOrder(a[1..], b[1..]);
      AtMostTail(a, b);
    } else if a != [] && b != [] && a[0] < b[0] {
      assert Differs(a, b, 0);
    } else if a != [] && b != [] {
      forall k | 0 <= k < |a| && k < |b| ensures !Differs(a, b, k) {
        if k > 0 { assert a[..k][0] == a[0] && b[..k][0] == b[0]; }
      }
    }
  }

  lemma AtMostTail(a: seq<byte>, b: seq<byte>)
    requires a != [] && b != [] && a[0] == b[0]
    ensures AtMost(a, b) <==> AtMost(a[1..], b[1..])
  {
    if k :| 0 <= k < |a| && k < |b| && Differs(a, b, k) {
      assert k > 0;
      assert a[1..][..k - 1] == a[..k][1..] && b[1..][..k - 1] == b[..k][1..];
      assert Differs(a[1..], b[1..], k - 1);
    }
    if k :| 0 <= k < |a[1..]| && k < |b[1..]| && Differs(a[1..], b[1..], k) {
      assert a[..k + 1] == [a[0]] + a[1..][..k] && b[..k + 1] == [b[0]] + b[1..][..k];
      assert Differs(a, b, k + 1);
    }
    assert a == [a[0]] + a[1..] && b == [b[0]] + b[1..];
  }

  lemma {:induction false} CompareTransitive(a: seq<byte>, b: seq<byte>, c: seq<byte>)
    requires Compare(a, b) <= 0 && Compare(b, c) <= 0
    ensures Compare(a, c) <= 0
  {
    if a != [] && b != [] && c != [] && a[0] == b[0] == c[0] { CompareTransitive(a[1..], b[1..], c[1..]); }
  }

  lemma AtMostTransitive(a: seq<byte>, b: seq<byte>, c: seq<byte>)
    requires AtMost(a, b) && AtMost(b, c)
    ensures AtMost(a, c)
  {
    hide AtMost, Compare;
    CompareIsOrder(a, b);
    CompareIsOrder(b, c);
    CompareIsOrder(a, c);
    CompareTransitive(a, b, c);
  }

  lemma {:induction false} CompareTotal(a: seq<byte>, b: seq<byte>)
    ensures Compare(a, a) == 0
    ensures Compare(a, b) <= 0 || Compare(b, a) <= 0
    ensures Compare(a, b) == 0 <==> a == b
  {
    if a != [] { CompareTotal(a[1..], if b == [] then [] else b[1..]); }
    if a != [] && b != [] && a[0] == b[0] {
      assert a == [a[0]] + a[1..] && b == [b[0]] + b[1..];
    }
  }

  lemma AtMostTotal(a: seq<byte>, b: seq<byte>)
    ensures AtMost(a, a)
    ensures AtMost(a, b) || AtMost(b, a)
  {
    hide Compare;
    CompareTotal(a, b);
    CompareIsOrder(a, b);
    CompareIsOrder(b, a);
  }

  // ----- the starts the scan visits -----

  function NextStart(d: seq<byte>, i: nat): (n: nat)
    requires i < |d|
    ensures n > i
  {
    if Head(d, i) then
      assert d[i..i + Min(24, |d| - i)][0] == d[i];
      i + CandidateLength(d, i)
    else i + 1
  }

  predicate VisitedFrom(d: seq<byte>, from: nat, i: nat)
    decreases i - from
  {
    from == i || (from < i && from + 12 < |d| && VisitedFrom(d, NextStart(d, from), i))
  }

  predicate Visited(d: seq<byte>, i: nat) { i + 12 < |d| && VisitedFrom(d, 0, i) }

  /** A candidate that the scan keeps. */
  predicate Found(d: seq<byte>, i: nat) {
    Visited(d, i) && Head(d, i) && Accepted(Candidate(d, i))
  }

  /** None when nothing below `end` is kept, else the greatest candidate kept there. */
  ghost predicate IsBestBelow(d: seq<byte>, end: nat, r: Option<seq<byte>>) {
    match r
    case None => forall i: nat :: i < end ==> !Found(d, i)
    case Some(s) =>
      && (exists i: nat :: i < end && Found(d, i) && s == Candidate(d, i))
      && (forall i: nat :: i < end && Found(d, i) ==> AtMost(Candidate(d, i), s))
  }

  ghost predicate IsBest(d: seq<byte>, r: Option<seq<byte>>) { IsBestBelow(d, |d|, r) }

  lemma {:induction false} VisitedTrans(d: seq<byte>, from: nat, mid: nat, i: nat)
    requires VisitedFrom(d, from, mid) && VisitedFrom(d, mid, i)
    ensures VisitedFrom(d, from, i)
    decreases mid - from
  {
    if from < mid {
      VisitedTrans(d, NextStart(d, from), mid, i);
      VisitedForward(d, NextStart(d, from), i);
    }
  }

  lemma VisitedForward(d: seq<byte>, from: nat, i: nat)
    requires VisitedFrom(d, from, i)
    ensures from <= i
  {
  }

  /** Nothing strictly between two consecutive starts is visited. */
  lemma {:induction false} VisitedSkips(d: seq<byte>, from: nat, at: nat, i: nat)
    requires VisitedFrom(d, from, at) && at + 12 < |d| && VisitedFrom(d, from, i)
    requires at < i < NextStart(d, at)
    ensures false
    decreases at - from
  {
    if from < at {
      VisitedSkips(d, NextStart(d, from), at, i);
    } else {
      VisitedForward(d, NextStart(d, from), i);
    }
  }

  method DetectUnityVersion(d: seq<byte>) returns (best: Option<seq<byte>>)
    ensures IsBest(d, best)
  {
    hide Accepted, CandidateLength, AtMost, Compare, IsBestBelow;
    best := None;
    NothingBelowZero(d);
    var i := 0;
    while i + 12 < |d|
      invariant VisitedFrom(d, 0, i) && IsBestBelow(d, i, best)
      decreases |d| - i
    {
      ghost var at, was := i, best;
      if Head(d, i) {
        var s := Candidate(d, i);
        if Accepted(s) {
          if best.Some? { CompareIsOrder(s, best.value); }
          if best.None? || Compare(s, best.value) > 0 { best := Some(s); }
        }
        i := i + |s|;
      } else {
        i := i + 1;
      }
      assert i == NextStart(d, at);
      BestExtends(d, at, was, best);
      VisitedTrans(d, 0, at, i);
    }
    BestBeyondSearch(d, i, best);
  }

  lemma NothingBelowZero(d: seq<byte>)
    ensures IsBestBelow(d, 0, None)
  {
  }

  lemma BestExtends(d: seq<byte>, i: nat, was: Option<seq<byte>>, best: Option<seq<byte>>)
    requires i + 12 < |d| && VisitedFrom(d, 0, i) && IsBestBelow(d, i, was)
    requires var s := Candidate(d, i);
             best == if Head(d, i) && Accepted(s) && (was.None? || !AtMost(s, was.value)) then Some(s) else was
    ensures IsBestBelow(d, NextStart(d, i), best)
  {
    hide Accepted, CandidateLength, AtMost, Head, Candidate, VisitedFrom;
    forall j: nat | i < j < NextStart(d, i) ensures !Found(d, j) {
      if Found(d, j) { VisitedSkips(d, 0, i, j); }
    }
    if best != was {
      assert Found(d, i);
      BestIsGreater(d, i, was, best.value);
    } else if was.Some? {
      var k: nat :| k < i && Found(d, k) && was.value == Candidate(d, k);
    }
  }

  lemma BestIsGreater(d: seq<byte>, i: nat, was: Option<seq<byte>>, s: seq<byte>)
    requires IsBestBelow(d, i, was) && (was.Some? ==> !AtMost(s, was.value))
    ensures AtMost(s, s)
    ensures forall j: nat :: j < i && Found(d, j) ==> AtMost(Candidate(d, j), s)
  {
    hide AtMost, Candidate, Accepted, VisitedFrom;
    AtMostTotal(s, s);
    if was.Some? {
      AtMostTotal(was.value, s);
      forall j: nat | j < i && Found(d, j) ensures AtMost(Candidate(d, j), s) {
        AtMostTransitive(Candidate(d, j), was.value, s);
      }
    }
  }

  lemma BestBeyondSearch(d: seq<byte>, i: nat, best: Option<seq<byte>>)
    requires IsBestBelow(d, i, best) && i + 12 >= |d|
    ensures IsBest(d, best)
  {
    hide Accepted, CandidateLength, AtMost, Head, Candidate;
  }

  // ----- the skips lose nothing that stands alone -----

  /** The starts that are skipped are exactly those inside an earlier head's candidate. */
  lemma VisitedIff(d: seq<byte>, j: nat)
    requires j + 12 < |d|
    ensures Visited(d, j) <==>
            !exists i: nat :: Visited(d, i) && Head(d, i) && i < j < i + CandidateLength(d, i)
  {
    hide Head, CandidateLength;
    if Visited(d, j) {
      forall i: nat | Visited(d, i) && Head(d, i) && i < j < i + CandidateLength(d, i) ensures false {
        VisitedSkips(d, 0, i, j);
      }
    } else {
      var i := StartBefore(d, 0, j);
      assert Visited(d, i);
    }
  }

  /** The last start at or before `j`. */
  lemma {:induction false} StartBefore(d: seq<byte>, from: nat, j: nat) returns (i: nat)
    requires from <= j && j + 12 < |d| && VisitedFrom(d, 0, from)
    ensures i <= j < NextStart(d, i) && VisitedFrom(d, 0, i)
    decreases j - from
  {
    hide Head, CandidateLength;
    if NextStart(d, from) > j {
      i := from;
    } else {
      VisitedTrans(d, 0, from, NextStart(d, from));
      i := StartBefore(d, NextStart(d, from), j);
    }
  }

  /** A start is visited unless an earlier head reaches it through run bytes. */
  lemma {:induction false} UnreachedIsVisited(d: seq<byte>, from: nat, i: nat)
    requires from <= i && i + 12 < |d|
    requires forall j: nat :: from <= j < i && Head(d, j) ==> exists k :: j <= k < i && !RunByte(d[k])
    ensures VisitedFrom(d, from, i)
    decreases i - from
  {
    if from < i {
      var n := NextStart(d, from);
      assert n <= i;
      UnreachedIsVisited(d, n, i);
    }
  }

  /** `20dd.n.nLn`: the engine's version grammar. */
  predicate WellFormed(w: seq<byte>, p: nat, q: nat) {
    && 8 <= |w| <= 20
    && 5 < p < q - 1 && q + 1 < |w|
    && w[0] == '2' as int && w[1] == '0' as int && Digit(w[2]) && Digit(w[3]) && w[4] == DOT
    && w[p] == DOT && w[q] in LETTERS
    && forall j :: 5 <= j < |w| && j != p && j != q ==> Digit(w[j])
  }

  lemma {:induction false} DotsOutside(w: seq<byte>, k: nat)
    requires k <= |w| && forall j :: k <= j < |w| ==> w[j] != DOT
    ensures CountDots(w) == CountDots(w[..k])
    decreases |w|
  {
    if |w| == k {
      assert w[..k] == w;
    } else {
      DotsOutside(w[..|w| - 1], k);
      assert w[..|w| - 1][..k] == w[..k];
    }
  }

  lemma WellFormedAccepted(w: seq<byte>, p: nat, q: nat)
    requires WellFormed(w, p, q)
    ensures Accepted(w)
  {
    DotsOutside(w, p + 1);
    assert w[..p + 1][..p] == w[..p];
    DotsOutside(w[..p], 5);
    assert w[..p][..5] == w[..5] && w[..5][..4] == w[..4];
    DotsOutside(w[..4], 0);
    assert w[q] in w;
  }

  lemma CandidateIs(d: seq<byte>, i: nat, w: seq<byte>)
    requires i + |w| <= |d| && d[i..i + |w|] == w && |w| <= 20
    requires forall j :: 0 <= j < |w| ==> RunByte(w[j])
    requires i + |w| == |d| || !RunByte(d[i + |w|])
    ensures Candidate(d, i) == w
  {
    var window := d[i..i + Min(24, |d| - i)];
    forall j | 0 <= j < |w| ensures window[j] == w[j] { assert d[i..i + |w|][j] == d[i + j]; }
    RunEndIs(window, 0, |w|);
  }

  lemma {:induction false} RunEndIs(w: seq<byte>, k: nat, e: nat)
    requires k <= e <= |w| && forall j :: k <= j < e ==> RunByte(w[j])
    requires e < |w| ==> !RunByte(w[e])
    ensures RunEnd(w, k) == e
    decreases e - k
  {
    if k < e { RunEndIs(w, k + 1, e); }
  }

  /** A string that the scan takes for a version: the shape of a head, run bytes only, and
      accepted by the filters. */
  predicate IsVersion(w: seq<byte>) {
    && Accepted(w)
    && w[0] == '2' as int && w[1] == '0' as int && Digit(w[2]) && Digit(w[3]) && w[4] == DOT && Digit(w[5])
    && forall j :: 0 <= j < |w| ==> RunByte(w[j])
  }

  lemma WellFormedIsVersion(w: seq<byte>, p: nat, q: nat)
    requires WellFormed(w, p, q)
    ensures IsVersion(w)
  {
    WellFormedAccepted(w, p, q);
    hide Accepted;
    assert Digit(w[5]);
  }

  /** Completeness: a version that stands between non-run bytes (or the ends of the file) is
      kept exactly when more than twelve bytes remain from its start, and then the answer is
      at least as great. */
  lemma IsolatedVersionFound(pre: seq<byte>, w: seq<byte>, post: seq<byte>, r: Option<seq<byte>>)
    requires IsVersion(w)
    requires pre == [] || !RunByte(pre[|pre| - 1])
    requires post == [] || !RunByte(post[0])
    requires IsBest(pre + w + post, r)
    ensures Found(pre + w + post, |pre|) <==> |w| + |post| > 12
    ensures |w| + |post| > 12 ==> r.Some? && AtMost(w, r.value)
  {
    hide IsBestBelow, RunByte, IsVersion;
    var d, i := pre + w + post, |pre|;
    if |w| + |post| > 12 {
      Surroundings(pre, w, post);
      IsolatedFound(d, i, w);
      BestIsAtLeast(d, i, r);
    }
  }

  lemma Surroundings(pre: seq<byte>, w: seq<byte>, post: seq<byte>)
    ensures var d := pre + w + post;
            && d[|pre|..|pre| + |w|] == w
            && (pre != [] ==> d[|pre| - 1] == pre[|pre| - 1])
            && (post != [] ==> d[|pre| + |w|] == post[0])
  {
  }

  lemma BestIsAtLeast(d: seq<byte>, i: nat, r: Option<seq<byte>>)
    requires Found(d, i) && IsBest(d, r)
    ensures r.Some? && AtMost(Candidate(d, i), r.value)
  {
    hide Accepted, Head, Candidate, CandidateLength, VisitedFrom, AtMost;
  }

  lemma IsolatedFound(d: seq<byte>, i: nat, w: seq<byte>)
    requires IsVersion(w) && i + |w| <= |d| && d[i..i + |w|] == w && i + 12 < |d|
    requires i > 0 ==> !RunByte(d[i - 1])
    requires i + |w| < |d| ==> !RunByte(d[i + |w|])
    ensures Found(d, i) && Candidate(d, i) == w
  {
    hide VisitedFrom, CandidateLength, RunByte;
    CandidateIs(d, i, w);
    UnreachedIsVisited(d, 0, i);
    HeadOfVersion(d, i, w);
  }

  lemma HeadOfVersion(d: seq<byte>, i: nat, w: seq<byte>)
    requires IsVersion(w) && i + |w| <= |d| && d[i..i + |w|] == w && i + 12 < |d|
    ensures Head(d, i)
  {
    hide CountDots, RunByte, Digit;
    assert d[i] == w[0] && d[i + 1] == w[1] && d[i + 2] == w[2] && d[i + 3] == w[3];
    assert d[i + 4] == w[4] && d[i + 5] == w[5];
  }
}
