/** Literal substring replacement with the semantics of Python's `str.replace(old, new)`:
    every leftmost, non-overlapping occurrence of `old` is replaced, scanning left to right,
    and an empty `old` inserts `new` before every character and at the end. */
module Text {

  type String = seq<char>

  /** `c` occurs in `s` starting at position `i`. */
  predicate OccursAt(s: String, c: String, i: nat)
  {
    i + |c| <= |s| && s[i..i + |c|] == c
  }

  /** `c` occurs somewhere in `s` (Python's `c in s`). */
  predicate Occurs(s: String, c: String)
  {
    exists i: nat | i <= |s| :: OccursAt(s, c, i)
  }

  /** Python's `s.endswith(p)`. */
  predicate EndsWith(s: String, p: String)
  {
    |p| <= |s| && s[|s| - |p|..] == p
  }

  /** `s.replace("", r)`: `r` before every character of `s` and once more at the end. */
  function Interleave(s: String, r: String): String
  {
    if s == [] then r else r + [s[0]] + Interleave(s[1..], r)
  }

  /** Python's `s.count(c)`: the number of leftmost non-overlapping occurrences of `c`,
      and `|s| + 1` for the empty `c`. */
  function MatchCount(s: String, c: String): nat
    decreases |s|
  {
    if c == [] then |s| + 1
    else if |s| < |c| then 0
    else if s[..|c|] == c then 1 + MatchCount(s[|c|..], c)
    else MatchCount(s[1..], c)
  }

  /** Python's `s.replace(c, r)`. */
  function ReplaceAll(s: String, c: String, r: String): String
    decreases |s|
  {
    if c == [] then Interleave(s, r)
    else if |s| < |c| then s
    else if s[..|c|] == c then r + ReplaceAll(s[|c|..], c, r)
    else [s[0]] + ReplaceAll(s[1..], c, r)
  }

  lemma {:induction false} InterleaveLength(s: String, r: String)
    ensures |Interleave(s, r)| == |s| + (|s| + 1) * |r|
  {
    if s != [] {
      InterleaveLength(s[1..], r);
      assert (|s| - 1 + 1) * |r| + |r| == (|s| + 1) * |r|;
    }
  }

  lemma MatchCountMatchStep(s: String, c: String)
    requires c != [] && |s| >= |c| && s[..|c|] == c
    ensures MatchCount(s, c) == 1 + MatchCount(s[|c|..], c)
  {
  }

  lemma MatchCountSkipStep(s: String, c: String)
    requires c != [] && |s| >= |c| && s[..|c|] != c
    ensures MatchCount(s, c) == MatchCount(s[1..], c)
  {
  }

  lemma MulSucc(k: int, d: int)
    ensures (k + 1) * d == k * d + d
  {
  }

  lemma ReplaceLengthMatch(s: String, c: String, r: String, k: nat)
    requires c != [] && |s| >= |c| && s[..|c|] == c && k == MatchCount(s[|c|..], c)
    requires |ReplaceAll(s[|c|..], c, r)| == |s| - |c| + k * (|r| - |c|)
    ensures |ReplaceAll(s, c, r)| == |s| + MatchCount(s, c) * (|r| - |c|)
  {
    ReplaceMatchStep(s, c, r);
    MatchCountMatchStep(s, c);
    MulSucc(k, |r| - |c|);
  }

  lemma ReplaceLengthSkip(s: String, c: String, r: String)
    requires c != [] && |s| >= |c| && s[..|c|] != c
    requires |ReplaceAll(s[1..], c, r)| == |s| - 1 + MatchCount(s[1..], c) * (|r| - |c|)
    ensures |ReplaceAll(s, c, r)| == |s| + MatchCount(s, c) * (|r| - |c|)
  {
    ReplaceSkipStep(s, c, r);
    MatchCountSkipStep(s, c);
  }

  /** Each of the `MatchCount(s, c)` matches trades `|c|` characters for `|r|`. */
  lemma {:induction false} ReplaceAllLength(s: String, c: String, r: String)
    ensures |ReplaceAll(s, c, r)| == |s| + MatchCount(s, c) * (|r| - |c|)
    decreases |s|
  {
    if c == [] {
      InterleaveLength(s, r);
    } else if |s| < |c| {
    } else if s[..|c|] == c {
      ReplaceAllLength(s[|c|..], c, r);
      ReplaceLengthMatch(s, c, r, MatchCount(s[|c|..], c));
    } else {
      ReplaceAllLength(s[1..], c, r);
      ReplaceLengthSkip(s, c, r);
    }
  }

  /** Python's `sep.join(pieces)`. */
  function Join(pieces: seq<String>, sep: String): String
  {
    if pieces == [] then []
    else if |pieces| == 1 then pieces[0]
    else pieces[0] + sep + Join(pieces[1..], sep)
  }

  /** Python's `s.split(c)` for a non-empty separator: the text between consecutive
      leftmost non-overlapping matches. */
  function Split(s: String, c: String): (pieces: seq<String>)
    requires c != []
    ensures |pieces| == MatchCount(s, c) + 1
    decreases |s|
  {
    if |s| < |c| then [s]
    else if s[..|c|] == c then [[]] + Split(s[|c|..], c)
    else
      var t := Split(s[1..], c);
      [[s[0]] + t[0]] + t[1..]
  }

  lemma JoinConsFirst(x: char, t: seq<String>, sep: String)
    requires t != []
    ensures Join([[x] + t[0]] + t[1..], sep) == [x] + Join(t, sep)
  {
    var u := [[x] + t[0]] + t[1..];
    assert u[1..] == t[1..];
  }

  lemma JoinConsEmpty(t: seq<String>, sep: String)
    requires t != []
    ensures Join([[]] + t, sep) == sep + Join(t, sep)
  {
    var u := [[]] + t;
    assert u[0] == [] && u[1..] == t;
  }

  lemma SplitMatchStep(s: String, c: String)
    requires c != [] && |s| >= |c| && s[..|c|] == c
    ensures Split(s, c) == [[]] + Split(s[|c|..], c)
  {
  }

  lemma SplitSkipStep(s: String, c: String)
    requires c != [] && |s| >= |c| && s[..|c|] != c
    ensures var t := Split(s[1..], c); Split(s, c) == [[s[0]] + t[0]] + t[1..]
  {
  }

  lemma SplitAt(s: String, k: nat)
    requires k <= |s|
    ensures s == s[..k] + s[k..]
  {
  }

  lemma HeadTail(s: String)
    requires s != []
    ensures s == [s[0]] + s[1..]
  {
  }

  lemma SplitJoinMatch(s: String, c: String)
    requires c != [] && |s| >= |c| && s[..|c|] == c
    requires Join(Split(s[|c|..], c), c) == s[|c|..]
    ensures Join(Split(s, c), c) == s
  {
    var t := Split(s[|c|..], c);
    SplitMatchStep(s, c);
    JoinConsEmpty(t, c);
    SplitAt(s, |c|);
  }

  lemma SplitJoinSkip(s: String, c: String)
    requires c != [] && |s| >= |c| && s[..|c|] != c
    requires Join(Split(s[1..], c), c) == s[1..]
    ensures Join(Split(s, c), c) == s
  {
    SplitSkipStep(s, c);
    JoinConsFirst(s[0], Split(s[1..], c), c);
    HeadTail(s);
  }

  /** Splitting at `c` and joining the pieces with `c` gives back the text. */
  lemma {:induction false} SplitJoin(s: String, c: String)
    requires c != []
    ensures Join(Split(s, c), c) == s
    decreases |s|
  {
    if |s| < |c| {
    } else if s[..|c|] == c {
      SplitJoin(s[|c|..], c);
      SplitJoinMatch(s, c);
    } else {
      SplitJoin(s[1..], c);
      SplitJoinSkip(s, c);
    }
  }

  /** `c` occurs at `k + i` in `s` exactly when it occurs at `i` in `s[k..]`. */
  lemma OccursShift(s: String, c: String, k: nat, i: nat)
    requires k <= |s|
    ensures OccursAt(s[k..], c, i) <==> OccursAt(s, c, k + i)
  {
    if k + i + |c| <= |s| {
      assert s[k..][i..i + |c|] == s[k + i..k + i + |c|];
    }
  }

  /** The first piece of a split is the text before the leftmost occurrence of `c`, or the
      whole text when there is none; the other pieces split what follows that occurrence. */
  ghost predicate FirstPieceIsLeftmost(s: String, c: String)
    requires c != []
  {
    var pieces := Split(s, c);
    && (forall j: nat :: j < |pieces[0]| ==> !OccursAt(s, c, j))
    && (|pieces| == 1 ==> pieces[0] == s)
    && (|pieces| > 1 ==>
          && |pieces[0]| + |c| <= |s|
          && s[..|pieces[0]|] == pieces[0]
          && OccursAt(s, c, |pieces[0]|)
          && pieces[1..] == Split(s[|pieces[0]| + |c|..], c))
  }

  lemma FirstPieceAtMatch(s: String, c: String)
    requires c != [] && |s| >= |c| && s[..|c|] == c
    ensures FirstPieceIsLeftmost(s, c)
  {
    SplitMatchStep(s, c);
    var pieces := Split(s, c);
    assert pieces[0] == [] && pieces[1..] == Split(s[|c|..], c);
    assert OccursAt(s, c, 0);
  }

  lemma SkippedCharHoldsNoMatch(s: String, c: String, q: String)
    requires c != [] && |s| >= |c| && s[..|c|] != c
    requires forall j: nat :: j < |q| ==> !OccursAt(s[1..], c, j)
    ensures forall j: nat :: j < 1 + |q| ==> !OccursAt(s, c, j)
  {
    forall j: nat | j < 1 + |q|
      ensures !OccursAt(s, c, j)
    {
      if j > 0 {
        OccursShift(s, c, 1, j - 1);
      }
    }
  }

  lemma SkippedCharShiftsMatch(s: String, c: String, q: String)
    requires s != [] && |q| + |c| <= |s| - 1
    requires s[1..][..|q|] == q && OccursAt(s[1..], c, |q|)
    ensures s[..1 + |q|] == [s[0]] + q && OccursAt(s, c, 1 + |q|)
    ensures s[1..][|q| + |c|..] == s[1 + |q| + |c|..]
  {
    OccursShift(s, c, 1, |q|);
  }

  lemma ConsPiece(x: char, t: seq<String>)
    requires t != []
    ensures var u := [[x] + t[0]] + t[1..]; |u| == |t| && u[0] == [x] + t[0] && u[1..] == t[1..]
  {
  }

  lemma FirstPieceAfterSkip(s: String, c: String)
    requires c != [] && |s| >= |c| && s[..|c|] != c
    requires FirstPieceIsLeftmost(s[1..], c)
    ensures FirstPieceIsLeftmost(s, c)
  {
    SplitSkipStep(s, c);
    var t := Split(s[1..], c);
    ConsPiece(s[0], t);
    SkippedCharHoldsNoMatch(s, c, t[0]);
    if |t| == 1 {
      HeadTail(s);
    } else {
      SkippedCharShiftsMatch(s, c, t[0]);
      var rest := Split(s[1 + |t[0]| + |c|..], c);
      assert t[1..] == rest;
      assert Split(s, c)[1..] == rest;
    }
  }

  /** Splitting scans for the leftmost occurrence, as `str.split` does. */
  lemma {:induction false} SplitFirstPiece(s: String, c: String)
    requires c != []
    ensures FirstPieceIsLeftmost(s, c)
    decreases |s|
  {
    if |s| < |c| {
      assert Split(s, c) == [s];
    } else if s[..|c|] == c {
      FirstPieceAtMatch(s, c);
    } else {
      SplitFirstPiece(s[1..], c);
      FirstPieceAfterSkip(s, c);
    }
  }

  /** Where the `k`-th piece of a split starts in the text: after every earlier piece and
      the separator that follows it. */
  ghost function PieceStart(pieces: seq<String>, sepLength: nat, k: nat): nat
    requires k < |pieces|
  {
    if k == 0 then 0 else |pieces[0]| + sepLength + PieceStart(pieces[1..], sepLength, k - 1)
  }

  /** No occurrence of `c` in `s` starts inside one of `pieces`, each piece taken at the
      place where it starts when the pieces are laid out with a separator of length `|c|`
      between them. */
  ghost predicate PiecesHoldNoMatch(s: String, c: String, pieces: seq<String>)
  {
    forall k: nat, i: nat ::
      (k < |pieces| && PieceStart(pieces, |c|, k) <= i < PieceStart(pieces, |c|, k) + |pieces[k]|)
      ==> !OccursAt(s, c, i)
  }

  lemma PiecesHoldNoMatchCons(s: String, c: String, pieces: seq<String>)
    requires |pieces| > 1 && |pieces[0]| + |c| <= |s|
    requires forall j: nat :: j < |pieces[0]| ==> !OccursAt(s, c, j)
    requires PiecesHoldNoMatch(s[|pieces[0]| + |c|..], c, pieces[1..])
    ensures PiecesHoldNoMatch(s, c, pieces)
  {
    var skip := |pieces[0]| + |c|;
    forall k: nat, i: nat |
      k < |pieces| && PieceStart(pieces, |c|, k) <= i < PieceStart(pieces, |c|, k) + |pieces[k]|
      ensures !OccursAt(s, c, i)
    {
      if k > 0 {
        assert PieceStart(pieces, |c|, k) == skip + PieceStart(pieces[1..], |c|, k - 1);
        assert pieces[k] == pieces[1..][k - 1];
        OccursShift(s, c, skip, i - skip);
      }
    }
  }

  /** No occurrence of `c` starts inside a piece of `Split(s, c)`: every match is a
      separator or begins inside one, so the split neither skips nor invents an occurrence. */
  lemma {:induction false} SplitPiecesHoldNoMatch(s: String, c: String)
    requires c != []
    ensures PiecesHoldNoMatch(s, c, Split(s, c))
    decreases |s|
  {
    var pieces := Split(s, c);
    SplitFirstPiece(s, c);
    if |pieces| > 1 {
      var t := s[|pieces[0]| + |c|..];
      SplitPiecesHoldNoMatch(t, c);
      PiecesHoldNoMatchCons(s, c, pieces);
    }
  }

  lemma ReplaceJoinMatch(s: String, c: String, r: String)
    requires c != [] && |s| >= |c| && s[..|c|] == c
    requires ReplaceAll(s[|c|..], c, r) == Join(Split(s[|c|..], c), r)
    ensures ReplaceAll(s, c, r) == Join(Split(s, c), r)
  {
    ReplaceMatchStep(s, c, r);
    SplitMatchStep(s, c);
    JoinConsEmpty(Split(s[|c|..], c), r);
  }

  lemma ReplaceJoinSkip(s: String, c: String, r: String)
    requires c != [] && |s| >= |c| && s[..|c|] != c
    requires ReplaceAll(s[1..], c, r) == Join(Split(s[1..], c), r)
    ensures ReplaceAll(s, c, r) == Join(Split(s, c), r)
  {
    ReplaceSkipStep(s, c, r);
    SplitSkipStep(s, c);
    JoinConsFirst(s[0], Split(s[1..], c), r);
  }

  /** `s.replace(c, r) == r.join(s.split(c))`: replacement is splitting at the matches and
      joining with the replacement. */
  lemma {:induction false} ReplaceIsJoinOfSplit(s: String, c: String, r: String)
    requires c != []
    ensures ReplaceAll(s, c, r) == Join(Split(s, c), r)
    decreases |s|
  {
    if |s| < |c| {
    } else if s[..|c|] == c {
      ReplaceIsJoinOfSplit(s[|c|..], c, r);
      ReplaceJoinMatch(s, c, r);
    } else {
      ReplaceIsJoinOfSplit(s[1..], c, r);
      ReplaceJoinSkip(s, c, r);
    }
  }

  lemma OccursTail(s: String, c: String)
    requires s != []
    ensures Occurs(s, c) <==> OccursAt(s, c, 0) || Occurs(s[1..], c)
  {
    if Occurs(s, c) {
      var i: nat :| i <= |s| && OccursAt(s, c, i);
      if i > 0 {
        assert s[1..][i - 1..i - 1 + |c|] == s[i..i + |c|];
        assert OccursAt(s[1..], c, i - 1);
      }
    }
    var t := s[1..];
    if Occurs(t, c) {
      var i: nat :| i <= |t| && OccursAt(t, c, i);
      assert t[i..i + |c|] == s[i + 1..i + 1 + |c|];
      assert OccursAt(s, c, i + 1);
    }
  }

  /** A non-empty `c` has no match to count exactly when it does not occur. */
  lemma {:induction false} CountZeroIffAbsent(s: String, c: String)
    requires c != []
    ensures MatchCount(s, c) == 0 <==> !Occurs(s, c)
    decreases |s|
  {
    if |s| < |c| {
      assert forall i: nat :: !OccursAt(s, c, i);
    } else if s[..|c|] == c {
      assert OccursAt(s, c, 0);
    } else {
      OccursTail(s, c);
      CountZeroIffAbsent(s[1..], c);
    }
  }

  /** Replacing a non-empty `c` that does not occur changes nothing. */
  lemma {:induction false} ReplaceAbsent(s: String, c: String, r: String)
    requires c != [] && !Occurs(s, c)
    ensures ReplaceAll(s, c, r) == s
    decreases |s|
  {
    if |s| >= |c| {
      assert !OccursAt(s, c, 0);
      OccursTail(s, c);
      ReplaceAbsent(s[1..], c, r);
      assert s == [s[0]] + s[1..];
    }
  }

  /** A text without the first character of `c` does not contain `c`. */
  lemma FirstCharAbsent(s: String, c: String)
    requires c != [] && c[0] !in s
    ensures !Occurs(s, c)
  {
    forall i: nat
      ensures !OccursAt(s, c, i)
    {
      if i + |c| <= |s| {
        assert s[i] in s;
        assert s[i..i + |c|][0] == s[i];
      }
    }
  }

  lemma ReplaceSkipsChar(p: String, q: String, c: String, r: String)
    requires c != [] && p != [] && c[0] != p[0] && |p + q| >= |c|
    requires ReplaceAll(p[1..] + q, c, r) == p[1..] + ReplaceAll(q, c, r)
    ensures ReplaceAll(p + q, c, r) == p + ReplaceAll(q, c, r)
  {
    JoinedTail(p, q);
    assert (p + q)[..|c|] != c by {
      assert (p + q)[..|c|][0] == p[0];
    }
    ReplaceSkipStep(p + q, c, r);
    AppendAssoc([p[0]], p[1..], ReplaceAll(q, c, r));
    HeadTail(p);
  }

  /** A prefix without the first character of `c` holds no match and is copied unchanged. */
  lemma {:induction false} ReplaceSkipsPrefix(p: String, q: String, c: String, r: String)
    requires c != [] && c[0] !in p
    ensures ReplaceAll(p + q, c, r) == p + ReplaceAll(q, c, r)
    decreases |p|
  {
    if p != [] {
      assert p[0] in p;
      if |p + q| < |c| {
        assert |q| < |c|;
      } else {
        assert c[0] !in p[1..] by {
          assert forall x :: x in p[1..] ==> x in p;
        }
        ReplaceSkipsPrefix(p[1..], q, c, r);
        ReplaceSkipsChar(p, q, c, r);
      }
    } else {
      assert p + q == q;
    }
  }

  /** When the first character of `c` occurs only where `c` itself stands, that one
      match is the only thing replaced. */
  lemma ReplaceSingleMatch(p: String, q: String, c: String, r: String)
    requires c != [] && c[0] !in p && c[0] !in q
    ensures ReplaceAll(p + c + q, c, r) == p + r + q
  {
    assert p + c + q == p + (c + q);
    ReplaceSkipsPrefix(p, c + q, c, r);
    assert (c + q)[..|c|] == c && (c + q)[|c|..] == q;
    FirstCharAbsent(q, c);
    ReplaceAbsent(q, c, r);
  }

  lemma PrefixSlices(c: String, t: String)
    ensures (c + t)[..|c|] == c && (c + t)[|c|..] == t
  {
  }

  lemma Regroup(a: String, b: String, x: String, y: String)
    ensures a + b + x + y == a + (b + (x + y))
  {
  }

  /** `c` on its own becomes `r`. */
  lemma ReplaceWhole(c: String, r: String)
    requires c != []
    ensures ReplaceAll(c, c, r) == r
  {
    PrefixSlices(c, []);
    assert c + [] == c;
    ReplaceMatchStep(c, c, r);
    ReplaceShort([], c, r);
    assert r + [] == r;
  }

  /** Two matches separated by text free of the first character of `c` are both replaced. */
  lemma ReplaceTwoMatches(p: String, q: String, c: String, r: String)
    requires c != [] && c[0] !in p && c[0] !in q
    ensures ReplaceAll(p + c + q + c, c, r) == p + r + q + r
  {
    var tail := c + (q + c);
    Regroup(p, c, q, c);
    ReplaceSkipsPrefix(p, tail, c, r);
    PrefixSlices(c, q + c);
    ReplaceMatchStep(tail, c, r);
    ReplaceSkipsPrefix(q, c, c, r);
    ReplaceWhole(c, r);
    Regroup(p, r, q, r);
  }

  lemma {:induction false} InterleaveEmpty(s: String)
    ensures Interleave(s, []) == s
  {
    if s != [] {
      InterleaveEmpty(s[1..]);
      assert s == [s[0]] + s[1..];
    }
  }

  /** Replacing `c` by itself changes nothing, the empty `c` included. */
  lemma {:induction false} ReplaceSelf(s: String, c: String)
    ensures ReplaceAll(s, c, c) == s
    decreases |s|
  {
    if c == [] {
      InterleaveEmpty(s);
    } else if |s| < |c| {
    } else if s[..|c|] == c {
      ReplaceSelf(s[|c|..], c);
      assert s == s[..|c|] + s[|c|..];
    } else {
      ReplaceSelf(s[1..], c);
      assert s == [s[0]] + s[1..];
    }
  }

  /** One replace-all pass does not remove every occurrence of `c`: a match can be formed
      across the boundary of a replacement, although `r` itself does not contain `c`. */
  lemma ReplaceCanLeaveMatch()
    ensures !Occurs("a", "ab") && MatchCount("aabb", "ab") == 1
    ensures ReplaceAll("aabb", "ab", "a") == "aab" && Occurs("aab", "ab")
  {
    assert "aabb"[..2][1] != "ab"[1];
    assert "aabb"[1..] == "abb";
    assert "abb"[..2] == "ab";
    assert "abb"[2..] == "b";
    assert OccursAt("aab", "ab", 1);
    assert forall i: nat :: !OccursAt("a", "ab", i);
  }

  /** No proper suffix of `c` is also a prefix of `c`: two occurrences of `c` cannot overlap. */
  predicate Unbordered(c: String)
  {
    forall k :: 0 < k < |c| ==> c[k..] != c[..|c| - k]
  }

  /** A text whose first character does not occur again cannot overlap itself. */
  lemma FirstCharUniqueUnbordered(c: String)
    requires c != [] && c[0] !in c[1..]
    ensures Unbordered(c)
  {
    forall k | 0 < k < |c|
      ensures c[k..] != c[..|c| - k]
    {
      assert c[k] in c[1..];
      assert c[k..][0] != c[..|c| - k][0];
    }
  }

  /** Two occurrences of `c` less than `|c|` apart make a border of `c`. */
  lemma OverlapIsBorder(s: String, c: String, a: nat, d: nat)
    requires 0 < d < |c| && OccursAt(s, c, a) && OccursAt(s, c, a + d)
    ensures c[d..] == c[..|c| - d]
  {
    assert c[d..] == s[a..a + |c|][d..];
    assert s[a..a + |c|][d..] == s[a + d..a + |c|];
    assert c[..|c| - d] == s[a + d..a + d + |c|][..|c| - d];
    assert s[a + d..a + d + |c|][..|c| - d] == s[a + d..a + |c|];
  }

  /** Every occurrence of `c` in `s` is where one of the separators between `pieces` starts. */
  ghost predicate MatchesAreSeparators(s: String, c: String, pieces: seq<String>)
  {
    forall i: nat :: OccursAt(s, c, i) ==>
      exists k: nat :: k + 1 < |pieces| && i == PieceStart(pieces, |c|, k) + |pieces[k]|
  }

  lemma MatchesAreSeparatorsCons(s: String, c: String, pieces: seq<String>)
    requires c != [] && Unbordered(c)
    requires |pieces| > 1 && |pieces[0]| + |c| <= |s|
    requires forall j: nat :: j < |pieces[0]| ==> !OccursAt(s, c, j)
    requires OccursAt(s, c, |pieces[0]|)
    requires MatchesAreSeparators(s[|pieces[0]| + |c|..], c, pieces[1..])
    ensures MatchesAreSeparators(s, c, pieces)
  {
    var skip := |pieces[0]| + |c|;
    forall i: nat | OccursAt(s, c, i)
      ensures exists k: nat :: k + 1 < |pieces| && i == PieceStart(pieces, |c|, k) + |pieces[k]|
    {
      if i == |pieces[0]| {
        assert PieceStart(pieces, |c|, 0) == 0;
      } else if i < skip {
        assert |pieces[0]| < i;
        OverlapIsBorder(s, c, |pieces[0]|, i - |pieces[0]|);
        assert false;
      } else {
        OccursShift(s, c, skip, i - skip);
        var k': nat :| k' + 1 < |pieces[1..]|
          && i - skip == PieceStart(pieces[1..], |c|, k') + |pieces[1..][k']|;
        assert PieceStart(pieces, |c|, k' + 1) == skip + PieceStart(pieces[1..], |c|, k');
        assert pieces[k' + 1] == pieces[1..][k'];
      }
    }
  }

  /** When `c` cannot overlap itself, every occurrence of `c` is a separator of
      `Split(s, c)`: with `ReplaceIsJoinOfSplit`, replace-all rewrites every occurrence. */
  lemma {:induction false} EveryMatchIsSeparator(s: String, c: String)
    requires c != [] && Unbordered(c)
    ensures MatchesAreSeparators(s, c, Split(s, c))
    decreases |s|
  {
    var pieces := Split(s, c);
    SplitFirstPiece(s, c);
    if |pieces| == 1 {
      assert forall i: nat :: !OccursAt(s, c, i);
    } else {
      var t := s[|pieces[0]| + |c|..];
      EveryMatchIsSeparator(t, c);
      MatchesAreSeparatorsCons(s, c, pieces);
    }
  }

  lemma EarlyMatchIsBorder(q: String, c: String)
    requires 0 < |q| < |c| && (q + c)[..|c|] == c
    ensures c[|q|..] == c[..|c| - |q|]
  {
    var s := q + c;
    assert s[|q|..|c|] == c[..|c| - |q|];
    assert s[|q|..|c|] == s[..|c|][|q|..];
  }

  lemma JoinedSlices(q: String, c: String)
    requires |q| >= |c|
    ensures (q + c)[..|c|] == q[..|c|] && (q + c)[|c|..] == q[|c|..] + c
  {
  }

  lemma JoinedTail(q: String, c: String)
    requires q != []
    ensures (q + c)[0] == q[0] && (q + c)[1..] == q[1..] + c
  {
  }

  lemma AppendAssoc(a: String, b: String, c: String)
    ensures a + (b + c) == (a + b) + c
  {
  }

  lemma TrailingMatchAfterMatch(q: String, c: String, r: String)
    requires c != [] && |q| >= |c| && q[..|c|] == c
    requires ReplaceAll(q[|c|..] + c, c, r) == ReplaceAll(q[|c|..], c, r) + r
    ensures ReplaceAll(q + c, c, r) == ReplaceAll(q, c, r) + r
  {
    JoinedSlices(q, c);
    ReplaceMatchStep(q + c, c, r);
    ReplaceMatchStep(q, c, r);
    AppendAssoc(r, ReplaceAll(q[|c|..], c, r), r);
  }

  lemma TrailingMatchAfterShortSkip(q: String, c: String, r: String)
    requires c != [] && q != [] && |q| < |c|
    requires ReplaceAll(q + c, c, r) == [q[0]] + ReplaceAll(q[1..] + c, c, r)
    requires ReplaceAll(q[1..] + c, c, r) == ReplaceAll(q[1..], c, r) + r
    ensures ReplaceAll(q + c, c, r) == ReplaceAll(q, c, r) + r
  {
    ReplaceShort(q[1..], c, r);
    ReplaceShort(q, c, r);
    AppendAssoc([q[0]], q[1..], r);
    assert q == [q[0]] + q[1..];
  }

  lemma TrailingMatchAfterLongSkip(q: String, c: String, r: String)
    requires c != [] && q != [] && |q| >= |c| && q[..|c|] != c
    requires ReplaceAll(q + c, c, r) == [q[0]] + ReplaceAll(q[1..] + c, c, r)
    requires ReplaceAll(q[1..] + c, c, r) == ReplaceAll(q[1..], c, r) + r
    ensures ReplaceAll(q + c, c, r) == ReplaceAll(q, c, r) + r
  {
    ReplaceSkipStep(q, c, r);
    AppendAssoc([q[0]], ReplaceAll(q[1..], c, r), r);
  }

  lemma TrailingMatchAfterSkip(q: String, c: String, r: String)
    requires c != [] && q != [] && (q + c)[..|c|] != c
    requires ReplaceAll(q[1..] + c, c, r) == ReplaceAll(q[1..], c, r) + r
    ensures ReplaceAll(q + c, c, r) == ReplaceAll(q, c, r) + r
  {
    ReplaceSkipStep(q + c, c, r);
    JoinedTail(q, c);
    if |q| < |c| {
      TrailingMatchAfterShortSkip(q, c, r);
    } else {
      JoinedSlices(q, c);
      TrailingMatchAfterLongSkip(q, c, r);
    }
  }

  lemma ReplaceShort(s: String, c: String, r: String)
    requires c != [] && |s| < |c|
    ensures ReplaceAll(s, c, r) == s
  {
  }

  lemma ReplaceMatchStep(s: String, c: String, r: String)
    requires c != [] && |s| >= |c| && s[..|c|] == c
    ensures ReplaceAll(s, c, r) == r + ReplaceAll(s[|c|..], c, r)
  {
  }

  lemma ReplaceSkipStep(s: String, c: String, r: String)
    requires c != [] && |s| >= |c| && s[..|c|] != c
    ensures ReplaceAll(s, c, r) == [s[0]] + ReplaceAll(s[1..], c, r)
  {
  }

  /** When `c` cannot overlap itself, a trailing `c` is always one of the matches and
      becomes a trailing `r`. */
  lemma {:induction false} ReplaceTrailingMatch(q: String, c: String, r: String)
    requires c != [] && Unbordered(c)
    ensures ReplaceAll(q + c, c, r) == ReplaceAll(q, c, r) + r
    decreases |q|
  {
    var s := q + c;
    if q == [] {
      assert s == c;
      ReplaceWhole(c, r);
      ReplaceShort(q, c, r);
      assert [] + r == r;
    } else if s[..|c|] == c {
      if |q| < |c| {
        EarlyMatchIsBorder(q, c);
        assert false;
      }
      JoinedSlices(q, c);
      ReplaceTrailingMatch(q[|c|..], c, r);
      TrailingMatchAfterMatch(q, c, r);
    } else {
      ReplaceTrailingMatch(q[1..], c, r);
      TrailingMatchAfterSkip(q, c, r);
    }
  }

  /** A text ending in an unbordered `c` ends in `r` after `c` is replaced by `r`. */
  lemma ReplaceKeepsSuffix(s: String, c: String, r: String)
    requires c != [] && Unbordered(c) && EndsWith(s, c)
    ensures EndsWith(ReplaceAll(s, c, r), r)
  {
    var q := s[..|s| - |c|];
    assert s == q + c;
    ReplaceTrailingMatch(q, c, r);
  }
}
