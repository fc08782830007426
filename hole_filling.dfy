// Hole filling of SemiGlobalMatching::FillHolesInDispMap: the eight search
// rays, the candidate list a pixel collects, the sorted choice of a fill value,
// the batched write of one pass and the three passes together.
module HoleFilling {
  import opened SgmTypes

  /**
   * A search direction. A ray at angle a steps by (sin a, cos a) in (row,
   * column): angle pi is Left, pi/2 is Down (rows grow downwards), 0 is Right.
   */
  datatype Dir = Left | DownLeft | Down | DownRight | Right | UpRight | Up | UpLeft

  /** The table angle1 = {pi, 3pi/4, pi/2, pi/4, 0, 7pi/4, 3pi/2, 5pi/4}. */
  const ANGLE1: seq<Dir> := [Left, DownLeft, Down, DownRight, Right, UpRight, Up, UpLeft]
  /** The table angle2 = {pi, 5pi/4, 3pi/2, 7pi/4, 0, pi/4, pi/2, 3pi/4}. */
  const ANGLE2: seq<Dir> := [Left, UpLeft, Up, UpRight, Right, DownRight, Down, DownLeft]

  /** (2n + 1)^2 is odd, and the next odd square exceeds it by 8n + 8. */
  lemma OddSquares(n: nat)
    ensures (2 * n + 1) * (2 * n + 1) == 2 * (2 * n * n + 2 * n) + 1
    ensures (2 * n + 3) * (2 * n + 3) == (2 * n + 1) * (2 * n + 1) + 8 * n + 8
    ensures (2 * (n + 1) - 1) * (2 * (n + 1) - 1) == (2 * n + 1) * (2 * n + 1)
  {
  }

  /** Searching upwards from n: the first n' >= n whose (2n' + 1)^2 exceeds 2m^2. */
  function DiagFrom(m: nat, n: nat): nat
    decreases 2 * m * m - (2 * n + 1) * (2 * n + 1)
  {
    if (2 * n + 1) * (2 * n + 1) < 2 * m * m then
      DiagStep(m, n);
      DiagFrom(m, n + 1)
    else
      n
  }

  /** One more step upwards keeps the lower bound and shrinks the distance to 2m^2. */
  lemma DiagStep(m: nat, n: nat)
    requires (2 * n + 1) * (2 * n + 1) < 2 * m * m
    ensures (2 * (n + 1) - 1) * (2 * (n + 1) - 1) < 2 * m * m
    ensures 2 * m * m - (2 * (n + 1) + 1) * (2 * (n + 1) + 1) < 2 * m * m - (2 * n + 1) * (2 * n + 1)
  {
    OddSquares(n);
  }

  /** An odd square is never 2m^2, so it stops strictly above. */
  lemma DiagStop(m: nat, n: nat)
    requires !((2 * n + 1) * (2 * n + 1) < 2 * m * m)
    ensures 2 * m * m < (2 * n + 1) * (2 * n + 1)
  {
    OddSquares(n);
    assert 2 * m * m == 2 * (m * m);
  }

  /** The search from a start below the answer stops at the answer. */
  lemma {:induction false} DiagFromBounds(m: nat, n: nat)
    requires n == 0 || (2 * n - 1) * (2 * n - 1) < 2 * m * m
    ensures var r := DiagFrom(m, n);
      && 2 * m * m < (2 * r + 1) * (2 * r + 1)
      && (r == 0 || (2 * r - 1) * (2 * r - 1) < 2 * m * m)
    decreases 2 * m * m - (2 * n + 1) * (2 * n + 1)
  {
    if (2 * n + 1) * (2 * n + 1) < 2 * m * m {
      DiagStep(m, n);
      DiagFromBounds(m, n + 1);
    } else {
      DiagStop(m, n);
    }
  }

  /** lround(m * sin(pi/4)), found by searching upwards from 0. */
  function Diag(m: nat): nat
  {
    DiagFrom(m, 0)
  }

  /**
   * Diag(m) is the integer nearest to m / sqrt 2: the n with
   * (2n - 1)^2 < 2m^2 < (2n + 1)^2.
   */
  lemma DiagRounds(m: nat)
    ensures 2 * m * m < (2 * Diag(m) + 1) * (2 * Diag(m) + 1)
    ensures Diag(m) == 0 || (2 * Diag(m) - 1) * (2 * Diag(m) - 1) < 2 * m * m
  {
    DiagFromBounds(m, 0);
  }

  /** Row and column of the m-th step along dir from (y, x). */
  function Along(dir: Dir, y: int, x: int, m: nat): Pixel
  {
    var a := Diag(m);
    match dir
    case Left => Pixel(y, x - m)
    case DownLeft => Pixel(y + a, x - a)
    case Down => Pixel(y + m, x)
    case DownRight => Pixel(y + a, x + a)
    case Right => Pixel(y, x + m)
    case UpRight => Pixel(y - a, x + a)
    case Up => Pixel(y - m, x)
    case UpLeft => Pixel(y - a, x - a)
  }

  /**
   * The inner search loop from step m on: the first valid disparity along the
   * ray, stopping at the image border or when m reaches the search length.
   */
  function RayFrom(disp: seq<Disp>, width: int, height: int, y: int, x: int, dir: Dir,
                   m: nat, maxLen: int): (r: Option<real>)
    requires width > 0 && |disp| == width * height
    decreases maxLen - m
  {
    if m >= maxLen then None
    else
      var p := Along(dir, y, x, m);
      if !InImage(width, height, p) then None
      else
        FlatInRange(width, height, p);
        match disp[Flat(width, p)]
        case Val(v) => Some(v)
        case Invalid => RayFrom(disp, width, height, y, x, dir, m + 1, maxLen)
  }

  /** The disparity at step k of the ray, which lies inside the image. */
  function DispAlong(disp: seq<Disp>, width: int, height: int, y: int, x: int, dir: Dir, k: nat): Disp
    requires width > 0 && |disp| == width * height && InImage(width, height, Along(dir, y, x, k))
  {
    FlatInRange(width, height, Along(dir, y, x, k));
    disp[Flat(width, Along(dir, y, x, k))]
  }

  /**
   * A value found from step m on is the disparity at some step k below the
   * search length, and every step from m up to k is inside the image and
   * Invalid: it is the first valid disparity along the ray.
   */
  lemma {:induction false} RayFromFirstValid(disp: seq<Disp>, width: int, height: int, y: int, x: int,
                                             dir: Dir, m: nat, maxLen: int)
    requires width > 0 && |disp| == width * height
    requires RayFrom(disp, width, height, y, x, dir, m, maxLen).Some?
    ensures exists k: nat ::
      (&& m <= k < maxLen && InImage(width, height, Along(dir, y, x, k))
       && DispAlong(disp, width, height, y, x, dir, k)
          == Val(RayFrom(disp, width, height, y, x, dir, m, maxLen).value)
       && forall k': nat :: m <= k' < k ==>
            InImage(width, height, Along(dir, y, x, k'))
            && DispAlong(disp, width, height, y, x, dir, k') == Invalid)
    decreases maxLen - m
  {
    var v := RayFrom(disp, width, height, y, x, dir, m, maxLen).value;
    if DispAlong(disp, width, height, y, x, dir, m).Invalid? {
      RayFromFirstValid(disp, width, height, y, x, dir, m + 1, maxLen);
      var k: nat :| m + 1 <= k < maxLen && InImage(width, height, Along(dir, y, x, k))
        && DispAlong(disp, width, height, y, x, dir, k) == Val(v)
        && forall k': nat :: m + 1 <= k' < k ==>
             InImage(width, height, Along(dir, y, x, k'))
             && DispAlong(disp, width, height, y, x, dir, k') == Invalid;
      assert forall k': nat :: m <= k' < k ==>
        InImage(width, height, Along(dir, y, x, k'))
        && DispAlong(disp, width, height, y, x, dir, k') == Invalid;
    } else {
      assert DispAlong(disp, width, height, y, x, dir, m) == Val(v);
    }
  }

  /** What one ray contributes to the candidate list: its value, or nothing. */
  function RayList(disp: seq<Disp>, width: int, height: int, y: int, x: int, dir: Dir,
                   maxLen: int): (c: seq<real>)
    requires width > 0 && |disp| == width * height
    ensures |c| <= 1
  {
    match RayFrom(disp, width, height, y, x, dir, 1, maxLen)
    case Some(v) => [v]
    case None => []
  }

  /** disp_collects after the rays of `table`, in table order. */
  function Candidates(disp: seq<Disp>, width: int, height: int, y: int, x: int,
                      table: seq<Dir>, maxLen: int): (c: seq<real>)
    requires width > 0 && |disp| == width * height
    ensures |c| <= |table|
  {
    if |table| == 0 then []
    else Candidates(disp, width, height, y, x, table[..|table| - 1], maxLen)
         + RayList(disp, width, height, y, x, table[|table| - 1], maxLen)
  }

  /** Extending the table by one direction appends that ray's contribution. */
  lemma CandidatesStep(disp: seq<Disp>, width: int, height: int, y: int, x: int,
                       table: seq<Dir>, k: int, maxLen: int)
    requires width > 0 && |disp| == width * height && 0 <= k < |table|
    ensures multiset(Candidates(disp, width, height, y, x, table[..k + 1], maxLen))
         == multiset(Candidates(disp, width, height, y, x, table[..k], maxLen))
            + multiset(RayList(disp, width, height, y, x, table[k], maxLen))
  {
    assert table[..k + 1][..k] == table[..k];
  }

  /** Every direction's contribution, in the order of ANGLE1. */
  function AllRays(disp: seq<Disp>, width: int, height: int, y: int, x: int, maxLen: int): multiset<real>
    requires width > 0 && |disp| == width * height
  {
    var R := (d: Dir) => multiset(RayList(disp, width, height, y, x, d, maxLen));
    R(Left) + R(DownLeft) + R(Down) + R(DownRight) + R(Right) + R(UpRight) + R(Up) + R(UpLeft)
  }

  /** The table angle1 collects one contribution per direction. */
  lemma Angle1Rays(disp: seq<Disp>, width: int, height: int, y: int, x: int, maxLen: int)
    requires width > 0 && |disp| == width * height
    ensures multiset(Candidates(disp, width, height, y, x, ANGLE1, maxLen))
         == AllRays(disp, width, height, y, x, maxLen)
  {
    var t := ANGLE1;
    assert t[..0] == [] && t[..8] == t;
    CandidatesStep(disp, width, height, y, x, t, 0, maxLen);
    CandidatesStep(disp, width, height, y, x, t, 1, maxLen);
    CandidatesStep(disp, width, height, y, x, t, 2, maxLen);
    CandidatesStep(disp, width, height, y, x, t, 3, maxLen);
    CandidatesStep(disp, width, height, y, x, t, 4, maxLen);
    CandidatesStep(disp, width, height, y, x, t, 5, maxLen);
    CandidatesStep(disp, width, height, y, x, t, 6, maxLen);
    CandidatesStep(disp, width, height, y, x, t, 7, maxLen);
  }

  /** The table angle2 collects the same contributions in another order. */
  lemma Angle2Rays(disp: seq<Disp>, width: int, height: int, y: int, x: int, maxLen: int)
    requires width > 0 && |disp| == width * height
    ensures multiset(Candidates(disp, width, height, y, x, ANGLE2, maxLen))
         == AllRays(disp, width, height, y, x, maxLen)
  {
    var t := ANGLE2;
    assert t[..0] == [] && t[..8] == t;
    CandidatesStep(disp, width, height, y, x, t, 0, maxLen);
    CandidatesStep(disp, width, height, y, x, t, 1, maxLen);
    CandidatesStep(disp, width, height, y, x, t, 2, maxLen);
    CandidatesStep(disp, width, height, y, x, t, 3, maxLen);
    CandidatesStep(disp, width, height, y, x, t, 4, maxLen);
    CandidatesStep(disp, width, height, y, x, t, 5, maxLen);
    CandidatesStep(disp, width, height, y, x, t, 6, maxLen);
    CandidatesStep(disp, width, height, y, x, t, 7, maxLen);
  }

  /**
   * The two angle tables hold the same eight directions, so every pixel
   * collects the same candidates in either, up to order.
   */
  lemma TablesAgree(disp: seq<Disp>, width: int, height: int, y: int, x: int, maxLen: int)
    requires width > 0 && |disp| == width * height
    ensures multiset(Candidates(disp, width, height, y, x, ANGLE1, maxLen))
         == multiset(Candidates(disp, width, height, y, x, ANGLE2, maxLen))
  {
    Angle1Rays(disp, width, height, y, x, maxLen);
    Angle2Rays(disp, width, height, y, x, maxLen);
  }

  // ---- sorting the candidates (std::sort) ------------------------------------

  predicate Sorted(s: seq<real>)
  {
    forall a, b :: 0 <= a < b < |s| ==> s[a] <= s[b]
  }

  function Insert(v: real, s: seq<real>): (r: seq<real>)
    requires Sorted(s)
    ensures Sorted(r) && multiset(r) == multiset(s) + multiset{v}
  {
    if |s| == 0 then [v]
    else if v <= s[0] then [v] + s
    else
      var t := Insert(v, s[1..]);
      InsertBelowHead(v, s, t);
      [s[0]] + t
  }

  /** Putting the head back in front of the insertion into the tail keeps the order. */
  lemma InsertBelowHead(v: real, s: seq<real>, t: seq<real>)
    requires Sorted(s) && |s| > 0 && s[0] < v
    requires Sorted(t) && multiset(t) == multiset(s[1..]) + multiset{v}
    ensures Sorted([s[0]] + t) && multiset([s[0]] + t) == multiset(s) + multiset{v}
  {
    assert s == [s[0]] + s[1..];
    forall k | 0 <= k < |t|
      ensures s[0] <= t[k]
    {
      assert t[k] in multiset(t);
      if t[k] != v {
        assert t[k] in multiset(s[1..]);
      }
    }
  }

  /** The candidates in ascending order. */
  function Sort(s: seq<real>): (r: seq<real>)
    ensures Sorted(r) && multiset(r) == multiset(s)
  {
    if |s| == 0 then []
    else
      assert s == [s[0]] + s[1..];
      Insert(s[0], Sort(s[1..]))
  }

  /** Dropping the head removes one copy of it from the elements. */
  lemma TailElements(a: seq<real>)
    requires |a| > 0
    ensures multiset(a[1..]) == multiset(a) - multiset{a[0]}
  {
    assert a == [a[0]] + a[1..];
  }

  /** Two sorted sequences with the same elements start with the same, least, element. */
  lemma SortedHeads(a: seq<real>, b: seq<real>)
    requires Sorted(a) && Sorted(b) && multiset(a) == multiset(b) && |a| > 0 && |b| > 0
    ensures a[0] == b[0]
  {
    assert b[0] in multiset(a) && a[0] in multiset(b);
    var i :| 0 <= i < |a| && a[i] == b[0];
    var j :| 0 <= j < |b| && b[j] == a[0];
  }

  /** A sorted sequence is determined by its elements. */
  lemma {:induction false} SortedUnique(a: seq<real>, b: seq<real>)
    requires Sorted(a) && Sorted(b) && multiset(a) == multiset(b)
    ensures a == b
    decreases |a|
  {
    assert |b| == |multiset(b)| == |multiset(a)| == |a|;
    if |a| > 0 {
      SortedHeads(a, b);
      TailElements(a);
      TailElements(b);
      SortedUnique(a[1..], b[1..]);
      assert a == [a[0]] + a[1..] && b == [b[0]] + b[1..];
    }
  }

  // ---- choosing a fill value ---------------------------------------------------

  /** Index the pass picks: pass 0 takes entry 1 (or 0 alone), later passes entry size / 2. */
  function SelectIndex(n: nat, pass: int): (i: nat)
    requires n > 0
    ensures i < n
  {
    if pass == 0 then (if n > 1 then 1 else 0) else n / 2
  }

  /** Number of entries of s strictly below v. */
  function CountBelow(s: seq<real>, v: real): (n: nat)
    ensures n <= |s|
  {
    if |s| == 0 then 0 else CountBelow(s[..|s| - 1], v) + (if s[|s| - 1] < v then 1 else 0)
  }

  /** Number of entries of s at most v. */
  function CountAtMost(s: seq<real>, v: real): (n: nat)
    ensures n <= |s|
  {
    if |s| == 0 then 0 else CountAtMost(s[..|s| - 1], v) + (if s[|s| - 1] <= v then 1 else 0)
  }

  lemma {:induction false} CountsAppend(a: seq<real>, b: seq<real>, v: real)
    ensures CountBelow(a + b, v) == CountBelow(a, v) + CountBelow(b, v)
    ensures CountAtMost(a + b, v) == CountAtMost(a, v) + CountAtMost(b, v)
    decreases |b|
  {
    if |b| == 0 {
      assert a + b == a;
    } else {
      var ab := a + b;
      assert ab[..|ab| - 1] == a + b[..|b| - 1];
      assert ab[|ab| - 1] == b[|b| - 1];
      CountsAppend(a, b[..|b| - 1], v);
    }
  }

  /** Removing entry i removes one copy of it from the elements and from the counts it adds to. */
  lemma CountsRemoveAt(b: seq<real>, i: int, v: real)
    requires 0 <= i < |b|
    ensures multiset(b[..i] + b[i + 1..]) == multiset(b) - multiset{b[i]}
    ensures CountBelow(b, v) == CountBelow(b[..i] + b[i + 1..], v) + (if b[i] < v then 1 else 0)
    ensures CountAtMost(b, v) == CountAtMost(b[..i] + b[i + 1..], v) + (if b[i] <= v then 1 else 0)
  {
    var x := b[i];
    assert b == b[..i] + [x] + b[i + 1..];
    CountsAppend(b[..i], [x], v);
    CountsAppend(b[..i] + [x], b[i + 1..], v);
    CountsAppend(b[..i], b[i + 1..], v);
    assert [x][..0] == [];
  }

  /** Counting does not depend on order. */
  lemma {:induction false} CountsPermutation(a: seq<real>, b: seq<real>, v: real)
    requires multiset(a) == multiset(b)
    ensures CountBelow(a, v) == CountBelow(b, v) && CountAtMost(a, v) == CountAtMost(b, v)
    decreases |a|
  {
    if |a| == 0 {
      assert |b| == |multiset(b)| == 0;
    } else {
      var x := a[|a| - 1];
      var a' := a[..|a| - 1];
      assert a == a' + [x];
      assert x in multiset(b);
      var i :| 0 <= i < |b| && b[i] == x;
      CountsRemoveAt(b, i, v);
      CountsPermutation(a', b[..i] + b[i + 1..], v);
    }
  }

  /** In a sorted sequence, entry i has at most i entries below it and at least i + 1 at most it. */
  lemma {:induction false} SortedRank(s: seq<real>, i: int)
    requires Sorted(s) && 0 <= i < |s|
    ensures CountBelow(s, s[i]) <= i && CountAtMost(s, s[i]) >= i + 1
    decreases |s|
  {
    var v := s[i];
    var s' := s[..|s| - 1];
    assert Sorted(s');
    if i < |s| - 1 {
      assert s'[i] == v;
      SortedRank(s', i);
    } else {
      CountAtMostAll(s', v);
    }
  }

  lemma {:induction false} CountAtMostAll(s: seq<real>, v: real)
    requires forall k :: 0 <= k < |s| ==> s[k] <= v
    ensures CountAtMost(s, v) == |s|
    decreases |s|
  {
    if |s| > 0 {
      CountAtMostAll(s[..|s| - 1], v);
    }
  }

  /**
   * The value written to a target pixel in pass `pass`: the chosen sorted
   * candidate, or 0.0 (the fill vector's initial value) when none was found.
   */
  function FillValue(disp: seq<Disp>, width: int, height: int, p: Pixel, pass: int,
                     maxLen: int): real
    requires width > 0 && |disp| == width * height
  {
    var c := Candidates(disp, width, height, p.row, p.col, ANGLE1, maxLen);
    if |c| == 0 then 0.0 else
      var sorted := Sort(c);
      sorted[SelectIndex(|sorted|, pass)]
  }

  /**
   * The fill value is 0.0 exactly when no ray found a disparity. Otherwise it is
   * one of the candidates, and its rank among them is the pass's index: in pass
   * 0 with two or more candidates at most one candidate is smaller and at least
   * two are no larger (the second smallest); in passes 1 and 2 at most size/2
   * are smaller and at least size/2 + 1 are no larger (the upper median).
   */
  lemma FillValueRank(disp: seq<Disp>, width: int, height: int, p: Pixel, pass: int, maxLen: int)
    requires width > 0 && |disp| == width * height
    ensures var c := Candidates(disp, width, height, p.row, p.col, ANGLE1, maxLen);
      var r := FillValue(disp, width, height, p, pass, maxLen);
      && (|c| == 0 ==> r == 0.0)
      && (|c| > 0 ==>
            && r in multiset(c)
            && CountBelow(c, r) <= SelectIndex(|c|, pass)
            && CountAtMost(c, r) >= SelectIndex(|c|, pass) + 1)
  {
    var c := Candidates(disp, width, height, p.row, p.col, ANGLE1, maxLen);
    if |c| > 0 {
      var sorted := Sort(c);
      assert |sorted| == |multiset(sorted)| == |multiset(c)| == |c|;
      var i := SelectIndex(|c|, pass);
      assert sorted[i] in multiset(sorted);
      SortedRank(sorted, i);
      CountsPermutation(sorted, c, sorted[i]);
    }
  }

  /**
   * The sticky switch to angle2 changes nothing: the fill value computed from
   * angle2's candidates is the one computed from angle1's, 0.0 when neither
   * table finds a candidate.
   */
  lemma FillValueEitherTable(disp: seq<Disp>, width: int, height: int, p: Pixel, pass: int,
                             maxLen: int, useAngle2: bool)
    requires width > 0 && |disp| == width * height
    ensures var c := Candidates(disp, width, height, p.row, p.col,
                                if useAngle2 then ANGLE2 else ANGLE1, maxLen);
      FillValue(disp, width, height, p, pass, maxLen)
      == if |c| == 0 then 0.0 else Sort(c)[SelectIndex(|c|, pass)]
  {
    var c1 := Candidates(disp, width, height, p.row, p.col, ANGLE1, maxLen);
    var c2 := Candidates(disp, width, height, p.row, p.col, ANGLE2, maxLen);
    if useAngle2 {
      TablesAgree(disp, width, height, p.row, p.col, maxLen);
      assert |c1| == |multiset(c1)| == |multiset(c2)| == |c2|;
      SortedUnique(Sort(c1), Sort(c2));
    }
  }

  // ---- one pass: compute every fill value, then write them -----------------

  predicate AllInImage(pixels: seq<Pixel>, width: int, height: int)
  {
    forall n :: 0 <= n < |pixels| ==> InImage(width, height, pixels[n])
  }

  /** fill_disps: one value per target, all computed from the map as it was before the pass. */
  function Fills(disp: seq<Disp>, width: int, height: int, targets: seq<Pixel>, pass: int,
                 maxLen: int): (f: seq<real>)
    requires width > 0 && |disp| == width * height
    ensures |f| == |targets|
  {
    seq(|targets|, n requires 0 <= n < |targets| =>
      FillValue(disp, width, height, targets[n], pass, maxLen))
  }

  /** The write loop: target n receives value n, in list order. */
  function WriteAll(disp: seq<Disp>, width: int, height: int, targets: seq<Pixel>,
                    values: seq<real>): (r: seq<Disp>)
    requires width > 0 && |disp| == width * height
    requires AllInImage(targets, width, height) && |values| == |targets|
    ensures |r| == |disp|
  {
    if |targets| == 0 then disp
    else
      var last := |targets| - 1;
      FlatInRange(width, height, targets[last]);
      WriteAll(disp, width, height, targets[..last], values[..last])
        [Flat(width, targets[last]) := Val(values[last])]
  }

  /**
   * An index no target names keeps its value; an index some target names holds
   * the value of the last target naming it, so with distinct targets each one
   * holds its own value.
   */
  lemma {:induction false} WriteAllAt(disp: seq<Disp>, width: int, height: int,
                                      targets: seq<Pixel>, values: seq<real>, q: int)
    requires width > 0 && |disp| == width * height
    requires AllInImage(targets, width, height) && |values| == |targets|
    requires 0 <= q < width * height
    ensures var r := WriteAll(disp, width, height, targets, values);
      && ((forall n :: 0 <= n < |targets| ==> Flat(width, targets[n]) != q) ==> r[q] == disp[q])
      && (forall n :: 0 <= n < |targets| && Flat(width, targets[n]) == q
            && (forall n' :: n < n' < |targets| ==> Flat(width, targets[n']) != q)
            ==> r[q] == Val(values[n]))
    decreases |targets|
  {
    if |targets| > 0 {
      var last := |targets| - 1;
      WriteAllAt(disp, width, height, targets[..last], values[..last], q);
    }
  }

  /** One pass over a target list. */
  function FillPass(disp: seq<Disp>, width: int, height: int, targets: seq<Pixel>, pass: int,
                    maxLen: int): (r: seq<Disp>)
    requires width > 0 && |disp| == width * height && AllInImage(targets, width, height)
    ensures |r| == |disp|
  {
    WriteAll(disp, width, height, targets, Fills(disp, width, height, targets, pass, maxLen))
  }

  // ---- pass 2's target list ----------------------------------------------------

  /** The Invalid pixels among the first n indices, in row-major order. */
  function InvalidPrefix(disp: seq<Disp>, width: int, height: int, n: int): (l: seq<Pixel>)
    requires width > 0 && |disp| == width * height && 0 <= n <= width * height
    ensures AllInImage(l, width, height)
    ensures forall k :: 0 <= k < |l| ==> Flat(width, l[k]) < n
    decreases n
  {
    if n == 0 then []
    else
      var l := InvalidPrefix(disp, width, height, n - 1);
      PixelOfInImage(width, height, n - 1);
      if disp[n - 1] == Invalid then l + [PixelOf(width, n - 1)] else l
  }

  /** inv_pixels: every Invalid pixel of the map, in row-major order. */
  function InvalidPixels(disp: seq<Disp>, width: int, height: int): (l: seq<Pixel>)
    requires width > 0 && height >= 0 && |disp| == width * height
    ensures AllInImage(l, width, height)
  {
    InvalidPrefix(disp, width, height, width * height)
  }

  /** The list holds exactly the Invalid pixels, strictly ascending in row-major order. */
  lemma {:induction false} InvalidPrefixExact(disp: seq<Disp>, width: int, height: int, n: int)
    requires width > 0 && |disp| == width * height && 0 <= n <= width * height
    ensures var l := InvalidPrefix(disp, width, height, n);
      && (forall q :: 0 <= q < n ==> (PixelOf(width, q) in l <==> disp[q] == Invalid))
      && (forall a, b :: 0 <= a < b < |l| ==> Flat(width, l[a]) < Flat(width, l[b]))
    decreases n
  {
    if n > 0 {
      InvalidPrefixExact(disp, width, height, n - 1);
      var l := InvalidPrefix(disp, width, height, n - 1);
      PixelOfInImage(width, height, n - 1);
      forall q | 0 <= q < n - 1
        ensures PixelOf(width, q) != PixelOf(width, n - 1)
      {
        PixelOfInImage(width, height, q);
      }
      forall k | 0 <= k < |l|
        ensures l[k] != PixelOf(width, n - 1)
      {
      }
    }
  }

  // ---- the three passes ----------------------------------------------------------

  /** The map and mismatch list as the passes leave them. */
  datatype FillResult = FillResult(disp: seq<Disp>, mismatches: seq<Pixel>)

  /**
   * Pass `pass` (0, 1 or 2). Pass 0 targets the occlusions, passes 1 and 2 the
   * mismatch list, and an empty target list skips the pass. Pass 2 first
   * replaces the mismatch list by every pixel still Invalid, then fills those.
   */
  function FillStep(r: FillResult, width: int, height: int, occlusions: seq<Pixel>, pass: int,
                    maxLen: int): (r': FillResult)
    requires width > 0 && height >= 0 && |r.disp| == width * height
    requires AllInImage(occlusions, width, height) && AllInImage(r.mismatches, width, height)
    ensures |r'.disp| == |r.disp| && AllInImage(r'.mismatches, width, height)
  {
    var targets := if pass == 0 then occlusions else r.mismatches;
    if |targets| == 0 then r
    else if pass == 2 then
      var inv := InvalidPixels(r.disp, width, height);
      FillResult(FillPass(r.disp, width, height, inv, 2, maxLen), inv)
    else FillResult(FillPass(r.disp, width, height, targets, pass, maxLen), r.mismatches)
  }

  /** The state after the first `passes` passes. */
  function FillAfter(disp: seq<Disp>, width: int, height: int, occlusions: seq<Pixel>,
                     mismatches: seq<Pixel>, maxLen: int, passes: nat): (r: FillResult)
    requires width > 0 && height >= 0 && |disp| == width * height
    requires AllInImage(occlusions, width, height) && AllInImage(mismatches, width, height)
    ensures |r.disp| == |disp| && AllInImage(r.mismatches, width, height)
  {
    if passes == 0 then FillResult(disp, mismatches)
    else FillStep(FillAfter(disp, width, height, occlusions, mismatches, maxLen, passes - 1),
                  width, height, occlusions, passes - 1, maxLen)
  }

  /** FillHolesInDispMap: the three passes. */
  function FillHoles(disp: seq<Disp>, width: int, height: int, occlusions: seq<Pixel>,
                     mismatches: seq<Pixel>, maxLen: int): (r: FillResult)
    requires width > 0 && height >= 0 && |disp| == width * height
    requires AllInImage(occlusions, width, height) && AllInImage(mismatches, width, height)
    ensures |r.disp| == |disp| && AllInImage(r.mismatches, width, height)
  {
    FillAfter(disp, width, height, occlusions, mismatches, maxLen, 3)
  }

  /** Passes 0 and 1 leave the mismatch list as it was. */
  lemma FirstPassesKeepList(disp: seq<Disp>, width: int, height: int, occlusions: seq<Pixel>,
                            mismatches: seq<Pixel>, maxLen: int)
    requires width > 0 && height >= 0 && |disp| == width * height
    requires AllInImage(occlusions, width, height) && AllInImage(mismatches, width, height)
    ensures FillAfter(disp, width, height, occlusions, mismatches, maxLen, 2).mismatches == mismatches
  {
    assert FillAfter(disp, width, height, occlusions, mismatches, maxLen, 1).mismatches == mismatches;
  }

  /**
   * Whenever the mismatch list is non-empty, no pixel is Invalid afterwards:
   * pass 2 targets every pixel still Invalid and writes each a value (0.0 at
   * worst).
   */
  lemma FillHolesLeavesNoInvalid(disp: seq<Disp>, width: int, height: int,
                                 occlusions: seq<Pixel>, mismatches: seq<Pixel>, maxLen: int, q: int)
    requires width > 0 && height >= 0 && |disp| == width * height
    requires AllInImage(occlusions, width, height) && AllInImage(mismatches, width, height)
    requires |mismatches| > 0 && 0 <= q < width * height
    ensures FillHoles(disp, width, height, occlusions, mismatches, maxLen).disp[q].Val?
  {
    FirstPassesKeepList(disp, width, height, occlusions, mismatches, maxLen);
    var d1 := FillAfter(disp, width, height, occlusions, mismatches, maxLen, 2).disp;
    LastPassFillsAll(d1, width, height, maxLen, q);
  }

  /** Pass 2 over every Invalid pixel leaves none. */
  lemma LastPassFillsAll(d1: seq<Disp>, width: int, height: int, maxLen: int, q: int)
    requires width > 0 && height >= 0 && |d1| == width * height && 0 <= q < width * height
    ensures FillPass(d1, width, height, InvalidPixels(d1, width, height), 2, maxLen)[q].Val?
  {
    var targets := InvalidPixels(d1, width, height);
    InvalidPrefixExact(d1, width, height, width * height);
    var f := Fills(d1, width, height, targets, 2, maxLen);
    WriteAllAt(d1, width, height, targets, f, q);
    PixelOfInImage(width, height, q);
    if d1[q] == Invalid {
      var n :| 0 <= n < |targets| && targets[n] == PixelOf(width, q);
      forall n' | n < n' < |targets|
        ensures Flat(width, targets[n']) != q
      {
      }
    }
  }

  /** A pass leaves every pixel outside its target list as it was. */
  lemma FillPassMisses(disp: seq<Disp>, width: int, height: int, targets: seq<Pixel>, pass: int,
                       maxLen: int, q: int)
    requires width > 0 && height >= 0 && |disp| == width * height && AllInImage(targets, width, height)
    requires 0 <= q < width * height && PixelOf(width, q) !in targets
    ensures FillPass(disp, width, height, targets, pass, maxLen)[q] == disp[q]
  {
    PixelOfInImage(width, height, q);
    forall n | 0 <= n < |targets| ensures Flat(width, targets[n]) != q {
      FlatInRange(width, height, targets[n]);
    }
    WriteAllAt(disp, width, height, targets, Fills(disp, width, height, targets, pass, maxLen), q);
  }

  /** A pass never touches a valid pixel outside its target list. */
  lemma FillStepKeeps(r: FillResult, width: int, height: int, occlusions: seq<Pixel>, pass: int,
                      maxLen: int, q: int)
    requires width > 0 && height >= 0 && |r.disp| == width * height
    requires AllInImage(occlusions, width, height) && AllInImage(r.mismatches, width, height)
    requires 0 <= q < width * height && r.disp[q].Val?
    requires pass == 0 ==> PixelOf(width, q) !in occlusions
    requires pass != 0 ==> PixelOf(width, q) !in r.mismatches
    ensures FillStep(r, width, height, occlusions, pass, maxLen).disp[q] == r.disp[q]
  {
    if pass == 0 {
      if |occlusions| > 0 {
        FillPassMisses(r.disp, width, height, occlusions, 0, maxLen, q);
      }
    } else if pass == 2 {
      if |r.mismatches| > 0 {
        var inv := InvalidPixels(r.disp, width, height);
        InvalidPrefixExact(r.disp, width, height, width * height);
        FillPassMisses(r.disp, width, height, inv, 2, maxLen, q);
      }
    } else if |r.mismatches| > 0 {
      FillPassMisses(r.disp, width, height, r.mismatches, pass, maxLen, q);
    }
  }

  /** A pixel in neither list and not Invalid keeps its disparity through all three passes. */
  lemma FillHolesKeepsUnlisted(disp: seq<Disp>, width: int, height: int,
                               occlusions: seq<Pixel>, mismatches: seq<Pixel>, maxLen: int, q: int)
    requires width > 0 && height >= 0 && |disp| == width * height
    requires AllInImage(occlusions, width, height) && AllInImage(mismatches, width, height)
    requires 0 <= q < width * height && disp[q].Val?
    requires PixelOf(width, q) !in occlusions && PixelOf(width, q) !in mismatches
    ensures FillHoles(disp, width, height, occlusions, mismatches, maxLen).disp[q] == disp[q]
  {
    var r0 := FillAfter(disp, width, height, occlusions, mismatches, maxLen, 0);
    FillStepKeeps(r0, width, height, occlusions, 0, maxLen, q);
    var r1 := FillAfter(disp, width, height, occlusions, mismatches, maxLen, 1);
    FillStepKeeps(r1, width, height, occlusions, 1, maxLen, q);
    var r2 := FillAfter(disp, width, height, occlusions, mismatches, maxLen, 2);
    FirstPassesKeepList(disp, width, height, occlusions, mismatches, maxLen);
    FillStepKeeps(r2, width, height, occlusions, 2, maxLen, q);
  }

  // ---- pass 2's value buffer as written ----------------------------------------

  /**
   * As written, pass 2 sizes its value buffer by the mismatch list and only
   * then replaces that list by every Invalid pixel, writing one value per
   * Invalid pixel. The writes stay inside the buffer exactly when pass 2 has
   * no more Invalid pixels than mismatches.
   */
  predicate Pass2BufferFits(disp: seq<Disp>, width: int, height: int, occlusions: seq<Pixel>,
                            mismatches: seq<Pixel>, maxLen: int)
    requires width > 0 && height >= 0 && |disp| == width * height
    requires AllInImage(occlusions, width, height) && AllInImage(mismatches, width, height)
  {
    var r := FillAfter(disp, width, height, occlusions, mismatches, maxLen, 2);
    |InvalidPixels(r.disp, width, height)| <= |r.mismatches|
  }

  /** A list holding two different pixels has at least two entries. */
  lemma TwoMembers(l: seq<Pixel>, a: Pixel, b: Pixel)
    requires a in l && b in l && a != b
    ensures |l| >= 2
  {
  }

  /** Indices 1 and 2 of a row of width 3 are its columns 1 and 2. */
  lemma RowOfThree(width: int)
    requires width == 3
    ensures PixelOf(width, 1) == Pixel(0, 1) && PixelOf(width, 2) == Pixel(0, 2)
  {
  }

  /**
   * A 3 x 1 map with every pixel Invalid, no occlusions and the single
   * mismatch (0, 0): pass 1 fills (0, 0) only, so pass 2 finds two Invalid
   * pixels for a buffer of one value, whatever the search length.
   */
  lemma Pass2BufferOverrun(disp: seq<Disp>, width: int, height: int, occlusions: seq<Pixel>,
                           mismatches: seq<Pixel>, maxLen: int)
    requires width == 3 && height == 1
    requires |disp| == width * height && forall q :: 0 <= q < |disp| ==> disp[q] == Invalid
    requires |occlusions| == 0 && |mismatches| == 1 && mismatches[0] == Pixel(0, 0)
    ensures !Pass2BufferFits(disp, width, height, occlusions, mismatches, maxLen)
  {
    FirstPassesKeepList(disp, width, height, occlusions, mismatches, maxLen);
    var d2 := FillAfter(disp, width, height, occlusions, mismatches, maxLen, 2).disp;
    RowOfThree(width);
    assert Pixel(0, 1) !in mismatches && Pixel(0, 2) !in mismatches;
    SecondPassLeaves(disp, width, height, occlusions, mismatches, maxLen, 1);
    SecondPassLeaves(disp, width, height, occlusions, mismatches, maxLen, 2);
    InvalidPrefixExact(d2, width, height, width * height);
    TwoMembers(InvalidPixels(d2, width, height), Pixel(0, 1), Pixel(0, 2));
  }

  /**
   * With no occlusions, pass 0 is skipped, so after two passes a pixel
   * outside the mismatch list is as it was.
   */
  lemma SecondPassLeaves(disp: seq<Disp>, width: int, height: int, occlusions: seq<Pixel>,
                         mismatches: seq<Pixel>, maxLen: int, q: int)
    requires width > 0 && height >= 0 && |disp| == width * height
    requires AllInImage(occlusions, width, height) && AllInImage(mismatches, width, height)
    requires |occlusions| == 0 && 0 <= q < width * height && PixelOf(width, q) !in mismatches
    ensures FillAfter(disp, width, height, occlusions, mismatches, maxLen, 2).disp[q] == disp[q]
  {
    assert FillAfter(disp, width, height, occlusions, mismatches, maxLen, 1) == FillResult(disp, mismatches);
    FillPassMisses(disp, width, height, mismatches, 1, maxLen, q);
  }
}
