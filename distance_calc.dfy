/** The unrestricted Damerau-Levenshtein distance of DistanceCalc.java (Lowrance-Wagner
    dynamic programme with guard row and column and the last-occurrence map DA). */
module DistanceCalc {

  /** min(a, b, c, d) of DistanceCalc.java: Math.min(a, Math.min(b, Math.min(c, d))). */
  function Min4(a: int, b: int, c: int, d: int): int
  {
    var cd := if c <= d then c else d;
    var bcd := if b <= cd then b else cd;
    if a <= bcd then a else bcd
  }

  /** min returns one of its four arguments, and none is smaller. */
  lemma Min4IsMinimum(a: int, b: int, c: int, d: int)
    ensures var r := Min4(a, b, c, d);
      r <= a && r <= b && r <= c && r <= d && (r == a || r == b || r == c || r == d)
  {
  }

  /** A last argument that is never below the first does not change the minimum. */
  lemma Min4Ignores(p: int, q: int, r: int, t: int, t': int)
    requires t >= p && t' >= p
    ensures Min4(p, q, r, t) == Min4(p, q, r, t')
  {
  }

  /** The largest k in 1..n with s[k-1] == c, or 0 when c does not occur in s[..n]:
      the value DA[c] holds while row n+1 is filled, and DB while column n+1 is filled. */
  function LastIndex(s: string, c: char, n: nat): (k: nat)
    requires n <= |s|
    ensures k <= n
    ensures k > 0 ==> s[k - 1] == c
    ensures forall m :: k <= m < n ==> s[m] != c
  {
    if n == 0 then 0 else if s[n - 1] == c then n else LastIndex(s, c, n - 1)
  }

  /** The transposition term H[i1][j1] + (i-i1-1) + 1 + (j-j1-1) of cell H[i+1][j+1], with
      i1 = DA[b[j-1]] and j1 = DB, when guards hold `guard` and H[0][0] holds `corner`. */
  function Trans(a: string, b: string, i: nat, j: nat, guard: int, corner: int): int
    requires 0 < i <= |a| && 0 < j <= |b|
    decreases i + j, 0
  {
    var i1 := LastIndex(a, b[j - 1], i - 1);
    var j1 := LastIndex(b, a[i - 1], j - 1);
    var t := if i1 == 0 && j1 == 0 then corner
             else if i1 == 0 || j1 == 0 then guard
             else Dp(a, b, i1 - 1, j1 - 1, guard, corner);
    t + (i - i1 - 1) + 1 + (j - j1 - 1)
  }

  /** The recurrence of the dynamic programme: Dp(a, b, i, j, guard, corner) is the value
      of cell H[i+1][j+1], the distance of a[..i] and b[..j], when the guard row and column
      hold `guard` and the corner cell H[0][0] holds `corner`. */
  function Dp(a: string, b: string, i: nat, j: nat, guard: int, corner: int): int
    requires i <= |a| && j <= |b|
    decreases i + j, 1
  {
    if i == 0 then j
    else if j == 0 then i
    else
      Min4(Dp(a, b, i - 1, j - 1, guard, corner) + (if a[i - 1] == b[j - 1] then 0 else 1),
           Dp(a, b, i, j - 1, guard, corner) + 1,
           Dp(a, b, i - 1, j, guard, corner) + 1,
           Trans(a, b, i, j, guard, corner))
  }

  /** The sentinel inf = |a| + |b| + 1 of the Java code. */
  function Inf(a: string, b: string): int { |a| + |b| + 1 }

  /** The Java programme: guards hold inf, and H[0][0] keeps the 0 that array allocation
      put there (the Java code never assigns it). */
  function D(a: string, b: string, i: nat, j: nat): int
    requires i <= |a| && j <= |b|
  {
    Dp(a, b, i, j, Inf(a, b), 0)
  }

  /** The algorithm of the Wikipedia article the code cites: every guard cell, the corner
      included, holds maxdist = |a| + |b|. */
  function Cited(a: string, b: string, i: nat, j: nat): int
    requires i <= |a| && j <= |b|
  {
    Dp(a, b, i, j, |a| + |b|, |a| + |b|)
  }

  /** The value the Java code leaves in H[x][y] once the table is complete. */
  function Cell(a: string, b: string, x: nat, y: nat): int
    requires x <= |a| + 1 && y <= |b| + 1
  {
    if x == 0 && y == 0 then 0
    else if x == 0 || y == 0 then Inf(a, b)
    else D(a, b, x - 1, y - 1)
  }

  /** damerauLevenshteinDistance(a, b) as a value. */
  function Distance(a: string, b: string): int
  {
    D(a, b, |a|, |b|)
  }

  function Max(x: int, y: int): int { if x >= y then x else y }

  function Abs(x: int): int { if x >= 0 then x else -x }

  /** Cell H[i+1][j+1] lies between the length difference and the longer length. */
  predicate Bounded(a: string, b: string, i: nat, j: nat, guard: int, corner: int)
    requires i <= |a| && j <= |b|
  {
    Abs(i - j) <= Dp(a, b, i, j, guard, corner) <= Max(i, j)
  }

  /** With the sub-cell's lower bound, the transposition term is at least the length
      difference; through a guard or the corner it is at least the longer length. */
  lemma TransBounds(a: string, b: string, i: nat, j: nat, guard: int, corner: int, i1: nat, j1: nat)
    requires 0 < i <= |a| && 0 < j <= |b|
    requires guard >= |a| + |b| && corner >= 0
    requires i1 == LastIndex(a, b[j - 1], i - 1) && j1 == LastIndex(b, a[i - 1], j - 1)
    requires i1 > 0 && j1 > 0 ==> Bounded(a, b, i1 - 1, j1 - 1, guard, corner)
    ensures Trans(a, b, i, j, guard, corner) >= Abs(i - j)
    ensures !(i1 > 0 && j1 > 0) ==> Trans(a, b, i, j, guard, corner) >= Max(i, j)
    ensures Trans(a, b, i, j, guard, corner) >= 1
  {
  }

  /** One step of the bounds proof, from the four cells cell H[i+1][j+1] is computed from. */
  lemma BoundsStep(a: string, b: string, i: nat, j: nat, guard: int, corner: int, i1: nat, j1: nat)
    requires 0 < i <= |a| && 0 < j <= |b|
    requires guard >= |a| + |b| && corner >= 0
    requires i1 == LastIndex(a, b[j - 1], i - 1) && j1 == LastIndex(b, a[i - 1], j - 1)
    requires Bounded(a, b, i - 1, j - 1, guard, corner)
    requires Bounded(a, b, i, j - 1, guard, corner)
    requires Bounded(a, b, i - 1, j, guard, corner)
    requires i1 > 0 && j1 > 0 ==> Bounded(a, b, i1 - 1, j1 - 1, guard, corner)
    ensures Bounded(a, b, i, j, guard, corner)
  {
    TransBounds(a, b, i, j, guard, corner, i1, j1);
  }

  /** Every cell lies between the length difference and the longer length; with guards
      at least |a| + |b| no transposition through a guard can undercut that. */
  lemma {:induction false} DpBounds(a: string, b: string, i: nat, j: nat, guard: int, corner: int)
    requires i <= |a| && j <= |b|
    requires guard >= |a| + |b| && corner >= 0
    ensures Bounded(a, b, i, j, guard, corner)
    decreases i + j
  {
    if i > 0 && j > 0 {
      var i1 := LastIndex(a, b[j - 1], i - 1);
      var j1 := LastIndex(b, a[i - 1], j - 1);
      DpBounds(a, b, i - 1, j - 1, guard, corner);
      DpBounds(a, b, i, j - 1, guard, corner);
      DpBounds(a, b, i - 1, j, guard, corner);
      if i1 > 0 && j1 > 0 {
        DpBounds(a, b, i1 - 1, j1 - 1, guard, corner);
      }
      BoundsStep(a, b, i, j, guard, corner, i1, j1);
    }
  }

  /** 0 <= distance <= max(|a|, |b|), hence every cell is strictly below inf. */
  lemma DistanceBounds(a: string, b: string)
    ensures Abs(|a| - |b|) <= Distance(a, b) <= Max(|a|, |b|) < Inf(a, b)
  {
    DpBounds(a, b, |a|, |b|, Inf(a, b), 0);
  }

  /** Cell H[i+1][j+1] of the Java table equals that of the cited algorithm. */
  predicate Agree(a: string, b: string, i: nat, j: nat)
    requires i <= |a| && j <= |b|
  {
    D(a, b, i, j) == Cited(a, b, i, j)
  }

  /** Both tables unfold cell H[i+1][j+1] over the same three neighbours. */
  lemma AgreeUnfold(a: string, b: string, i: nat, j: nat)
    requires 0 < i <= |a| && 0 < j <= |b|
    requires Agree(a, b, i - 1, j - 1) && Agree(a, b, i, j - 1) && Agree(a, b, i - 1, j)
    ensures var p := D(a, b, i - 1, j - 1) + (if a[i - 1] == b[j - 1] then 0 else 1);
      var q := D(a, b, i, j - 1) + 1;
      var r := D(a, b, i - 1, j) + 1;
      D(a, b, i, j) == Min4(p, q, r, Trans(a, b, i, j, Inf(a, b), 0)) &&
      Cited(a, b, i, j) == Min4(p, q, r, Trans(a, b, i, j, |a| + |b|, |a| + |b|))
  {
  }

  /** The transposition terms of the two tables agree when their sub-cell does. */
  lemma AgreeTrans(a: string, b: string, i: nat, j: nat, i1: nat, j1: nat)
    requires 0 < i <= |a| && 0 < j <= |b|
    requires i1 == LastIndex(a, b[j - 1], i - 1) && j1 == LastIndex(b, a[i - 1], j - 1)
    requires i1 > 0 && j1 > 0 && Agree(a, b, i1 - 1, j1 - 1)
    ensures Trans(a, b, i, j, Inf(a, b), 0) == Trans(a, b, i, j, |a| + |b|, |a| + |b|)
  {
  }

  /** Through a guard or the corner the transposition term of either table is at least
      max(i, j), which the substitution term never exceeds, so it drops out of the minimum. */
  lemma AgreeGuard(a: string, b: string, i: nat, j: nat, i1: nat, j1: nat, q: int, r: int)
    requires 0 < i <= |a| && 0 < j <= |b|
    requires i1 == LastIndex(a, b[j - 1], i - 1) && j1 == LastIndex(b, a[i - 1], j - 1)
    requires !(i1 > 0 && j1 > 0)
    requires Bounded(a, b, i - 1, j - 1, Inf(a, b), 0)
    ensures var p := D(a, b, i - 1, j - 1) + (if a[i - 1] == b[j - 1] then 0 else 1);
      Min4(p, q, r, Trans(a, b, i, j, Inf(a, b), 0)) == Min4(p, q, r, Trans(a, b, i, j, |a| + |b|, |a| + |b|))
  {
    var p := D(a, b, i - 1, j - 1) + (if a[i - 1] == b[j - 1] then 0 else 1);
    TransBounds(a, b, i, j, Inf(a, b), 0, i1, j1);
    TransBounds(a, b, i, j, |a| + |b|, |a| + |b|, i1, j1);
    Min4Ignores(p, q, r, Trans(a, b, i, j, Inf(a, b), 0), Trans(a, b, i, j, |a| + |b|, |a| + |b|));
  }

  /** One step of the agreement proof. */
  lemma AgreeStep(a: string, b: string, i: nat, j: nat, i1: nat, j1: nat)
    requires 0 < i <= |a| && 0 < j <= |b|
    requires i1 == LastIndex(a, b[j - 1], i - 1) && j1 == LastIndex(b, a[i - 1], j - 1)
    requires Agree(a, b, i - 1, j - 1) && Agree(a, b, i, j - 1) && Agree(a, b, i - 1, j)
    requires i1 > 0 && j1 > 0 ==> Agree(a, b, i1 - 1, j1 - 1)
    requires Bounded(a, b, i - 1, j - 1, Inf(a, b), 0)
    ensures Agree(a, b, i, j)
  {
    AgreeUnfold(a, b, i, j);
    if i1 > 0 && j1 > 0 {
      AgreeTrans(a, b, i, j, i1, j1);
    } else {
      AgreeGuard(a, b, i, j, i1, j1, D(a, b, i, j - 1) + 1, D(a, b, i - 1, j) + 1);
    }
  }

  /** A corner or guard value that only ever enters through a term at least max(i, j)
      never changes the minimum: the Java table equals the cited algorithm's table. */
  lemma {:induction false} JavaMatchesCited(a: string, b: string, i: nat, j: nat)
    requires i <= |a| && j <= |b|
    ensures D(a, b, i, j) == Cited(a, b, i, j)
    decreases i + j
  {
    if i > 0 && j > 0 {
      var i1 := LastIndex(a, b[j - 1], i - 1);
      var j1 := LastIndex(b, a[i - 1], j - 1);
      JavaMatchesCited(a, b, i - 1, j - 1);
      JavaMatchesCited(a, b, i, j - 1);
      JavaMatchesCited(a, b, i - 1, j);
      if i1 > 0 && j1 > 0 {
        JavaMatchesCited(a, b, i1 - 1, j1 - 1);
      }
      DpBounds(a, b, i - 1, j - 1, Inf(a, b), 0);
      AgreeStep(a, b, i, j, i1, j1);
    }
  }

  /** Cell H[i+1][j+1] of the table for (a, b) equals cell H[j+1][i+1] of the table for (b, a). */
  predicate MirrorAt(a: string, b: string, i: nat, j: nat, guard: int, corner: int)
    requires i <= |a| && j <= |b|
  {
    Dp(a, b, i, j, guard, corner) == Dp(b, a, j, i, guard, corner)
  }

  lemma TransSymmetric(a: string, b: string, i: nat, j: nat, guard: int, corner: int, i1: nat, j1: nat)
    requires 0 < i <= |a| && 0 < j <= |b|
    requires i1 == LastIndex(a, b[j - 1], i - 1) && j1 == LastIndex(b, a[i - 1], j - 1)
    requires i1 > 0 && j1 > 0 ==> MirrorAt(a, b, i1 - 1, j1 - 1, guard, corner)
    ensures Trans(a, b, i, j, guard, corner) == Trans(b, a, j, i, guard, corner)
  {
  }

  /** One step of the symmetry proof: if the four cells H[i1][j1], H[i][j], H[i+1][j] and
      H[i][j+1] agree with their mirror images, so does H[i+1][j+1]. */
  lemma SymmetricStep(a: string, b: string, i: nat, j: nat, guard: int, corner: int, i1: nat, j1: nat)
    requires 0 < i <= |a| && 0 < j <= |b|
    requires i1 == LastIndex(a, b[j - 1], i - 1) && j1 == LastIndex(b, a[i - 1], j - 1)
    requires MirrorAt(a, b, i - 1, j - 1, guard, corner)
    requires MirrorAt(a, b, i, j - 1, guard, corner)
    requires MirrorAt(a, b, i - 1, j, guard, corner)
    requires i1 > 0 && j1 > 0 ==> MirrorAt(a, b, i1 - 1, j1 - 1, guard, corner)
    ensures MirrorAt(a, b, i, j, guard, corner)
  {
    TransSymmetric(a, b, i, j, guard, corner, i1, j1);
  }

  /** Swapping the strings swaps DA with DB and insertion with deletion. */
  lemma {:induction false} DpSymmetric(a: string, b: string, i: nat, j: nat, guard: int, corner: int)
    requires i <= |a| && j <= |b|
    ensures MirrorAt(a, b, i, j, guard, corner)
    decreases i + j
  {
    if i > 0 && j > 0 {
      var i1 := LastIndex(a, b[j - 1], i - 1);
      var j1 := LastIndex(b, a[i - 1], j - 1);
      DpSymmetric(a, b, i - 1, j - 1, guard, corner);
      DpSymmetric(a, b, i, j - 1, guard, corner);
      DpSymmetric(a, b, i - 1, j, guard, corner);
      if i1 > 0 && j1 > 0 {
        DpSymmetric(a, b, i1 - 1, j1 - 1, guard, corner);
      }
      SymmetricStep(a, b, i, j, guard, corner, i1, j1);
    }
  }

  lemma DistanceSymmetric(a: string, b: string)
    ensures Distance(a, b) == Distance(b, a)
  {
    DpSymmetric(a, b, |a|, |b|, Inf(a, b), 0);
    assert Inf(a, b) == Inf(b, a);
  }

  /** The diagonal with d = 0 carries the H[1][1] = 0 seed down to the last cell. */
  lemma {:induction false} DiagonalZero(a: string, i: nat)
    requires i <= |a|
    ensures D(a, a, i, i) == 0
  {
    if i > 0 {
      DiagonalZero(a, i - 1);
      DpBounds(a, a, i, i, Inf(a, a), 0);
    }
  }

  /** A zero cell H[i+1][j+1] with i, j > 0 can only come from a zero diagonal neighbour
      with equal characters: every other term is at least 1. */
  lemma ZeroStep(a: string, b: string, i: nat, j: nat, i1: nat, j1: nat)
    requires 0 < i <= |a| && 0 < j <= |b|
    requires i1 == LastIndex(a, b[j - 1], i - 1) && j1 == LastIndex(b, a[i - 1], j - 1)
    requires D(a, b, i, j) == 0
    requires Bounded(a, b, i - 1, j - 1, Inf(a, b), 0)
    requires Bounded(a, b, i, j - 1, Inf(a, b), 0)
    requires Bounded(a, b, i - 1, j, Inf(a, b), 0)
    requires i1 > 0 && j1 > 0 ==> Bounded(a, b, i1 - 1, j1 - 1, Inf(a, b), 0)
    ensures D(a, b, i - 1, j - 1) == 0 && a[i - 1] == b[j - 1]
  {
    var d := if a[i - 1] == b[j - 1] then 0 else 1;
    var p := D(a, b, i - 1, j - 1) + d;
    var t := Trans(a, b, i, j, Inf(a, b), 0);
    TransBounds(a, b, i, j, Inf(a, b), 0, i1, j1);
    assert D(a, b, i, j) == Min4(p, D(a, b, i, j - 1) + 1, D(a, b, i - 1, j) + 1, t);
    Min4IsMinimum(p, D(a, b, i, j - 1) + 1, D(a, b, i - 1, j) + 1, t);
  }

  /** ZeroStep with the bounds of the four cells it needs. */
  lemma ZeroPredecessor(a: string, b: string, i: nat, j: nat)
    requires 0 < i <= |a| && 0 < j <= |b|
    requires D(a, b, i, j) == 0
    ensures D(a, b, i - 1, j - 1) == 0 && a[i - 1] == b[j - 1]
  {
    var i1 := LastIndex(a, b[j - 1], i - 1);
    var j1 := LastIndex(b, a[i - 1], j - 1);
    DpBounds(a, b, i - 1, j - 1, Inf(a, b), 0);
    DpBounds(a, b, i, j - 1, Inf(a, b), 0);
    DpBounds(a, b, i - 1, j, Inf(a, b), 0);
    if i1 > 0 && j1 > 0 {
      DpBounds(a, b, i1 - 1, j1 - 1, Inf(a, b), 0);
    }
    ZeroStep(a, b, i, j, i1, j1);
  }

  /** Equal prefixes extended by equal characters stay equal. */
  lemma PrefixExtend(a: string, b: string, i: nat, j: nat)
    requires 0 < i <= |a| && 0 < j <= |b|
    requires i - 1 == j - 1 && a[..i - 1] == b[..j - 1] && a[i - 1] == b[j - 1]
    ensures a[..i] == b[..j]
  {
    assert a[..i] == a[..i - 1] + [a[i - 1]];
    assert b[..j] == b[..j - 1] + [b[j - 1]];
  }

  /** A zero cell means the two prefixes are equal. */
  lemma {:induction false} ZeroMeansEqual(a: string, b: string, i: nat, j: nat)
    requires i <= |a| && j <= |b|
    requires D(a, b, i, j) == 0
    ensures i == j && a[..i] == b[..j]
    decreases i + j
  {
    if i > 0 && j > 0 {
      ZeroPredecessor(a, b, i, j);
      ZeroMeansEqual(a, b, i - 1, j - 1);
      PrefixExtend(a, b, i, j);
    } else {
      DpBounds(a, b, i, j, Inf(a, b), 0);
    }
  }

  /** distance(a, b) == 0 exactly when a == b. */
  lemma DistanceZeroIff(a: string, b: string)
    ensures Distance(a, b) == 0 <==> a == b
  {
    if a == b {
      DiagonalZero(a, |a|);
    }
    if Distance(a, b) == 0 {
      ZeroMeansEqual(a, b, |a|, |b|);
      assert a == a[..|a|] && b == b[..|b|];
    }
  }

  /** The guard row and column seeds: distance(a, "") = |a| and distance("", b) = |b|. */
  lemma DistanceToEmpty(a: string, b: string)
    ensures Distance(a, "") == |a| && Distance("", b) == |b|
  {
  }

  /** The distances behind the example of SymSpell.lookup's comment: with editDistanceMax 1,
      "bnak" and "bink" are suggestions for "bank", "kanb", "xban" and "baxn" are not. */
  lemma ExampleBnak()
    ensures Distance("bank", "bnak") == 1
  {
    var a, b := "bank", "bnak";
    assert D(a, b, 1, 1) == 0;
    assert D(a, b, 1, 2) == 1;
    assert D(a, b, 1, 3) == 2;
    assert D(a, b, 1, 4) == 3;
    assert D(a, b, 2, 1) == 1;
    assert D(a, b, 2, 2) == 1;
    assert D(a, b, 2, 3) == 1;
    assert D(a, b, 2, 4) == 2;
    assert D(a, b, 3, 1) == 2;
    assert D(a, b, 3, 2) == 1;
    assert D(a, b, 3, 3) == 1;
    assert D(a, b, 3, 4) == 2;
    assert D(a, b, 4, 1) == 3;
    assert D(a, b, 4, 2) == 2;
    assert D(a, b, 4, 3) == 2;
    assert D(a, b, 4, 4) == 1;
  }

  lemma ExampleBink()
    ensures Distance("bank", "bink") == 1
  {
    var a, b := "bank", "bink";
    assert D(a, b, 1, 1) == 0;
    assert D(a, b, 1, 2) == 1;
    assert D(a, b, 1, 3) == 2;
    assert D(a, b, 1, 4) == 3;
    assert D(a, b, 2, 1) == 1;
    assert D(a, b, 2, 2) == 1;
    assert D(a, b, 2, 3) == 2;
    assert D(a, b, 2, 4) == 3;
    assert D(a, b, 3, 1) == 2;
    assert D(a, b, 3, 2) == 2;
    assert D(a, b, 3, 3) == 1;
    assert D(a, b, 3, 4) == 2;
    assert D(a, b, 4, 1) == 3;
    assert D(a, b, 4, 2) == 3;
    assert D(a, b, 4, 3) == 2;
    assert D(a, b, 4, 4) == 1;
  }

  lemma ExampleKanb()
    ensures Distance("bank", "kanb") == 2
  {
    var a, b := "bank", "kanb";
    assert D(a, b, 1, 1) == 1;
    assert D(a, b, 1, 2) == 2;
    assert D(a, b, 1, 3) == 3;
    assert D(a, b, 1, 4) == 3;
    assert D(a, b, 2, 1) == 2;
    assert D(a, b, 2, 2) == 1;
    assert D(a, b, 2, 3) == 2;
    assert D(a, b, 2, 4) == 3;
    assert D(a, b, 3, 1) == 3;
    assert D(a, b, 3, 2) == 2;
    assert D(a, b, 3, 3) == 1;
    assert D(a, b, 3, 4) == 2;
    assert D(a, b, 4, 1) == 3;
    assert D(a, b, 4, 2) == 3;
    assert D(a, b, 4, 3) == 2;
    assert D(a, b, 4, 4) == 2;
  }

  lemma ExampleXban()
    ensures Distance("bank", "xban") == 2
  {
    var a, b := "bank", "xban";
    assert D(a, b, 1, 1) == 1;
    assert D(a, b, 1, 2) == 1;
    assert D(a, b, 1, 3) == 2;
    assert D(a, b, 1, 4) == 3;
    assert D(a, b, 2, 1) == 2;
    assert D(a, b, 2, 2) == 2;
    assert D(a, b, 2, 3) == 1;
    assert D(a, b, 2, 4) == 2;
    assert D(a, b, 3, 1) == 3;
    assert D(a, b, 3, 2) == 3;
    assert D(a, b, 3, 3) == 2;
    assert D(a, b, 3, 4) == 1;
    assert D(a, b, 4, 1) == 4;
    assert D(a, b, 4, 2) == 4;
    assert D(a, b, 4, 3) == 3;
    assert D(a, b, 4, 4) == 2;
  }

  lemma ExampleBaxn()
    ensures Distance("bank", "baxn") == 2
  {
    var a, b := "bank", "baxn";
    assert D(a, b, 1, 1) == 0;
    assert D(a, b, 1, 2) == 1;
    assert D(a, b, 1, 3) == 2;
    assert D(a, b, 1, 4) == 3;
    assert D(a, b, 2, 1) == 1;
    assert D(a, b, 2, 2) == 0;
    assert D(a, b, 2, 3) == 1;
    assert D(a, b, 2, 4) == 2;
    assert D(a, b, 3, 1) == 2;
    assert D(a, b, 3, 2) == 1;
    assert D(a, b, 3, 3) == 1;
    assert D(a, b, 3, 4) == 1;
    assert D(a, b, 4, 1) == 3;
    assert D(a, b, 4, 2) == 2;
    assert D(a, b, 4, 3) == 2;
    assert D(a, b, 4, 4) == 2;
  }

  /** An adjacent transposition costs 1. */
  lemma ExampleBaAb()
    ensures Distance("ba", "ab") == 1
  {
    var a, b := "ba", "ab";
    assert D(a, b, 1, 1) == 1;
    assert D(a, b, 1, 2) == 1;
    assert D(a, b, 2, 1) == 1;
    assert D(a, b, 2, 2) == 1;
  }

  /** A transposition of non-adjacent characters: unrestricted Damerau-Levenshtein gives
      2 where optimal string alignment would give 3. */
  lemma ExampleCaAbc()
    ensures Distance("ca", "abc") == 2
  {
    var a, b := "ca", "abc";
    assert D(a, b, 1, 1) == 1;
    assert D(a, b, 1, 2) == 2;
    assert D(a, b, 1, 3) == 2;
    assert D(a, b, 2, 1) == 1;
    assert D(a, b, 2, 2) == 2;
    assert D(a, b, 2, 3) == 2;
  }

  /** The recurrence in terms of table cells: the value the Java code stores in
      H[i+1][j+1] from H[i][j], H[i+1][j], H[i][j+1] and H[i1][j1]. */
  lemma CellStep(a: string, b: string, i: nat, j: nat, i1: nat, j1: nat)
    requires 0 < i <= |a| && 0 < j <= |b|
    requires i1 == LastIndex(a, b[j - 1], i - 1) && j1 == LastIndex(b, a[i - 1], j - 1)
    ensures Cell(a, b, i + 1, j + 1) ==
      Min4(Cell(a, b, i, j) + (if a[i - 1] == b[j - 1] then 0 else 1), Cell(a, b, i + 1, j) + 1,
           Cell(a, b, i, j + 1) + 1, Cell(a, b, i1, j1) + (i - i1 - 1) + 1 + (j - j1 - 1))
  {
    assert Trans(a, b, i, j, Inf(a, b), 0) == Cell(a, b, i1, j1) + (i - i1 - 1) + 1 + (j - j1 - 1);
  }

  /** The table H with its guard column (H[x][0] = inf), guard row (H[0][y] = inf) and
      seed row and column (H[x][1] = x - 1, H[1][y] = y - 1) filled in. */
  method InitTable(a: string, b: string) returns (H: array2<int>)
    ensures fresh(H) && H.Length0 == |a| + 2 && H.Length1 == |b| + 2
    ensures forall x, y :: 0 <= x < H.Length0 && 0 <= y < H.Length1 && (x <= 1 || y <= 1) ==>
      H[x, y] == Cell(a, b, x, y)
  {
    var inf := |a| + |b| + 1;
    H := new int[|a| + 2, |b| + 2]((x, y) => 0);
    for i := 0 to |a| + 1
      invariant forall x, y :: 0 <= x < H.Length0 && 0 <= y < H.Length1 ==>
        H[x, y] == (if 1 <= x <= i && y == 1 then x - 1 else if 1 <= x <= i && y == 0 then inf else 0)
    {
      H[i + 1, 1] := i;
      H[i + 1, 0] := inf;
    }
    for j := 0 to |b| + 1
      invariant forall x, y :: 0 <= x < H.Length0 && 0 <= y < H.Length1 && (x == 0 || y <= 1 || x == 1) ==>
        H[x, y] == (if x == 0 && 1 <= y <= j then inf
                    else if x == 1 && 1 <= y <= j then y - 1
                    else if x == 0 || y > 1 then 0
                    else if y == 1 then x - 1
                    else inf)
    {
      H[1, j + 1] := j;
      H[0, j + 1] := inf;
    }
  }

  /** The map DA with every character of a and b bound to 0. */
  method InitLastRows(a: string, b: string) returns (DA: map<char, int>)
    ensures forall c :: c in DA <==> c in a || c in b
    ensures forall c :: c in DA ==> DA[c] == 0
  {
    DA := map[];
    for d := 0 to |a|
      invariant forall c :: c in DA <==> c in a[..d]
      invariant forall c :: c in DA ==> DA[c] == 0
    {
      if a[d] !in DA {
        DA := DA[a[d] := 0];
      }
    }
    for d := 0 to |b|
      invariant forall c :: c in DA <==> c in a || c in b[..d]
      invariant forall c :: c in DA ==> DA[c] == 0
    {
      if b[d] !in DA {
        DA := DA[b[d] := 0];
      }
    }
  }

  /** The inner loop of damerauLevenshteinDistance: fills row i + 1 of H, keeping DB. */
  method FillRow(a: string, b: string, H: array2<int>, DA: map<char, int>, i: nat)
    requires 0 < i <= |a| && H.Length0 == |a| + 2 && H.Length1 == |b| + 2
    requires forall c :: c in DA <==> c in a || c in b
    requires forall c :: c in DA ==> DA[c] == LastIndex(a, c, i - 1)
    requires forall x, y :: 0 <= x < H.Length0 && 0 <= y < H.Length1 && (x <= i || y <= 1) ==>
      H[x, y] == Cell(a, b, x, y)
    modifies H
    ensures forall x, y :: 0 <= x < H.Length0 && 0 <= y < H.Length1 && (x <= i + 1 || y <= 1) ==>
      H[x, y] == Cell(a, b, x, y)
  {
    var DB := 0;
    for j := 1 to |b| + 1
      invariant DB == LastIndex(b, a[i - 1], j - 1)
      invariant forall x, y :: 0 <= x < H.Length0 && 0 <= y < H.Length1 && (x <= i || y <= 1 || (x == i + 1 && y <= j)) ==>
        H[x, y] == Cell(a, b, x, y)
    {
      assert b[j - 1] in b;
      var i1 := DA[b[j - 1]];
      var j1 := DB;
      var d := 1;
      if a[i - 1] == b[j - 1] {
        d := 0;
        DB := j;
      }
      CellStep(a, b, i, j, i1, j1);
      H[i + 1, j + 1] := Min4(H[i, j] + d, H[i + 1, j] + 1, H[i, j + 1] + 1, H[i1, j1] + (i - i1 - 1) + 1 + (j - j1 - 1));
    }
  }

  /** damerauLevenshteinDistance: fills the (|a|+2) x (|b|+2) table H row by row,
      keeping DA[c] = last row of a holding c and DB = last column of b matching a[i-1]. */
  method DamerauLevenshteinDistance(a: string, b: string) returns (r: int)
    ensures r == Distance(a, b)
  {
    var H := InitTable(a, b);
    var DA := InitLastRows(a, b);
    for i := 1 to |a| + 1
      invariant forall c :: c in DA <==> c in a || c in b
      invariant forall c :: c in DA ==> DA[c] == LastIndex(a, c, i - 1)
      invariant forall x, y :: 0 <= x < H.Length0 && 0 <= y < H.Length1 && (x <= i || y <= 1) ==> H[x, y] == Cell(a, b, x, y)
    {
      FillRow(a, b, H, DA, i);
      DA := DA[a[i - 1] := i];
    }
    r := H[|a| + 1, |b| + 1];
  }
}
