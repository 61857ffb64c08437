/** The distance lookup of SymSpell.java gives a suggestion reached through a candidate (lines
    284-306): shortcuts when the lengths allow, otherwise the Damerau-Levenshtein distance of
    the two strings with their common prefix and suffix cut off. Also the finite set of
    subsequences of the input, which bounds the candidates lookup can generate. */
module Suggestions {
  import opened DistanceCalc
  import opened Deletes

  /** How many leading characters a and b share: where the first loop of lines 294-296 stops. */
  function PrefixLen(a: string, b: string): (n: nat)
    ensures n <= |a| && n <= |b|
    ensures forall k :: 0 <= k < n ==> a[k] == b[k]
    ensures n < |a| && n < |b| ==> a[n] != b[n]
  {
    if a != [] && b != [] && a[0] == b[0] then 1 + PrefixLen(a[1..], b[1..]) else 0
  }

  /** The k-th character counted from the end. */
  function FromEnd(s: string, k: nat): char
    requires k < |s|
  {
    s[|s| - 1 - k]
  }

  /** How many trailing characters a and b share. */
  function SuffixLen(a: string, b: string): (n: nat)
    ensures n <= |a| && n <= |b|
    ensures forall k :: 0 <= k < n ==> FromEnd(a, k) == FromEnd(b, k)
    ensures n < |a| && n < |b| ==> FromEnd(a, n) != FromEnd(b, n)
  {
    if a != [] && b != [] && a[|a| - 1] == b[|b| - 1] then
      var a', b' := a[..|a| - 1], b[..|b| - 1];
      var n' := SuffixLen(a', b');
      assert forall k :: 1 <= k <= n' ==> FromEnd(a, k) == FromEnd(a', k - 1) && FromEnd(b, k) == FromEnd(b', k - 1);
      1 + n'
    else 0
  }

  /** PrefixLen is the only length with a common prefix that cannot be extended. */
  lemma PrefixLenUnique(a: string, b: string, n: nat)
    requires n <= |a| && n <= |b|
    requires forall k :: 0 <= k < n ==> a[k] == b[k]
    requires n < |a| && n < |b| ==> a[n] != b[n]
    ensures PrefixLen(a, b) == n
  {
  }

  /** SuffixLen is the only length with a common suffix that cannot be extended. */
  lemma SuffixLenUnique(a: string, b: string, n: nat)
    requires n <= |a| && n <= |b|
    requires forall k :: 0 <= k < n ==> FromEnd(a, k) == FromEnd(b, k)
    requires n < |a| && n < |b| ==> FromEnd(a, n) != FromEnd(b, n)
    ensures SuffixLen(a, b) == n
  {
  }

  /** The two loops of lines 294-299: ii leading characters in common, then jj trailing ones
      among the rest. */
  method CommonAffixes(suggestion: string, input: string) returns (ii: nat, jj: nat)
    ensures ii == PrefixLen(suggestion, input)
    ensures jj == SuffixLen(suggestion[ii..], input[ii..])
    ensures ii + jj <= |suggestion| && ii + jj <= |input|
  {
    ii := 0;
    while ii < |suggestion| && ii < |input| && suggestion[ii] == input[ii]
      invariant ii <= |suggestion| && ii <= |input|
      invariant forall k :: 0 <= k < ii ==> suggestion[k] == input[k]
    {
      ii := ii + 1;
    }
    PrefixLenUnique(suggestion, input, ii);
    ghost var a, b := suggestion[ii..], input[ii..];
    jj := 0;
    while jj < |suggestion| - ii && jj < |input| - ii
          && suggestion[|suggestion| - jj - 1] == input[|input| - jj - 1]
      invariant jj <= |a| && jj <= |b|
      invariant forall k :: 0 <= k < jj ==> FromEnd(a, k) == FromEnd(b, k)
    {
      assert FromEnd(a, jj) == suggestion[|suggestion| - jj - 1];
      assert FromEnd(b, jj) == input[|input| - jj - 1];
      jj := jj + 1;
    }
    if jj < |a| && jj < |b| {
      assert FromEnd(a, jj) == suggestion[|suggestion| - jj - 1];
      assert FromEnd(b, jj) == input[|input| - jj - 1];
    }
    SuffixLenUnique(a, b, jj);
  }

  /** The distance lines 284-306 assign to `suggestion`, found under `candidate`, for `input`. */
  function SuggestionDistance(input: string, candidate: string, suggestion: string): int
  {
    if suggestion == input then 0
    else if |suggestion| == |candidate| then |input| - |candidate|
    else if |input| == |candidate| then |suggestion| - |candidate|
    else TrimmedDistance(suggestion, input)
  }

  /** Lines 292-304: the Damerau-Levenshtein distance with the common prefix and suffix cut off. */
  function TrimmedDistance(suggestion: string, input: string): int
  {
    var ii := PrefixLen(suggestion, input);
    var jj := SuffixLen(suggestion[ii..], input[ii..]);
    if ii > 0 || jj > 0 then
      Distance(suggestion[ii..|suggestion| - jj], input[ii..|input| - jj])
    else
      Distance(suggestion, input)
  }

  /** Lines 292-304 as code. */
  method ComputeTrimmedDistance(suggestion: string, input: string) returns (distance: int)
    ensures distance == TrimmedDistance(suggestion, input)
  {
    var ii, jj := CommonAffixes(suggestion, input);
    if ii > 0 || jj > 0 {
      distance := DamerauLevenshteinDistance(suggestion[ii..|suggestion| - jj], input[ii..|input| - jj]);
    } else {
      distance := DamerauLevenshteinDistance(suggestion, input);
    }
  }

  /** Lines 284-306 as code. */
  method ComputeSuggestionDistance(input: string, candidate: string, suggestion: string) returns (distance: int)
    ensures distance == SuggestionDistance(input, candidate, suggestion)
  {
    distance := 0;
    if suggestion != input {
      if |suggestion| == |candidate| {
        distance := |input| - |candidate|;
      } else if |input| == |candidate| {
        distance := |suggestion| - |candidate|;
      } else {
        distance := ComputeTrimmedDistance(suggestion, input);
      }
    }
  }

  /** Cutting a common prefix and a common suffix off two different strings leaves two
      different strings. */
  lemma TrimKeepsDifference(a: string, b: string, ii: nat, jj: nat)
    requires ii + jj <= |a| && ii + jj <= |b|
    requires forall k :: 0 <= k < ii ==> a[k] == b[k]
    requires forall k :: 0 <= k < jj ==> FromEnd(a, k) == FromEnd(b, k)
    requires a[ii..|a| - jj] == b[ii..|b| - jj]
    ensures a == b
  {
    forall p | 0 <= p < |a|
      ensures a[p] == b[p]
    {
      if ii <= p < |a| - jj {
        assert a[p] == a[ii..|a| - jj][p - ii];
      } else if p >= |a| - jj {
        assert FromEnd(a, |a| - 1 - p) == FromEnd(b, |b| - 1 - p);
      }
    }
  }

  /** For a suggestion the candidate is a proper delete of, the distance lookup assigns is
      never negative, and it is zero exactly when the suggestion is the input itself. */
  lemma SuggestionDistanceZeroIff(input: string, candidate: string, suggestion: string)
    requires |candidate| < |suggestion|
    ensures SuggestionDistance(input, candidate, suggestion) >= 0
    ensures SuggestionDistance(input, candidate, suggestion) == 0 <==> suggestion == input
  {
    if suggestion != input && |input| != |candidate| {
      var ii := PrefixLen(suggestion, input);
      var jj := SuffixLen(suggestion[ii..], input[ii..]);
      var a, b := suggestion[ii..|suggestion| - jj], input[ii..|input| - jj];
      forall k | 0 <= k < jj
        ensures FromEnd(suggestion, k) == FromEnd(input, k)
      {
        assert FromEnd(suggestion[ii..], k) == FromEnd(input[ii..], k);
      }
      if a == b {
        TrimKeepsDifference(suggestion, input, ii, jj);
      }
      DistanceZeroIff(a, b);
      DistanceBounds(a, b);
      DistanceZeroIff(suggestion, input);
      DistanceBounds(suggestion, input);
    }
  }

  /** Every subsequence of w. */
  function Subseqs(w: string): set<string>
    decreases |w|
  {
    if w == [] then {[]}
    else
      var t := Subseqs(w[1..]);
      t + set x | x in t :: [w[0]] + x
  }

  lemma {:induction false} SubseqsComplete(x: string, w: string)
    requires IsSubseq(x, w)
    ensures x in Subseqs(w)
    decreases |w|
  {
    if w != [] {
      if x != [] && x[0] == w[0] && IsSubseq(x[1..], w[1..]) {
        SubseqsComplete(x[1..], w[1..]);
        assert x == [w[0]] + x[1..];
      } else {
        SubseqsComplete(x, w[1..]);
      }
    }
  }

  /** The one-character deletes of c: what the loop of lines 341-346 offers as new candidates. */
  function DelsOf(c: string): (r: set<string>)
    ensures forall i :: 0 <= i < |c| ==> Del(c, i) in r
    ensures forall x :: x in r ==> |x| == |c| - 1 && exists i :: 0 <= i < |c| && x == Del(c, i)
  {
    set i | 0 <= i < |c| :: Del(c, i)
  }

  /** The deletes of a subsequence of the input are subsequences of the input. */
  lemma DelsOfSubseq(c: string, input: string)
    requires IsSubseq(c, input)
    ensures forall x :: x in DelsOf(c) ==> IsSubseq(x, input)
  {
    forall x | x in DelsOf(c)
      ensures IsSubseq(x, input)
    {
      var i :| 0 <= i < |c| && x == Del(c, i);
      DelIsSubseq(c, i);
      SubseqTrans(x, c, input);
    }
  }
}
