/** The delete generator `edit` of SymSpell.java: every string reachable from a word by
    deleting characters one at a time, down to a depth, never expanding a string of
    length 1 or less. */
module Deletes {

  /** word.substring(0, i) + word.substring(i + 1): the word without its i-th character. */
  function Del(w: string, i: nat): (d: string)
    requires i < |w|
    ensures |d| == |w| - 1
  {
    w[..i] + w[i + 1..]
  }

  /** The strings reachable from w by one to k deletes, as edit collects them. */
  function DeleteSet(w: string, k: nat): set<string>
    decreases |w|, 1, 0
  {
    if k == 0 || |w| <= 1 then {} else DeletesUpTo(w, k, |w|)
  }

  /** The part of DeleteSet(w, k) that the loop of edit has collected after positions 0..i-1:
      each delete of w and, below it, what the recursive call collects. */
  function DeletesUpTo(w: string, k: nat, i: nat): set<string>
    requires 0 < k && i <= |w|
    decreases |w|, 0, i
  {
    if i == 0 then {}
    else DeletesUpTo(w, k, i - 1) + {Del(w, i - 1)} + DeleteSet(Del(w, i - 1), k - 1)
  }

  /** The depth edit(word, editDistance, ...) reaches: it always adds the one-character
      deletes and recurses while the incremented editDistance stays below editDistanceMax. */
  function Depth(editDistance: int, editDistanceMax: int): (k: nat)
    ensures k >= 1
    ensures editDistance + 1 < editDistanceMax ==> k == editDistanceMax - editDistance
  {
    if editDistance + 1 < editDistanceMax then editDistanceMax - editDistance else 1
  }

  /** x is a subsequence of y. */
  predicate IsSubseq(x: string, y: string)
    decreases |y|
  {
    if x == [] then true
    else if y == [] then false
    else (x[0] == y[0] && IsSubseq(x[1..], y[1..])) || IsSubseq(x, y[1..])
  }

  lemma {:induction false} SubseqLength(x: string, y: string)
    requires IsSubseq(x, y)
    ensures |x| <= |y|
    decreases |y|
  {
    if x != [] {
      if x[0] == y[0] && IsSubseq(x[1..], y[1..]) {
        SubseqLength(x[1..], y[1..]);
      } else {
        SubseqLength(x, y[1..]);
      }
    }
  }

  lemma {:induction false} SubseqRefl(x: string)
    ensures IsSubseq(x, x)
    decreases |x|
  {
    if x != [] {
      SubseqRefl(x[1..]);
    }
  }

  lemma {:induction false} SubseqTrans(x: string, y: string, z: string)
    requires IsSubseq(x, y) && IsSubseq(y, z)
    ensures IsSubseq(x, z)
    decreases |z|
  {
    if x != [] {
      SubseqLength(x, y);
      if y[0] == z[0] && IsSubseq(y[1..], z[1..]) {
        if x[0] == y[0] && IsSubseq(x[1..], y[1..]) {
          SubseqTrans(x[1..], y[1..], z[1..]);
        } else {
          SubseqTrans(x, y[1..], z[1..]);
        }
      } else {
        SubseqTrans(x, y, z[1..]);
      }
    }
  }

  /** A subsequence as long as the sequence is the sequence itself. */
  lemma {:induction false} SubseqSameLength(x: string, y: string)
    requires IsSubseq(x, y) && |x| == |y|
    ensures x == y
    decreases |y|
  {
    if x != [] {
      if x[0] == y[0] && IsSubseq(x[1..], y[1..]) {
        SubseqSameLength(x[1..], y[1..]);
        assert x == [x[0]] + x[1..] && y == [y[0]] + y[1..];
      } else {
        SubseqLength(x, y[1..]);
      }
    }
  }

  /** A delete is a subsequence. */
  lemma {:induction false} DelIsSubseq(w: string, i: nat)
    requires i < |w|
    ensures IsSubseq(Del(w, i), w)
    decreases i
  {
    if i == 0 {
      assert Del(w, 0) == w[1..];
      SubseqRefl(w[1..]);
    } else {
      assert Del(w, i) == [w[0]] + Del(w[1..], i - 1);
      DelIsSubseq(w[1..], i - 1);
      assert Del(w, i)[1..] == Del(w[1..], i - 1);
    }
  }

  /** A proper subsequence survives one of the deletes. */
  lemma {:induction false} SubseqOfSomeDel(x: string, y: string) returns (i: nat)
    requires IsSubseq(x, y) && |x| < |y|
    ensures i < |y| && IsSubseq(x, Del(y, i))
    decreases |y|
  {
    if x == [] {
      i := 0;
    } else if x[0] == y[0] && IsSubseq(x[1..], y[1..]) {
      var i' := SubseqOfSomeDel(x[1..], y[1..]);
      i := i' + 1;
      assert Del(y, i) == [y[0]] + Del(y[1..], i');
      assert Del(y, i)[1..] == Del(y[1..], i');
    } else {
      i := 0;
      assert Del(y, 0) == y[1..];
    }
  }

  /** Membership in the loop's partial result: a delete at a position below i, or something
      the recursive call below it collects. */
  lemma {:induction false} DeletesUpToMember(w: string, k: nat, i: nat, d: string)
    requires 0 < k && i <= |w|
    ensures d in DeletesUpTo(w, k, i) <==>
      exists p :: 0 <= p < i && (d == Del(w, p) || d in DeleteSet(Del(w, p), k - 1))
    decreases i
  {
    if i > 0 {
      DeletesUpToMember(w, k, i - 1, d);
    }
  }

  /** Everything edit collects is a non-empty subsequence of the word, one to k characters shorter. */
  lemma {:induction false} DeleteSetSound(w: string, k: nat, d: string)
    requires d in DeleteSet(w, k)
    ensures IsSubseq(d, w) && 1 <= |d| && |w| - k <= |d| < |w|
    decreases |w|
  {
    DeletesUpToMember(w, k, |w|, d);
    var p :| 0 <= p < |w| && (d == Del(w, p) || d in DeleteSet(Del(w, p), k - 1));
    DelIsSubseq(w, p);
    if d != Del(w, p) {
      DeleteSetSound(Del(w, p), k - 1, d);
      SubseqTrans(d, Del(w, p), w);
    }
  }

  /** ... and every such subsequence is collected. */
  lemma {:induction false} DeleteSetComplete(w: string, k: nat, d: string)
    requires IsSubseq(d, w) && 1 <= |d| && |w| - k <= |d| < |w|
    ensures d in DeleteSet(w, k)
    decreases |w|
  {
    var p := SubseqOfSomeDel(d, w);
    var u := Del(w, p);
    if |d| == |u| {
      SubseqSameLength(d, u);
    } else {
      DeleteSetComplete(u, k - 1, d);
    }
    DeletesUpToMember(w, k, |w|, d);
  }

  /** A word of at most one character has no deletes. */
  lemma ShortWordHasNoDeletes(w: string, k: nat)
    requires |w| <= 1
    ensures DeleteSet(w, k) == {}
  {
  }

  /** Deeper search only adds strings. */
  lemma DeleteSetMonotone(w: string, k: nat, k': nat)
    requires k <= k'
    ensures DeleteSet(w, k) <= DeleteSet(w, k')
  {
    forall d | d in DeleteSet(w, k)
      ensures d in DeleteSet(w, k')
    {
      DeleteSetSound(w, k, d);
      DeleteSetComplete(w, k', d);
    }
  }

  /** Every string of S longer than lo (and than 1), except those in pending, already
      has each of its one-character deletes in S. */
  predicate ClosedExcept(S: set<string>, lo: int, pending: set<string>)
  {
    forall s, i :: s in S && s !in pending && |s| > 1 && |s| > lo && 0 <= i < |s| ==> Del(s, i) in S
  }

  /** In a closed set, everything below a settled member is already there. */
  lemma {:induction false} ClosedContainsDeleteSet(S: set<string>, lo: int, pending: set<string>, s: string, k: nat)
    requires ClosedExcept(S, lo, pending)
    requires s in S && s !in pending && k <= |s| - lo
    requires forall p :: p in pending ==> |p| > |s|
    ensures DeleteSet(s, k) <= S
    decreases |s|
  {
    if k > 0 && |s| > 1 {
      forall d | d in DeleteSet(s, k)
        ensures d in S
      {
        DeletesUpToMember(s, k, |s|, d);
        var p :| 0 <= p < |s| && (d == Del(s, p) || d in DeleteSet(Del(s, p), k - 1));
        ClosedContainsDeleteSet(S, lo, pending, Del(s, p), k - 1);
      }
    }
  }

  /** edit(word, editDistance, deletes): adds the deletes of word to the shared set, recursing
      on each one that was not in the set yet while editDistance + 1 < editDistanceMax.
      `pending` holds the words whose loops are still running up the call chain (the word
      itself among them when it is in the set); every other member is already expanded. */
  method Edit(word: string, editDistance: int, deletes: set<string>, editDistanceMax: int,
              ghost pending: set<string>) returns (r: set<string>)
    requires ClosedExcept(deletes, |word| + editDistance - editDistanceMax, pending)
    requires forall p :: p in pending ==> |p| >= |word|
    ensures r == deletes + DeleteSet(word, Depth(editDistance, editDistanceMax))
    ensures ClosedExcept(r, |word| + editDistance - editDistanceMax, pending - {word})
    decreases |word|
  {
    ghost var lo := |word| + editDistance - editDistanceMax;
    ghost var k := Depth(editDistance, editDistanceMax);
    var ed := editDistance + 1;
    r := deletes;
    if |word| > 1 {
      for i := 0 to |word|
        invariant r == deletes + DeletesUpTo(word, k, i)
        invariant ClosedExcept(r, lo, pending + {word})
        invariant forall p :: 0 <= p < i ==> Del(word, p) in r
      {
        var delete := word[..i] + word[i + 1..];
        assert delete == Del(word, i);
        var added := delete !in r;
        r := r + {delete};
        if added && ed < editDistanceMax {
          r := Edit(delete, ed, r, editDistanceMax, pending + {word, delete});
          assert pending + {word, delete} - {delete} == pending + {word};
        } else if !added && ed < editDistanceMax {
          ClosedContainsDeleteSet(r, lo, pending + {word}, delete, k - 1);
        }
      }
    }
  }

  /** The call createDictionaryEntry makes: edit(key, 0, new HashSet()). */
  method EditWord(key: string, editDistanceMax: int) returns (r: set<string>)
    ensures r == DeleteSet(key, Depth(0, editDistanceMax))
  {
    r := Edit(key, 0, {}, editDistanceMax, {key});
  }
}
