/** The SymSpell class: the static fields dictionary, wordlist and maxlength of SymSpell.java
    as the fields of one object, createDictionaryEntry and lookup as its methods. */
module SymSpell {
  import opened Wrappers
  import opened JavaInt
  import opened SuggestItem
  import opened DictionaryItem
  import opened Deletes
  import opened DictionaryBuilder
  import opened Ranking
  import opened Suggestions

  /** No term occurs twice in the list. */
  predicate DistinctTerms(s: seq<SuggestItem>)
  {
    forall i, j :: 0 <= i < j < |s| ==> s[i].term != s[j].term
  }

  /** Every queued candidate is a subsequence of the input, no more than editDistanceMax
      characters shorter unless it is the input itself. */
  predicate Queue(input: string, editDistanceMax: int, cs: seq<string>)
  {
    forall c :: c in cs ==> IsSubseq(c, input) && (c == input || |input| - |c| <= editDistanceMax)
  }

  /** The deletes added to the queue keep the queue's invariant. */
  lemma NewCandidates(input: string, editDistanceMax: int, candidate: string, before: seq<string>,
                      after: seq<string>)
    requires IsSubseq(candidate, input) && |input| - |candidate| < editDistanceMax
    requires Queue(input, editDistanceMax, before)
    requires |before| <= |after| && after[..|before|] == before
    requires forall c :: c in after[|before|..] ==> c in DelsOf(candidate)
    ensures Queue(input, editDistanceMax, after)
  {
    forall c | c in after
      ensures IsSubseq(c, input) && (c == input || |input| - |c| <= editDistanceMax)
    {
      var p :| 0 <= p < |after| && after[p] == c;
      if p < |before| {
        assert before[p] == c;
      } else {
        assert after[|before|..][p - |before|] == c;
        assert c in DelsOf(candidate);
        assert |c| == |candidate| - 1;
        DelsOfSubseq(candidate, input);
      }
    }
  }

  /** What lines 350-356 return: nothing for an empty list, else the head of the sorted list. */
  lemma Returned(found: seq<SuggestItem>, sorted: seq<SuggestItem>, r: seq<SuggestItem>)
    requires sorted == SortAscDistanceAndDescFreq(found)
    requires r == if |sorted| > 1 then sorted[..1] else sorted
    ensures |r| <= 1 && (r == [] <==> found == [])
    ensures r != [] ==> r[0] in found && forall x :: x in found ==> RankLe(r[0], x)
    ensures r != [] ==> r[0] == found[FirstBest(found)]
  {
    if found != [] {
      SortedHeadIsFirstBest(found);
      assert sorted[0] in multiset(sorted);
      forall x | x in found
        ensures RankLe(r[0], x)
      {
        SortedHeadIsBest(found, x);
      }
    }
  }

  class SymSpell {
    var dictionary: map<string, Entry>
    var wordlist: seq<string>
    var maxlength: int

    /** The initial values of the static fields. */
    constructor ()
      ensures Abs() == EmptyState() && Valid()
    {
      dictionary := map[];
      wordlist := [];
      maxlength := 0;
      new;
      EmptyStateInv();
    }

    function Abs(): State
      reads this
    {
      State(dictionary, wordlist, maxlength)
    }

    predicate Valid()
      reads this
    {
      Inv(Abs())
    }

    /** addLowestDistance, acting on the item in place. */
    method AddLowestDistanceTo(item: DictionaryItem, suggestion: string, suggestionint: nat, delete: string)
      requires item.suggestions != [] ==> item.suggestions[0] < |wordlist|
      modifies item
      ensures item.suggestions == AddLowestDistance(wordlist, old(item.suggestions), suggestion, suggestionint, delete)
      ensures item.count == old(item.count)
    {
      var deleteLength := |delete|;
      var suggestionLength := |suggestion|;
      if item.suggestions != [] {
        if |wordlist[item.suggestions[0]]| - deleteLength > suggestionLength - deleteLength {
          item.ClearSuggestions();
        }
      } else {
        // the guard of line 191 starts with isEmpty(), which holds on this branch
        item.AddSuggestion(suggestionint);
      }
    }

    /** Lines 90-120 of createDictionaryEntry: look the key up, promote a bare Integer, count
        the occurrence, or store a new item. The item the map holds is written back after
        each change, since the map shares it with the local. */
    method CountOccurrence(key: string) returns (dictionaryItem: DictionaryItem?)
      modifies this
      ensures dictionaryItem != null ==> fresh(dictionaryItem)
      ensures Abs() == CountKey(old(Abs()), key).0
      ensures dictionaryItem == null <==> CountKey(old(Abs()), key).1.None?
      ensures dictionaryItem != null ==> dictionaryItem.Value() == CountKey(old(Abs()), key).1.value
    {
      dictionaryItem := null;
      if key in dictionary {
        var valueObj := dictionary[key];
        if valueObj.Single? {
          dictionaryItem := Promote(valueObj);
          dictionary := dictionary[key := dictionaryItem.Value()];
        } else {
          dictionaryItem := new DictionaryItem();
          dictionaryItem.SetCount(valueObj.count);
          dictionaryItem.SetSuggestions(valueObj.suggestions);
        }
        if dictionaryItem.count < MAX_VALUE {
          dictionaryItem.SetCount(dictionaryItem.count + 1);
        }
        dictionary := dictionary[key := dictionaryItem.Value()];
      } else if |wordlist| < MAX_VALUE {
        dictionaryItem := new DictionaryItem();
        dictionaryItem.SetCount(dictionaryItem.count + 1);
        dictionary := dictionary[key := dictionaryItem.Value()];
        if |key| > maxlength {
          maxlength := |key|;
        }
      }
    }

    /** Lines 137-154: one delete of the new word registered. `d0` is the map before the
        loop and `done` the deletes already registered. */
    method RegisterOneDelete(key: string, keyint: nat, delete: string,
                             ghost d0: map<string, Entry>, ghost done: set<string>)
      requires IndicesInRange(d0, |wordlist|) && delete !in done
      requires dictionary == ApplyDeletes(d0, wordlist, key, keyint, done)
      modifies this
      ensures wordlist == old(wordlist) && maxlength == old(maxlength)
      ensures dictionary == ApplyDeletes(d0, wordlist, key, keyint, done + {delete})
    {
      ApplyDeletesUntouched(d0, wordlist, key, keyint, done, delete);
      ApplyDeletesStep(d0, wordlist, key, keyint, done, delete);
      RegisterOne(key, keyint, delete, d0);
    }

    /** The body of that step, against the entry the delete had before the loop. */
    method RegisterOne(key: string, keyint: nat, delete: string, ghost d0: map<string, Entry>)
      requires IndicesInRange(d0, |wordlist|)
      requires delete in dictionary <==> delete in d0
      requires delete in d0 ==> dictionary[delete] == d0[delete]
      modifies this
      ensures wordlist == old(wordlist) && maxlength == old(maxlength)
      ensures dictionary == old(dictionary)[delete := RegisterDelete(d0, wordlist, key, keyint, delete)]
    {
      if delete in dictionary {
        var value2 := dictionary[delete];
        if value2.Single? {
          var di := Promote(value2);
          assert value2.idx in Indices(d0[delete]);
          dictionary := dictionary[delete := di.Value()];
          if keyint !in di.suggestions {
            AddLowestDistanceTo(di, key, keyint, delete);
            dictionary := dictionary[delete := di.Value()];
          }
        } else if keyint !in value2.suggestions {
          var di := new DictionaryItem();
          di.SetCount(value2.count);
          di.SetSuggestions(value2.suggestions);
          assert di.suggestions != [] ==> di.suggestions[0] in Indices(d0[delete]);
          AddLowestDistanceTo(di, key, keyint, delete);
          dictionary := dictionary[delete := di.Value()];
        } else {
          assert dictionary == dictionary[delete := value2];
        }
      } else {
        dictionary := dictionary[delete := Single(keyint)];
      }
    }

    /** Lines 136-156 of createDictionaryEntry: register every delete of the key, whose
        index in the list is keyint. */
    method RegisterDeletes(key: string, keyint: nat)
      requires IndicesInRange(dictionary, |wordlist|)
      modifies this
      ensures wordlist == old(wordlist) && maxlength == old(maxlength)
      ensures dictionary == ApplyDeletes(old(dictionary), wordlist, key, keyint, DeleteSet(key, KeyDepth))
    {
      var deletes := EditWord(key, EditDistanceMax);
      RegisterAll(key, keyint, deletes);
    }

    /** The loop of lines 136-156 over the set edit returned, in whatever order it yields. */
    method RegisterAll(key: string, keyint: nat, deletes: set<string>)
      requires IndicesInRange(dictionary, |wordlist|)
      modifies this
      ensures wordlist == old(wordlist) && maxlength == old(maxlength)
      ensures dictionary == ApplyDeletes(old(dictionary), wordlist, key, keyint, deletes)
    {
      ghost var d0 := dictionary;
      var todo := deletes;
      ghost var done: set<string> := {};
      ApplyNoDeletes(d0, wordlist, key, keyint);
      while todo != {}
        invariant todo <= deletes && done == deletes - todo
        invariant wordlist == old(wordlist) && maxlength == old(maxlength)
        invariant dictionary == ApplyDeletes(d0, wordlist, key, keyint, done)
        decreases todo
      {
        var delete :| delete in todo;
        todo := todo - {delete};
        RegisterOneDelete(key, keyint, delete, d0, done);
        done := done + {delete};
      }
      assert done == deletes;
    }

    /** createDictionaryEntry(key): the new state is Insert of the old one, and the invariant holds. */
    method CreateDictionaryEntry(key: string) returns (result: bool)
      requires Valid()
      modifies this
      ensures Valid()
      ensures Abs() == Insert(old(Abs()), key).0 && result == Insert(old(Abs()), key).1
    {
      ghost var s0 := Abs();
      InsertInv(s0, key);
      InsertSteps(s0, key);
      result := false;
      var dictionaryItem := CountOccurrence(key);
      if dictionaryItem != null && dictionaryItem.count == 1 {
        AddWord(key);
        result := true;
      }
      assert Abs() == Insert(s0, key).0;
    }

    /** Lines 128-157: a key seen for the first time goes to the end of wordlist, and each of
        its deletes is registered with the key's index. */
    method AddWord(key: string)
      requires IndicesInRange(dictionary, |wordlist| + 1)
      modifies this
      ensures wordlist == old(wordlist) + [key] && maxlength == old(maxlength)
      ensures dictionary == ApplyDeletes(old(dictionary), wordlist, key, |old(wordlist)|, DeleteSet(key, KeyDepth))
    {
      wordlist := wordlist + [key];
      var keyint := |wordlist| - 1;
      RegisterDeletes(key, keyint);
    }

    /** What every suggestion lookup collects satisfies: a word of the list with its count,
        at a distance that is never negative, zero only for the input itself, and within
        editDistanceMax otherwise. */
    predicate GoodSuggestion(input: string, editDistanceMax: int, it: SuggestItem)
      reads this
    {
      && it.term in wordlist && it.term in dictionary
      && it.count == Count(dictionary[it.term]) && it.count > 0
      && 0 <= it.distance
      && (it.distance == 0 <==> it.term == input)
      && (it.term != input ==> it.distance <= editDistanceMax)
    }

    predicate Collected(input: string, editDistanceMax: int, s: seq<SuggestItem>)
      reads this
    {
      DistinctTerms(s) && forall it :: it in s ==> GoodSuggestion(input, editDistanceMax, it)
    }

    /** Lines 284-326 for one suggestion met for the first time: its distance, the list
        cleared when the suggestion is closer than its head, and the suggestion collected
        unless it is farther than the head or than editDistanceMax. */
    method ConsiderSuggestion(input: string, editDistanceMax: int, candidate: string, suggestion: string,
                              suggestions: seq<SuggestItem>) returns (suggestions': seq<SuggestItem>)
      requires Valid()
      requires suggestion in wordlist && candidate in DeleteSet(suggestion, KeyDepth)
      requires Collected(input, editDistanceMax, suggestions)
      requires forall it :: it in suggestions ==> it.term != suggestion
      ensures Collected(input, editDistanceMax, suggestions')
      ensures forall it :: it in suggestions' ==> it in suggestions || it.term == suggestion
    {
      var distance := ComputeSuggestionDistance(input, candidate, suggestion);
      suggestions' := suggestions;
      if suggestions' != [] && suggestions'[0].distance > distance {
        suggestions' := [];
      }
      if !(suggestions' != [] && distance > suggestions'[0].distance) && distance <= editDistanceMax {
        if suggestion in dictionary {
          var value2 := dictionary[suggestion];
          assert IsWord(value2);
          DeleteSetSound(suggestion, KeyDepth, candidate);
          SuggestionDistanceZeroIff(input, candidate, suggestion);
          var si := SuggestItem(suggestion, distance, value2.count);
          AppendFresh(input, editDistanceMax, suggestions', si);
          suggestions' := suggestions' + [si];
        }
      }
    }

    /** lookup(input, "", editDistanceMax): candidates explored breadth first from the input
        by one-character deletes, the suggestions collected on the way, and at most the best
        one returned after sorting; `found` is the list before sorting. */
    method Lookup(input: string, editDistanceMax: int) returns (r: seq<SuggestItem>, ghost found: seq<SuggestItem>)
      requires Valid()
      ensures |input| - editDistanceMax > maxlength ==> r == [] && found == []
      ensures Collected(input, editDistanceMax, found)
      ensures |r| <= 1 && (r == [] <==> found == [])
      ensures r != [] ==> r[0] in found && forall x :: x in found ==> RankLe(r[0], x)
      ensures r != [] ==> r[0] == found[FirstBest(found)]
      ensures input in wordlist && editDistanceMax >= 0 ==> r == [SuggestItem(input, 0, Count(dictionary[input]))]
    {
      if |input| - editDistanceMax > maxlength {
        return [], [];
      }
      var candidates := [input];
      var hashset1: set<string> := {};
      var suggestions: seq<SuggestItem> := [];
      var hashset2: set<string> := {};
      ghost var first := true;
      SubseqRefl(input);
      while candidates != []
        invariant Queue(input, editDistanceMax, candidates) && hashset1 <= Subseqs(input)
        invariant Collected(input, editDistanceMax, suggestions)
        invariant forall it :: it in suggestions ==> it.term in hashset2
        invariant first ==> candidates == [input] && suggestions == [] && hashset2 == {}
        invariant input in wordlist && editDistanceMax >= 0 ==> first
        decreases Subseqs(input) - hashset1, |candidates|
      {
        var stop;
        candidates, hashset1, suggestions, hashset2, stop :=
          ProcessCandidate(input, editDistanceMax, candidates, hashset1, suggestions, hashset2);
        if stop {
          break;
        }
        first := false;
      }
      found := suggestions;
      var sorted := SortAscDistanceAndDescFreq(suggestions);
      if |sorted| > 1 {
        r := sorted[..1];
      } else {
        r := sorted;
      }
      Returned(found, sorted, r);
    }

    /** One pass of the loop of lines 238-348 on the head of the queue; `stop` for the two
        `break`s (lines 245-248 and 268-271). */
    method ProcessCandidate(input: string, editDistanceMax: int, candidates: seq<string>, hashset1: set<string>,
                            suggestions: seq<SuggestItem>, hashset2: set<string>)
      returns (candidates': seq<string>, hashset1': set<string>, suggestions': seq<SuggestItem>,
               hashset2': set<string>, stop: bool)
      requires Valid() && candidates != []
      requires Queue(input, editDistanceMax, candidates) && hashset1 <= Subseqs(input)
      requires Collected(input, editDistanceMax, suggestions)
      requires forall it :: it in suggestions ==> it.term in hashset2
      ensures Queue(input, editDistanceMax, candidates') && hashset1 <= hashset1' <= Subseqs(input)
      ensures hashset1' == hashset1 ==> |candidates'| < |candidates|
      ensures hashset1' != hashset1 ==> Subseqs(input) - hashset1' < Subseqs(input) - hashset1
      ensures Collected(input, editDistanceMax, suggestions')
      ensures forall it :: it in suggestions' ==> it.term in hashset2'
      ensures candidates[0] == input && input in wordlist && suggestions == [] && hashset2 == {} ==>
        stop && suggestions' == [SuggestItem(input, 0, Count(dictionary[input]))]
    {
      var candidate := candidates[0];
      assert candidate in candidates;
      candidates', hashset1', suggestions', hashset2', stop := candidates[1..], hashset1, suggestions, hashset2, false;
      assert Queue(input, editDistanceMax, candidates');
      var candidateLength := |candidate|;
      if suggestions' != [] && |input| - candidateLength > suggestions'[0].distance {
        stop := true;
        return;
      }
      suggestions', hashset2', stop := ReadCandidate(input, editDistanceMax, candidate, suggestions', hashset2');
      if stop {
        return;
      }
      if |input| - candidateLength < editDistanceMax
         && !(suggestions' != [] && |input| - candidateLength >= suggestions'[0].distance) {
        candidates', hashset1' := ExpandCandidate(input, editDistanceMax, candidate, candidates', hashset1');
      }
    }

    /** Lines 250-329: the candidate's own entry, if any. A word not collected yet becomes a
        suggestion at the distance of the length difference, ending the search at distance 0;
        then the words the entry points at are considered. */
    method ReadCandidate(input: string, editDistanceMax: int, candidate: string,
                         suggestions: seq<SuggestItem>, hashset2: set<string>)
      returns (suggestions': seq<SuggestItem>, hashset2': set<string>, stop: bool)
      requires Valid()
      requires IsSubseq(candidate, input) && (candidate == input || |input| - |candidate| <= editDistanceMax)
      requires Collected(input, editDistanceMax, suggestions)
      requires forall it :: it in suggestions ==> it.term in hashset2
      ensures Collected(input, editDistanceMax, suggestions')
      ensures forall it :: it in suggestions' ==> it.term in hashset2'
      ensures candidate == input && input in wordlist && suggestions == [] && hashset2 == {} ==>
        stop && suggestions' == [SuggestItem(input, 0, Count(dictionary[input]))]
      ensures var taken := candidate in dictionary && Count(dictionary[candidate]) > 0 && candidate !in hashset2;
        var joined := if taken then suggestions + [SuggestItem(candidate, |input| - |candidate|, Count(dictionary[candidate]))]
                      else suggestions;
        && (stop <==> taken && |input| == |candidate|)
        && (stop || candidate !in dictionary ==> suggestions' == joined)
        && (forall it :: it in suggestions' ==> it in joined || it.term in PointedAt(candidate))
        && hashset2' == hashset2 + (if taken then {candidate} else {}) + (if stop then {} else PointedAt(candidate))
    {
      suggestions', hashset2', stop := suggestions, hashset2, false;
      if candidate in dictionary {
        if candidate == input && input in wordlist {
          assert IsWord(dictionary[candidate]);
        }
        suggestions', hashset2', stop := TakeCandidate(input, editDistanceMax, candidate, suggestions, hashset2);
        if !stop {
          suggestions', hashset2' :=
            ScanSuggestions(input, editDistanceMax, candidate, Indices(dictionary[candidate]), suggestions', hashset2');
        }
      }
    }

    /** Lines 262-271: a candidate that is a word not taken yet joins at the distance of its
        length difference, and at distance 0 the search ends. */
    method TakeCandidate(input: string, editDistanceMax: int, candidate: string,
                         suggestions: seq<SuggestItem>, hashset2: set<string>)
      returns (suggestions': seq<SuggestItem>, hashset2': set<string>, stop: bool)
      requires Valid() && candidate in dictionary
      requires IsSubseq(candidate, input) && (candidate == input || |input| - |candidate| <= editDistanceMax)
      requires Collected(input, editDistanceMax, suggestions)
      requires forall it :: it in suggestions ==> it.term in hashset2
      ensures Collected(input, editDistanceMax, suggestions')
      ensures forall it :: it in suggestions' ==> it.term in hashset2'
      ensures var taken := Count(dictionary[candidate]) > 0 && candidate !in hashset2;
        && (stop <==> taken && |input| == |candidate|)
        && (taken ==> suggestions' == suggestions + [SuggestItem(candidate, |input| - |candidate|, Count(dictionary[candidate]))]
                      && hashset2' == hashset2 + {candidate})
        && (!taken ==> suggestions' == suggestions && hashset2' == hashset2)
    {
      suggestions', hashset2', stop := suggestions, hashset2, false;
      var count := Count(dictionary[candidate]);
      if count > 0 && candidate !in hashset2' {
        hashset2' := hashset2' + {candidate};
        SelfSuggestion(input, editDistanceMax, candidate, suggestions');
        suggestions' := suggestions' + [SuggestItem(candidate, |input| - |candidate|, count)];
        if |input| - |candidate| == 0 {
          stop := true;
        }
      }
    }

    /** Lines 332-347 once the guards pass: the candidate's deletes join the queue. */
    method ExpandCandidate(input: string, editDistanceMax: int, candidate: string,
                           candidates: seq<string>, hashset1: set<string>)
      returns (candidates': seq<string>, hashset1': set<string>)
      requires IsSubseq(candidate, input) && |input| - |candidate| < editDistanceMax
      requires Queue(input, editDistanceMax, candidates) && hashset1 <= Subseqs(input)
      ensures Queue(input, editDistanceMax, candidates') && hashset1 <= hashset1' <= Subseqs(input)
      ensures hashset1' == hashset1 ==> candidates' == candidates
    {
      candidates', hashset1' := AddEdits(candidate, candidates, hashset1);
      NewCandidates(input, editDistanceMax, candidate, candidates, candidates');
      DelsOfSubseq(candidate, input);
      forall x | x in DelsOf(candidate)
        ensures x in Subseqs(input)
      {
        SubseqsComplete(x, input);
      }
    }

    /** A candidate that is a word, met for the first time, is a valid suggestion at the
        distance of its length difference. */
    lemma SelfSuggestion(input: string, editDistanceMax: int, candidate: string, suggestions: seq<SuggestItem>)
      requires Valid()
      requires candidate in dictionary && Count(dictionary[candidate]) > 0
      requires IsSubseq(candidate, input) && (candidate == input || |input| - |candidate| <= editDistanceMax)
      requires Collected(input, editDistanceMax, suggestions)
      requires forall it :: it in suggestions ==> it.term != candidate
      ensures Collected(input, editDistanceMax,
                        suggestions + [SuggestItem(candidate, |input| - |candidate|, Count(dictionary[candidate]))])
    {
      assert IsWord(dictionary[candidate]);
      SubseqLength(candidate, input);
      if |candidate| == |input| {
        SubseqSameLength(candidate, input);
      }
      AppendFresh(input, editDistanceMax, suggestions,
                  SuggestItem(candidate, |input| - |candidate|, Count(dictionary[candidate])));
    }

    /** Lines 276-328: the words a candidate's entry points at, each taken once over the whole
        lookup (hashset2). */
    method ScanSuggestions(input: string, editDistanceMax: int, candidate: string, idxs: seq<nat>,
                           suggestions: seq<SuggestItem>, hashset2: set<string>)
      returns (suggestions': seq<SuggestItem>, hashset2': set<string>)
      requires Valid()
      requires forall i :: i in idxs ==> i < |wordlist| && candidate in DeleteSet(wordlist[i], KeyDepth)
      requires Collected(input, editDistanceMax, suggestions)
      requires forall it :: it in suggestions ==> it.term in hashset2
      ensures Collected(input, editDistanceMax, suggestions')
      ensures forall it :: it in suggestions' ==> it.term in hashset2'
      ensures hashset2' == hashset2 + WordsAt(idxs)
      ensures forall it :: it in suggestions' ==> it in suggestions || it.term in WordsAt(idxs)
    {
      suggestions', hashset2' := suggestions, hashset2;
      for p := 0 to |idxs|
        invariant Collected(input, editDistanceMax, suggestions')
        invariant forall it :: it in suggestions' ==> it.term in hashset2'
        invariant hashset2' == hashset2 + WordsAt(idxs[..p])
        invariant forall it :: it in suggestions' ==> it in suggestions || it.term in WordsAt(idxs[..p])
      {
        assert idxs[p] in idxs;
        WordsAtSnoc(idxs, p);
        suggestions', hashset2' := TakeIndex(input, editDistanceMax, candidate, idxs[p], suggestions', hashset2');
      }
      assert idxs[..|idxs|] == idxs;
    }

    /** One iteration of the loop of lines 277-328: the word at the index is taken unless
        hashset2 already holds it. */
    method TakeIndex(input: string, editDistanceMax: int, candidate: string, suggestionint: nat,
                     suggestions: seq<SuggestItem>, hashset2: set<string>)
      returns (suggestions': seq<SuggestItem>, hashset2': set<string>)
      requires Valid()
      requires suggestionint < |wordlist| && candidate in DeleteSet(wordlist[suggestionint], KeyDepth)
      requires Collected(input, editDistanceMax, suggestions)
      requires forall it :: it in suggestions ==> it.term in hashset2
      ensures Collected(input, editDistanceMax, suggestions')
      ensures forall it :: it in suggestions' ==> it.term in hashset2'
      ensures hashset2' == hashset2 + {wordlist[suggestionint]}
      ensures forall it :: it in suggestions' ==> it in suggestions || it.term == wordlist[suggestionint]
    {
      suggestions', hashset2' := suggestions, hashset2;
      var suggestion := wordlist[suggestionint];
      if suggestion !in hashset2' {
        hashset2' := hashset2' + {suggestion};
        suggestions' := ConsiderSuggestion(input, editDistanceMax, candidate, suggestion, suggestions');
      }
    }

    /** The words the indices point at. */
    function WordsAt(idxs: seq<nat>): set<string>
      reads this
    {
      set i | i in idxs && i < |wordlist| :: wordlist[i]
    }

    /** The words a candidate's entry points at (lines 277-282), none for a string that is
        not a key. */
    function PointedAt(candidate: string): set<string>
      reads this
    {
      if candidate in dictionary then WordsAt(Indices(dictionary[candidate])) else {}
    }

    /** One more index adds its word. */
    lemma WordsAtSnoc(idxs: seq<nat>, p: nat)
      requires p < |idxs| && idxs[p] < |wordlist|
      ensures WordsAt(idxs[..p + 1]) == WordsAt(idxs[..p]) + {wordlist[idxs[p]]}
    {
      assert idxs[..p + 1] == idxs[..p] + [idxs[p]];
    }

    /** Appending an item with a new term keeps the collected list valid. */
    lemma AppendFresh(input: string, editDistanceMax: int, s: seq<SuggestItem>, si: SuggestItem)
      requires Collected(input, editDistanceMax, s) && GoodSuggestion(input, editDistanceMax, si)
      requires forall it :: it in s ==> it.term != si.term
      ensures Collected(input, editDistanceMax, s + [si])
    {
      forall i, j | 0 <= i < j < |s + [si]|
        ensures (s + [si])[i].term != (s + [si])[j].term
      {
        assert (s + [si])[i] == s[i] && s[i] in s;
        if j < |s| {
          assert (s + [si])[j] == s[j];
        }
      }
    }

    /** Lines 334-347: the one-character deletes of the candidate not generated before join
        the queue, in order. */
    method AddEdits(candidate: string, candidates: seq<string>, hashset1: set<string>)
      returns (candidates': seq<string>, hashset1': set<string>)
      ensures hashset1' == hashset1 + DelsOf(candidate)
      ensures |candidates| <= |candidates'| && candidates'[..|candidates|] == candidates
      ensures forall c :: c in candidates'[|candidates|..] ==> c in DelsOf(candidate) && c !in hashset1
      ensures hashset1' == hashset1 ==> candidates' == candidates
    {
      candidates', hashset1' := candidates, hashset1;
      for i := 0 to |candidate|
        invariant hashset1' == hashset1 + set p | 0 <= p < i :: Del(candidate, p)
        invariant |candidates| <= |candidates'| && candidates'[..|candidates|] == candidates
        invariant forall c :: c in candidates'[|candidates|..] ==> c in DelsOf(candidate) && c !in hashset1
        invariant hashset1' == hashset1 ==> candidates' == candidates
      {
        var delete := candidate[..i] + candidate[i + 1..];
        assert delete == Del(candidate, i);
        if delete !in hashset1' {
          hashset1' := hashset1' + {delete};
          candidates' := candidates' + [delete];
        }
      }
    }
  }
}
