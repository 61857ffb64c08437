/** What createDictionaryEntry and addLowestDistance of SymSpell.java do to the dictionary,
    as functions of the state (dictionary, wordlist, maxlength), and the invariant every
    reachable state keeps. The class SymSpell.SymSpell runs the same steps in place. */
module DictionaryBuilder {
  import opened Wrappers
  import opened JavaInt
  import opened DictionaryItem
  import opened Deletes

  /** The static editDistanceMax that edit reads. */
  const EditDistanceMax: int := 2

  /** The depth edit(key, 0, new HashSet()) reaches with it. */
  const KeyDepth: nat := Depth(0, EditDistanceMax)

  /** The static fields dictionary, wordlist and maxlength. */
  datatype State = State(dictionary: map<string, Entry>, wordlist: seq<string>, maxlength: int)

  function EmptyState(): State
  {
    State(map[], [], 0)
  }

  /** The length of the longest word, 0 for an empty list. */
  function MaxLength(ws: seq<string>): (m: nat)
    ensures forall w :: w in ws ==> |w| <= m
    ensures ws != [] ==> exists w :: w in ws && |w| == m
    ensures ws == [] ==> m == 0
  {
    if ws == [] then 0
    else
      var m := MaxLength(ws[..|ws| - 1]);
      var w := ws[|ws| - 1];
      assert ws == ws[..|ws| - 1] + [w];
      if |w| > m then |w| else m
  }

  predicate NoDuplicates(ws: seq<string>)
  {
    forall i, j :: 0 <= i < j < |ws| ==> ws[i] != ws[j]
  }

  /** The keys with count > 0 are exactly the words of the list. */
  predicate WordsAreItems(d: map<string, Entry>, wl: seq<string>)
  {
    && (forall w :: w in wl ==> w in d)
    && (forall k :: k in d ==> (IsWord(d[k]) <==> k in wl))
  }

  predicate CountsInRange(d: map<string, Entry>)
  {
    forall k :: k in d ==> 0 <= Count(d[k]) <= MAX_VALUE
  }

  /** The indices a key holds are all below n: what wordlist.get needs. */
  predicate IndicesInRange(d: map<string, Entry>, n: nat)
  {
    forall k, i :: k in d && i in Indices(d[k]) ==> i < n
  }

  /** A key holding the index of a word is one of that word's deletes. */
  predicate IndicesAreDeletes(d: map<string, Entry>, wl: seq<string>)
  {
    forall k, i :: k in d && i in Indices(d[k]) && i < |wl| ==> k in DeleteSet(wl[i], KeyDepth)
  }

  /** What addLowestDistance as written leaves behind: never more than one index. */
  predicate AtMostOneIndex(d: map<string, Entry>)
  {
    forall k :: k in d ==> |Indices(d[k])| <= 1
  }

  predicate KeysFit(d: map<string, Entry>, maxlength: int)
  {
    forall k :: k in d ==> |k| <= maxlength
  }

  /** The invariant of every state createDictionaryEntry can reach from the empty one. */
  predicate Inv(s: State)
  {
    && NoDuplicates(s.wordlist)
    && WordsAreItems(s.dictionary, s.wordlist)
    && CountsInRange(s.dictionary)
    && IndicesInRange(s.dictionary, |s.wordlist|)
    && IndicesAreDeletes(s.dictionary, s.wordlist)
    && AtMostOneIndex(s.dictionary)
    && KeysFit(s.dictionary, s.maxlength)
    && s.maxlength == MaxLength(s.wordlist)
  }

  lemma EmptyStateInv()
    ensures Inv(EmptyState())
  {
  }

  /** addLowestDistance(item, suggestion, suggestionint, delete) as written: a non-empty list
      is cleared when its first word is longer than the new word and otherwise left alone;
      only an empty list receives the new index. */
  function AddLowestDistance(wl: seq<string>, suggestions: seq<nat>, suggestion: string,
                             suggestionint: nat, delete: string): seq<nat>
    requires suggestions != [] ==> suggestions[0] < |wl|
  {
    if suggestions != [] then
      if |wl[suggestions[0]]| - |delete| > |suggestion| - |delete| then [] else suggestions
    else
      [suggestionint]
  }

  /** The three outcomes of addLowestDistance. */
  lemma AddLowestDistanceCases(wl: seq<string>, s: seq<nat>, suggestion: string, si: nat, delete: string)
    requires s != [] ==> s[0] < |wl|
    ensures var r := AddLowestDistance(wl, s, suggestion, si, delete);
      && (s == [] ==> r == [si])
      && (s != [] && |wl[s[0]]| > |suggestion| ==> r == [])
      && (s != [] && |wl[s[0]]| <= |suggestion| ==> r == s)
      && (si in r ==> s == [] || si in s)
  {
  }

  /** The value lines 137-154 leave under `delete` for the word with index keyint. */
  function RegisterDelete(d: map<string, Entry>, wl: seq<string>, key: string, keyint: nat,
                          delete: string): Entry
    requires IndicesInRange(d, |wl|)
  {
    if delete !in d then Single(keyint)
    else match d[delete]
      case Single(tmp) =>
        assert tmp in Indices(d[delete]);
        var di := [tmp];
        if keyint !in di then Item(0, AddLowestDistance(wl, di, key, keyint, delete)) else Item(0, di)
      case Item(c, s) =>
        assert s != [] ==> s[0] in Indices(d[delete]);
        if keyint !in s then Item(c, AddLowestDistance(wl, s, key, keyint, delete)) else d[delete]
  }

  /** The loop over the deletes of the new word: every delete registered, nothing else touched.
      Each key is visited once, so the order of the HashSet does not matter. */
  function ApplyDeletes(d: map<string, Entry>, wl: seq<string>, key: string, keyint: nat,
                        dels: set<string>): (r: map<string, Entry>)
    requires IndicesInRange(d, |wl|)
    ensures r.Keys == d.Keys + dels
  {
    map k | k in d.Keys + dels :: if k in dels then RegisterDelete(d, wl, key, keyint, k) else d[k]
  }

  /** Nothing registered yet: the map is unchanged. */
  lemma ApplyNoDeletes(d: map<string, Entry>, wl: seq<string>, key: string, keyint: nat)
    requires IndicesInRange(d, |wl|)
    ensures ApplyDeletes(d, wl, key, keyint, {}) == d
  {
  }

  /** A delete not registered yet still has its old entry (or none). */
  lemma ApplyDeletesUntouched(d: map<string, Entry>, wl: seq<string>, key: string, keyint: nat,
                              done: set<string>, x: string)
    requires IndicesInRange(d, |wl|) && x !in done
    ensures var r := ApplyDeletes(d, wl, key, keyint, done);
      (x in r <==> x in d) && (x in d ==> r[x] == d[x])
  {
  }

  /** Registering one more delete is one map update: the loop may visit the deletes in any order. */
  lemma ApplyDeletesStep(d: map<string, Entry>, wl: seq<string>, key: string, keyint: nat,
                         done: set<string>, x: string)
    requires IndicesInRange(d, |wl|) && x !in done
    ensures ApplyDeletes(d, wl, key, keyint, done + {x})
         == ApplyDeletes(d, wl, key, keyint, done)[x := RegisterDelete(d, wl, key, keyint, x)]
  {
  }

  /** Lines 93-120: the entry of key after the lookup, the promotion of a bare Integer and the
      saturating increment, or a new item when the list has room; None when nothing was stored. */
  function CountKey(s: State, key: string): (State, Option<Entry>)
  {
    if key in s.dictionary then
      var di := match s.dictionary[key]
        case Single(tmp) => Item(0, [tmp])
        case Item(c, sg) => Item(c, sg);
      var di' := if di.count < MAX_VALUE then di.(count := di.count + 1) else di;
      (s.(dictionary := s.dictionary[key := di']), Some(di'))
    else if |s.wordlist| < MAX_VALUE then
      var di := Item(1, []);
      var ml := if |key| > s.maxlength then |key| else s.maxlength;
      (State(s.dictionary[key := di], s.wordlist, ml), Some(di))
    else
      (s, None)
  }

  /** What the first phase does to the key's entry and to the rest of the state. */
  lemma CountKeyEffect(s: State, key: string)
    ensures var (s1, item) := CountKey(s, key);
      && s1.wordlist == s.wordlist
      && (item.None? <==> key !in s.dictionary && |s.wordlist| >= MAX_VALUE)
      && (item.None? ==> s1 == s)
      && (item.Some? ==> s1.dictionary == s.dictionary[key := item.value] && item.value.Item?)
      && (item.Some? && key in s.dictionary ==>
            && item.value.suggestions == Indices(s.dictionary[key])
            && item.value.count == (if Count(s.dictionary[key]) < MAX_VALUE then Count(s.dictionary[key]) + 1 else Count(s.dictionary[key]))
            && s1.maxlength == s.maxlength)
      && (item.Some? && key !in s.dictionary ==>
            item.value == Item(1, []) && s1.maxlength == (if |key| > s.maxlength then |key| else s.maxlength))
  {
  }

  /** The first phase only moves indices the key already held. */
  lemma CountKeyInRange(s: State, key: string, n: nat)
    requires IndicesInRange(s.dictionary, |s.wordlist|) && |s.wordlist| <= n
    ensures IndicesInRange(CountKey(s, key).0.dictionary, n)
  {
    CountKeyEffect(s, key);
    var (s1, item) := CountKey(s, key);
    if item.Some? {
      if key in s.dictionary {
        assert forall i :: i in Indices(item.value) ==> i in Indices(s.dictionary[key]);
      }
      UpdateInRange(s.dictionary, |s.wordlist|, n, key, item.value);
    }
  }

  /** createDictionaryEntry(key): the new state and the result. */
  function Insert(s: State, key: string): (State, bool)
    requires IndicesInRange(s.dictionary, |s.wordlist|)
  {
    var (s1, item) := CountKey(s, key);
    if item.Some? && item.value.count == 1 then
      var wl := s1.wordlist + [key];
      var keyint := |wl| - 1;
      CountKeyInRange(s, key, |wl|);
      (State(ApplyDeletes(s1.dictionary, wl, key, keyint, DeleteSet(key, KeyDepth)), wl, s1.maxlength), true)
    else
      (s1, false)
  }

  /** The two outcomes of Insert, spelled out for the code that performs them step by step. */
  lemma InsertSteps(s: State, key: string)
    requires IndicesInRange(s.dictionary, |s.wordlist|)
    ensures var (s1, item) := CountKey(s, key);
      && (item.Some? && item.value.count == 1 ==>
            IndicesInRange(s1.dictionary, |s.wordlist| + 1) &&
            Insert(s, key) == (State(ApplyDeletes(s1.dictionary, s.wordlist + [key], key, |s.wordlist|,
                                                  DeleteSet(key, KeyDepth)), s.wordlist + [key], s1.maxlength), true))
      && (!(item.Some? && item.value.count == 1) ==> Insert(s, key) == (s1, false))
  {
    CountKeyEffect(s, key);
    CountKeyInRange(s, key, |s.wordlist| + 1);
  }

  // ---------------------------------------------------------------------------------
  // One key of the map replaced: each piece of the invariant on its own

  lemma UpdateCounts(d: map<string, Entry>, key: string, e: Entry)
    requires CountsInRange(d) && 0 <= Count(e) <= MAX_VALUE
    ensures CountsInRange(d[key := e])
  {
  }

  lemma UpdateAtMostOne(d: map<string, Entry>, key: string, e: Entry)
    requires AtMostOneIndex(d) && |Indices(e)| <= 1
    ensures AtMostOneIndex(d[key := e])
  {
  }

  lemma UpdateInRange(d: map<string, Entry>, n: nat, n': nat, key: string, e: Entry)
    requires IndicesInRange(d, n) && n <= n'
    requires forall i :: i in Indices(e) ==> i < n'
    ensures IndicesInRange(d[key := e], n')
  {
  }

  lemma UpdateDeletes(d: map<string, Entry>, wl: seq<string>, key: string, e: Entry)
    requires IndicesAreDeletes(d, wl)
    requires forall i :: i in Indices(e) && i < |wl| ==> key in DeleteSet(wl[i], KeyDepth)
    ensures IndicesAreDeletes(d[key := e], wl)
  {
  }

  lemma UpdateKeysFit(d: map<string, Entry>, ml: int, ml': int, key: string, e: Entry)
    requires KeysFit(d, ml) && ml <= ml' && |key| <= ml'
    ensures KeysFit(d[key := e], ml')
  {
  }

  /** The key becomes (or stays) a word, and the list gains at most that key. */
  lemma UpdateWords(d: map<string, Entry>, wl: seq<string>, wl': seq<string>, key: string, e: Entry)
    requires WordsAreItems(d, wl) && IsWord(e)
    requires forall w :: w in wl' <==> w in wl || w == key
    ensures WordsAreItems(d[key := e], wl')
  {
  }

  /** Appending a word leaves every stored index pointing at the same word. */
  lemma GrowDeletes(d: map<string, Entry>, wl: seq<string>, w: string)
    requires IndicesInRange(d, |wl|) && IndicesAreDeletes(d, wl)
    ensures IndicesAreDeletes(d, wl + [w])
  {
    forall k, i | k in d && i in Indices(d[k]) && i < |wl + [w]|
      ensures k in DeleteSet((wl + [w])[i], KeyDepth)
    {
      assert (wl + [w])[i] == wl[i];
    }
  }

  lemma NoDuplicatesAppend(wl: seq<string>, w: string)
    requires NoDuplicates(wl) && w !in wl
    ensures NoDuplicates(wl + [w])
  {
    forall i, j | 0 <= i < j < |wl + [w]|
      ensures (wl + [w])[i] != (wl + [w])[j]
    {
      assert (wl + [w])[i] == wl[i];
      if j < |wl| {
        assert (wl + [w])[j] == wl[j];
      }
    }
  }

  lemma MaxLengthAppend(ws: seq<string>, w: string)
    ensures MaxLength(ws + [w]) == if |w| > MaxLength(ws) then |w| else MaxLength(ws)
  {
    assert (ws + [w])[..|ws|] == ws;
  }

  // ---------------------------------------------------------------------------------
  // The first phase (CountKey)

  /** The count becomes 1 exactly for a key that is not yet a word, if it can be stored. */
  lemma CountKeyResult(s: State, key: string)
    requires WordsAreItems(s.dictionary, s.wordlist) && CountsInRange(s.dictionary)
    ensures var (s1, item) := CountKey(s, key);
      (item.Some? && item.value.count == 1) <==>
        key !in s.wordlist && (key in s.dictionary || |s.wordlist| < MAX_VALUE)
  {
    CountKeyEffect(s, key);
    if key in s.dictionary {
      assert IsWord(s.dictionary[key]) <==> key in s.wordlist;
      assert 0 <= Count(s.dictionary[key]);
    }
  }

  /** The key's new entry: a word entry holding the indices the key held before. */
  lemma CountKeyEntry(s: State, key: string)
    requires Inv(s)
    ensures var (s1, item) := CountKey(s, key);
      item.Some? ==>
        && IsWord(item.value) && Count(item.value) <= MAX_VALUE
        && |Indices(item.value)| <= 1
        && (forall i :: i in Indices(item.value) ==> i < |s.wordlist| && key in DeleteSet(s.wordlist[i], KeyDepth))
        && |key| <= s1.maxlength && s.maxlength <= s1.maxlength
  {
    CountKeyEffect(s, key);
    var (s1, item) := CountKey(s, key);
    if item.Some? && key in s.dictionary {
      var e := s.dictionary[key];
      assert Indices(item.value) == Indices(e);
      assert forall i :: i in Indices(e) ==> i < |s.wordlist| && key in DeleteSet(s.wordlist[i], KeyDepth);
      assert 0 <= Count(e) <= MAX_VALUE && |key| <= s.maxlength;
    }
  }

  /** The first phase keeps every piece of the invariant that does not mention the list's
      new word: the map with the key's new entry, and the list `wl'`. */
  lemma CountKeyPieces(s: State, key: string, wl': seq<string>)
    requires Inv(s)
    requires forall w :: w in wl' <==> w in s.wordlist || w == key
    ensures var (s1, item) := CountKey(s, key);
      item.Some? ==>
        && WordsAreItems(s1.dictionary, wl')
        && CountsInRange(s1.dictionary)
        && IndicesInRange(s1.dictionary, |s.wordlist|)
        && IndicesAreDeletes(s1.dictionary, s.wordlist)
        && AtMostOneIndex(s1.dictionary)
        && KeysFit(s1.dictionary, s1.maxlength)
  {
    CountKeyEffect(s, key);
    CountKeyEntry(s, key);
    var (s1, item) := CountKey(s, key);
    if item.Some? {
      var d, e := s.dictionary, item.value;
      UpdateWords(d, s.wordlist, wl', key, e);
      UpdateCounts(d, key, e);
      UpdateInRange(d, |s.wordlist|, |s.wordlist|, key, e);
      UpdateDeletes(d, s.wordlist, key, e);
      UpdateAtMostOne(d, key, e);
      UpdateKeysFit(d, s.maxlength, s1.maxlength, key, e);
    }
  }

  /** A repeated call on a word, or a call that stores nothing, keeps the invariant. */
  lemma CountKeyKeepsInv(s: State, key: string)
    requires Inv(s)
    requires key in s.wordlist || (key !in s.dictionary && |s.wordlist| >= MAX_VALUE)
    ensures Inv(CountKey(s, key).0)
  {
    CountKeyEffect(s, key);
    var (s1, item) := CountKey(s, key);
    if item.Some? {
      CountKeyPieces(s, key, s.wordlist);
      assert s1.maxlength == s.maxlength;
    }
  }

  /** The state right after `wordlist.add(key)` for a key whose count just became 1: the
      map keeps the invariant against the longer list, except what the deletes loop will restore. */
  lemma AppendedPieces(s: State, key: string)
    requires Inv(s)
    requires key !in s.wordlist && (key in s.dictionary || |s.wordlist| < MAX_VALUE)
    ensures var s1 := CountKey(s, key).0;
      var wl := s.wordlist + [key];
      && WordsAreItems(s1.dictionary, wl)
      && CountsInRange(s1.dictionary)
      && IndicesInRange(s1.dictionary, |wl|)
      && IndicesAreDeletes(s1.dictionary, wl)
      && AtMostOneIndex(s1.dictionary)
      && KeysFit(s1.dictionary, s1.maxlength)
  {
    CountKeyResult(s, key);
    var s1 := CountKey(s, key).0;
    var wl := s.wordlist + [key];
    CountKeyPieces(s, key, wl);
    CountKeyInRange(s, key, |wl|);
    GrowDeletes(s1.dictionary, s.wordlist, key);
  }

  /** ... and the longer list has no duplicates and the new longest length. */
  lemma AppendedList(s: State, key: string)
    requires Inv(s)
    requires key !in s.wordlist && (key in s.dictionary || |s.wordlist| < MAX_VALUE)
    ensures var s1 := CountKey(s, key).0;
      var wl := s.wordlist + [key];
      && NoDuplicates(wl)
      && s1.maxlength == MaxLength(wl)
      && |key| <= s1.maxlength
  {
    CountKeyEffect(s, key);
    CountKeyEntry(s, key);
    NoDuplicatesAppend(s.wordlist, key);
    MaxLengthAppend(s.wordlist, key);
  }

  // ---------------------------------------------------------------------------------
  // The second phase (the loop over the deletes)

  /** One registered delete: its count and word status are unchanged, its indices are kept
      or cleared, and only the new word's index can join, under an empty list. */
  lemma RegisterDeleteEffect(d: map<string, Entry>, wl: seq<string>, key: string, keyint: nat, delete: string)
    requires IndicesInRange(d, |wl|) && AtMostOneIndex(d)
    ensures var e := RegisterDelete(d, wl, key, keyint, delete);
      && Count(e) == (if delete in d then Count(d[delete]) else 0)
      && (IsWord(e) <==> delete in d && IsWord(d[delete]))
      && |Indices(e)| <= 1
      && (forall i :: i in Indices(e) ==> i == keyint || (delete in d && i in Indices(d[delete])))
  {
    if delete in d {
      var e := d[delete];
      assert |Indices(e)| <= 1;
      match e
      case Single(tmp) =>
        assert tmp in Indices(e);
        AddLowestDistanceCases(wl, [tmp], key, keyint, delete);
      case Item(c, s) =>
        assert s != [] ==> s[0] in Indices(e);
        AddLowestDistanceCases(wl, s, key, keyint, delete);
    }
  }

  /** The entry the loop leaves under any key of the new map. */
  lemma ApplyDeletesAt(d: map<string, Entry>, wl: seq<string>, key: string, keyint: nat,
                       dels: set<string>, k: string)
    requires IndicesInRange(d, |wl|) && AtMostOneIndex(d)
    requires k in d || k in dels
    ensures var e := ApplyDeletes(d, wl, key, keyint, dels)[k];
      && Count(e) == (if k in d then Count(d[k]) else 0)
      && (IsWord(e) <==> k in d && IsWord(d[k]))
      && |Indices(e)| <= 1
      && (forall i :: i in Indices(e) ==> (i == keyint && k in dels) || (k in d && i in Indices(d[k])))
  {
    if k in dels {
      RegisterDeleteEffect(d, wl, key, keyint, k);
    }
  }

  lemma ApplyDeletesCounts(d: map<string, Entry>, wl: seq<string>, key: string, keyint: nat, dels: set<string>)
    requires IndicesInRange(d, |wl|) && AtMostOneIndex(d) && CountsInRange(d)
    ensures CountsInRange(ApplyDeletes(d, wl, key, keyint, dels))
    ensures AtMostOneIndex(ApplyDeletes(d, wl, key, keyint, dels))
  {
    forall k | k in ApplyDeletes(d, wl, key, keyint, dels) {
      ApplyDeletesAt(d, wl, key, keyint, dels, k);
    }
  }

  lemma ApplyDeletesWords(d: map<string, Entry>, wl: seq<string>, key: string, keyint: nat, dels: set<string>)
    requires IndicesInRange(d, |wl|) && AtMostOneIndex(d) && WordsAreItems(d, wl)
    ensures WordsAreItems(ApplyDeletes(d, wl, key, keyint, dels), wl)
  {
    forall k | k in ApplyDeletes(d, wl, key, keyint, dels) {
      ApplyDeletesAt(d, wl, key, keyint, dels, k);
    }
  }

  lemma ApplyDeletesIndices(d: map<string, Entry>, wl: seq<string>, key: string, keyint: nat)
    requires IndicesInRange(d, |wl|) && AtMostOneIndex(d) && IndicesAreDeletes(d, wl)
    requires keyint < |wl| && wl[keyint] == key
    ensures var d' := ApplyDeletes(d, wl, key, keyint, DeleteSet(key, KeyDepth));
      IndicesInRange(d', |wl|) && IndicesAreDeletes(d', wl)
  {
    var dels := DeleteSet(key, KeyDepth);
    forall k | k in ApplyDeletes(d, wl, key, keyint, dels) {
      ApplyDeletesAt(d, wl, key, keyint, dels, k);
    }
  }

  lemma ApplyDeletesKeysFit(d: map<string, Entry>, wl: seq<string>, key: string, keyint: nat, ml: int)
    requires IndicesInRange(d, |wl|) && KeysFit(d, ml) && |key| <= ml
    ensures KeysFit(ApplyDeletes(d, wl, key, keyint, DeleteSet(key, KeyDepth)), ml)
  {
    forall k | k in DeleteSet(key, KeyDepth)
      ensures |k| < |key|
    {
      DeleteSetSound(key, KeyDepth, k);
    }
  }

  // ---------------------------------------------------------------------------------
  // createDictionaryEntry as a whole

  /** createDictionaryEntry keeps the invariant. */
  lemma InsertInv(s: State, key: string)
    requires Inv(s)
    ensures Inv(Insert(s, key).0)
  {
    InsertSteps(s, key);
    CountKeyResult(s, key);
    var (s1, item) := CountKey(s, key);
    if item.Some? && item.value.count == 1 {
      AppendedPieces(s, key);
      AppendedList(s, key);
      DeletesKeepInv(s1.dictionary, s.wordlist + [key], key, s1.maxlength);
    } else {
      CountKeyKeepsInv(s, key);
    }
  }

  /** The deletes loop, run for the last word of wl on a map that meets the invariant except
      for the indices to be registered, restores the whole invariant. */
  lemma DeletesKeepInv(d: map<string, Entry>, wl: seq<string>, key: string, ml: int)
    requires wl != [] && wl[|wl| - 1] == key
    requires NoDuplicates(wl) && ml == MaxLength(wl) && |key| <= ml
    requires WordsAreItems(d, wl) && CountsInRange(d) && IndicesInRange(d, |wl|)
    requires IndicesAreDeletes(d, wl) && AtMostOneIndex(d) && KeysFit(d, ml)
    ensures Inv(State(ApplyDeletes(d, wl, key, |wl| - 1, DeleteSet(key, KeyDepth)), wl, ml))
  {
    var keyint := |wl| - 1;
    ApplyDeletesCounts(d, wl, key, keyint, DeleteSet(key, KeyDepth));
    ApplyDeletesWords(d, wl, key, keyint, DeleteSet(key, KeyDepth));
    ApplyDeletesIndices(d, wl, key, keyint);
    ApplyDeletesKeysFit(d, wl, key, keyint, ml);
  }

  /** The result is true exactly when the key's count becomes 1: a key that is not a word yet
      and is either in the dictionary or finds the list below Integer.MAX_VALUE. Only then is
      it appended, at index size - 1; otherwise the list is unchanged. */
  lemma InsertResult(s: State, key: string)
    requires Inv(s)
    ensures var (s', added) := Insert(s, key);
      && (added <==> key !in s.wordlist && (key in s.dictionary || |s.wordlist| < MAX_VALUE))
      && s'.wordlist == (if added then s.wordlist + [key] else s.wordlist)
      && (added <==> key in s'.dictionary && Count(s'.dictionary[key]) == 1)
  {
    CountKeyResult(s, key);
    CountKeyEffect(s, key);
    KeyNotADelete(key);
    if key in s.dictionary {
      assert 0 <= Count(s.dictionary[key]) && (IsWord(s.dictionary[key]) <==> key in s.wordlist);
    }
  }

  /** No entry is ever removed and the list only grows at its end. */
  lemma InsertKeepsEntries(s: State, key: string)
    requires IndicesInRange(s.dictionary, |s.wordlist|)
    ensures var s' := Insert(s, key).0;
      s.dictionary.Keys <= s'.dictionary.Keys && |s.wordlist| <= |s'.wordlist| && s'.wordlist[..|s.wordlist|] == s.wordlist
  {
    InsertSteps(s, key);
    CountKeyEffect(s, key);
  }

  /** The deletes of a word never include the word itself. */
  lemma KeyNotADelete(key: string)
    ensures key !in DeleteSet(key, KeyDepth)
  {
    if key in DeleteSet(key, KeyDepth) {
      DeleteSetSound(key, KeyDepth, key);
    }
  }

  /** The key's count after the call: one more, saturating at Integer.MAX_VALUE; a new key
      starts at 1 if the list has room. */
  lemma InsertCount(s: State, key: string)
    requires Inv(s)
    ensures var s' := Insert(s, key).0;
      && (key in s.dictionary ==>
            && key in s'.dictionary
            && Count(s'.dictionary[key]) ==
                 (if Count(s.dictionary[key]) < MAX_VALUE then Count(s.dictionary[key]) + 1 else MAX_VALUE))
      && (key !in s.dictionary && |s.wordlist| < MAX_VALUE ==>
            key in s'.dictionary && Count(s'.dictionary[key]) == 1)
  {
    CountKeyEffect(s, key);
    KeyNotADelete(key);
  }

  /** The key as a word: a bare Integer entry becomes an item holding that one index. */
  lemma InsertPromotesKey(s: State, key: string, tmp: nat)
    requires Inv(s) && key in s.dictionary && s.dictionary[key] == Single(tmp)
    ensures Insert(s, key).0.dictionary[key] == Item(1, [tmp])
  {
    CountKeyEffect(s, key);
    KeyNotADelete(key);
  }

  /** A delete of a new word held as a bare Integer becomes an item with count 0, keeping its
      index, or cleared when the earlier word is longer. */
  lemma InsertPromotesDelete(s: State, key: string, delete: string, tmp: nat)
    requires Inv(s) && key !in s.wordlist && (key in s.dictionary || |s.wordlist| < MAX_VALUE)
    requires delete in DeleteSet(key, KeyDepth) && delete in s.dictionary && s.dictionary[delete] == Single(tmp)
    ensures tmp < |s.wordlist|
    ensures Insert(s, key).0.dictionary[delete] ==
      if |s.wordlist[tmp]| > |key| then Item(0, []) else Item(0, [tmp])
  {
    CountKeyResult(s, key);
    CountKeyEffect(s, key);
    KeyNotADelete(key);
    assert delete != key;
    assert tmp in Indices(s.dictionary[delete]);
    var s1 := CountKey(s, key).0;
    assert s1.dictionary[delete] == Single(tmp);
    assert (s.wordlist + [key])[tmp] == s.wordlist[tmp];
  }

  /** Inserting a word again changes nothing but its count: the deletes are created once. */
  lemma InsertAgain(s: State, key: string)
    requires Inv(s) && key in s.wordlist
    ensures var s' := Insert(s, key).0;
      && s'.wordlist == s.wordlist && s'.maxlength == s.maxlength
      && s'.dictionary.Keys == s.dictionary.Keys
      && (forall k :: k in s.dictionary && k != key ==> s'.dictionary[k] == s.dictionary[k])
      && key in s'.dictionary && Indices(s'.dictionary[key]) == Indices(s.dictionary[key])
      && Count(s'.dictionary[key]) ==
           (if Count(s.dictionary[key]) < MAX_VALUE then Count(s.dictionary[key]) + 1 else MAX_VALUE)
  {
    CountKeyResult(s, key);
    CountKeyEffect(s, key);
  }
}
