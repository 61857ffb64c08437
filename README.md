# SymSpell (Java port): a verified model of the symmetric-delete spelling corrector

SymSpell finds dictionary words close to a misspelt input. It does not generate every edit
of the input. Instead it precomputes, for every vocabulary word, the strings reachable by
deleting up to `editDistanceMax` characters (its *deletes*). These go in one map that also
holds the words themselves. A lookup deletes characters from the input, breadth first, and
meets the vocabulary in the middle.

The model covers the four parts of the Java core. Each is written in the form the Java
code has.

- **Distance calculator** (`DistanceCalc`, file `distance_calc.dfy`).
  - `damerauLevenshteinDistance` is a method that fills an `array2<int>` and a `DA` map in
    the same nested loops as the Java code.
  - It is proved equal to a recursive function `Distance`. That function is the Java
    recurrence: a guard row and column holding `inf = |a|+|b|+1`, and a corner `H[0][0]`
    that keeps the 0 of array allocation.
  - `Distance` is proved equal to the algorithm the code cites, where every guard cell,
    the corner included, holds `|a|+|b|`. It is also proved symmetric, zero exactly on
    equal strings, and bounded by the length difference and the longer length.
- **Delete generator** (`Deletes`).
  - `edit` is a recursive method that threads one shared set through its calls, as the
    HashSet is shared in Java.
  - Its result is proved to be `DeleteSet(word, depth)`. `DeleteSet` is characterised
    exactly: the subsequences of the word that are 1..depth characters shorter and not
    empty.
- **Dictionary builder** (`DictionaryBuilder` holds the specification as functions of the
  state; `SymSpell.SymSpell` is the object holding the state).
  - The static fields `dictionary`, `wordlist` and `maxlength` are fields of one object.
  - A dictionary value is `Entry = Single(idx) | Item(count, suggestions)`: a bare
    Integer, or the contents of a `DictionaryItem`.
  - `CreateDictionaryEntry` changes the object in place. Its new state is proved to be
    `Insert(old state, key)`.
  - `Insert` is proved to keep the invariant `Inv`:
    - every word of the list is a key with count > 0, and the keys with count > 0 are
      exactly the words;
    - there are no duplicates;
    - every stored index is below `wordlist.size()` and points at a word whose delete the
      key is;
    - counts are in `0..Integer.MAX_VALUE`;
    - `maxlength` is the longest word.

    `Inv` is what makes `wordlist.get` at line 282 and the cast at line 322 safe.
  - `addLowestDistance` is modelled **as written**. A non-empty list is cleared when its
    first word is strictly longer than the new word, and is otherwise left unchanged. The
    new index is added only to an empty list. A consequence, proved as part of `Inv`, is
    that no entry ever holds more than one index.
- **Lookup engine** (`Suggestions`, `Ranking`, `SymSpell.SymSpell.Lookup`).
  - `lookup` is a `while` loop over the candidate queue, with `hashset1` and `hashset2` as
    sets.
  - Every suggestion it collects has a distinct term, is a vocabulary word with its
    dictionary count, and lies at a distance that is never negative. That distance is zero
    exactly for the input itself and is otherwise within `editDistanceMax`.
  - The result has at most one element. That element ranks before every collected
    suggestion, and of several items tied for best it is the one collected first.
  - When `editDistanceMax >= 0`, an input that is a vocabulary word is returned alone, at
    distance 0.
  - The sort is modelled by the order its doc comment states: ascending distance, then
    descending count. `Collections.sort` is stable, so the model's sort keeps items that
    tie on both keys in their order. The arithmetic comparator the code actually uses does
    not implement that order; see "Findings".

Where the Java code differs from the usual SymSpell description, the model follows the code:
- `edit` always adds the one-character deletes, whatever `editDistanceMax` is (`Depth` is
  at least 1). The depth of the builder is the static `editDistanceMax = 2`.
- The corner cell `H[0][0]` of the distance table is never assigned. It keeps 0, not the
  sentinel. `JavaMatchesCited` proves this never changes the result.
- When a closer suggestion appears, the suggestion list of a lookup is cleared only if the
  list's *first* item is farther (line 309). The model does this.

## Model

| member | source | states |
|---|---|---|
| DistanceCalc.DamerauLevenshteinDistance | src/main/java/com/arge/symmetricdeletespelling/DistanceCalc.java:9-50 | the method filling `H` and `DA` returns `Distance(a, b)` |
| DistanceCalc.Dp | src/main/java/com/arge/symmetricdeletespelling/DistanceCalc.java:30-47 | the recurrence of the table for a given guard and corner value: the `min` of substitution, insertion, deletion and transposition over earlier cells; its properties are `DpBounds`, `DpSymmetric`, `DiagonalZero` and `ZeroMeansEqual` |
| DistanceCalc.D | src/main/java/com/arge/symmetricdeletespelling/DistanceCalc.java:10-47 | the Java table: guards `inf = len(a)+len(b)+1` and the corner 0; `JavaMatchesCited` ties it to `Cited` |
| DistanceCalc.Cited | src/main/java/com/arge/symmetricdeletespelling/DistanceCalc.java:7-8 | the cited algorithm, every guard `len(a)+len(b)`; equal to `D` by `JavaMatchesCited` |
| DistanceCalc.Distance | src/main/java/com/arge/symmetricdeletespelling/DistanceCalc.java:9-50 | the value the method returns, `H[len(a)+1][len(b)+1]`; its properties are `DistanceBounds`, `DistanceSymmetric`, `DistanceZeroIff` and `DistanceToEmpty` |
| DistanceCalc.InitTable | src/main/java/com/arge/symmetricdeletespelling/DistanceCalc.java:10-19 | a fresh `(len(a)+2) x (len(b)+2)` table whose rows 0-1 and columns 0-1 hold `inf` in the guards, `x-1` / `y-1` in the seeds and 0 in the corner |
| DistanceCalc.InitLastRows | src/main/java/com/arge/symmetricdeletespelling/DistanceCalc.java:20-28 | `DA` maps exactly the characters of `a` and `b`, each to 0 |
| DistanceCalc.FillRow | src/main/java/com/arge/symmetricdeletespelling/DistanceCalc.java:30-47 | given rows up to `i` correct and `DA[c]` the last row of `c` in `a[..i-1]`, one pass of the inner loop makes row `i+1` correct |
| DistanceCalc.LastIndex | src/main/java/com/arge/symmetricdeletespelling/DistanceCalc.java:31-39 | `i1 = DA[b[j-1]] < i` and `j1 = DB < j`, each the last position of the character, or 0 if it has none |
| DistanceCalc.CellStep | src/main/java/com/arge/symmetricdeletespelling/DistanceCalc.java:40-45 | each cell `H[i+1][j+1]` is `min` of the substitution, insertion, deletion and transposition terms over the table's cells |
| DistanceCalc.Min4IsMinimum | src/main/java/com/arge/symmetricdeletespelling/DistanceCalc.java:52-54 | `min` returns one of its four arguments, and none is smaller |
| DistanceCalc.DistanceBounds | src/main/java/com/arge/symmetricdeletespelling/DistanceCalc.java:10-49 | `abs(len(a)-len(b)) <= distance <= max(len(a),len(b)) < inf` |
| DistanceCalc.DpBounds | src/main/java/com/arge/symmetricdeletespelling/DistanceCalc.java:40-45 | every cell lies between the length difference and the longer length of its prefixes, for any guard at least `len(a)+len(b)` |
| DistanceCalc.DistanceToEmpty | src/main/java/com/arge/symmetricdeletespelling/DistanceCalc.java:12-19 | distance(a, "") = `len(a)` and distance("", b) = `len(b)` |
| DistanceCalc.DistanceZeroIff | src/main/java/com/arge/symmetricdeletespelling/DistanceCalc.java:30-49 | the distance is 0 exactly when the strings are equal |
| DistanceCalc.DiagonalZero | src/main/java/com/arge/symmetricdeletespelling/DistanceCalc.java:36-45 | the `d = 0` diagonal carries `H[1][1] = 0` down, so distance(a, a) = 0 |
| DistanceCalc.ZeroMeansEqual | src/main/java/com/arge/symmetricdeletespelling/DistanceCalc.java:40-45 | a zero cell means the two prefixes are equal |
| DistanceCalc.JavaMatchesCited | src/main/java/com/arge/symmetricdeletespelling/DistanceCalc.java:7-9 | the Java table, with its corner 0 and guards `len(a)+len(b)+1`, equals the cited algorithm's table, with every guard `len(a)+len(b)`, at every cell |
| DistanceCalc.DistanceSymmetric | src/main/java/com/arge/symmetricdeletespelling/DistanceCalc.java:7-9 | distance(a, b) = distance(b, a) |
| DistanceCalc.DpSymmetric | src/main/java/com/arge/symmetricdeletespelling/DistanceCalc.java:30-47 | cell `(i, j)` for `(a, b)` equals cell `(j, i)` for `(b, a)`: `DA` and `DB` swap roles |
| DistanceCalc.ExampleBnak | src/main/java/com/arge/symmetricdeletespelling/SymSpell.java:222 | distance("bank", "bnak") = 1 |
| DistanceCalc.ExampleBink | src/main/java/com/arge/symmetricdeletespelling/SymSpell.java:222 | distance("bank", "bink") = 1 |
| DistanceCalc.ExampleKanb | src/main/java/com/arge/symmetricdeletespelling/SymSpell.java:222 | distance("bank", "kanb") = 2 |
| DistanceCalc.ExampleXban | src/main/java/com/arge/symmetricdeletespelling/SymSpell.java:222 | distance("bank", "xban") = 2 |
| DistanceCalc.ExampleBaxn | src/main/java/com/arge/symmetricdeletespelling/SymSpell.java:222 | distance("bank", "baxn") = 2 |
| DistanceCalc.ExampleBaAb | src/main/java/com/arge/symmetricdeletespelling/DistanceCalc.java:44-45 | an adjacent transposition costs 1: distance("ba", "ab") = 1 |
| DistanceCalc.ExampleCaAbc | src/main/java/com/arge/symmetricdeletespelling/DistanceCalc.java:7-9 | the transposition is unrestricted: distance("ca", "abc") = 2, where optimal string alignment gives 3 |
| Deletes.Del | src/main/java/com/arge/symmetricdeletespelling/SymSpell.java:204 | deleting one character shortens the word by one |
| Deletes.DeleteSet | src/main/java/com/arge/symmetricdeletespelling/SymSpell.java:199-212 | the strings `edit` collects, defined position by position as its loop and recursion do; `DeleteSetSound` and `DeleteSetComplete` characterise it as the non-empty subsequences 1..k characters shorter |
| Deletes.Depth | src/main/java/com/arge/symmetricdeletespelling/SymSpell.java:200-207 | `edit` always takes one level of deletes, and goes `editDistanceMax - editDistance` levels deep when the incremented distance is below the maximum |
| Deletes.Edit | src/main/java/com/arge/symmetricdeletespelling/SymSpell.java:199-212 | the shared set comes back as the old set plus `DeleteSet(word, depth)`, and every member not still being expanded up the call chain has all its deletes in it |
| Deletes.EditWord | src/main/java/com/arge/symmetricdeletespelling/SymSpell.java:136 | `edit(key, 0, new HashSet())` returns exactly `DeleteSet(key, Depth(0, editDistanceMax))` |
| Deletes.DeleteSetSound | src/main/java/com/arge/symmetricdeletespelling/SymSpell.java:199-212 | every string `edit` collects is a non-empty subsequence of the word, 1..k characters shorter |
| Deletes.DeleteSetComplete | src/main/java/com/arge/symmetricdeletespelling/SymSpell.java:199-212 | every such subsequence is collected |
| Deletes.ShortWordHasNoDeletes | src/main/java/com/arge/symmetricdeletespelling/SymSpell.java:201 | a word of at most one character has no deletes |
| Deletes.DeleteSetMonotone | src/main/java/com/arge/symmetricdeletespelling/SymSpell.java:205-208 | a deeper search only adds strings |
| Deletes.ClosedContainsDeleteSet | src/main/java/com/arge/symmetricdeletespelling/SymSpell.java:205 | a delete already in the set needs no recursion: everything below it is already there |
| DictionaryItem.DictionaryItem.constructor | src/main/java/com/arge/symmetricdeletespelling/DictionaryItem.java:8-9 | a fresh item has count 0 and an empty suggestion list |
| DictionaryItem.DictionaryItem.Value | src/main/java/com/arge/symmetricdeletespelling/DictionaryItem.java:7-26 | the entry the item contributes carries its count and its live list |
| DictionaryItem.DictionaryItem.SetCount | src/main/java/com/arge/symmetricdeletespelling/DictionaryItem.java:23-25 | only the count changes |
| DictionaryItem.DictionaryItem.SetSuggestions | src/main/java/com/arge/symmetricdeletespelling/DictionaryItem.java:15-17 | only the list is replaced |
| DictionaryItem.DictionaryItem.AddSuggestion | src/main/java/com/arge/symmetricdeletespelling/DictionaryItem.java:11-13 | `getSuggestions().add(i)` appends to the item's own list, and the count is unchanged |
| DictionaryItem.DictionaryItem.ClearSuggestions | src/main/java/com/arge/symmetricdeletespelling/SymSpell.java:189 | `getSuggestions().clear()` empties the item's own list, and the count is unchanged |
| DictionaryItem.Promote | src/main/java/com/arge/symmetricdeletespelling/SymSpell.java:96-100 | a bare Integer becomes a fresh item with count 0 holding that one index |
| DictionaryItem.Count | src/main/java/com/arge/symmetricdeletespelling/SymSpell.java:254-262 | a bare Integer reads as count 0, a delete-only entry |
| DictionaryItem.Indices | src/main/java/com/arge/symmetricdeletespelling/SymSpell.java:254-259 | a bare Integer stands for a one-element suggestion list |
| DictionaryBuilder.MaxLength | src/main/java/com/arge/symmetricdeletespelling/SymSpell.java:117-119 | the longest word's length: no word is longer, some word has it, 0 for no words |
| DictionaryBuilder.EmptyStateInv | src/main/java/com/arge/symmetricdeletespelling/SymSpell.java:50-66 | the initial empty fields satisfy the invariant |
| DictionaryBuilder.AddLowestDistance | src/main/java/com/arge/symmetricdeletespelling/SymSpell.java:184-194 | addLowestDistance as written, on the item's list; its cases are `AddLowestDistanceCases` |
| DictionaryBuilder.RegisterDelete | src/main/java/com/arge/symmetricdeletespelling/SymSpell.java:137-154 | the entry one delete of the new word ends with; its effect is `RegisterDeleteEffect` |
| DictionaryBuilder.CountKey | src/main/java/com/arge/symmetricdeletespelling/SymSpell.java:93-120 | the first phase of createDictionaryEntry on the state; its effect is `CountKeyEffect` and `CountKeyResult` |
| DictionaryBuilder.Insert | src/main/java/com/arge/symmetricdeletespelling/SymSpell.java:89-159 | createDictionaryEntry on the state: the first phase, then, when the count is 1, the key appended and its deletes registered; `InsertInv`, `InsertResult`, `InsertCount` and `InsertAgain` state its properties |
| DictionaryBuilder.AddLowestDistanceCases | src/main/java/com/arge/symmetricdeletespelling/SymSpell.java:184-194 | an empty list gets the new index; a non-empty list is cleared when its first word is strictly longer than the new word and is otherwise unchanged; the new index appears only in the first case |
| DictionaryBuilder.ApplyDeletes | src/main/java/com/arge/symmetricdeletespelling/SymSpell.java:136-156 | the loop over the deletes leaves the old keys plus every delete, whatever order the set yields |
| DictionaryBuilder.ApplyDeletesStep | src/main/java/com/arge/symmetricdeletespelling/SymSpell.java:136-156 | one more iteration is one map update, so the order of iteration does not matter |
| DictionaryBuilder.RegisterDeleteEffect | src/main/java/com/arge/symmetricdeletespelling/SymSpell.java:137-154 | one registered delete keeps its count and its word status, holds at most one index, and gains no index but the new word's |
| DictionaryBuilder.CountKeyEffect | src/main/java/com/arge/symmetricdeletespelling/SymSpell.java:93-120 | the first phase: promotion, a count saturating at `Integer.MAX_VALUE`, or a new item with count 1 while the list has room, with maxlength raised; nothing is stored exactly when the key is new and the list is full |
| DictionaryBuilder.CountKeyResult | src/main/java/com/arge/symmetricdeletespelling/SymSpell.java:128 | the count becomes 1 exactly for a key that is not a word yet and can be stored |
| DictionaryBuilder.InsertInv | src/main/java/com/arge/symmetricdeletespelling/SymSpell.java:89-159 | createDictionaryEntry keeps the invariant: words are exactly the keys with count > 0, no duplicates, indices below `wordlist.size()` and pointing at words the key is a delete of, at most one index per key, counts in range, maxlength the longest word |
| DictionaryBuilder.DeletesKeepInv | src/main/java/com/arge/symmetricdeletespelling/SymSpell.java:136-156 | the deletes loop for the newest word restores the invariant |
| DictionaryBuilder.InsertResult | src/main/java/com/arge/symmetricdeletespelling/SymSpell.java:128-158 | the result is true exactly when the key's count becomes 1, and then the key is appended at index `size-1`; otherwise the list is unchanged |
| DictionaryBuilder.InsertKeepsEntries | src/main/java/com/arge/symmetricdeletespelling/SymSpell.java:93-154 | no key is ever removed, and the word list only grows at its end |
| DictionaryBuilder.InsertCount | src/main/java/com/arge/symmetricdeletespelling/SymSpell.java:108-114 | a known key's count rises by one, saturating at `Integer.MAX_VALUE`; a new key starts at 1 when the list has room |
| DictionaryBuilder.InsertPromotesKey | src/main/java/com/arge/symmetricdeletespelling/SymSpell.java:96-111 | a key held as a bare Integer becomes an item with count 1 holding that index |
| DictionaryBuilder.InsertPromotesDelete | src/main/java/com/arge/symmetricdeletespelling/SymSpell.java:140-148 | a delete of the new word held as a bare Integer becomes an item with count 0, keeping its index, or emptied when the earlier word is longer |
| DictionaryBuilder.InsertAgain | src/main/java/com/arge/symmetricdeletespelling/SymSpell.java:128 | inserting a word again changes only its own count, which rises by one up to `Integer.MAX_VALUE`: its suggestion list, the word list, maxlength and every other entry are unchanged, so deletes are created once |
| DictionaryBuilder.KeyNotADelete | src/main/java/com/arge/symmetricdeletespelling/SymSpell.java:136 | a word's deletes never include the word itself |
| SymSpell.SymSpell.constructor | src/main/java/com/arge/symmetricdeletespelling/SymSpell.java:50-66 | empty dictionary and list, maxlength 0, invariant established |
| SymSpell.SymSpell.CreateDictionaryEntry | src/main/java/com/arge/symmetricdeletespelling/SymSpell.java:89-159 | the in-place method leaves the state `Insert(old state, key)` and returns its result; the invariant is kept |
| SymSpell.SymSpell.CountOccurrence | src/main/java/com/arge/symmetricdeletespelling/SymSpell.java:90-120 | the first phase in place: the new state is `CountKey(old state, key)`, and the local item is null exactly when nothing was stored |
| SymSpell.SymSpell.AddWord | src/main/java/com/arge/symmetricdeletespelling/SymSpell.java:128-157 | the key is appended and every delete of it is registered with its index |
| SymSpell.SymSpell.RegisterDeletes | src/main/java/com/arge/symmetricdeletespelling/SymSpell.java:136-156 | the dictionary becomes `ApplyDeletes` over `edit`'s result; list and maxlength are unchanged |
| SymSpell.SymSpell.RegisterAll | src/main/java/com/arge/symmetricdeletespelling/SymSpell.java:136-156 | the loop registers every delete of the set, in any order |
| SymSpell.SymSpell.RegisterOneDelete | src/main/java/com/arge/symmetricdeletespelling/SymSpell.java:137-154 | one iteration takes the map from `ApplyDeletes(done)` to `ApplyDeletes(done + {delete})` |
| SymSpell.SymSpell.RegisterOne | src/main/java/com/arge/symmetricdeletespelling/SymSpell.java:137-154 | the delete's entry becomes `RegisterDelete`: a new bare Integer, a promoted item, or the item after addLowestDistance |
| SymSpell.SymSpell.AddLowestDistanceTo | src/main/java/com/arge/symmetricdeletespelling/SymSpell.java:184-194 | the item's list becomes `AddLowestDistance` of the old list, and its count is unchanged |
| SymSpell.SymSpell.Lookup | src/main/java/com/arge/symmetricdeletespelling/SymSpell.java:226-357 | empty when `len(input) - editDistanceMax > maxlength`; at most one item, empty exactly when nothing was collected; the item ranks before every collected suggestion; every collected suggestion has a distinct term and is a word with its dictionary count, at distance ≥ 0, 0 only for the input, ≤ editDistanceMax otherwise; the item is the first collected suggestion that ranks before all others; with `editDistanceMax >= 0` a vocabulary word comes back alone at distance 0 |
| SymSpell.SymSpell.ProcessCandidate | src/main/java/com/arge/symmetricdeletespelling/SymSpell.java:243-348 | one pass of the search keeps the queue within the input's subsequences and the collected list valid; progress: `hashset1` grows or the queue shrinks; the first pass on a vocabulary word stops with that word |
| SymSpell.SymSpell.ReadCandidate | src/main/java/com/arge/symmetricdeletespelling/SymSpell.java:250-329 | a candidate that is a word not taken yet is appended at its length difference, and the search stops exactly when that difference is 0; otherwise `hashset2` gains exactly the words its entry points at, and only those words can join the list; the collected list stays valid |
| SymSpell.SymSpell.TakeCandidate | src/main/java/com/arge/symmetricdeletespelling/SymSpell.java:262-271 | a word not in `hashset2` is appended at its length difference and added to `hashset2`, and the search stops exactly when that difference is 0; otherwise nothing changes |
| SymSpell.SymSpell.ScanSuggestions | src/main/java/com/arge/symmetricdeletespelling/SymSpell.java:276-328 | `hashset2` gains exactly the words the indices point at, so each is taken at most once over the whole lookup; only those words join the list, and it stays valid |
| SymSpell.SymSpell.TakeIndex | src/main/java/com/arge/symmetricdeletespelling/SymSpell.java:277-328 | one iteration: `hashset2` gains the word at the index, and the list gains at most that word |
| SymSpell.SymSpell.ConsiderSuggestion | src/main/java/com/arge/symmetricdeletespelling/SymSpell.java:283-326 | after the distance, the clear at 309 and the skip at 313, the list stays valid and gains at most the suggestion |
| SymSpell.SymSpell.SelfSuggestion | src/main/java/com/arge/symmetricdeletespelling/SymSpell.java:262-268 | a candidate word at its length difference is a valid suggestion, distance 0 exactly for the input |
| SymSpell.SymSpell.ExpandCandidate | src/main/java/com/arge/symmetricdeletespelling/SymSpell.java:334-347 | the deletes that join the queue are subsequences of the input within `editDistanceMax`, and `hashset1` stays inside the input's subsequences |
| SymSpell.SymSpell.AddEdits | src/main/java/com/arge/symmetricdeletespelling/SymSpell.java:341-346 | `hashset1` gains exactly the one-character deletes of the candidate; the queue keeps its prefix and gains, in order, only deletes not seen before |
| SymSpell.SymSpell.AppendFresh | src/main/java/com/arge/symmetricdeletespelling/SymSpell.java:262-268 | appending a valid item with a new term keeps the list's terms distinct |
| SymSpell.NewCandidates | src/main/java/com/arge/symmetricdeletespelling/SymSpell.java:341-346 | the queued deletes of a candidate keep every queued string a subsequence of the input within `editDistanceMax` |
| SymSpell.Returned | src/main/java/com/arge/symmetricdeletespelling/SymSpell.java:350-356 | the sorted list truncated to one item is empty exactly for no suggestions, and otherwise its item is the first suggestion that ranks before every suggestion |
| Suggestions.PrefixLen | src/main/java/com/arge/symmetricdeletespelling/SymSpell.java:294-296 | the length of the longest common prefix: agreement below it, a mismatch or an end at it |
| Suggestions.SuffixLen | src/main/java/com/arge/symmetricdeletespelling/SymSpell.java:297-299 | the length of the longest common suffix, in the same sense |
| Suggestions.CommonAffixes | src/main/java/com/arge/symmetricdeletespelling/SymSpell.java:292-299 | the two loops find the common prefix length `ii` and then the common suffix length `jj` of the rest, with `ii + jj` within both strings, so both substrings are in bounds |
| Suggestions.ComputeTrimmedDistance | src/main/java/com/arge/symmetricdeletespelling/SymSpell.java:292-304 | the distance of the trimmed strings, or of the whole strings when nothing is trimmed |
| Suggestions.ComputeSuggestionDistance | src/main/java/com/arge/symmetricdeletespelling/SymSpell.java:284-306 | the method computes `SuggestionDistance`: 0 for the input itself, a length difference in the two shortcut cases, else the trimmed distance |
| Suggestions.SuggestionDistance | src/main/java/com/arge/symmetricdeletespelling/SymSpell.java:284-306 | the distance the code assigns, as a value; `SuggestionDistanceZeroIff` states its sign and its zero |
| Suggestions.TrimmedDistance | src/main/java/com/arge/symmetricdeletespelling/SymSpell.java:292-304 | the distance of the strings with their common prefix and suffix cut off; `ComputeTrimmedDistance` computes it |
| Suggestions.SuggestionDistanceZeroIff | src/main/java/com/arge/symmetricdeletespelling/SymSpell.java:284-306 | for a suggestion longer than its candidate, the distance is ≥ 0 and is 0 exactly when the suggestion is the input |
| Suggestions.TrimKeepsDifference | src/main/java/com/arge/symmetricdeletespelling/SymSpell.java:291-301 | cutting a common prefix and suffix off two different strings leaves two different strings |
| Suggestions.DelsOf | src/main/java/com/arge/symmetricdeletespelling/SymSpell.java:341-346 | the candidates one pass offers: each one-character delete, and nothing else |
| Suggestions.DelsOfSubseq | src/main/java/com/arge/symmetricdeletespelling/SymSpell.java:341-346 | deletes of a subsequence of the input are subsequences of the input |
| Suggestions.SubseqsComplete | src/main/java/com/arge/symmetricdeletespelling/SymSpell.java:243-348 | every candidate lies in the finite set of the input's subsequences, which bounds the search |
| Ranking.SortAscDistanceAndDescFreq | src/main/java/com/arge/symmetricdeletespelling/SymSpell.java:360-369 | the result is a permutation of the list, sorted by ascending distance, then descending count, and stable: the items of every tie class keep their order |
| Ranking.InsertSorted | src/main/java/com/arge/symmetricdeletespelling/SymSpell.java:364 | one step of the stable sort: the item goes behind every item that does not rank strictly after it; the result is sorted and a permutation |
| Ranking.InsertSortedStable | src/main/java/com/arge/symmetricdeletespelling/SymSpell.java:364 | the inserted item ends its own tie class and every other tie class is unchanged |
| Ranking.FirstBest | src/main/java/com/arge/symmetricdeletespelling/SymSpell.java:350-356 | the first position of an item ranking before every item: it ranks before all, and every earlier item ranks strictly after it |
| Ranking.SortedHeadIsFirstBest | src/main/java/com/arge/symmetricdeletespelling/SymSpell.java:350-364 | the head of the sorted list is the item at `FirstBest`: of several best items, the one collected first |
| Ranking.TieKeepsOrder | src/main/java/com/arge/symmetricdeletespelling/SymSpell.java:364-366 | ("bc", 1, 1) stays before ("ab", 1, 1), under the documented order and under the comparator as written |
| Ranking.RankLeTotalPreorder | src/main/java/com/arge/symmetricdeletespelling/SymSpell.java:360-362 | the documented two-key order is reflexive, total and transitive |
| Ranking.SortedHeadIsBest | src/main/java/com/arge/symmetricdeletespelling/SymSpell.java:350-356 | the head of the sorted list is one of its items and ranks before all of them |
| Ranking.DistanceBeforeCount | src/main/java/com/arge/symmetricdeletespelling/SymSpell.java:360-362 | distance dominates frequency: ("y", 1, 1) is sorted before ("x", 2, 100) |
| Ranking.JavaCompareNotReflexive | src/main/java/com/arge/symmetricdeletespelling/SymSpell.java:366 | the comparator as written returns 1 when comparing an item with itself, for any positive int distance, whatever the count |
| Ranking.JavaSortMisranks | src/main/java/com/arge/symmetricdeletespelling/SymSpell.java:364-366 | under the comparator as written, an item at distance 2 stays before one at distance 1 with the same count; the documented order swaps them |
| Ranking.JavaCompare | src/main/java/com/arge/symmetricdeletespelling/SymSpell.java:366 | the comparator as written, in 32-bit arithmetic; `JavaCompareNotReflexive` and `JavaSortMisranks` state what it does |
| Ranking.JavaSortPair | src/main/java/com/arge/symmetricdeletespelling/SymSpell.java:364 | Collections.sort on two items: swapped only when the second compares below the first |
| SuggestItem.NewSuggestItem | src/main/java/com/arge/symmetricdeletespelling/SuggestItem.java:5-7 | a fresh item has term "", distance 0 and count 0 |
| SuggestItem.Equals | src/main/java/com/arge/symmetricdeletespelling/SuggestItem.java:34-43 | equals(Object); `EqualsIsTermEquality` and `EqualsIsEquivalence` state its meaning |
| SuggestItem.StringHash | src/main/java/com/arge/symmetricdeletespelling/SuggestItem.java:45-48 | String.hashCode of the term, wrapping at each step, is an int; `StringHashIsPolynomial` states its value |
| SuggestItem.EqualsIsTermEquality | src/main/java/com/arge/symmetricdeletespelling/SuggestItem.java:34-43 | equals holds exactly for a SuggestItem with the same term, and is false for null and for another class |
| SuggestItem.EqualsIsEquivalence | src/main/java/com/arge/symmetricdeletespelling/SuggestItem.java:34-43 | equals is reflexive, symmetric and transitive |
| SuggestItem.SettersKeepEquality | src/main/java/com/arge/symmetricdeletespelling/SuggestItem.java:13-31 | changing distance and count keeps an item equal to the old one; changing the term need not |
| SuggestItem.HashCode | src/main/java/com/arge/symmetricdeletespelling/SuggestItem.java:45-48 | the hash is a 32-bit int |
| SuggestItem.EqualItemsEqualHashes | src/main/java/com/arge/symmetricdeletespelling/SuggestItem.java:45-48 | equal items have equal hashes |
| SuggestItem.StringHashIsPolynomial | src/main/java/com/arge/symmetricdeletespelling/SuggestItem.java:47 | the term's hash loop, wrapping at every step, equals the polynomial `s[0]*31^(n-1) + ... + s[n-1]` reduced to an int |
| JavaInt.Wrap32 | src/main/java/com/arge/symmetricdeletespelling/SymSpell.java:366 | the int that Java's arithmetic leaves: in range and congruent modulo 2^32 |
| JavaInt.Wrap32Unique | src/main/java/com/arge/symmetricdeletespelling/SymSpell.java:366 | no other int value has those two properties |
| JavaInt.Wrap32Step | src/main/java/com/arge/symmetricdeletespelling/SuggestItem.java:47 | wrapping after each step of `31 * h + c` gives the same result as wrapping once at the end |

## Left out

- Tokenisation (`parseWords`), reading the corpus file (`createDictionary`), the
  interactive loop, printing and the resource path: these are regex and I/O wrappers with
  no algorithmic content. Words are given as strings.
- The language prefix of `lookup`. The only caller passes "", and keys are stored without a
  prefix, so the model looks up the bare candidate.
- Verbosity levels. No such variable exists in this port, and the code always prunes
  and truncates to one result, which is what the model does.
- Static global state. The static fields become the fields of one `SymSpell` object.
  The builder's `editDistanceMax` is the constant 2 of the static field. The lookup's own
  `editDistanceMax` is a parameter.
- HashMap and HashSet iteration order. `edit`'s result is a `set`, and the deletes loop of
  createDictionaryEntry visits it in an arbitrary order. `ApplyDeletesStep` shows that the
  order has no effect.
- Aliasing of `DictionaryItem` objects. The map holds entry values. Each change made
  through the local `DictionaryItem` is written back into the map at once. The only alias
  in the source is the map's own reference, so no behaviour is lost.
- Ranking.SortAscDistanceAndDescFreq: modelled as a stable insertion sort on the sequence,
  not an in-place TimSort. For two elements, TimSort's behaviour under the actual comparator is
  modelled by `Ranking.JavaSortPair`; for longer lists it is not.
- Ranking.JavaCompare: the comparator is modelled with 32-bit wrap-around. TimSort's
  "Comparison method violates its general contract" exception, which an inconsistent
  comparator can cause, is not modelled.
- Java `char` is a UTF-16 code unit. The model uses Dafny `char`, so characters outside the
  Basic Multilingual Plane are one character here and two in Java.
- SymSpell.SymSpell.Lookup: does not prove completeness. It does not show that every
  vocabulary word within `editDistanceMax` of the input is found. It also does not show that
  the returned distance is the true Damerau-Levenshtein distance in the shortcut branches of
  lines 286-289.
- Suggestions.ComputeSuggestionDistance: the claim of line 291, that trimming the common
  prefix and suffix does not change the distance, is not proved. The contract ties the
  method to `SuggestionDistance` as the code computes it.
- SymSpell.SymSpell.Lookup: its `found` out-parameter is ghost. It is the list before the
  sort, and exists only to state what the result ranks against.
- The second operand of the guard at line 191 is never evaluated, because the branch is
  taken only when the list is empty. The model keeps only the first operand.
- The branch at line 286 (suggestion as long as the candidate) cannot be taken: every
  index under a candidate points at a word the candidate is a proper delete of. It is
  modelled anyway.
- The end-to-end examples "teh" and "quikc" over a two-line corpus are not proved. They
  would mean symbolically executing dozens of dictionary updates.

## Findings

| source | as written | input that shows it | evidently intended | confidence | as-written member | corrected member |
|---|---|---|---|---|---|---|
| src/main/java/com/arge/symmetricdeletespelling/SymSpell.java:366 | `compare(x, y) = ((2*x.distance - y.distance) > 0 ? 1 : 0) - ((x.count - y.count) > 0 ? 1 : 0)`, which is 1 for `compare(x, x)` whenever the distance is positive and 0 for `compare(("bc",1,5), ("abcde",2,5))` | dictionary with "abcde" and "bc", each counted 5 times; `lookup("abc", "", 2)` collects ("abcde", 2, 5) via candidate "abc", then ("bc", 1, 5) as a candidate word; the sort keeps "abcde" first and it is returned | ascending distance, then descending count, as the doc comment at lines 360-362 says: "bc" returned | not executed | Ranking.JavaSortMisranks | Ranking.SortAscDistanceAndDescFreq |
