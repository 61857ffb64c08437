/** DictionaryItem.java and the two shapes a dictionary value takes: a bare Integer (a
    delete that points at a single word) or a DictionaryItem (a word, or a delete with a
    suggestion list). */
module DictionaryItem {

  /** A value of the dictionary map. Item(count, suggestions) is the content of a
      DictionaryItem: count 0 marks a delete-only entry, count > 0 a word. */
  datatype Entry = Single(idx: nat) | Item(count: int, suggestions: seq<nat>)

  /** The DictionaryItem's count: a bare Integer reads as a fresh item, count 0. */
  function Count(e: Entry): (c: int)
    ensures e.Single? ==> c == 0
  {
    match e
    case Single(_) => 0
    case Item(c, _) => c
  }

  /** The indices an entry points at: a bare Integer stands for a one-element list. */
  function Indices(e: Entry): (s: seq<nat>)
    ensures e.Single? ==> s == [e.idx]
  {
    match e
    case Single(i) => [i]
    case Item(_, s) => s
  }

  /** count > 0 marks an entry that is itself a vocabulary word. */
  predicate IsWord(e: Entry)
  {
    e.Item? && e.count > 0
  }

  /** The mutable record itself: the count and the live suggestion list that callers
      append to and clear through getSuggestions. */
  class DictionaryItem {
    var suggestions: seq<nat>
    var count: int

    /** A fresh item: count 0 and an empty suggestion list. */
    constructor ()
      ensures suggestions == [] && count == 0
    {
      suggestions := [];
      count := 0;
    }

    /** The value this item contributes to the dictionary. */
    function Value(): (e: Entry)
      reads this
      ensures e.Item? && Count(e) == count && Indices(e) == suggestions
    {
      Item(count, suggestions)
    }

    method SetCount(c: int)
      modifies this
      ensures count == c && suggestions == old(suggestions)
    {
      count := c;
    }

    method SetSuggestions(s: seq<nat>)
      modifies this
      ensures suggestions == s && count == old(count)
    {
      suggestions := s;
    }

    /** getSuggestions().add(i) */
    method AddSuggestion(i: nat)
      modifies this
      ensures suggestions == old(suggestions) + [i] && count == old(count)
    {
      suggestions := suggestions + [i];
    }

    /** getSuggestions().clear() */
    method ClearSuggestions()
      modifies this
      ensures suggestions == [] && count == old(count)
    {
      suggestions := [];
    }
  }

  /** A delete met for the first time is stored as a bare Integer; converting it the way
      createDictionaryEntry and lookup do (a fresh item plus add) gives count 0 and the one index. */
  method Promote(e: Entry) returns (item: DictionaryItem)
    requires e.Single?
    ensures fresh(item) && item.Value() == Item(0, [e.idx])
  {
    item := new DictionaryItem();
    item.AddSuggestion(e.idx);
  }
}
