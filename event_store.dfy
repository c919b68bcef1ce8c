/**
 The in-memory event store: a map from date key to the ordered list of event
 texts of that day, and the two edits the day dialog makes to it.
 */
module EventStore {
  import opened Text

  type Store = map<string, seq<string>>

  /** The events of a key; an absent key reads as an empty list. */
  function Lookup(m: Store, key: string): seq<string>
  {
    if key in m then m[key] else []
  }

  /** Index of the first occurrence of `x`. */
  function IndexOf(xs: seq<string>, x: string): (i: nat)
    requires x in xs
    ensures i < |xs| && xs[i] == x && x !in xs[..i]
  {
    if xs[0] == x then 0 else
      var j := IndexOf(xs[1..], x);
      assert xs[1..][..j] == xs[1..j + 1];
      j + 1
  }

  /** Java's `List.remove(Object)`: drops the first element equal to `x`, if any. */
  function RemoveFirst(xs: seq<string>, x: string): (r: seq<string>)
    ensures x in xs ==> |r| == |xs| - 1
    ensures x !in xs ==> r == xs
  {
    if xs == [] then []
    else
      assert xs == [xs[0]] + xs[1..];
      if xs[0] == x then xs[1..] else [xs[0]] + RemoveFirst(xs[1..], x)
  }

  /** Removal takes out exactly one copy of a listed text and nothing else. */
  lemma {:induction false} RemoveFirstMultiset(xs: seq<string>, x: string)
    requires x in xs
    ensures multiset(RemoveFirst(xs, x)) == multiset(xs) - multiset{x}
  {
    assert xs == [xs[0]] + xs[1..];
    if xs[0] != x {
      RemoveFirstMultiset(xs[1..], x);
    }
  }

  /** Removing the first occurrence, at index i, keeps every other element, in order. */
  lemma {:induction false} RemoveFirstAt(xs: seq<string>, x: string, i: nat)
    requires i < |xs| && xs[i] == x && x !in xs[..i]
    ensures RemoveFirst(xs, x) == xs[..i] + xs[i + 1..]
  {
    if i > 0 {
      var tail := xs[1..];
      assert xs[0] != x by { assert xs[0] == xs[..i][0]; }
      assert tail[..i - 1] == xs[1..i];
      RemoveFirstAt(tail, x, i - 1);
      assert xs[..i] == [xs[0]] + tail[..i - 1];
      assert xs[i + 1..] == tail[i..];
    }
  }

  /** Adding a text that is not yet listed and then removing it gives back the list. */
  lemma {:induction false} RemoveFirstOfAppended(xs: seq<string>, x: string)
    requires x !in xs
    ensures RemoveFirst(xs + [x], x) == xs
  {
    if xs != [] {
      assert (xs + [x])[1..] == xs[1..] + [x];
      RemoveFirstOfAppended(xs[1..], x);
      assert [xs[0]] + xs[1..] == xs;
    }
  }

  /** When the text is already listed, removal takes the earlier copy and the new one stays last. */
  lemma {:induction false} RemoveFirstOfAppendedDuplicate(xs: seq<string>, x: string)
    requires x in xs
    ensures RemoveFirst(xs + [x], x) == RemoveFirst(xs, x) + [x]
  {
    if xs[0] != x {
      assert (xs + [x])[1..] == xs[1..] + [x];
      RemoveFirstOfAppendedDuplicate(xs[1..], x);
    }
  }

  /** The store after the dialog's Add: blank-after-trim input is ignored, otherwise the trimmed text is appended to the key's list, which is created empty first if absent. */
  function AddEvent(m: Store, key: string, text: string): (r: Store)
    ensures Trim(text) == [] ==> r == m
    ensures Trim(text) != [] ==> r == m[key := Lookup(m, key) + [Trim(text)]]
  {
    var newEvent := Trim(text);
    if newEvent == [] then m
    else
      var created := if key in m then m else m[key := []];
      created[key := created[key] + [newEvent]]
  }

  /** The store after the dialog's Delete of `selected`: the first occurrence leaves the key's list. */
  function DeleteEvent(m: Store, key: string, selected: string): (r: Store)
    requires key in m
    ensures r.Keys == m.Keys
    ensures selected in m[key] ==> |r[key]| == |m[key]| - 1
    ensures selected !in m[key] ==> r == m
  {
    m[key := RemoveFirst(m[key], selected)]
  }

  /** What a dialog reads for its date after an Add: the old events, then the trimmed text unless it is blank; other dates read as before. */
  lemma LookupAfterAdd(m: Store, key: string, text: string)
    ensures Lookup(AddEvent(m, key, text), key) ==
      if Trim(text) == [] then Lookup(m, key) else Lookup(m, key) + [Trim(text)]
    ensures forall k :: k != key ==> Lookup(AddEvent(m, key, text), k) == Lookup(m, k)
  {
  }

  /** What a dialog reads for its date after a Delete: the old events without the first copy of the selection; other dates read as before. */
  lemma LookupAfterDelete(m: Store, key: string, selected: string)
    requires key in m
    ensures Lookup(DeleteEvent(m, key, selected), key) == RemoveFirst(Lookup(m, key), selected)
    ensures forall k :: k != key ==> Lookup(DeleteEvent(m, key, selected), k) == Lookup(m, k)
  {
  }

  /** An Add of a text made only of characters at or below U+0020 changes nothing. */
  lemma AddEventIgnoresBlank(m: Store, key: string, text: string)
    requires forall k :: 0 <= k < |text| ==> text[k] <= ' '
    ensures AddEvent(m, key, text) == m
  {
  }

  /** A non-blank Add puts the trimmed text last in the key's list, after the old events, and touches no other key. */
  lemma AddEventAppends(m: Store, key: string, text: string)
    requires Trim(text) != []
    ensures var r := AddEvent(m, key, text);
      key in r && |r[key]| == |Lookup(m, key)| + 1 &&
      r[key][..|r[key]| - 1] == Lookup(m, key) && r[key][|r[key]| - 1] == Trim(text)
    ensures var r := AddEvent(m, key, text);
      r.Keys == m.Keys + {key} && forall k :: k in m && k != key ==> r[k] == m[k]
  {
    var events := Lookup(m, key) + [Trim(text)];
    assert AddEvent(m, key, text) == m[key := events];
    assert events[..|events| - 1] == Lookup(m, key);
  }

  /**
   Delete drops exactly the first copy of the selected text from the key's
   list and keeps the remaining events in order.
   */
  lemma DeleteEventRemovesFirst(m: Store, key: string, selected: string)
    requires key in m && selected in m[key]
    ensures var after := DeleteEvent(m, key, selected)[key];
      |after| == |m[key]| - 1 && multiset(after) == multiset(m[key]) - multiset{selected}
    ensures var i := IndexOf(m[key], selected);
      DeleteEvent(m, key, selected)[key] == m[key][..i] + m[key][i + 1..]
  {
    var events := m[key];
    RemoveFirstMultiset(events, selected);
    RemoveFirstAt(events, selected, IndexOf(events, selected));
  }

  /** Delete keeps the set of keys and every other key's list. */
  lemma DeleteEventFrame(m: Store, key: string, selected: string)
    requires key in m
    ensures DeleteEvent(m, key, selected).Keys == m.Keys
    ensures forall k :: k in m && k != key ==> DeleteEvent(m, key, selected)[k] == m[k]
  {
  }

  /**
   Deleting what was just added restores the key's events when the text was not
   listed yet; the key itself stays in the store (with an empty list) even if it
   was absent before.
   */
  lemma AddThenDelete(m: Store, key: string, text: string)
    requires Trim(text) != [] && Trim(text) !in Lookup(m, key)
    ensures key in AddEvent(m, key, text)
    ensures var r := DeleteEvent(AddEvent(m, key, text), key, Trim(text));
      Lookup(r, key) == Lookup(m, key) && r.Keys == m.Keys + {key} &&
      forall k :: k in m && k != key ==> r[k] == m[k]
  {
    RemoveFirstOfAppended(Lookup(m, key), Trim(text));
  }
}
