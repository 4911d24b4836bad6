/**
 When a save fits the caps of its walk (code/gsc_json.cpp, 463-650): the entries and the
 string bytes of the value decide it, whatever order they are written in.
 */
module JsonBudget {
  import opened JsonKeys
  import opened JsonPush
  import opened JsonSave
  import opened JsonRoundTrip

  // ---- what a value takes ------------------------------------------------------------

  /** Array children the walk visits below a value at this depth. */
  function Entries(v: Value, depth: nat): nat
    decreases v
  {
    if v.Array? && depth < MAX_DEPTH then RingEntries(v.ring, depth + 1) else 0
  }

  function RingEntries(ring: seq<Entry>, depth: nat): nat
    decreases ring
  {
    if ring == [] then 0 else EntryEntries(ring[0], depth) + RingEntries(ring[1..], depth)
  }

  function EntryEntries(e: Entry, depth: nat): nat
    decreases e
  {
    1 + Entries(e.value, depth)
  }

  /** The string bytes the walk copies: strings, and the keys of what is not written as a list. */
  function TextBytes(v: Value, depth: nat): nat
    decreases v
  {
    match v
    case Text(s) => |s|
    case Array(ring) => if depth < MAX_DEPTH then RingBytes(ring, !WrittenAsList(ring), depth + 1) else 0
    case _ => 0
  }

  function RingBytes(ring: seq<Entry>, keys: bool, depth: nat): nat
    decreases ring
  {
    if ring == [] then 0 else EntryBytes(ring[0], keys, depth) + RingBytes(ring[1..], keys, depth)
  }

  function EntryBytes(e: Entry, keys: bool, depth: nat): nat
    decreases e
  {
    TextBytes(e.value, depth) + if keys then |KeyText(e.name)| else 0
  }

  predicate WrittenAsList(ring: seq<Entry>) {
    ring != [] && !HasKey(ring) && IsList(Ordered(ring))
  }

  // ---- order does not matter -----------------------------------------------------------

  lemma {:induction false} InsertTakes(e: Entry, sorted: seq<Entry>, keys: bool, depth: nat)
    ensures RingEntries(Insert(e, sorted), depth) == EntryEntries(e, depth) + RingEntries(sorted, depth)
    ensures RingBytes(Insert(e, sorted), keys, depth) == EntryBytes(e, keys, depth) + RingBytes(sorted, keys, depth)
    decreases |sorted|
  {
    hide EntryEntries;
    hide EntryBytes;
    if sorted != [] && Rank(e) > Rank(sorted[0]) {
      InsertTakes(e, sorted[1..], keys, depth);
      PutTakes(sorted[0], Insert(e, sorted[1..]), keys, depth);
    } else {
      PutTakes(e, sorted, keys, depth);
    }
  }

  lemma PutTakes(e: Entry, ring: seq<Entry>, keys: bool, depth: nat)
    ensures RingEntries([e] + ring, depth) == EntryEntries(e, depth) + RingEntries(ring, depth)
    ensures RingBytes([e] + ring, keys, depth) == EntryBytes(e, keys, depth) + RingBytes(ring, keys, depth)
  {
    hide EntryEntries;
    hide EntryBytes;
    assert ([e] + ring)[1..] == ring;
  }

  lemma {:induction false} SortTakes(ring: seq<Entry>, keys: bool, depth: nat)
    ensures RingEntries(Sort(ring), depth) == RingEntries(ring, depth)
    ensures RingBytes(Sort(ring), keys, depth) == RingBytes(ring, keys, depth)
    decreases |ring|
  {
    hide EntryEntries;
    hide EntryBytes;
    if ring != [] {
      SortTakes(ring[1..], keys, depth);
      InsertTakes(ring[0], Sort(ring[1..]), keys, depth);
    }
  }

  lemma {:induction false} AppendTakes(ring: seq<Entry>, e: Entry, keys: bool, depth: nat)
    ensures RingEntries(ring + [e], depth) == RingEntries(ring, depth) + EntryEntries(e, depth)
    ensures RingBytes(ring + [e], keys, depth) == RingBytes(ring, keys, depth) + EntryBytes(e, keys, depth)
    decreases |ring|
  {
    hide EntryEntries;
    hide EntryBytes;
    if ring == [] {
      assert ring + [e] == [e] + [];
      PutTakes(e, [], keys, depth);
    } else {
      assert ring + [e] == [ring[0]] + (ring[1..] + [e]);
      PutTakes(ring[0], ring[1..] + [e], keys, depth);
      AppendTakes(ring[1..], e, keys, depth);
    }
  }

  lemma {:induction false} ReverseTakes(ring: seq<Entry>, keys: bool, depth: nat)
    ensures RingEntries(Reverse(ring), depth) == RingEntries(ring, depth)
    ensures RingBytes(Reverse(ring), keys, depth) == RingBytes(ring, keys, depth)
    decreases |ring|
  {
    hide EntryEntries;
    hide EntryBytes;
    if ring != [] {
      assert Reverse(ring) == Reverse(ring[1..]) + [ring[0]];
      ReverseTakes(ring[1..], keys, depth);
      AppendTakes(Reverse(ring[1..]), ring[0], keys, depth);
    }
  }

  lemma OrderedTakes(ring: seq<Entry>, keys: bool, depth: nat)
    ensures RingEntries(Ordered(ring), depth) == RingEntries(ring, depth)
    ensures RingBytes(Ordered(ring), keys, depth) == RingBytes(ring, keys, depth)
  {
    ReverseTakes(ring, keys, depth);
    SortTakes(ring, keys, depth);
  }

  // ---- the walk -------------------------------------------------------------------------

  /** A walk that takes so much goes through exactly when there is so much left, and leaves the rest. */
  ghost predicate Takes<T>(w: Walk<T>, b: Budget, entries: nat, bytes: nat) {
    && (w.Walked? <==> entries <= b.nodes && bytes <= b.bytes)
    && (w.Walked? ==> w.left == Budget(b.nodes - entries, b.bytes - bytes))
  }

  ghost predicate NotNegative(b: Budget) {
    b.nodes >= 0 && b.bytes >= 0
  }

  lemma {:induction false} SaveEntryTakes(e: Entry, depth: nat, b: Budget)
    requires depth < MAX_DEPTH && NotNegative(b)
    ensures Takes(SaveEntry(e.value, depth, b), b, EntryEntries(e, depth + 1), EntryBytes(e, false, depth + 1))
    decreases MAX_DEPTH - depth, 1, 0
  {
    hide SaveArray;
    hide RingEntries;
    hide RingBytes;
    hide WrittenAsList;
    hide KeyText;
    if e.value.Array? && b.nodes > 0 && depth + 1 < MAX_DEPTH {
      SaveArrayTakes(e.value.ring, depth + 1, b.(nodes := b.nodes - 1));
    }
  }

  lemma {:induction false} SaveItemsTakes(order: seq<Entry>, depth: nat, b: Budget)
    requires depth < MAX_DEPTH && NotNegative(b)
    ensures Takes(SaveItems(order, depth, b), b, RingEntries(order, depth + 1), RingBytes(order, false, depth + 1))
    decreases MAX_DEPTH - depth, 2, |order|
  {
    hide EntryEntries;
    hide EntryBytes;
    hide SaveEntry;
    if order != [] {
      var k := |order| - 1;
      SaveItemsTakes(order[..k], depth, b);
      AppendTakes(order[..k], order[k], false, depth + 1);
      assert order[..k] + [order[k]] == order;
      var front := SaveItems(order[..k], depth, b);
      if front.Walked? {
        SaveEntryTakes(order[k], depth, front.left);
      }
    }
  }

  lemma {:induction false} SaveMembersTakes(order: seq<Entry>, depth: nat, b: Budget)
    requires depth < MAX_DEPTH && NotNegative(b)
    ensures Takes(SaveMembers(order, depth, b), b, RingEntries(order, depth + 1), RingBytes(order, true, depth + 1))
    decreases MAX_DEPTH - depth, 2, |order|
  {
    hide EntryEntries;
    hide SaveEntry;
    hide KeyText;
    hide TextBytes;
    if order != [] {
      var k := |order| - 1;
      SaveMembersTakes(order[..k], depth, b);
      AppendTakes(order[..k], order[k], true, depth + 1);
      assert order[..k] + [order[k]] == order;
      var front := SaveMembers(order[..k], depth, b);
      if front.Walked? {
        SaveEntryTakes(order[k], depth, front.left);
      }
    }
  }

  lemma {:induction false} SaveArrayTakes(ring: seq<Entry>, depth: nat, b: Budget)
    requires depth < MAX_DEPTH && NotNegative(b)
    ensures Takes(SaveArray(ring, depth, b), b, Entries(Array(ring), depth), TextBytes(Array(ring), depth))
    decreases MAX_DEPTH - depth, 3, 0
  {
    hide SaveItems;
    hide SaveMembers;
    hide Ordered;
    hide IsList;
    hide HasKey;
    var order := Ordered(ring);
    OrderedTakes(ring, false, depth + 1);
    OrderedTakes(ring, true, depth + 1);
    if ring != [] {
      if !HasKey(ring) && IsList(order) {
        SaveItemsTakes(order, depth, b);
      } else {
        SaveMembersTakes(order, depth, b);
      }
    }
  }

  /** A save goes through exactly when the value's entries and string bytes are within the caps. */
  lemma SavedExactly(v: Value, b: Budget)
    requires NotNegative(b)
    ensures Saved(v, b).Walked? <==> Entries(v, 0) <= b.nodes && TextBytes(v, 0) <= b.bytes
  {
    if v.Array? {
      SaveArrayTakes(v.ring, 0, b);
    }
  }

  // ---- the round trip, in terms of the value ------------------------------------------------

  /** The value is loadable and within the caps of a walk. */
  ghost predicate Storable(v: Value, b: Budget) {
    Loadable(v, 0) && NotNegative(b) && Entries(v, 0) <= b.nodes && TextBytes(v, 0) <= b.bytes
  }

  /** A storable value comes back as it was exactly when none of its string keys is spelled like an index. */
  lemma StoredComesBackExactly(v: Value, b: Budget)
    requires Storable(v, b)
    ensures Saved(v, b).Walked?
    ensures Same(v, Pushed(Saved(v, b).value, 0)) <==> NoIndexKeys(v)
  {
    SavedExactly(v, b);
    RoundTripExactly(v, b);
  }
}
