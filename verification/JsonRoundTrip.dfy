/**
 Saving and loading back (code/gsc_json.cpp, 475-650 and 159-241): which values come
 back as they were, and that no others do.
 */
module JsonRoundTrip {
  import opened JsonKeys
  import opened JsonPush
  import opened JsonSave

  // ---- equal values ------------------------------------------------------------------

  /** The place of the first child of this name, or |ring|. */
  function FindName(ring: seq<Entry>, name: Name): (k: nat)
    ensures k <= |ring|
    ensures k < |ring| ==> ring[k].name == name
    ensures forall i :: 0 <= i < k ==> ring[i].name != name
  {
    if ring == [] || ring[0].name == name then 0 else 1 + FindName(ring[1..], name)
  }

  /** The same children under the same names, and in the same order if there is a string key. */
  predicate Same(v: Value, w: Value)
    decreases v, 1
  {
    if v.Array? && w.Array? then
      && |v.ring| == |w.ring|
      && (HasKey(v.ring) ==> forall i :: 0 <= i < |v.ring| ==> v.ring[i].name == w.ring[i].name)
      && forall i :: 0 <= i < |v.ring| ==> EntrySame(v.ring[i], w.ring)
    else v == w
  }

  predicate EntrySame(e: Entry, ring: seq<Entry>)
    decreases e, 0
  {
    var k := FindName(ring, e.name);
    k < |ring| && Same(e.value, ring[k].value)
  }

  // ---- canonical rings ------------------------------------------------------------------

  lemma {:induction false} CanonicalAt(ring: seq<Entry>, i: nat)
    requires i < |ring|
    ensures CanonicalRing(ring)[i] == CanonicalEntry(ring[i])
    decreases |ring|
  {
    if i > 0 {
      CanonicalAt(ring[1..], i - 1);
    }
  }

  lemma CanonicalIs(ring: seq<Entry>, r: seq<Entry>)
    requires |r| == |ring| && forall i :: 0 <= i < |r| ==> r[i] == CanonicalEntry(ring[i])
    ensures r == CanonicalRing(ring)
  {
    forall i | 0 <= i < |r| ensures r[i] == CanonicalRing(ring)[i] {
      CanonicalAt(ring, i);
    }
  }

  lemma {:induction false} InsertCommutes(e: Entry, sorted: seq<Entry>)
    ensures CanonicalRing(Insert(e, sorted)) == Insert(CanonicalEntry(e), CanonicalRing(sorted))
    decreases |sorted|
  {
    if sorted == [] {
    } else if Rank(e) <= Rank(sorted[0]) {
      assert ([e] + sorted)[1..] == sorted;
    } else {
      InsertCommutes(e, sorted[1..]);
      var more := Insert(e, sorted[1..]);
      assert ([sorted[0]] + more)[1..] == more;
      var canonical := CanonicalRing(sorted);
      assert canonical[1..] == CanonicalRing(sorted[1..]);
    }
  }

  lemma {:induction false} SortCommutes(ring: seq<Entry>)
    ensures CanonicalRing(Sort(ring)) == Sort(CanonicalRing(ring))
    decreases |ring|
  {
    if ring != [] {
      SortCommutes(ring[1..]);
      InsertCommutes(ring[0], Sort(ring[1..]));
      assert CanonicalRing(ring)[1..] == CanonicalRing(ring[1..]);
    }
  }

  lemma ReverseCommutes(ring: seq<Entry>)
    ensures CanonicalRing(Reverse(ring)) == Reverse(CanonicalRing(ring))
  {
    forall i | 0 <= i < |ring| ensures Reverse(CanonicalRing(ring))[i] == CanonicalEntry(Reverse(ring)[i]) {
      CanonicalAt(ring, |ring| - 1 - i);
    }
    CanonicalIs(Reverse(ring), Reverse(CanonicalRing(ring)));
  }

  lemma KeysStay(ring: seq<Entry>)
    ensures HasKey(CanonicalRing(ring)) <==> HasKey(ring)
  {
    forall i | 0 <= i < |ring| ensures CanonicalRing(ring)[i].name == ring[i].name {
      CanonicalAt(ring, i);
    }
  }

  lemma OrderedCommutes(ring: seq<Entry>)
    ensures CanonicalRing(Ordered(ring)) == Ordered(CanonicalRing(ring))
  {
    KeysStay(ring);
    ReverseCommutes(ring);
    SortCommutes(ring);
  }

  // ---- ordering keeps the children ---------------------------------------------------------

  /** b has the children of a. */
  ghost predicate SameChildren(a: seq<Entry>, b: seq<Entry>) {
    |a| == |b| && (forall e | e in a :: e in b) && (forall e | e in b :: e in a)
  }

  lemma {:induction false} InsertDistinct(e: Entry, sorted: seq<Entry>)
    requires DistinctNames(sorted) && forall f | f in sorted :: f.name != e.name
    ensures DistinctNames(Insert(e, sorted)) && SameChildren([e] + sorted, Insert(e, sorted))
    decreases |sorted|
  {
    hide Rank;
    if sorted != [] && Rank(e) > Rank(sorted[0]) {
      var first, rest := sorted[0], sorted[1..];
      assert sorted == [first] + rest;
      InsertDistinct(e, rest);
      PutFirst(first, e, rest, Insert(e, rest));
    }
  }

  lemma PutFirst(first: Entry, e: Entry, rest: seq<Entry>, more: seq<Entry>)
    requires DistinctNames(more) && SameChildren([e] + rest, more)
    requires DistinctNames([first] + rest) && first.name != e.name
    ensures DistinctNames([first] + more) && SameChildren([e] + ([first] + rest), [first] + more)
  {
    forall f | f in more ensures f.name != first.name {
      assert f in [e] + rest;
      if f in rest {
        InTail(first, rest, f);
      }
    }
  }

  lemma InTail(first: Entry, rest: seq<Entry>, f: Entry)
    requires DistinctNames([first] + rest) && f in rest
    ensures f.name != first.name
  {
    var i :| 0 <= i < |rest| && rest[i] == f;
    var all := [first] + rest;
    assert all[0] == first && all[i + 1] == f;
  }

  lemma {:induction false} SortDistinct(ring: seq<Entry>)
    requires DistinctNames(ring)
    ensures DistinctNames(Sort(ring)) && SameChildren(ring, Sort(ring))
    decreases |ring|
  {
    if ring != [] {
      var rest := ring[1..];
      assert ring == [ring[0]] + rest;
      SortDistinct(rest);
      InsertDistinct(ring[0], Sort(rest));
    }
  }

  lemma ReverseDistinct(ring: seq<Entry>)
    requires DistinctNames(ring)
    ensures DistinctNames(Reverse(ring)) && SameChildren(ring, Reverse(ring))
  {
    forall e | e in ring ensures e in Reverse(ring) {
      var i :| 0 <= i < |ring| && ring[i] == e;
      assert Reverse(ring)[|ring| - 1 - i] == e;
    }
  }

  lemma OrderedDistinct(ring: seq<Entry>)
    requires DistinctNames(ring)
    ensures DistinctNames(Ordered(ring)) && SameChildren(ring, Ordered(ring))
  {
    ReverseDistinct(ring);
    SortDistinct(ring);
  }

  // ---- loading what was saved ----------------------------------------------------------------

  /** Every child can be loaded, at this depth. */
  ghost predicate ChildrenFine(order: seq<Entry>, depth: nat) {
    forall i {:trigger order[i]} :: 0 <= i < |order| ==> EntryLoadable(order[i], depth) && EntryNoIndexKeys(order[i])
  }

  lemma OrderedFine(ring: seq<Entry>, depth: nat)
    requires DistinctNames(ring) && ChildrenFine(ring, depth)
    ensures DistinctNames(Ordered(ring)) && ChildrenFine(Ordered(ring), depth)
  {
    hide EntryLoadable;
    hide EntryNoIndexKeys;
    OrderedDistinct(ring);
    var order := Ordered(ring);
    forall i {:trigger order[i]} | 0 <= i < |order|
      ensures EntryLoadable(order[i], depth) && EntryNoIndexKeys(order[i]) {
      assert order[i] in ring;
    }
  }

  /** A key that was written for a name is read as that name. */
  lemma NameComesBack(name: Name)
    requires NameOk(name) && (name.Key? ==> KeyIndex(name.text).PlainKey?)
    ensures StrOk(KeyText(name)) && NameOf(KeyText(name)) == name
  {
    if name.Index? {
      KeyIndexExactly(Decimal(name.i), name.i);
      IndexKeyIsOk(name.i);
    }
  }

  lemma ReverseGrows(order: seq<Entry>)
    requires order != []
    ensures var k := |order| - 1;
            Reverse(CanonicalRing(order)) == [CanonicalEntry(order[k])] + Reverse(CanonicalRing(order[..k]))
  {
    hide CanonicalRing;
    hide CanonicalEntry;
    hide Reverse;
    CanonicalGrows(order);
    ReverseAppend(CanonicalRing(order[..|order| - 1]), CanonicalEntry(order[|order| - 1]));
  }

  lemma ReverseAppend(ring: seq<Entry>, e: Entry)
    ensures Reverse(ring + [e]) == [e] + Reverse(ring)
  {
  }

  lemma CanonicalGrows(order: seq<Entry>)
    requires order != []
    ensures var k := |order| - 1;
            CanonicalRing(order) == CanonicalRing(order[..k]) + [CanonicalEntry(order[k])]
  {
    hide CanonicalEntry;
    hide CanonicalRing;
    var k := |order| - 1;
    CanonicalAppend(order[..k], order[k]);
    assert order == order[..k] + [order[k]];
  }

  lemma {:induction false} CanonicalAppend(ring: seq<Entry>, e: Entry)
    ensures CanonicalRing(ring + [e]) == CanonicalRing(ring) + [CanonicalEntry(e)]
    decreases |ring|
  {
    hide CanonicalEntry;
    if ring == [] {
      assert ([e])[1..] == [];
      assert [] + [e] == [e];
    } else {
      assert (ring + [e])[1..] == ring[1..] + [e];
      CanonicalAppend(ring[1..], e);
    }
  }

  lemma {:induction false} EntryBack(v: Value, depth: nat, b: Budget)
    requires depth < MAX_DEPTH && SaveEntry(v, depth, b).Walked?
    requires Loadable(v, depth + 1) && NoIndexKeys(v)
    ensures Pushed(SaveEntry(v, depth, b).value, depth + 1) == Canonical(v)
    decreases MAX_DEPTH - depth, 1, 0
  {
    hide Canonical;
    hide Pushed;
    hide SaveArray;
    if v.Array? {
      TooDeep(v, depth);
      ArrayBack(v.ring, depth + 1, b.(nodes := b.nodes - 1));
    } else {
      LeafBack(v, depth, b);
    }
  }

  lemma LeafBack(v: Value, depth: nat, b: Budget)
    requires depth < MAX_DEPTH && SaveEntry(v, depth, b).Walked?
    requires Loadable(v, depth + 1) && !v.Array?
    ensures Pushed(SaveEntry(v, depth, b).value, depth + 1) == Canonical(v)
  {
  }

  lemma TooDeep(v: Value, depth: nat)
    requires Loadable(v, depth + 1)
    ensures depth + 1 < MAX_DEPTH
  {
  }

  lemma {:induction false} ItemsBack(order: seq<Entry>, depth: nat, b: Budget)
    requires depth < MAX_DEPTH && SaveItems(order, depth, b).Walked?
    requires ChildrenFine(order, depth + 1) && IsList(order)
    ensures PushedItems(SaveItems(order, depth, b).value, depth + 1) == Reverse(CanonicalRing(order))
    decreases MAX_DEPTH - depth, 2, |order|
  {
    if order != [] {
      var k := |order| - 1;
      var items := SaveItems(order, depth, b).value;
      var front := SaveItems(order[..k], depth, b);
      ItemsBack(order[..k], depth, b);
      EntryBack(order[k].value, depth, front.left);
      assert items[..k] == front.value;
      ReverseGrows(order);
    }
  }

  lemma {:induction false} MembersBack(order: seq<Entry>, depth: nat, b: Budget)
    requires depth < MAX_DEPTH && SaveMembers(order, depth, b).Walked?
    requires ChildrenFine(order, depth + 1) && DistinctNames(order)
    ensures PushedMembers(SaveMembers(order, depth, b).value, depth + 1) == Reverse(CanonicalRing(order))
    decreases MAX_DEPTH - depth, 2, |order|
  {
    if order != [] {
      var k := |order| - 1;
      var members := SaveMembers(order, depth, b).value;
      var front := SaveMembers(order[..k], depth, b);
      MembersBack(order[..k], depth, b);
      EntryBack(order[k].value, depth, front.left);
      assert members[..k] == front.value;
      NameComesBack(order[k].name);
      ReverseGrows(order);
      LastIsNew(order);
      WithoutVariables(Reverse(CanonicalRing(order[..k])), order[k].name);
    }
  }

  lemma LastIsNew(order: seq<Entry>)
    requires order != [] && DistinctNames(order)
    ensures forall e | e in Reverse(CanonicalRing(order[..|order| - 1])) :: e.name != order[|order| - 1].name
  {
    var front := order[..|order| - 1];
    forall i | 0 <= i < |front| ensures CanonicalRing(front)[i].name != order[|order| - 1].name {
      CanonicalAt(front, i);
    }
  }

  lemma {:induction false} ArrayBack(ring: seq<Entry>, depth: nat, b: Budget)
    requires depth < MAX_DEPTH && SaveArray(ring, depth, b).Walked?
    requires Loadable(Array(ring), depth) && NoIndexKeys(Array(ring))
    ensures Pushed(SaveArray(ring, depth, b).value, depth) == Canonical(Array(ring))
    decreases MAX_DEPTH - depth, 3, 0
  {
    hide Loadable;
    hide NoIndexKeys;
    hide Ordered;
    hide IsList;
    hide HasKey;
    hide CanonicalRing;
    hide ChildrenFine;
    hide DistinctNames;
    hide Pushed;
    hide PushedItems;
    hide PushedMembers;
    hide SaveItems;
    hide SaveMembers;
    hide Canonical;
    var node := SaveArray(ring, depth, b).value;
    PushedArray(node, depth);
    if ring == [] {
      EmptyBack(depth);
    } else {
      var order := Ordered(ring);
      CanonicalArray(ring);
      ChildrenAreFine(ring, depth);
      OrderedFine(ring, depth + 1);
      OrderedCommutes(ring);
      if !HasKey(ring) && IsList(order) {
        ItemsBack(order, depth, b);
      } else {
        MembersBack(order, depth, b);
      }
    }
  }

  lemma CanonicalArray(ring: seq<Entry>)
    ensures Canonical(Array(ring)) == Array(Reverse(Ordered(CanonicalRing(ring))))
  {
  }

  lemma PushedArray(node: Json, depth: nat)
    requires depth < MAX_DEPTH
    ensures node.Arr? ==> Pushed(node, depth) == Array(PushedItems(node.items, depth + 1))
    ensures node.Obj? ==> Pushed(node, depth) == Array(PushedMembers(node.members, depth + 1))
  {
  }

  lemma EmptyBack(depth: nat)
    ensures Canonical(Array([])) == Array([]) && PushedMembers([], depth + 1) == []
  {
    assert Ordered(CanonicalRing([])) == [];
  }

  lemma ChildrenAreFine(ring: seq<Entry>, depth: nat)
    requires Loadable(Array(ring), depth) && NoIndexKeys(Array(ring))
    ensures DistinctNames(ring) && ChildrenFine(ring, depth + 1)
  {
  }

  // ---- what comes back is what was saved ------------------------------------------------------

  /** Ordering the children of an array gives an equal array. */
  lemma {:induction false} SameAsCanonical(v: Value, depth: nat)
    requires Loadable(v, depth)
    ensures Same(v, Canonical(v))
    decreases v, 1
  {
    if v.Array? {
      var ring, t := v.ring, Reverse(Ordered(CanonicalRing(v.ring)));
      CanonicalDistinct(ring);
      OrderedDistinct(CanonicalRing(ring));
      ReverseDistinct(Ordered(CanonicalRing(ring)));
      KeysStay(ring);
      forall i | 0 <= i < |ring| ensures EntrySame(ring[i], t) {
        EntrySameAsCanonical(ring[i], depth + 1);
        CanonicalAt(ring, i);
        FindsIt(t, CanonicalEntry(ring[i]));
      }
      if HasKey(ring) {
        TwiceReversed(CanonicalRing(ring));
        forall i | 0 <= i < |ring| ensures ring[i].name == t[i].name {
          CanonicalAt(ring, i);
        }
      }
    }
  }

  lemma {:induction false} EntrySameAsCanonical(e: Entry, depth: nat)
    requires EntryLoadable(e, depth)
    ensures Same(e.value, Canonical(e.value))
    decreases e, 0
  {
    SameAsCanonical(e.value, depth);
  }

  lemma TwiceReversed(ring: seq<Entry>)
    ensures Reverse(Reverse(ring)) == ring
  {
  }

  lemma FindsIt(ring: seq<Entry>, e: Entry)
    requires DistinctNames(ring) && e in ring
    ensures FindName(ring, e.name) < |ring| && ring[FindName(ring, e.name)] == e
  {
    var i :| 0 <= i < |ring| && ring[i] == e;
    var k := FindName(ring, e.name);
    assert k < |ring| && k <= i;
  }

  lemma CanonicalDistinct(ring: seq<Entry>)
    requires DistinctNames(ring)
    ensures DistinctNames(CanonicalRing(ring))
  {
    forall i | 0 <= i < |ring| ensures CanonicalRing(ring)[i].name == ring[i].name {
      CanonicalAt(ring, i);
    }
  }

  /**
   Saving a value and loading the tree gives an equal value: the children of arrays without
   string keys in ascending order.
   */
  lemma SavedLoadsBack(v: Value, b: Budget)
    requires Loadable(v, 0) && NoIndexKeys(v) && Saved(v, b).Walked?
    ensures Pushed(Saved(v, b).value, 0) == Canonical(v)
    ensures Same(v, Pushed(Saved(v, b).value, 0))
  {
    if v.Array? {
      ArrayBack(v.ring, 0, b);
    }
    SameAsCanonical(v, 0);
  }

  // ---- no other value does -----------------------------------------------------------------------

  lemma {:induction false} LoadedHasNoIndexKeys(node: Json, depth: nat)
    ensures NoIndexKeys(Pushed(node, depth))
    decreases node
  {
    hide StrOk;
    if depth < MAX_DEPTH {
      match node
      case Arr(items) => ItemsNoIndexKeys(items, depth + 1);
      case Obj(members) => MembersNoIndexKeys(members, depth + 1);
      case _ =>
    }
  }

  lemma {:induction false} ItemsNoIndexKeys(items: seq<Json>, depth: nat)
    ensures forall i :: 0 <= i < |items| ==> EntryNoIndexKeys(PushedItems(items, depth)[i])
    decreases items
  {
    if items != [] {
      ItemsNoIndexKeys(items[..|items| - 1], depth);
      LoadedHasNoIndexKeys(items[|items| - 1], depth);
    }
  }

  lemma {:induction false} MembersNoIndexKeys(members: seq<Member>, depth: nat)
    ensures forall e | e in PushedMembers(members, depth) :: EntryNoIndexKeys(e)
    decreases members
  {
    hide StrOk;
    if members != [] {
      MembersNoIndexKeys(members[..|members| - 1], depth);
      LoadedHasNoIndexKeys(members[|members| - 1].value, depth);
    }
  }

  lemma {:induction false} SameHasNoIndexKeys(v: Value, w: Value)
    requires Same(v, w) && NoIndexKeys(w)
    ensures NoIndexKeys(v)
    decreases v, 1
  {
    if v.Array? {
      forall i | 0 <= i < |v.ring| ensures EntryNoIndexKeys(v.ring[i]) {
        EntryHasNoIndexKeys(v.ring[i], w.ring);
      }
    }
  }

  lemma {:induction false} EntryHasNoIndexKeys(e: Entry, ring: seq<Entry>)
    requires EntrySame(e, ring) && forall i :: 0 <= i < |ring| ==> EntryNoIndexKeys(ring[i])
    ensures EntryNoIndexKeys(e)
    decreases e, 0
  {
    var k := FindName(ring, e.name);
    assert EntryNoIndexKeys(ring[k]);
    SameHasNoIndexKeys(e.value, ring[k].value);
  }

  /** A loadable value comes back as it was exactly when none of its string keys is spelled like an index. */
  lemma RoundTripExactly(v: Value, b: Budget)
    requires Loadable(v, 0) && Saved(v, b).Walked?
    ensures Same(v, Pushed(Saved(v, b).value, 0)) <==> NoIndexKeys(v)
  {
    if NoIndexKeys(v) {
      SavedLoadsBack(v, b);
    } else if Same(v, Pushed(Saved(v, b).value, 0)) {
      LoadedHasNoIndexKeys(Saved(v, b).value, 0);
      SameHasNoIndexKeys(v, Pushed(Saved(v, b).value, 0));
      assert false;
    }
  }

  /** Such a value: the string key "7" comes back as the index 7. */
  lemma SpelledLikeAnIndex()
    ensures KeyIndex("7") == IndexKey(7)
    ensures var v := Array([Entry(Key("7"), Int(1))]);
            && Loadable(v, 0) && Saved(v, Budget(100000, 100)).Walked?
            && !Same(v, Pushed(Saved(v, Budget(100000, 100)).value, 0))
  {
    KeyIndexExactly("7", 7);
    var v := Array([Entry(Key("7"), Int(1))]);
    var e := Entry(Key("7"), Int(1));
    assert v.ring[0] == e;
    assert Ordered([e]) == [e];
    assert SaveMembers([], 0, Budget(100000, 100)) == Walked([], Budget(100000, 100));
    assert [e][..0] == [];
    assert !EntryNoIndexKeys(v.ring[0]);
    RoundTripExactly(v, Budget(100000, 100));
  }
}
