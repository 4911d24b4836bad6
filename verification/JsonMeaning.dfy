/**
 What a script value and a JSON tree have to do with each other (code/gsc_json.cpp,
 159-241 and 463-650): a save writes the tree that stands for the value, and a load gives
 the value its tree's normal form stands for.
 */
module JsonMeaning {
  import opened JsonKeys
  import opened JsonPush
  import opened JsonSave
  import opened JsonNormal
  import JsonBudget
  import JsonRoundTrip

  /**
   The tree stands for the value: numbers and strings as themselves, a list for the children under its
   indices, an object for the children under its keys, in the order they were added if one is a string.
   */
  predicate StandsFor(node: Json, v: Value, depth: nat)
    decreases v, 1
  {
    match v
    case Undefined => node == Null
    case Int(n) => node == Num(n)
    case Float(x) => node == Real(x)
    case Text(s) => node == Str(s)
    case Array(ring) =>
      if depth >= MAX_DEPTH then node == Null
      else if node.Arr? then
        && ring != [] && |node.items| == |ring|
        && forall j :: 0 <= j < |ring| ==>
          && ring[j].name.Index? && 0 <= ring[j].name.i < |ring|
          && StandsForChild(node.items[ring[j].name.i], ring[j], depth + 1)
      else
        && node.Obj? && |node.members| == |ring|
        && forall j :: 0 <= j < |ring| ==> exists k ::
          && 0 <= k < |ring| && (HasKey(ring) ==> j + k == |ring| - 1)
          && node.members[k].key == Spelt(ring[j].name)
          && StandsForChild(node.members[k].value, ring[j], depth + 1)
  }

  predicate StandsForChild(node: Json, e: Entry, depth: nat)
    decreases e, 0
  {
    StandsFor(node, e.value, depth)
  }

  /** The key a name is written as. */
  function Spelt(name: Name): string {
    match name
    case Key(s) => s
    case Index(i) => Decimal(i)
  }

  // ---- a save writes what stands for the value ---------------------------------------------------

  lemma {:induction false} EntrySaved(v: Value, depth: nat, b: Budget)
    requires depth < MAX_DEPTH && SaveEntry(v, depth, b).Walked?
    ensures StandsFor(SaveEntry(v, depth, b).value, v, depth + 1)
    decreases MAX_DEPTH - depth, 1, 0
  {
    if v.Array? && depth + 1 < MAX_DEPTH {
      hide StandsFor;
      hide SaveArray;
      EntryIsArray(v, depth, b);
      ArraySaved(v.ring, depth + 1, b.(nodes := b.nodes - 1));
    } else {
      hide SaveArray;
    }
  }

  lemma {:induction false} ItemsSaved(order: seq<Entry>, depth: nat, b: Budget)
    requires depth < MAX_DEPTH && SaveItems(order, depth, b).Walked?
    ensures forall i {:trigger order[i]} :: 0 <= i < |order| ==>
      StandsFor(SaveItems(order, depth, b).value[i], order[i].value, depth + 1)
    decreases MAX_DEPTH - depth, 2, |order|
  {
    hide SaveEntry;
    hide StandsFor;
    if order != [] {
      var k := |order| - 1;
      ItemsSaved(order[..k], depth, b);
      EntrySaved(order[k].value, depth, SaveItems(order[..k], depth, b).left);
      forall i {:trigger order[i]} | 0 <= i < k
        ensures StandsFor(SaveItems(order, depth, b).value[i], order[i].value, depth + 1)
      {
        assert order[..k][i] == order[i];
      }
    }
  }

  lemma {:induction false} MembersSaved(order: seq<Entry>, depth: nat, b: Budget)
    requires depth < MAX_DEPTH && SaveMembers(order, depth, b).Walked?
    ensures forall i {:trigger order[i]} :: 0 <= i < |order| ==>
      && SaveMembers(order, depth, b).value[i].key == Spelt(order[i].name)
      && StandsFor(SaveMembers(order, depth, b).value[i].value, order[i].value, depth + 1)
    decreases MAX_DEPTH - depth, 2, |order|
  {
    hide SaveEntry;
    hide StandsFor;
    hide Decimal;
    if order != [] {
      var k := |order| - 1;
      MembersSaved(order[..k], depth, b);
      EntrySaved(order[k].value, depth, SaveMembers(order[..k], depth, b).left);
      var members := SaveMembers(order, depth, b).value;
      forall i {:trigger order[i]} | 0 <= i < k
        ensures members[i].key == Spelt(order[i].name) && StandsFor(members[i].value, order[i].value, depth + 1)
      {
        assert order[..k][i] == order[i];
      }
    }
  }

  lemma {:induction false} ArraySaved(ring: seq<Entry>, depth: nat, b: Budget)
    requires depth < MAX_DEPTH && SaveArray(ring, depth, b).Walked?
    ensures StandsFor(SaveArray(ring, depth, b).value, Array(ring), depth)
    decreases MAX_DEPTH - depth, 3, 0
  {
    hide SaveItems;
    hide SaveMembers;
    hide StandsFor;
    var order := Ordered(ring);
    if ring == [] {
      NothingSaved(depth);
    } else if !HasKey(ring) && IsList(order) {
      ItemsSaved(order, depth, b);
      ListStandsFor(SaveItems(order, depth, b).value, ring, depth);
    } else {
      MembersSaved(order, depth, b);
      ObjectStandsFor(SaveMembers(order, depth, b).value, ring, depth);
    }
  }

  lemma NothingSaved(depth: nat)
    ensures depth < MAX_DEPTH ==> StandsFor(Obj([]), Array([]), depth)
  {
  }

  /** Where a child stands among the ordered ones. */
  lemma PlaceOf(ring: seq<Entry>, j: nat) returns (k: nat)
    requires j < |ring|
    ensures |Ordered(ring)| == |ring| && k < |ring| && Ordered(ring)[k] == ring[j]
    ensures HasKey(ring) ==> j + k == |ring| - 1
  {
    if HasKey(ring) {
      k := |ring| - 1 - j;
    } else {
      var order := Sort(ring);
      assert |multiset(order)| == |multiset(ring)|;
      assert ring[j] in multiset(ring);
      assert ring[j] in order;
      k :| 0 <= k < |order| && order[k] == ring[j];
    }
  }

  lemma ListStandsFor(items: seq<Json>, ring: seq<Entry>, depth: nat)
    requires depth < MAX_DEPTH && ring != [] && |items| == |Ordered(ring)| && IsList(Ordered(ring))
    requires var order := Ordered(ring);
             forall i {:trigger order[i]} :: 0 <= i < |order| ==> StandsFor(items[i], order[i].value, depth + 1)
    ensures StandsFor(Arr(items), Array(ring), depth)
  {
    hide Ordered;
    forall j | 0 <= j < |ring|
      ensures ring[j].name.Index? && 0 <= ring[j].name.i < |ring| && |items| == |ring|
      ensures StandsForChild(items[ring[j].name.i], ring[j], depth + 1)
    {
      var k := PlaceOf(ring, j);
      assert Ordered(ring)[k].name == Index(k);
    }
    var k := PlaceOf(ring, 0);
  }

  lemma ObjectStandsFor(members: seq<Member>, ring: seq<Entry>, depth: nat)
    requires depth < MAX_DEPTH && ring != [] && |members| == |Ordered(ring)|
    requires var order := Ordered(ring);
             forall i {:trigger order[i]} :: 0 <= i < |order| ==>
               members[i].key == Spelt(order[i].name) && StandsFor(members[i].value, order[i].value, depth + 1)
    ensures StandsFor(Obj(members), Array(ring), depth)
  {
    hide Ordered;
    hide HasKey;
    hide Spelt;
    var any := PlaceOf(ring, 0);
    forall j | 0 <= j < |ring|
      ensures exists k ::
        && 0 <= k < |ring| && (HasKey(ring) ==> j + k == |ring| - 1)
        && members[k].key == Spelt(ring[j].name)
        && StandsForChild(members[k].value, ring[j], depth + 1)
    {
      var k := PlaceOf(ring, j);
      assert Ordered(ring)[k] == ring[j];
      assert StandsForChild(members[k].value, ring[j], depth + 1);
    }
  }

  /** Whatever a save writes stands for its argument. */
  lemma SaveStandsFor(v: Value, b: Budget)
    requires Saved(v, b).Walked?
    ensures StandsFor(Saved(v, b).value, v, 0)
  {
    if v.Array? {
      hide StandsFor;
      ArraySaved(v.ring, 0, b);
    }
  }

  /** A load gives a value its tree's normal form stands for. */
  lemma LoadStandsFor(node: Json)
    ensures StandsFor(Normal(node, 0), Pushed(node, 0), 0)
  {
    hide StandsFor;
    hide Normal;
    hide Pushed;
    hide Saved;
    var v := Pushed(node, 0);
    var b := Budget(JsonBudget.Entries(v, 0), JsonBudget.TextBytes(v, 0));
    RoomyLoadSavesNormal(node, b);
    SaveStandsFor(v, b);
  }
}
