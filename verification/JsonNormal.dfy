/**
 Loading a JSON tree and saving the value again (code/gsc_json.cpp, 159-241 and 463-650):
 what comes out is a normal form of the tree, said here in terms of trees alone.
 */
module JsonNormal {
  import opened JsonKeys
  import opened JsonPush
  import opened JsonSave
  import opened JsonRoundTrip
  import JsonBudget

  // ---- the normal form -----------------------------------------------------------------

  /** A number beyond the floats is lost. */
  function NormalReal(x: real): Json {
    if -FLT_MAX <= x <= FLT_MAX then Real(x) else Null
  }

  /**
   Booleans become 1 and 0, integers beyond 32 bits reals; what cannot be loaded becomes null, and so
   does what is nested too deep. Lists are kept, but for the empty one.
   */
  function Normal(node: Json, depth: nat): Json
    decreases node
  {
    if depth >= MAX_DEPTH then Null
    else
      match node
      case Null => Null
      case Bool(b) => Num(if b then 1 else 0)
      case Num(n) => if INT_MIN <= n <= INT_MAX then Num(n) else NormalReal(n as real)
      case Real(x) => NormalReal(x)
      case Str(s) => if StrOk(s) then Str(s) else Null
      case Arr(items) => if items == [] then Obj([]) else Arr(NormalItems(items, depth + 1))
      case Obj(members) => Arranged(Kept(NormalMembers(members, depth + 1)))
  }

  function NormalItems(items: seq<Json>, depth: nat): (r: seq<Json>)
    ensures |r| == |items|
    decreases items
  {
    if items == [] then []
    else var k := |items| - 1; NormalItems(items[..k], depth) + [Normal(items[k], depth)]
  }

  function NormalMembers(members: seq<Member>, depth: nat): (r: seq<Member>)
    ensures |r| == |members|
    decreases members
  {
    if members == [] then []
    else
      var k := |members| - 1;
      NormalMembers(members[..k], depth) + [Member(members[k].key, Normal(members[k].value, depth))]
  }

  predicate HasMember(members: seq<Member>, key: string) {
    exists i :: 0 <= i < |members| && members[i].key == key
  }

  /** The members whose key can be loaded, the last of each key. */
  function Kept(members: seq<Member>): seq<Member> {
    if members == [] then []
    else if StrOk(members[0].key) && !HasMember(members[1..], members[0].key) then [members[0]] + Kept(members[1..])
    else Kept(members[1..])
  }

  /** Members with a key that is no index stay as they are; others are sorted, and a list if they count from zero. */
  function Arranged(kept: seq<Member>): Json {
    if exists i :: 0 <= i < |kept| && KeyIndex(kept[i].key).PlainKey? then Obj(kept)
    else
      var sorted := SortMembers(kept);
      if sorted != [] && CountFromZero(sorted) then Arr(ValuesOf(sorted)) else Obj(sorted)
  }

  function IndexOf(m: Member): int {
    var i := KeyIndex(m.key);
    if i.IndexKey? then i.index else MIN_INDEX - 1
  }

  function InsertMember(m: Member, sorted: seq<Member>): (r: seq<Member>)
    ensures |r| == |sorted| + 1
  {
    if sorted == [] then [m]
    else if IndexOf(m) <= IndexOf(sorted[0]) then [m] + sorted
    else [sorted[0]] + InsertMember(m, sorted[1..])
  }

  function SortMembers(members: seq<Member>): (r: seq<Member>)
    ensures |r| == |members|
  {
    if members == [] then [] else InsertMember(members[0], SortMembers(members[1..]))
  }

  predicate CountFromZero(sorted: seq<Member>) {
    forall i :: 0 <= i < |sorted| ==> KeyIndex(sorted[i].key) == IndexKey(i)
  }

  function ValuesOf(members: seq<Member>): (r: seq<Json>)
    ensures |r| == |members| && forall i :: 0 <= i < |r| ==> r[i] == members[i].value
  {
    seq(|members|, i requires 0 <= i < |members| => members[i].value)
  }

  // ---- children that save as members ----------------------------------------------------------

  /** Below this depth the value is saved as this tree, whatever budget lets it through. */
  ghost predicate Saves(v: Value, node: Json, depth: nat)
    requires depth <= MAX_DEPTH
  {
    forall b {:trigger SaveEntry(v, depth, b)} ::
      SaveEntry(v, depth, b).Walked? ==> SaveEntry(v, depth, b).value == node
  }

  ghost predicate SavesAs(e: Entry, m: Member, depth: nat)
    requires depth <= MAX_DEPTH
  {
    StrOk(m.key) && e.name == NameOf(m.key) && Saves(e.value, m.value, depth)
  }

  ghost predicate Mirrors(order: seq<Entry>, members: seq<Member>, depth: nat)
    requires depth <= MAX_DEPTH
  {
    |order| == |members| && forall i {:trigger members[i]} :: 0 <= i < |order| ==>
      SavesAs(order[i], members[i], depth)
  }

  /** Names are as many as keys. */
  lemma NamesAreKeys(a: string, b: string)
    ensures NameOf(a) == NameOf(b) <==> a == b
    ensures KeyText(NameOf(a)) == a
  {
    if KeyIndex(a).IndexKey? {
      KeyIndexExactly(a, KeyIndex(a).index);
    }
    if KeyIndex(b).IndexKey? {
      KeyIndexExactly(b, KeyIndex(b).index);
    }
  }

  // ---- the ring of an object, oldest first -----------------------------------------------------

  function DropKey(members: seq<Member>, key: string): seq<Member> {
    if members == [] then []
    else if members[0].key == key then DropKey(members[1..], key)
    else [members[0]] + DropKey(members[1..], key)
  }

  lemma {:induction false} DropAbsent(members: seq<Member>, key: string)
    requires !HasMember(members, key)
    ensures DropKey(members, key) == members
    decreases |members|
  {
    if members != [] {
      assert members[0].key != key;
      forall i | 0 <= i < |members[1..]| ensures members[1..][i].key != key {
        assert members[1..][i] == members[i + 1];
      }
      DropAbsent(members[1..], key);
    }
  }

  lemma HasMore(members: seq<Member>, m: Member, key: string)
    ensures HasMember(members + [m], key) <==> HasMember(members, key) || m.key == key
  {
    var all := members + [m];
    assert all[|members|] == m;
    if HasMember(members, key) {
      var i :| 0 <= i < |members| && members[i].key == key;
      assert all[i].key == key;
    }
  }

  /** A new member takes the place of an older one of its key, at the end. */
  lemma {:induction false} KeptGrows(members: seq<Member>, m: Member)
    ensures Kept(members + [m]) == if StrOk(m.key) then DropKey(Kept(members), m.key) + [m] else Kept(members)
    decreases |members|
  {
    hide StrOk;
    hide HasMember;
    if members == [] {
      assert (members + [m])[1..] == [];
      assert !HasMember([], m.key) by { NoneIsThere(m.key); }
    } else {
      var rest := members[1..];
      assert (members + [m])[0] == members[0] && (members + [m])[1..] == rest + [m];
      KeptGrows(rest, m);
      HasMore(rest, m, members[0].key);
      if members[0].key == m.key && StrOk(m.key) && !HasMember(rest, m.key) {
        KeptKeysAreThere(rest, m.key);
        DropAbsent(Kept(rest), m.key);
      }
    }
  }

  lemma NoneIsThere(key: string)
    ensures !HasMember([], key)
  {
  }

  lemma {:induction false} KeptKeysAreThere(members: seq<Member>, key: string)
    requires !HasMember(members, key)
    ensures !HasMember(Kept(members), key)
    decreases |members|
  {
    if members != [] {
      forall i | 0 <= i < |members[1..]| ensures members[1..][i].key != key {
        assert members[1..][i] == members[i + 1];
      }
      assert members[0].key != key;
      KeptKeysAreThere(members[1..], key);
    }
  }

  lemma {:induction false} WithoutAppend(ring: seq<Entry>, e: Entry, name: Name)
    ensures Without(ring + [e], name) == Without(ring, name) + if e.name == name then [] else [e]
    decreases |ring|
  {
    if ring == [] {
      assert ring + [e] == [e] && [e][1..] == [];
    } else {
      assert (ring + [e])[0] == ring[0] && (ring + [e])[1..] == ring[1..] + [e];
      WithoutAppend(ring[1..], e, name);
    }
  }

  lemma ReversePut(e: Entry, ring: seq<Entry>)
    ensures Reverse([e] + ring) == Reverse(ring) + [e]
  {
  }

  lemma ReverseHead(ring: seq<Entry>)
    requires ring != []
    ensures Reverse(ring) == Reverse(ring[1..]) + [ring[0]]
  {
    assert ring == [ring[0]] + ring[1..];
    ReversePut(ring[0], ring[1..]);
  }

  lemma ReverseNone()
    ensures Reverse([]) == []
  {
  }

  /** Removing a name commutes with turning the ring around. */
  lemma {:induction false} WithoutReverse(ring: seq<Entry>, name: Name)
    ensures Reverse(Without(ring, name)) == Without(Reverse(ring), name)
    decreases |ring|
  {
    hide Reverse;
    if ring == [] {
      ReverseNone();
    } else {
      ReverseHead(ring);
      WithoutAppend(Reverse(ring[1..]), ring[0], name);
      WithoutReverse(ring[1..], name);
      ReversePut(ring[0], Without(ring[1..], name));
    }
  }

  lemma {:induction false} DropMirrors(order: seq<Entry>, members: seq<Member>, key: string, depth: nat)
    requires depth <= MAX_DEPTH && Mirrors(order, members, depth)
    ensures Mirrors(Without(order, NameOf(key)), DropKey(members, key), depth)
    decreases |order|
  {
    hide SavesAs;
    if order != [] {
      assert SavesAs(order[0], members[0], depth);
      MirrorsTail(order, members, depth);
      DropMirrors(order[1..], members[1..], key, depth);
      SameNameSameKey(order[0], members[0], key, depth);
    }
  }

  lemma SameNameSameKey(e: Entry, m: Member, key: string, depth: nat)
    requires depth <= MAX_DEPTH && SavesAs(e, m, depth)
    ensures e.name == NameOf(key) <==> m.key == key
  {
    NamesAreKeys(m.key, key);
  }

  lemma MirrorsTail(order: seq<Entry>, members: seq<Member>, depth: nat)
    requires depth <= MAX_DEPTH && Mirrors(order, members, depth) && order != []
    ensures Mirrors(order[1..], members[1..], depth)
  {
    hide SavesAs;
    forall i {:trigger members[1..][i]} | 0 <= i < |order[1..]| ensures SavesAs(order[1..][i], members[1..][i], depth) {
      assert SavesAs(order[i + 1], members[i + 1], depth);
    }
  }

  lemma MirrorsPut(e: Entry, m: Member, order: seq<Entry>, members: seq<Member>, depth: nat)
    requires depth <= MAX_DEPTH && Mirrors(order, members, depth) && SavesAs(e, m, depth)
    ensures Mirrors([e] + order, [m] + members, depth)
  {
    hide SavesAs;
  }

  lemma MirrorsAppend(e: Entry, m: Member, order: seq<Entry>, members: seq<Member>, depth: nat)
    requires depth <= MAX_DEPTH && Mirrors(order, members, depth) && SavesAs(e, m, depth)
    ensures Mirrors(order + [e], members + [m], depth)
  {
    hide SavesAs;
  }

  // ---- sorting -----------------------------------------------------------------------------------

  lemma {:induction false} InsertMirrors(e: Entry, m: Member, order: seq<Entry>, members: seq<Member>, depth: nat)
    requires depth <= MAX_DEPTH && Mirrors(order, members, depth) && SavesAs(e, m, depth)
    ensures Mirrors(Insert(e, order), InsertMember(m, members), depth)
    decreases |order|
  {
    hide SavesAs;
    hide Rank;
    hide IndexOf;
    SameRank(e, m, depth);
    if order != [] {
      assert SavesAs(order[0], members[0], depth);
      SameRank(order[0], members[0], depth);
      if Rank(e) <= Rank(order[0]) {
        MirrorsPut(e, m, order, members, depth);
      } else {
        MirrorsTail(order, members, depth);
        InsertMirrors(e, m, order[1..], members[1..], depth);
        MirrorsPut(order[0], members[0], Insert(e, order[1..]), InsertMember(m, members[1..]), depth);
      }
    }
  }

  lemma SameRank(e: Entry, m: Member, depth: nat)
    requires depth <= MAX_DEPTH && SavesAs(e, m, depth)
    ensures Rank(e) == IndexOf(m)
  {
  }

  lemma {:induction false} SortMirrors(order: seq<Entry>, members: seq<Member>, depth: nat)
    requires depth <= MAX_DEPTH && Mirrors(order, members, depth)
    ensures Mirrors(Sort(order), SortMembers(members), depth)
    decreases |order|
  {
    hide SavesAs;
    if order != [] {
      assert SavesAs(order[0], members[0], depth);
      MirrorsTail(order, members, depth);
      SortMirrors(order[1..], members[1..], depth);
      InsertMirrors(order[0], members[0], Sort(order[1..]), SortMembers(members[1..]), depth);
    }
  }

  lemma {:induction false} InsertsCommute(a: Entry, b: Entry, sorted: seq<Entry>)
    requires Rank(a) != Rank(b)
    ensures Insert(a, Insert(b, sorted)) == Insert(b, Insert(a, sorted))
    decreases |sorted|
  {
    hide Rank;
    hide Insert;
    if sorted == [] {
      InsertNone(a);
      InsertNone(b);
      InsertPut(a, b, []);
      InsertPut(b, a, []);
    } else {
      var c, rest := sorted[0], sorted[1..];
      assert sorted == [c] + rest;
      InsertsCommute(a, b, rest);
      InsertPut(a, c, rest);
      InsertPut(b, c, rest);
      InsertPut(a, c, Insert(b, rest));
      InsertPut(b, c, Insert(a, rest));
      InsertPut(a, b, sorted);
      InsertPut(b, a, sorted);
    }
  }

  lemma InsertNone(e: Entry)
    ensures Insert(e, []) == [e] == [e] + []
  {
  }

  lemma InsertPut(e: Entry, first: Entry, rest: seq<Entry>)
    ensures Insert(e, [first] + rest) ==
            if Rank(e) <= Rank(first) then [e] + ([first] + rest) else [first] + Insert(e, rest)
  {
    assert ([first] + rest)[1..] == rest;
  }

  ghost predicate RankedApart(ring: seq<Entry>) {
    forall i, k :: 0 <= i < k < |ring| ==> Rank(ring[i]) != Rank(ring[k])
  }

  lemma {:induction false} SortAppend(ring: seq<Entry>, e: Entry)
    requires forall f | f in ring :: Rank(f) != Rank(e)
    ensures Sort(ring + [e]) == Insert(e, Sort(ring))
    decreases |ring|
  {
    hide Rank;
    if ring == [] {
      assert ring + [e] == [e] && [e][1..] == [];
    } else {
      assert (ring + [e])[0] == ring[0] && (ring + [e])[1..] == ring[1..] + [e];
      SortAppend(ring[1..], e);
      InsertsCommute(ring[0], e, Sort(ring[1..]));
    }
  }

  /** With distinct indices it does not matter which way round the ring is sorted. */
  lemma {:induction false} SortReverse(ring: seq<Entry>)
    requires RankedApart(ring)
    ensures Sort(Reverse(ring)) == Sort(ring)
    decreases |ring|
  {
    hide Rank;
    hide Reverse;
    if ring == [] {
      ReverseNone();
    } else {
      ReverseHead(ring);
      OthersRankApart(ring);
      SortAppend(Reverse(ring[1..]), ring[0]);
      SortReverse(ring[1..]);
    }
  }

  lemma OthersRankApart(ring: seq<Entry>)
    requires RankedApart(ring) && ring != []
    ensures forall f | f in Reverse(ring[1..]) :: Rank(f) != Rank(ring[0])
  {
    hide Rank;
    forall f | f in Reverse(ring[1..]) ensures Rank(f) != Rank(ring[0]) {
      var i :| 0 <= i < |Reverse(ring[1..])| && Reverse(ring[1..])[i] == f;
      assert f == ring[|ring| - 1 - i];
    }
  }

  // ---- saving the children -------------------------------------------------------------------------

  lemma {:induction false} ItemsSave(order: seq<Entry>, items: seq<Json>, depth: nat, b: Budget)
    requires depth < MAX_DEPTH && |order| == |items| && SaveItems(order, depth, b).Walked?
    requires forall i {:trigger items[i]} :: 0 <= i < |order| ==> Saves(order[i].value, items[i], depth)
    ensures SaveItems(order, depth, b).value == items
    decreases |order|
  {
    hide SaveEntry;
    if order != [] {
      var k := |order| - 1;
      ItemsSave(order[..k], items[..k], depth, b);
      assert Saves(order[k].value, items[k], depth);
      assert items == items[..k] + [items[k]];
    }
  }

  lemma {:induction false} MembersSave(order: seq<Entry>, members: seq<Member>, depth: nat, b: Budget)
    requires depth < MAX_DEPTH && Mirrors(order, members, depth) && SaveMembers(order, depth, b).Walked?
    ensures SaveMembers(order, depth, b).value == members
    decreases |order|
  {
    hide SaveEntry;
    hide StrOk;
    hide KeyText;
    hide NameOf;
    if order != [] {
      var k := |order| - 1;
      MembersSave(order[..k], members[..k], depth, b);
      assert SavesAs(order[k], members[k], depth);
      NamesAreKeys(members[k].key, members[k].key);
      assert members == members[..k] + [members[k]];
    }
  }

  lemma {:induction false} InsertLast(e: Entry, sorted: seq<Entry>)
    requires forall i :: 0 <= i < |sorted| ==> Rank(sorted[i]) < Rank(e)
    ensures Insert(e, sorted) == sorted + [e]
    decreases |sorted|
  {
    hide Rank;
    if sorted != [] {
      InsertLast(e, sorted[1..]);
    }
  }

  /** The children of a loaded list, sorted, stand as they stood. */
  lemma {:induction false} ItemsSorted(items: seq<Json>, depth: nat)
    ensures var order := Sort(PushedItems(items, depth));
            |order| == |items| && forall i :: 0 <= i < |order| ==> order[i] == Entry(Index(i), Pushed(items[i], depth))
    decreases |items|
  {
    hide Pushed;
    hide Insert;
    hide Sort;
    hide PushedItems;
    if items == [] {
      NoItemsSorted(depth);
    } else {
      var k := |items| - 1;
      ItemsSorted(items[..k], depth);
      var e, rest := Entry(Index(k), Pushed(items[k], depth)), PushedItems(items[..k], depth);
      InsertLast(e, Sort(rest));
      LastItemPushed(items, depth);
      SortPut(e, rest);
    }
  }

  lemma NoItemsSorted(depth: nat)
    ensures Sort(PushedItems([], depth)) == []
  {
  }

  lemma LastItemPushed(items: seq<Json>, depth: nat)
    requires items != []
    ensures var k := |items| - 1;
            PushedItems(items, depth) == [Entry(Index(k), Pushed(items[k], depth))] + PushedItems(items[..k], depth)
  {
    hide Pushed;
  }

  lemma SortPut(e: Entry, rest: seq<Entry>)
    ensures Sort([e] + rest) == Insert(e, Sort(rest))
  {
    assert ([e] + rest)[1..] == rest;
  }

  lemma {:induction false} ItemsHaveNoKey(items: seq<Json>, depth: nat)
    ensures !HasKey(PushedItems(items, depth))
    decreases |items|
  {
    if items != [] {
      ItemsHaveNoKey(items[..|items| - 1], depth);
    }
  }

  lemma {:induction false} NormalItemsAt(items: seq<Json>, depth: nat, i: nat)
    requires i < |items|
    ensures NormalItems(items, depth)[i] == Normal(items[i], depth)
    decreases |items|
  {
    if i < |items| - 1 {
      NormalItemsAt(items[..|items| - 1], depth, i);
    }
  }

  /** A child of a loaded tree is saved in its normal form. */
  lemma {:induction false} EntrySaves(node: Json, depth: nat)
    requires depth < MAX_DEPTH
    ensures Saves(Pushed(node, depth + 1), Normal(node, depth + 1), depth)
    decreases node, 1
  {
    hide Pushed;
    hide Normal;
    hide SaveEntry;
    hide SaveArray;
    if depth + 1 < MAX_DEPTH && (node.Arr? || node.Obj?) {
      PushedArray(node, depth + 1);
      var v := Pushed(node, depth + 1);
      forall b {:trigger SaveEntry(v, depth, b)} | SaveEntry(v, depth, b).Walked?
        ensures SaveEntry(v, depth, b).value == Normal(node, depth + 1)
      {
        EntryIsArray(v, depth, b);
        ArraySaves(node, depth + 1, b.(nodes := b.nodes - 1));
      }
    } else {
      LeafSaves(node, depth);
    }
  }

  lemma EntryIsArray(v: Value, depth: nat, b: Budget)
    requires depth + 1 < MAX_DEPTH && v.Array? && SaveEntry(v, depth, b).Walked?
    ensures SaveEntry(v, depth, b) == SaveArray(v.ring, depth + 1, b.(nodes := b.nodes - 1))
  {
    hide SaveArray;
  }

  lemma LeafSaves(node: Json, depth: nat)
    requires depth < MAX_DEPTH && (depth + 1 >= MAX_DEPTH || (!node.Arr? && !node.Obj?))
    ensures Saves(Pushed(node, depth + 1), Normal(node, depth + 1), depth)
  {
    hide StrOk;
  }

  /** The children of a loaded list are. */
  lemma {:induction false} ItemSaves(items: seq<Json>, depth: nat, i: nat)
    requires depth < MAX_DEPTH && i < |items|
    ensures Saves(Pushed(items[i], depth + 1), Normal(items[i], depth + 1), depth)
    decreases items, 0
  {
    EntrySaves(items[i], depth);
  }

  /** So are those of a loaded object, oldest first. */
  lemma {:induction false} MembersMirror(members: seq<Member>, depth: nat)
    requires depth < MAX_DEPTH
    ensures Mirrors(Reverse(PushedMembers(members, depth + 1)), Kept(NormalMembers(members, depth + 1)), depth)
    decreases members, 0
  {
    hide Reverse;
    hide StrOk;
    hide Mirrors;
    hide NameOf;
    hide Kept;
    if members == [] {
      NothingMirrors(depth);
    } else {
      var k := |members| - 1;
      var m := members[k];
      var ring, front := PushedMembers(members[..k], depth + 1), NormalMembers(members[..k], depth + 1);
      var e, n := Entry(NameOf(m.key), Pushed(m.value, depth + 1)), Member(m.key, Normal(m.value, depth + 1));
      MembersMirror(members[..k], depth);
      EntrySaves(m.value, depth);
      KeptGrows(front, n);
      if StrOk(m.key) {
        DropMirrors(Reverse(ring), Kept(front), m.key, depth);
        WithoutReverse(ring, NameOf(m.key));
        ReversePut(e, Without(ring, NameOf(m.key)));
        MirrorsAppend(e, n, Reverse(Without(ring, NameOf(m.key))), DropKey(Kept(front), m.key), depth);
      }
    }
  }

  lemma NothingMirrors(depth: nat)
    requires depth < MAX_DEPTH
    ensures Mirrors(Reverse(PushedMembers([], depth + 1)), Kept(NormalMembers([], depth + 1)), depth)
  {
  }

  lemma {:induction false} PushedDistinct(members: seq<Member>, depth: nat)
    ensures DistinctNames(PushedMembers(members, depth))
    decreases |members|
  {
    hide StrOk;
    if members != [] {
      var k := |members| - 1;
      PushedDistinct(members[..k], depth);
      WithoutDistinct(PushedMembers(members[..k], depth), NameOf(members[k].key));
    }
  }

  lemma {:induction false} WithoutDistinct(ring: seq<Entry>, name: Name)
    requires DistinctNames(ring)
    ensures DistinctNames(Without(ring, name))
    decreases |ring|
  {
    if ring != [] {
      WithoutDistinct(ring[1..], name);
      var rest := Without(ring[1..], name);
      forall i | 0 <= i < |rest| ensures rest[i].name != ring[0].name {
        assert rest[i] in ring[1..];
      }
    }
  }

  /** Without string keys distinct names are distinct ranks. */
  lemma DistinctRanks(ring: seq<Entry>)
    requires DistinctNames(ring) && !HasKey(ring)
    ensures RankedApart(ring)
  {
  }

  /** Whether any child has a string key shows in the members. */
  lemma KeysShow(ring: seq<Entry>, kept: seq<Member>, depth: nat)
    requires depth <= MAX_DEPTH && Mirrors(Reverse(ring), kept, depth)
    ensures HasKey(ring) <==> exists i :: 0 <= i < |kept| && KeyIndex(kept[i].key).PlainKey?
  {
    hide KeyIndex;
    var order := Reverse(ring);
    forall i | 0 <= i < |kept| ensures order[i].name.Key? <==> KeyIndex(kept[i].key).PlainKey? {
      assert SavesAs(order[i], kept[i], depth);
    }
    if HasKey(ring) {
      var i :| 0 <= i < |ring| && ring[i].name.Key?;
      assert order[|ring| - 1 - i] == ring[i];
    }
  }

  lemma ListShows(order: seq<Entry>, members: seq<Member>, depth: nat)
    requires depth <= MAX_DEPTH && Mirrors(order, members, depth)
    ensures IsList(order) <==> CountFromZero(members)
    ensures forall i {:trigger ValuesOf(members)[i]} :: 0 <= i < |order| ==>
      Saves(order[i].value, ValuesOf(members)[i], depth)
  {
    hide KeyIndex;
    forall i | 0 <= i < |order|
      ensures order[i].name == Index(i) <==> KeyIndex(members[i].key) == IndexKey(i)
      ensures Saves(order[i].value, members[i].value, depth)
    {
      assert SavesAs(order[i], members[i], depth);
    }
  }

  /** The children of an object, written in their order. */
  lemma RingSaves(ring: seq<Entry>, kept: seq<Member>, depth: nat, b: Budget)
    requires depth < MAX_DEPTH && DistinctNames(ring) && Mirrors(Reverse(ring), kept, depth)
    requires SaveArray(ring, depth, b).Walked?
    ensures SaveArray(ring, depth, b).value == Arranged(kept)
  {
    hide SaveItems;
    hide SaveMembers;
    hide Sort;
    hide SortMembers;
    hide Mirrors;
    hide CountFromZero;
    hide IsList;
    hide KeyIndex;
    MirrorsLength(ring, kept, depth);
    KeysShow(ring, kept, depth);
    if ring == [] {
      SortNone();
    } else if HasKey(ring) {
      MembersSave(Reverse(ring), kept, depth, b);
    } else {
      hide HasKey;
      hide Reverse;
      DistinctRanks(ring);
      SortReverse(ring);
      SortMirrors(Reverse(ring), kept, depth);
      var order, sorted := Sort(ring), SortMembers(kept);
      ListShows(order, sorted, depth);
      if IsList(order) {
        SameLength(order, sorted, depth);
        ItemsSave(order, ValuesOf(sorted), depth, b);
      } else {
        MembersSave(order, sorted, depth, b);
      }
    }
  }

  lemma SortNone()
    ensures SortMembers([]) == []
  {
  }

  lemma SameLength(order: seq<Entry>, members: seq<Member>, depth: nat)
    requires depth <= MAX_DEPTH && Mirrors(order, members, depth)
    ensures |order| == |members|
  {
  }

  lemma MirrorsLength(ring: seq<Entry>, kept: seq<Member>, depth: nat)
    requires depth <= MAX_DEPTH && Mirrors(Reverse(ring), kept, depth)
    ensures |ring| == |kept|
  {
  }

  lemma {:induction false} ArraySaves(node: Json, depth: nat, b: Budget)
    requires depth < MAX_DEPTH && (node.Arr? || node.Obj?)
    requires Pushed(node, depth).Array? && SaveArray(Pushed(node, depth).ring, depth, b).Walked?
    ensures SaveArray(Pushed(node, depth).ring, depth, b).value == Normal(node, depth)
    decreases node, 0
  {
    PushedArray(node, depth);
    match node
    case Arr(items) =>
      ItemsHaveNoKey(items, depth + 1);
      ItemsSorted(items, depth + 1);
      var order := Sort(PushedItems(items, depth + 1));
      forall i {:trigger NormalItems(items, depth + 1)[i]} | 0 <= i < |order|
        ensures Saves(order[i].value, NormalItems(items, depth + 1)[i], depth)
      {
        ItemSaves(items, depth, i);
        NormalItemsAt(items, depth + 1, i);
      }
      hide Pushed;
      hide PushedItems;
      hide SaveItems;
      hide NormalItems;
      hide Sort;
      if items != [] {
        ItemsSave(order, NormalItems(items, depth + 1), depth, b);
      }
    case Obj(members) =>
      MembersMirror(members, depth);
      PushedDistinct(members, depth + 1);
      hide SaveArray;
      hide Arranged;
      hide Kept;
      RingSaves(PushedMembers(members, depth + 1), Kept(NormalMembers(members, depth + 1)), depth, b);
  }

  // ---- the converse round trip -------------------------------------------------------------------

  /** Loading a tree and saving the value gives the tree's normal form, if the caps let the value through. */
  lemma LoadedSavesNormal(node: Json, b: Budget)
    requires Saved(Pushed(node, 0), b).Walked?
    ensures Saved(Pushed(node, 0), b).value == Normal(node, 0)
  {
    hide StrOk;
    if node.Arr? || node.Obj? {
      PushedArray(node, 0);
      ArraySaves(node, 0, b);
    }
  }

  /** With room for its entries and string bytes it always does. */
  lemma RoomyLoadSavesNormal(node: Json, b: Budget)
    requires JsonBudget.NotNegative(b)
    requires JsonBudget.Entries(Pushed(node, 0), 0) <= b.nodes && JsonBudget.TextBytes(Pushed(node, 0), 0) <= b.bytes
    ensures Saved(Pushed(node, 0), b).Walked? && Saved(Pushed(node, 0), b).value == Normal(node, 0)
  {
    JsonBudget.SavedExactly(Pushed(node, 0), b);
    LoadedSavesNormal(node, b);
  }

  // ---- trees that are normal already ---------------------------------------------------------------

  /** Every key can be loaded, and none is repeated. */
  predicate KeysFine(members: seq<Member>) {
    && (forall i :: 0 <= i < |members| ==> StrOk(members[i].key))
    && forall i, k :: 0 <= i < k < |members| ==> members[i].key != members[k].key
  }

  predicate AllIndices(members: seq<Member>) {
    forall i :: 0 <= i < |members| ==> KeyIndex(members[i].key).IndexKey?
  }

  predicate Ascending(members: seq<Member>) {
    forall i, k :: 0 <= i < k < |members| ==> IndexOf(members[i]) < IndexOf(members[k])
  }

  /** A tree that a load and a save leave as it is. */
  predicate IsNormal(node: Json, depth: nat)
    decreases node
  {
    if depth >= MAX_DEPTH then node == Null
    else
      match node
      case Null => true
      case Bool(_) => false
      case Num(n) => INT_MIN <= n <= INT_MAX
      case Real(x) => -FLT_MAX <= x <= FLT_MAX
      case Str(s) => StrOk(s)
      case Arr(items) => items != [] && forall i :: 0 <= i < |items| ==> IsNormal(items[i], depth + 1)
      case Obj(members) =>
        && KeysFine(members) && (forall i :: 0 <= i < |members| ==> IsNormal(members[i].value, depth + 1))
        && (AllIndices(members) ==> Ascending(members) && (members != [] ==> !CountFromZero(members)))
  }

  lemma {:induction false} KeptSame(members: seq<Member>)
    requires KeysFine(members)
    ensures Kept(members) == members
    decreases |members|
  {
    hide StrOk;
    if members != [] {
      KeptSame(members[1..]);
    }
  }

  lemma {:induction false} SortSame(members: seq<Member>)
    requires Ascending(members)
    ensures SortMembers(members) == members
    decreases |members|
  {
    hide IndexOf;
    if members != [] {
      SortSame(members[1..]);
    }
  }

  lemma ArrangedSame(members: seq<Member>)
    requires AllIndices(members) ==> Ascending(members) && (members != [] ==> !CountFromZero(members))
    ensures Arranged(members) == Obj(members)
  {
    hide KeyIndex;
    hide IndexOf;
    if AllIndices(members) {
      SortSame(members);
    } else {
      var i :| 0 <= i < |members| && !KeyIndex(members[i].key).IndexKey?;
      assert KeyIndex(members[i].key).PlainKey?;
    }
  }

  lemma {:induction false} NormalStays(node: Json, depth: nat)
    requires IsNormal(node, depth)
    ensures Normal(node, depth) == node
    decreases node, 1
  {
    hide StrOk;
    if depth < MAX_DEPTH {
      match node
      case Arr(items) => ItemsStay(items, depth + 1);
      case Obj(members) =>
        MembersStay(members, depth + 1);
        KeptSame(members);
        ArrangedSame(members);
      case _ =>
    }
  }

  lemma {:induction false} ItemsStay(items: seq<Json>, depth: nat)
    requires forall i :: 0 <= i < |items| ==> IsNormal(items[i], depth)
    ensures NormalItems(items, depth) == items
    decreases items, 0
  {
    if items != [] {
      var k := |items| - 1;
      ItemsStay(items[..k], depth);
      NormalStays(items[k], depth);
      assert items == items[..k] + [items[k]];
    }
  }

  lemma {:induction false} MembersStay(members: seq<Member>, depth: nat)
    requires forall i :: 0 <= i < |members| ==> IsNormal(members[i].value, depth)
    ensures NormalMembers(members, depth) == members
    decreases members, 0
  {
    if members != [] {
      var k := |members| - 1;
      MembersStay(members[..k], depth);
      NormalStays(members[k].value, depth);
      assert members == members[..k] + [members[k]];
    }
  }

  // ---- a normal form is normal -----------------------------------------------------------------------

  lemma {:induction false} KeptFine(members: seq<Member>)
    ensures KeysFine(Kept(members)) && forall m | m in Kept(members) :: m in members
    decreases |members|
  {
    hide StrOk;
    if members != [] {
      KeptFine(members[1..]);
      if StrOk(members[0].key) && !HasMember(members[1..], members[0].key) {
        KeptKeysAreThere(members[1..], members[0].key);
      }
    }
  }

  /** b has the members of a. */
  ghost predicate SameMembers(a: seq<Member>, b: seq<Member>) {
    |a| == |b| && (forall m | m in a :: m in b) && forall m | m in b :: m in a
  }

  lemma {:induction false} InsertAscends(m: Member, sorted: seq<Member>)
    requires Ascending(sorted) && forall n | n in sorted :: IndexOf(n) != IndexOf(m)
    ensures Ascending(InsertMember(m, sorted)) && SameMembers([m] + sorted, InsertMember(m, sorted))
    decreases |sorted|
  {
    hide IndexOf;
    if sorted != [] && IndexOf(m) > IndexOf(sorted[0]) {
      var first, rest := sorted[0], sorted[1..];
      assert sorted == [first] + rest;
      InsertAscends(m, rest);
      AscendsFrom(first, m, rest, InsertMember(m, rest));
    } else if sorted != [] {
      PutBelow(m, sorted);
    }
  }

  lemma PutBelow(m: Member, sorted: seq<Member>)
    requires sorted != [] && Ascending(sorted) && IndexOf(m) < IndexOf(sorted[0])
    ensures Ascending([m] + sorted)
  {
    hide IndexOf;
    var all := [m] + sorted;
    forall i, k | 0 <= i < k < |all| ensures IndexOf(all[i]) < IndexOf(all[k]) {
      assert all[k] == sorted[k - 1];
      assert k > 1 ==> IndexOf(sorted[0]) < IndexOf(sorted[k - 1]);
    }
  }

  lemma AscendsFrom(first: Member, m: Member, rest: seq<Member>, more: seq<Member>)
    requires Ascending([first] + rest) && Ascending(more) && SameMembers([m] + rest, more)
    requires IndexOf(first) < IndexOf(m)
    ensures Ascending([first] + more) && SameMembers([m] + ([first] + rest), [first] + more)
  {
    hide IndexOf;
    var all := [first] + rest;
    forall n | n in more ensures IndexOf(first) < IndexOf(n) {
      assert n in [m] + rest;
      if n in rest {
        var i :| 0 <= i < |rest| && rest[i] == n;
        assert all[0] == first && all[i + 1] == n;
      }
    }
  }

  lemma {:induction false} SortAscends(members: seq<Member>)
    requires KeysFine(members) && AllIndices(members)
    ensures Ascending(SortMembers(members)) && SameMembers(members, SortMembers(members))
    decreases |members|
  {
    hide StrOk;
    hide KeyIndex;
    hide IndexOf;
    if members != [] {
      var rest := members[1..];
      assert members == [members[0]] + rest;
      SortAscends(rest);
      forall n | n in SortMembers(rest) ensures IndexOf(n) != IndexOf(members[0]) {
        assert n in rest;
        var i :| 0 <= i < |rest| && rest[i] == n;
        assert members[i + 1] == n;
        IndicesApart(members[0], n);
      }
      InsertAscends(members[0], SortMembers(rest));
    }
  }

  lemma IndicesApart(a: Member, b: Member)
    requires a.key != b.key && KeyIndex(a.key).IndexKey? && KeyIndex(b.key).IndexKey?
    ensures IndexOf(a) != IndexOf(b)
  {
    KeyIndexExactly(a.key, KeyIndex(a.key).index);
    KeyIndexExactly(b.key, KeyIndex(b.key).index);
  }

  lemma AscendingKeysFine(a: seq<Member>, b: seq<Member>)
    requires KeysFine(a) && AllIndices(a) && Ascending(b) && SameMembers(a, b)
    ensures KeysFine(b) && AllIndices(b)
  {
    hide StrOk;
    hide KeyIndex;
    forall i | 0 <= i < |b| ensures StrOk(b[i].key) && KeyIndex(b[i].key).IndexKey? {
      assert b[i] in a;
    }
    forall i, k | 0 <= i < k < |b| ensures b[i].key != b[k].key {
      assert IndexOf(b[i]) < IndexOf(b[k]);
    }
  }

  lemma ArrangedIsNormal(kept: seq<Member>, depth: nat)
    requires depth < MAX_DEPTH && KeysFine(kept)
    requires forall m | m in kept :: IsNormal(m.value, depth + 1)
    ensures IsNormal(Arranged(kept), depth)
  {
    hide StrOk;
    hide KeyIndex;
    hide IndexOf;
    if AllIndices(kept) {
      SortAscends(kept);
      var sorted := SortMembers(kept);
      AscendingKeysFine(kept, sorted);
      forall i | 0 <= i < |sorted| ensures IsNormal(sorted[i].value, depth + 1) {
        assert sorted[i] in kept;
      }
    } else {
      var i :| 0 <= i < |kept| && !KeyIndex(kept[i].key).IndexKey?;
      assert KeyIndex(kept[i].key).PlainKey?;
    }
  }

  lemma {:induction false} NormalIsNormal(node: Json, depth: nat)
    ensures IsNormal(Normal(node, depth), depth)
    decreases node, 1
  {
    hide StrOk;
    if depth < MAX_DEPTH {
      match node
      case Arr(items) =>
        var normal := NormalItems(items, depth + 1);
        forall i | 0 <= i < |items| ensures IsNormal(normal[i], depth + 1) {
          NormalItemsAt(items, depth + 1, i);
          NormalItem(items, depth + 1, i);
        }
      case Obj(members) =>
        MembersAreNormal(members, depth + 1);
        KeptFine(NormalMembers(members, depth + 1));
        ArrangedIsNormal(Kept(NormalMembers(members, depth + 1)), depth);
      case _ =>
    }
  }

  lemma {:induction false} NormalItem(items: seq<Json>, depth: nat, i: nat)
    requires i < |items|
    ensures IsNormal(Normal(items[i], depth), depth)
    decreases items, 0
  {
    NormalIsNormal(items[i], depth);
  }

  lemma {:induction false} MembersAreNormal(members: seq<Member>, depth: nat)
    ensures forall m | m in NormalMembers(members, depth) :: IsNormal(m.value, depth)
    decreases members, 0
  {
    if members != [] {
      MembersAreNormal(members[..|members| - 1], depth);
      NormalIsNormal(members[|members| - 1].value, depth);
    }
  }

  /** A tree comes back as it is exactly when it is normal, and once is enough. */
  lemma NormalExactly(node: Json, b: Budget)
    requires Saved(Pushed(node, 0), b).Walked?
    ensures var back := Saved(Pushed(node, 0), b).value;
            IsNormal(back, 0) && (back == node <==> IsNormal(node, 0)) && Normal(back, 0) == back
  {
    LoadedSavesNormal(node, b);
    NormalIsNormal(node, 0);
    NormalStays(Normal(node, 0), 0);
    if IsNormal(node, 0) {
      NormalStays(node, 0);
    }
  }
}
