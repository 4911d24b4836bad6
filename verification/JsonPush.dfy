/**
 Loading a JSON tree into script values, and the count made beforehand
 (code/gsc_json.cpp, 148-303): the count covers the variables and the strings of the
 load, so a load that was let through does not run the script memory out.
 */
module JsonPush {
  import opened JsonKeys

  const MAX_DEPTH: nat := 64
  const INT_MIN: int := -0x8000_0000
  const INT_MAX: int := 0x7FFF_FFFF
  const FLT_MAX: real := 340282346638528859811704183484516925440.0

  datatype Json =
    | Null | Bool(b: bool) | Num(n: int) | Real(x: real) | Str(s: string)
    | Arr(items: seq<Json>) | Obj(members: seq<Member>)

  datatype Member = Member(key: string, value: Json)

  /** The name of an array child: a string, or an index. */
  datatype Name = Key(text: string) | Index(i: int)

  /** A script value; the children of an array are linked newest first. */
  datatype Value = Undefined | Int(n: int) | Float(x: real) | Text(s: string) | Array(ring: seq<Entry>)

  datatype Entry = Entry(name: Name, value: Value)

  function NameOf(key: string): Name {
    var i := KeyIndex(key);
    if i.IndexKey? then Index(i.index) else Key(key)
  }

  /** RemoveVariable, if the name is there. */
  function Without(ring: seq<Entry>, name: Name): (r: seq<Entry>)
    ensures |r| <= |ring|
    ensures forall e | e in r :: e in ring && e.name != name
  {
    if ring == [] then []
    else if ring[0].name == name then Without(ring[1..], name)
    else [ring[0]] + Without(ring[1..], name)
  }

  function FloatOf(x: real): Value {
    if -FLT_MAX <= x <= FLT_MAX then Float(x) else Undefined
  }

  /** The value a load makes of a node. */
  function Pushed(node: Json, depth: nat): Value
    decreases node
  {
    if node.Null? || depth >= MAX_DEPTH then Undefined
    else
      match node
      case Null => Undefined
      case Bool(b) => Int(if b then 1 else 0)
      case Num(n) => if INT_MIN <= n <= INT_MAX then Int(n) else FloatOf(n as real)
      case Real(x) => FloatOf(x)
      case Str(s) => if StrOk(s) then Text(s) else Undefined
      case Arr(items) => Array(PushedItems(items, depth + 1))
      case Obj(members) => Array(PushedMembers(members, depth + 1))
  }

  function PushedItems(items: seq<Json>, depth: nat): (r: seq<Entry>)
    ensures |r| == |items|
    decreases items
  {
    if items == [] then []
    else
      var k := |items| - 1;
      [Entry(Index(k), Pushed(items[k], depth))] + PushedItems(items[..k], depth)
  }

  function PushedMembers(members: seq<Member>, depth: nat): (r: seq<Entry>)
    decreases members
  {
    if members == [] then []
    else
      var k := |members| - 1;
      AddMember(PushedMembers(members[..k], depth), members[k].key, Pushed(members[k].value, depth))
  }

  function AddMember(ring: seq<Entry>, key: string, value: Value): seq<Entry> {
    if !StrOk(key) then ring else [Entry(NameOf(key), value)] + Without(ring, NameOf(key))
  }

  // ---- script variables --------------------------------------------------------------

  /** Variables a value holds: one for each array and one for each of its children. */
  function Variables(v: Value): nat
    decreases v
  {
    match v
    case Array(ring) => 1 + RingVariables(ring)
    case _ => 0
  }

  function RingVariables(ring: seq<Entry>): nat
    decreases ring
  {
    if ring == [] then 0 else 1 + EntryVariables(ring[0]) + RingVariables(ring[1..])
  }

  function EntryVariables(e: Entry): nat
    decreases e
  {
    Variables(e.value)
  }

  /** What the count says. */
  function CostVars(node: Json, depth: nat): nat
    decreases node
  {
    if depth >= MAX_DEPTH then 0
    else
      match node
      case Arr(items) => 1 + ItemVars(items, depth + 1)
      case Obj(members) => 1 + MemberVars(members, depth + 1)
      case _ => 0
  }

  function ItemVars(items: seq<Json>, depth: nat): nat
    decreases items
  {
    if items == [] then 0
    else var k := |items| - 1; ItemVars(items[..k], depth) + 1 + CostVars(items[k], depth)
  }

  function MemberVars(members: seq<Member>, depth: nat): nat
    decreases members
  {
    if members == [] then 0
    else
      var k := |members| - 1;
      MemberVars(members[..k], depth) + if StrOk(members[k].key) then 1 + CostVars(members[k].value, depth) else 0
  }

  /** No object of the tree has two members that load under one name. */
  predicate NoRepeats(node: Json)
    decreases node
  {
    match node
    case Arr(items) => forall i :: 0 <= i < |items| ==> NoRepeats(items[i])
    case Obj(members) =>
      && (forall i, k :: 0 <= i < k < |members| && StrOk(members[i].key) && StrOk(members[k].key) ==>
          NameOf(members[i].key) != NameOf(members[k].key))
      && forall i :: 0 <= i < |members| ==> NoRepeats(members[i].value)
    case _ => true
  }

  lemma {:induction false} WithoutVariables(ring: seq<Entry>, name: Name)
    ensures RingVariables(Without(ring, name)) <= RingVariables(ring)
    ensures (forall e | e in ring :: e.name != name) ==> Without(ring, name) == ring
    decreases |ring|
  {
    if ring != [] {
      WithoutVariables(ring[1..], name);
      if ring[0].name != name {
        var rest := Without(ring[1..], name);
        assert ([ring[0]] + rest)[1..] == rest;
      }
    }
  }

  lemma PutVariables(e: Entry, ring: seq<Entry>)
    ensures RingVariables([e] + ring) == 1 + Variables(e.value) + RingVariables(ring)
  {
    assert ([e] + ring)[1..] == ring;
  }

  /** The loaded value holds as many variables as were counted, and fewer only if a key was repeated. */
  lemma {:induction false} VariablesCounted(node: Json, depth: nat)
    ensures Variables(Pushed(node, depth)) <= CostVars(node, depth)
    ensures NoRepeats(node) ==> Variables(Pushed(node, depth)) == CostVars(node, depth)
    decreases node
  {
    if depth < MAX_DEPTH {
      match node
      case Arr(items) => ItemsCounted(items, depth + 1);
      case Obj(members) => MembersCounted(members, depth + 1);
      case _ =>
    }
  }

  lemma {:induction false} ItemsCounted(items: seq<Json>, depth: nat)
    ensures RingVariables(PushedItems(items, depth)) <= ItemVars(items, depth)
    ensures (forall i :: 0 <= i < |items| ==> NoRepeats(items[i])) ==>
        RingVariables(PushedItems(items, depth)) == ItemVars(items, depth)
    decreases items
  {
    if items != [] {
      var k := |items| - 1;
      VariablesCounted(items[k], depth);
      ItemsCounted(items[..k], depth);
      PutVariables(Entry(Index(k), Pushed(items[k], depth)), PushedItems(items[..k], depth));
    }
  }

  lemma {:induction false} MembersCounted(members: seq<Member>, depth: nat)
    ensures RingVariables(PushedMembers(members, depth)) <= MemberVars(members, depth)
    ensures NoRepeats(Obj(members)) ==> RingVariables(PushedMembers(members, depth)) == MemberVars(members, depth)
    decreases members
  {
    if members != [] {
      var k := |members| - 1;
      var m, front := members[k], members[..k];
      MembersCounted(front, depth);
      VariablesCounted(m.value, depth);
      if StrOk(m.key) {
        var ring := PushedMembers(front, depth);
        WithoutVariables(ring, NameOf(m.key));
        PutVariables(Entry(NameOf(m.key), Pushed(m.value, depth)), Without(ring, NameOf(m.key)));
        if NoRepeats(Obj(members)) {
          NamesComeFromKeys(front, depth, NameOf(m.key));
        }
      }
    }
  }

  /** A name that no loadable key has is not in the ring. */
  lemma {:induction false} NamesComeFromKeys(members: seq<Member>, depth: nat, name: Name)
    requires forall i :: 0 <= i < |members| && StrOk(members[i].key) ==> NameOf(members[i].key) != name
    ensures forall e | e in PushedMembers(members, depth) :: e.name != name
    decreases members
  {
    if members != [] {
      NamesComeFromKeys(members[..|members| - 1], depth, name);
    }
  }

  // ---- strings -----------------------------------------------------------------------

  /** The strings a load interns, in its order: a key before its value. */
  function Interned(node: Json, depth: nat): seq<string>
    decreases node
  {
    if depth >= MAX_DEPTH then []
    else
      match node
      case Str(s) => if StrOk(s) then [s] else []
      case Arr(items) => ItemsInterned(items, depth + 1)
      case Obj(members) => MembersInterned(members, depth + 1)
      case _ => []
  }

  function ItemsInterned(items: seq<Json>, depth: nat): seq<string>
    decreases items
  {
    if items == [] then []
    else var k := |items| - 1; ItemsInterned(items[..k], depth) + Interned(items[k], depth)
  }

  function KeyString(key: string): seq<string> {
    if KeyIndex(key).PlainKey? then [key] else []
  }

  function MembersInterned(members: seq<Member>, depth: nat): seq<string>
    decreases members
  {
    if members == [] then []
    else
      var k := |members| - 1;
      var m := members[k];
      MembersInterned(members[..k], depth) + if StrOk(m.key) then KeyString(m.key) + Interned(m.value, depth) else []
  }

  /** The strings of the count, in its order: a key after its value. */
  function Counted(node: Json, depth: nat): seq<string>
    decreases node
  {
    if depth >= MAX_DEPTH then []
    else
      match node
      case Str(s) => if StrOk(s) then [s] else []
      case Arr(items) => ItemsCountedStrings(items, depth + 1)
      case Obj(members) => MembersCountedStrings(members, depth + 1)
      case _ => []
  }

  function ItemsCountedStrings(items: seq<Json>, depth: nat): seq<string>
    decreases items
  {
    if items == [] then []
    else var k := |items| - 1; ItemsCountedStrings(items[..k], depth) + Counted(items[k], depth)
  }

  function MembersCountedStrings(members: seq<Member>, depth: nat): seq<string>
    decreases members
  {
    if members == [] then []
    else
      var k := |members| - 1;
      var m := members[k];
      MembersCountedStrings(members[..k], depth)
      + if StrOk(m.key) then Counted(m.value, depth) + KeyString(m.key) else []
  }

  /** Load and count meet the same strings equally often. */
  lemma {:induction false} SameStrings(node: Json, depth: nat)
    ensures multiset(Interned(node, depth)) == multiset(Counted(node, depth))
    decreases node
  {
    hide StrOk;
    if depth < MAX_DEPTH {
      match node
      case Arr(items) => SameItemStrings(items, depth + 1);
      case Obj(members) => SameMemberStrings(members, depth + 1);
      case _ =>
    }
  }

  lemma {:induction false} SameItemStrings(items: seq<Json>, depth: nat)
    ensures multiset(ItemsInterned(items, depth)) == multiset(ItemsCountedStrings(items, depth))
    decreases items
  {
    if items != [] {
      var k := |items| - 1;
      SameItemStrings(items[..k], depth);
      SameStrings(items[k], depth);
    }
  }

  lemma {:induction false} SameMemberStrings(members: seq<Member>, depth: nat)
    ensures multiset(MembersInterned(members, depth)) == multiset(MembersCountedStrings(members, depth))
    decreases members
  {
    hide StrOk;
    hide KeyString;
    if members != [] {
      var k := |members| - 1;
      SameMemberStrings(members[..k], depth);
      SameStrings(members[k].value, depth);
    }
  }
}
