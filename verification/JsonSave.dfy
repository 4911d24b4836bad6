/**
 Saving script values as JSON trees (code/gsc_json.cpp, 395-411, 463-650), and loading
 them back: an array comes back as the value it was.

 An array's children are linked newest first, so the walk of a string-keyed array runs
 backwards. Structs, entities and reference cycles are not part of this model.
 */
module JsonSave {
  import opened JsonKeys
  import opened JsonPush

  /** Entries and string bytes the walk may still copy. */
  datatype Budget = Budget(nodes: int, bytes: int)

  /** A walk that ran out of budget gives no tree. */
  datatype Walk<T> = Aborted | Walked(value: T, left: Budget)

  predicate HasKey(ring: seq<Entry>) {
    exists i :: 0 <= i < |ring| && ring[i].name.Key?
  }

  // ---- the order of the children ------------------------------------------------------

  /** How json_kv_cmp sees a name: indices by value. Sorting is done without string keys only. */
  function Rank(e: Entry): int {
    if e.name.Index? then e.name.i else MIN_INDEX - 1
  }

  function Insert(e: Entry, sorted: seq<Entry>): (r: seq<Entry>)
    ensures multiset(r) == multiset(sorted) + multiset{e}
  {
    if sorted == [] then [e]
    else if Rank(e) <= Rank(sorted[0]) then [e] + sorted
    else
      assert sorted == [sorted[0]] + sorted[1..];
      [sorted[0]] + Insert(e, sorted[1..])
  }

  function Sort(ring: seq<Entry>): (r: seq<Entry>)
    ensures multiset(r) == multiset(ring)
  {
    if ring == [] then []
    else
      assert ring == [ring[0]] + ring[1..];
      Insert(ring[0], Sort(ring[1..]))
  }

  function Reverse(ring: seq<Entry>): (r: seq<Entry>)
    ensures |r| == |ring| && forall i :: 0 <= i < |r| ==> r[i] == ring[|ring| - 1 - i]
  {
    seq(|ring|, i requires 0 <= i < |ring| => ring[|ring| - 1 - i])
  }

  /** The order in which the children are written. */
  function Ordered(ring: seq<Entry>): seq<Entry> {
    if HasKey(ring) then Reverse(ring) else Sort(ring)
  }

  /** Written as a JSON array: the indices are 0 to n-1. */
  predicate IsList(order: seq<Entry>) {
    forall i :: 0 <= i < |order| ==> order[i].name == Index(i)
  }

  function KeyText(name: Name): string {
    if name.Key? then name.text else Decimal(name.i)
  }

  // ---- the walk ------------------------------------------------------------------------

  function SaveText(s: string, b: Budget): Walk<string> {
    if b.bytes - |s| < 0 then Aborted else Walked(s, b.(bytes := b.bytes - |s|))
  }

  function SaveEntry(v: Value, depth: nat, b: Budget): Walk<Json>
    decreases MAX_DEPTH + 1 - depth, 1, 0
    requires depth <= MAX_DEPTH
  {
    if b.nodes - 1 < 0 then Aborted
    else
      var left := b.(nodes := b.nodes - 1);
      match v
      case Undefined => Walked(Null, left)
      case Int(n) => Walked(Num(n), left)
      case Float(x) => Walked(Real(x), left)
      case Text(s) => (match SaveText(s, left) case Aborted => Aborted case Walked(t, rest) => Walked(Str(t), rest))
      case Array(ring) => if depth + 1 >= MAX_DEPTH then Walked(Null, left) else SaveArray(ring, depth + 1, left)
  }

  function SaveArray(ring: seq<Entry>, depth: nat, b: Budget): Walk<Json>
    requires depth < MAX_DEPTH
    decreases MAX_DEPTH + 1 - depth, 3, 0
  {
    if ring == [] then Walked(Obj([]), b)
    else
      var order := Ordered(ring);
      if !HasKey(ring) && IsList(order) then
        (match SaveItems(order, depth, b) case Aborted => Aborted case Walked(items, left) => Walked(Arr(items), left))
      else
        (match SaveMembers(order, depth, b)
         case Aborted => Aborted
         case Walked(members, left) => Walked(Obj(members), left))
  }

  function SaveItems(order: seq<Entry>, depth: nat, b: Budget): (r: Walk<seq<Json>>)
    requires depth < MAX_DEPTH
    ensures r.Walked? ==> |r.value| == |order|
    decreases MAX_DEPTH + 1 - depth, 2, |order|
  {
    if order == [] then Walked([], b)
    else
      var k := |order| - 1;
      match SaveItems(order[..k], depth, b)
      case Aborted => Aborted
      case Walked(items, left) =>
        match SaveEntry(order[k].value, depth, left)
        case Aborted => Aborted
        case Walked(item, rest) => Walked(items + [item], rest)
  }

  /** A member's key is copied after its value. */
  function SaveMembers(order: seq<Entry>, depth: nat, b: Budget): (r: Walk<seq<Member>>)
    requires depth < MAX_DEPTH
    ensures r.Walked? ==> |r.value| == |order|
    decreases MAX_DEPTH + 1 - depth, 2, |order|
  {
    if order == [] then Walked([], b)
    else
      var k := |order| - 1;
      match SaveMembers(order[..k], depth, b)
      case Aborted => Aborted
      case Walked(members, left) =>
        match SaveEntry(order[k].value, depth, left)
        case Aborted => Aborted
        case Walked(item, more) =>
          match SaveText(KeyText(order[k].name), more)
          case Aborted => Aborted
          case Walked(key, rest) => Walked(members + [Member(key, item)], rest)
  }

  /** The tree of a save's argument; only array children count against the entries. */
  function Saved(v: Value, b: Budget): Walk<Json> {
    match v
    case Undefined => Walked(Null, b)
    case Int(n) => Walked(Num(n), b)
    case Float(x) => Walked(Real(x), b)
    case Text(s) => (match SaveText(s, b) case Aborted => Aborted case Walked(t, rest) => Walked(Str(t), rest))
    case Array(ring) => SaveArray(ring, 0, b)
  }

  // ---- which values ----------------------------------------------------------------------

  /** A value a script can hold and a load would give: nested below the depth limit, with loadable strings. */
  predicate Loadable(v: Value, depth: nat)
    decreases v, 1
  {
    && depth < MAX_DEPTH
    && match v
       case Undefined => true
       case Int(n) => INT_MIN <= n <= INT_MAX
       case Float(x) => -FLT_MAX <= x <= FLT_MAX
       case Text(s) => StrOk(s)
       case Array(ring) => DistinctNames(ring) && forall i :: 0 <= i < |ring| ==> EntryLoadable(ring[i], depth + 1)
  }

  predicate EntryLoadable(e: Entry, depth: nat)
    decreases e, 0
  {
    NameOk(e.name) && Loadable(e.value, depth)
  }

  predicate NameOk(name: Name) {
    match name
    case Key(s) => StrOk(s)
    case Index(i) => MIN_INDEX <= i <= MAX_INDEX
  }

  predicate DistinctNames(ring: seq<Entry>) {
    forall i, k :: 0 <= i < k < |ring| ==> ring[i].name != ring[k].name
  }

  /** No string key is spelled like an index. */
  predicate NoIndexKeys(v: Value)
    decreases v, 1
  {
    v.Array? ==> forall i :: 0 <= i < |v.ring| ==> EntryNoIndexKeys(v.ring[i])
  }

  predicate EntryNoIndexKeys(e: Entry)
    decreases e, 0
  {
    (e.name.Key? ==> KeyIndex(e.name.text).PlainKey?) && NoIndexKeys(e.value)
  }

  // ---- the value that comes back -----------------------------------------------------------

  /** The value as a load links it: children of index arrays in ascending order. */
  function Canonical(v: Value): Value
    decreases v
  {
    match v
    case Array(ring) => Array(Reverse(Ordered(CanonicalRing(ring))))
    case _ => v
  }

  function CanonicalRing(ring: seq<Entry>): (r: seq<Entry>)
    ensures |r| == |ring|
    decreases ring
  {
    if ring == [] then [] else [CanonicalEntry(ring[0])] + CanonicalRing(ring[1..])
  }

  function CanonicalEntry(e: Entry): (r: Entry)
    ensures r.name == e.name
    decreases e
  {
    Entry(e.name, Canonical(e.value))
  }
}
