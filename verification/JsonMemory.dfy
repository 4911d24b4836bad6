/**
 What a JSON load needs and what is counted for it (code/gsc_json.cpp, 176-303,
 328-349): the two walks side by side, as the program runs them.
 */
module JsonMemory {
  import opened JsonKeys
  import opened JsonPush
  import opened StringMemory

  // ---- strings that are not interned yet -----------------------------------------------

  /** The strings that are new when they come up, given those interned already. */
  function Fresh(strings: seq<string>, known: set<string>): seq<string> {
    if strings == [] then []
    else
      var k := |strings| - 1;
      var s := strings[k];
      Fresh(strings[..k], known) + if s in known || s in strings[..k] then [] else [s]
  }

  function BlockOf(s: string): Request {
    if |s| < MAX_STRING then BlockSize(|s|) else 0
  }

  function BlocksOf(strings: seq<string>): (r: seq<Request>)
    ensures |r| == |strings|
  {
    seq(|strings|, i requires 0 <= i < |strings| => BlockOf(strings[i]))
  }

  lemma {:induction false} FreshOnce(strings: seq<string>, known: set<string>, s: string)
    ensures multiset(Fresh(strings, known))[s] == if s in strings && s !in known then 1 else 0
    decreases |strings|
  {
    if strings != [] {
      var k := |strings| - 1;
      FreshOnce(strings[..k], known, s);
      assert strings == strings[..k] + [strings[k]];
    }
  }

  lemma SameFresh(a: seq<string>, b: seq<string>, known: set<string>)
    requires multiset(a) == multiset(b)
    ensures multiset(Fresh(a, known)) == multiset(Fresh(b, known))
  {
    forall s ensures multiset(Fresh(a, known))[s] == multiset(Fresh(b, known))[s] {
      FreshOnce(a, known, s);
      FreshOnce(b, known, s);
      assert s in a <==> s in multiset(a);
      assert s in b <==> s in multiset(b);
    }
  }

  lemma {:induction false} SameBlocks(a: seq<string>, b: seq<string>)
    requires multiset(a) == multiset(b)
    ensures multiset(BlocksOf(a)) == multiset(BlocksOf(b))
    decreases |a|
  {
    hide BlockOf;
    if a == [] {
      assert |multiset(b)| == 0;
    } else {
      var i := MatchOf(a, b);
      var less := b[..i] + b[i + 1..];
      SameBlocks(a[1..], less);
      assert BlocksOf(a) == [BlockOf(a[0])] + BlocksOf(a[1..]);
      BlocksWithout(b, i);
    }
  }

  lemma BlocksWithout(b: seq<string>, i: nat)
    requires i < |b|
    ensures multiset(BlocksOf(b)) == multiset(BlocksOf(b[..i] + b[i + 1..])) + multiset{BlockOf(b[i])}
  {
    hide BlockOf;
    var less := b[..i] + b[i + 1..];
    assert BlocksOf(less) == BlocksOf(b)[..i] + BlocksOf(b)[i + 1..];
    assert BlocksOf(b) == BlocksOf(b)[..i] + [BlocksOf(b)[i]] + BlocksOf(b)[i + 1..];
  }

  /** The string blocks counted in the count's order can all be taken in the load's order. */
  lemma CountedStringsFit(node: Json, known: set<string>, free: Blocks, reserve: int)
    requires Fits(free, BlocksOf(Fresh(Counted(node, 0), known)), reserve)
    ensures TakeAll(free, BlocksOf(Fresh(Interned(node, 0), known))).Placed?
  {
    SameStrings(node, 0);
    SameFresh(Counted(node, 0), Interned(node, 0), known);
    SameBlocks(Fresh(Counted(node, 0), known), Fresh(Interned(node, 0), known));
    FitsExactly(free, BlocksOf(Fresh(Counted(node, 0), known)), reserve);
    OrderDoesNotMatter(free, BlocksOf(Fresh(Counted(node, 0), known)), BlocksOf(Fresh(Interned(node, 0), known)),
        reserve);
  }

  // ---- the count, as it runs -------------------------------------------------------------

  function Elements(strings: seq<string>): set<string> {
    set s | s in strings
  }

  /** String memory of the distinct strings. */
  function Nodes(strings: seq<string>): nat {
    if strings == [] then 0
    else
      var k := |strings| - 1;
      Nodes(strings[..k]) + if strings[k] in strings[..k] then 0 else Pow2(BlockOf(strings[k]))
  }

  /** struct JsonCost; `done` lists the strings counted so far. */
  class JsonCost {
    var vars: nat
    var mtNodes: nat
    var seen: set<string>
    var newSizes: seq<Request>
    ghost var done: seq<string>

    ghost predicate Valid(known: set<string>)
      reads this
    {
      seen == Elements(done) && newSizes == BlocksOf(Fresh(done, known)) && mtNodes == Nodes(done)
    }

    constructor (known: set<string>)
      ensures Valid(known) && vars == 0 && done == []
    {
      vars, mtNodes, seen, newSizes, done := 0, 0, {}, [], [];
    }

    /** `known` are the strings the engine has interned already. */
    method CountString(s: string, known: set<string>)
      requires Valid(known) && StrOk(s)
      modifies this
      ensures Valid(known) && vars == old(vars) && done == old(done) + [s]
    {
      hide StrOk;
      hide BlockOf;
      OneMoreString(done, s, known);
      done := done + [s];
      if s in seen {
        return;
      }
      seen := seen + {s};
      mtNodes := mtNodes + Pow2(BlockOf(s));
      if s !in known {
        newSizes := newSizes + [BlockOf(s)];
      }
    }

    method CountVariable(known: set<string>)
      requires Valid(known)
      modifies this`vars
      ensures Valid(known) && vars == old(vars) + 1
    {
      vars := vars + 1;
    }

    method Count(node: Json, depth: nat, known: set<string>)
      requires Valid(known)
      modifies this
      ensures Valid(known)
      ensures vars == old(vars) + CostVars(node, depth) && done == old(done) + Counted(node, depth)
      decreases node, 1
    {
      hide StrOk;
      hide Valid;
      if depth >= MAX_DEPTH {
        return;
      }
      if node.Str? && StrOk(node.s) {
        CountString(node.s, known);
      }
      if node.Arr? {
        CountItems(node, depth, known);
      } else if node.Obj? {
        CountMembers(node, depth, known);
      }
    }

    method CountItems(node: Json, depth: nat, known: set<string>)
      requires Valid(known) && node.Arr? && depth < MAX_DEPTH
      modifies this
      ensures Valid(known)
      ensures vars == old(vars) + CostVars(node, depth) && done == old(done) + Counted(node, depth)
      decreases node, 0
    {
      hide Valid;
      hide CostVars;
      hide Counted;
      hide ItemVars;
      hide ItemsCountedStrings;
      ArrayCost(node.items, depth);
      CountVariable(known);
      for i := 0 to |node.items|
        invariant Valid(known)
        invariant vars == old(vars) + 1 + ItemVars(node.items[..i], depth + 1)
        invariant done == old(done) + ItemsCountedStrings(node.items[..i], depth + 1)
      {
        NextItem(node.items, i, depth + 1);
        CountVariable(known);
        Count(node.items[i], depth + 1, known);
      }
    }

    method CountMembers(node: Json, depth: nat, known: set<string>)
      requires Valid(known) && node.Obj? && depth < MAX_DEPTH
      modifies this
      ensures Valid(known)
      ensures vars == old(vars) + CostVars(node, depth) && done == old(done) + Counted(node, depth)
      decreases node, 0
    {
      hide Valid;
      hide StrOk;
      hide KeyIndex;
      hide CostVars;
      hide Counted;
      hide MemberVars;
      hide MembersCountedStrings;
      ObjectCost(node.members, depth);
      CountVariable(known);
      for i := 0 to |node.members|
        invariant Valid(known)
        invariant vars == old(vars) + 1 + MemberVars(node.members[..i], depth + 1)
        invariant done == old(done) + MembersCountedStrings(node.members[..i], depth + 1)
      {
        var m := node.members[i];
        NextMember(node.members, i, depth + 1);
        if StrOk(m.key) {
          CountVariable(known);
          Count(m.value, depth + 1, known);
          if KeyIndex(m.key).PlainKey? {
            CountString(m.key, known);
          }
        }
      }
    }
  }

  lemma ArrayCost(items: seq<Json>, depth: nat)
    requires depth < MAX_DEPTH
    ensures ItemVars(items[..0], depth + 1) == 0 && ItemsCountedStrings(items[..0], depth + 1) == []
    ensures items[..|items|] == items
    ensures CostVars(Arr(items), depth) == 1 + ItemVars(items, depth + 1)
    ensures Counted(Arr(items), depth) == ItemsCountedStrings(items, depth + 1)
  {
  }

  lemma ObjectCost(members: seq<Member>, depth: nat)
    requires depth < MAX_DEPTH
    ensures MemberVars(members[..0], depth + 1) == 0 && MembersCountedStrings(members[..0], depth + 1) == []
    ensures members[..|members|] == members
    ensures CostVars(Obj(members), depth) == 1 + MemberVars(members, depth + 1)
    ensures Counted(Obj(members), depth) == MembersCountedStrings(members, depth + 1)
  {
  }

  lemma OneMoreString(done: seq<string>, s: string, known: set<string>)
    ensures var more := done + [s];
            && Elements(more) == Elements(done) + {s}
            && Nodes(more) == Nodes(done) + (if s in done then 0 else Pow2(BlockOf(s)))
            && BlocksOf(Fresh(more, known)) == BlocksOf(Fresh(done, known))
                + (if s in known || s in done then [] else [BlockOf(s)])
  {
    hide BlockOf;
    assert (done + [s])[..|done|] == done;
  }

  lemma NextItem(items: seq<Json>, i: nat, depth: nat)
    requires i < |items|
    ensures ItemVars(items[..i + 1], depth) == ItemVars(items[..i], depth) + 1 + CostVars(items[i], depth)
    ensures ItemsCountedStrings(items[..i + 1], depth) == ItemsCountedStrings(items[..i], depth)
        + Counted(items[i], depth)
  {
    assert items[..i + 1][..i] == items[..i];
  }

  lemma NextMember(members: seq<Member>, i: nat, depth: nat)
    requires i < |members|
    ensures MemberVars(members[..i + 1], depth) ==
            MemberVars(members[..i], depth) + if StrOk(members[i].key) then 1 + CostVars(members[i].value, depth) else 0
    ensures MembersCountedStrings(members[..i + 1], depth) ==
            MembersCountedStrings(members[..i], depth) +
            if StrOk(members[i].key) then Counted(members[i].value, depth) + KeyString(members[i].key) else []
  {
    hide StrOk;
    hide KeyString;
    assert members[..i + 1][..i] == members[..i];
  }

  // ---- the load, as it runs -------------------------------------------------------------

  /** The script memory a load works on. */
  class ScriptMemory {
    var live: nat
    var peak: nat
    var interned: seq<string>

    constructor ()
      ensures live == 0 && peak == 0 && interned == []
    {
      live, peak, interned := 0, 0, [];
    }

    /** Another variable is taken from the free list. */
    method TakeVariable()
      modifies this`live, this`peak
      ensures live == old(live) + 1
      ensures peak == if old(peak) > live then old(peak) else live
    {
      live := live + 1;
      if live > peak {
        peak := live;
      }
    }

    /** At no moment does a load hold more variables than were counted, and it ends with those of its value. */
    method Push(node: Json, depth: nat) returns (v: Value)
      modifies this
      ensures v == Pushed(node, depth)
      ensures live == old(live) + Variables(v)
      ensures interned == old(interned) + Interned(node, depth)
      ensures old(peak) <= peak <= Max(old(peak), old(live) + CostVars(node, depth))
      decreases node, 1
    {
      hide StrOk;
      if node.Null? || depth >= MAX_DEPTH {
        return Undefined;
      }
      match node
      case Bool(b) => v := Int(if b then 1 else 0);
      case Num(n) => v := if INT_MIN <= n <= INT_MAX then Int(n) else FloatOf(n as real);
      case Real(x) => v := FloatOf(x);
      case Str(s) =>
        if StrOk(s) {
          interned := interned + [s];
          v := Text(s);
        } else {
          v := Undefined;
        }
      case Arr(items) => v := PushArray(node, depth);
      case Obj(members) => v := PushObject(node, depth);
    }

    method PushArray(node: Json, depth: nat) returns (v: Value)
      requires node.Arr? && depth < MAX_DEPTH
      modifies this
      ensures v == Pushed(node, depth)
      ensures live == old(live) + Variables(v)
      ensures interned == old(interned) + Interned(node, depth)
      ensures old(peak) <= peak <= Max(old(peak), old(live) + CostVars(node, depth))
      decreases node, 0
    {
      hide Pushed;
      hide PushedItems;
      hide Interned;
      hide ItemsInterned;
      hide CostVars;
      hide ItemVars;
      hide Variables;
      hide RingVariables;
      var ring := [];
      ArrayCost(node.items, depth);
      ArrayLoad(node.items, depth);
      TakeVariable();
      for i := 0 to |node.items|
        invariant ring == PushedItems(node.items[..i], depth + 1)
        invariant live == old(live) + 1 + RingVariables(ring)
        invariant live <= old(live) + 1 + ItemVars(node.items[..i], depth + 1)
        invariant interned == old(interned) + ItemsInterned(node.items[..i], depth + 1)
        invariant old(peak) <= peak <= Max(old(peak), old(live) + 1 + ItemVars(node.items[..i], depth + 1))
      {
        NextItem(node.items, i, depth + 1);
        NextPushedItem(node.items, i, depth + 1);
        ring := PushItem(node.items[i], ring, i, depth + 1);
      }
      v := Array(ring);
    }

    method PushObject(node: Json, depth: nat) returns (v: Value)
      requires node.Obj? && depth < MAX_DEPTH
      modifies this
      ensures v == Pushed(node, depth)
      ensures live == old(live) + Variables(v)
      ensures interned == old(interned) + Interned(node, depth)
      ensures old(peak) <= peak <= Max(old(peak), old(live) + CostVars(node, depth))
      decreases node, 0
    {
      hide StrOk;
      hide KeyIndex;
      hide Pushed;
      hide PushedMembers;
      hide Interned;
      hide MembersInterned;
      hide CostVars;
      hide MemberVars;
      hide Variables;
      hide RingVariables;
      hide Without;
      var ring := [];
      ObjectCost(node.members, depth);
      ObjectLoad(node.members, depth);
      TakeVariable();
      for i := 0 to |node.members|
        invariant ring == PushedMembers(node.members[..i], depth + 1)
        invariant live == old(live) + 1 + RingVariables(ring)
        invariant live <= old(live) + 1 + MemberVars(node.members[..i], depth + 1)
        invariant interned == old(interned) + MembersInterned(node.members[..i], depth + 1)
        invariant old(peak) <= peak <= Max(old(peak), old(live) + 1 + MemberVars(node.members[..i], depth + 1))
      {
        NextMember(node.members, i, depth + 1);
        NextPushedMember(node.members, i, depth + 1);
        ring := PushMember(node.members[i], ring, depth + 1);
      }
      v := Array(ring);
    }

    /** One element at the end of a list. */
    method PushItem(item: Json, ring: seq<Entry>, k: nat, depth: nat) returns (after: seq<Entry>)
      modifies this
      ensures after == [Entry(Index(k), Pushed(item, depth))] + ring
      ensures live == old(live) + RingVariables(after) - RingVariables(ring)
      ensures RingVariables(after) <= RingVariables(ring) + 1 + CostVars(item, depth)
      ensures interned == old(interned) + Interned(item, depth)
      ensures old(peak) <= peak <= Max(old(peak), old(live) + 1 + CostVars(item, depth))
      decreases item, 2
    {
      hide Pushed;
      hide CostVars;
      hide Interned;
      var child := Push(item, depth);
      VariablesCounted(item, depth);
      TakeVariable();
      PutVariables(Entry(Index(k), child), ring);
      after := [Entry(Index(k), child)] + ring;
    }

    /** One member: its key is interned, an earlier member of that name goes, its value is loaded. */
    method PushMember(m: Member, ring: seq<Entry>, depth: nat) returns (after: seq<Entry>)
      requires live >= RingVariables(ring)
      modifies this
      ensures after == AddMember(ring, m.key, Pushed(m.value, depth))
      ensures live == old(live) + RingVariables(after) - RingVariables(ring)
      ensures RingVariables(after) <= RingVariables(ring) + if StrOk(m.key) then 1 + CostVars(m.value, depth) else 0
      ensures interned == old(interned) + if StrOk(m.key) then KeyString(m.key) + Interned(m.value, depth) else []
      ensures old(peak) <= peak <= Max(old(peak), old(live) + if StrOk(m.key) then 1 + CostVars(m.value, depth) else 0)
      decreases m, 2
    {
      hide StrOk;
      hide KeyIndex;
      hide Pushed;
      hide CostVars;
      hide Interned;
      hide Without;
      after := ring;
      if StrOk(m.key) {
        var name := NameOf(m.key);
        if name.Key? {
          interned := interned + [m.key];
        }
        WithoutVariables(ring, name);
        after := Without(ring, name);
        live := live - (RingVariables(ring) - RingVariables(after));
        var child := Push(m.value, depth);
        VariablesCounted(m.value, depth);
        TakeVariable();
        PutVariables(Entry(name, child), after);
        after := [Entry(name, child)] + after;
      }
    }
  }

  function Max(a: nat, b: nat): nat {
    if a > b then a else b
  }

  lemma ArrayLoad(items: seq<Json>, depth: nat)
    requires depth < MAX_DEPTH
    ensures PushedItems(items[..0], depth + 1) == [] && ItemsInterned(items[..0], depth + 1) == []
        && RingVariables([]) == 0
    ensures Pushed(Arr(items), depth) == Array(PushedItems(items, depth + 1))
    ensures Interned(Arr(items), depth) == ItemsInterned(items, depth + 1)
    ensures forall ring: seq<Entry> {:trigger RingVariables(ring)} :: Variables(Array(ring)) == 1 + RingVariables(ring)
  {
  }

  lemma ObjectLoad(members: seq<Member>, depth: nat)
    requires depth < MAX_DEPTH
    ensures PushedMembers(members[..0], depth + 1) == [] && MembersInterned(members[..0], depth + 1) == []
        && RingVariables([]) == 0
    ensures Pushed(Obj(members), depth) == Array(PushedMembers(members, depth + 1))
    ensures Interned(Obj(members), depth) == MembersInterned(members, depth + 1)
    ensures forall ring: seq<Entry> {:trigger RingVariables(ring)} :: Variables(Array(ring)) == 1 + RingVariables(ring)
  {
  }

  lemma NextPushedItem(items: seq<Json>, i: nat, depth: nat)
    requires i < |items|
    ensures PushedItems(items[..i + 1], depth) == [Entry(Index(i), Pushed(items[i], depth))]
        + PushedItems(items[..i], depth)
    ensures ItemsInterned(items[..i + 1], depth) == ItemsInterned(items[..i], depth) + Interned(items[i], depth)
  {
    assert items[..i + 1][..i] == items[..i];
  }

  lemma NextPushedMember(members: seq<Member>, i: nat, depth: nat)
    requires i < |members|
    ensures PushedMembers(members[..i + 1], depth) ==
            AddMember(PushedMembers(members[..i], depth), members[i].key, Pushed(members[i].value, depth))
    ensures MembersInterned(members[..i + 1], depth) ==
            MembersInterned(members[..i], depth) +
            if StrOk(members[i].key) then KeyString(members[i].key) + Interned(members[i].value, depth) else []
  {
    hide StrOk;
    hide KeyString;
    assert members[..i + 1][..i] == members[..i];
  }
}
