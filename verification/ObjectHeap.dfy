/** Objects and arrays in memory, and how an assignment to one of them changes the nested data it is part
    of. */
module ObjectHeap {
  import opened ObjectPath

  /** An object or an array. */
  class Node {
    const isArray: bool
    var fields: map<string, Ref>
    var items: seq<Ref>

    constructor (isArray: bool)
      ensures this.isArray == isArray && fields == map[] && items == []
    {
      this.isArray, fields, items := isArray, map[], [];
    }
  }

  datatype Ref = Atom(val: Val) | Link(node: Node)

  /** The shape of a piece of nested data: which node is where. */
  datatype Tree =
    | Leaf(val: Val)
    | Branch(node: Node, fields: map<string, Tree>, items: seq<Tree>)

  ghost function Nodes(t: Tree): set<Node> {
    match t
    case Leaf(_) => {}
    case Branch(node, fields, items) =>
      {node} + (set k, n | k in fields && n in Nodes(fields[k]) :: n)
             + (set i, n | 0 <= i < |items| && n in Nodes(items[i]) :: n)
  }

  ghost function Value(t: Tree): (v: Val)
    ensures t.Branch? ==> HasFields(v)
  {
    match t
    case Leaf(v) => v
    case Branch(node, fields, items) =>
      var fs := map k | k in fields :: Value(fields[k]);
      if node.isArray then Arr(seq(|items|, i requires 0 <= i < |items| => Value(items[i])), fs) else Obj(fs)
  }

  /** No node is in two places. */
  ghost predicate Separate(t: Tree) {
    match t
    case Leaf(v) => !HasFields(v)
    case Branch(node, fields, items) =>
      && (node.isArray || items == [])
      && (forall k <- fields :: Separate(fields[k]) && node !in Nodes(fields[k]))
      && (forall i :: 0 <= i < |items| ==> Separate(items[i]) && node !in Nodes(items[i]))
      && (forall k <- fields, l <- fields :: k != l ==> Nodes(fields[k]) !! Nodes(fields[l]))
      && (forall i, j :: 0 <= i < j < |items| ==> Nodes(items[i]) !! Nodes(items[j]))
      && (forall k <- fields, i :: 0 <= i < |items| ==> Nodes(fields[k]) !! Nodes(items[i]))
  }

  /** What the nodes contain. */
  datatype Cell = Cell(fields: map<string, Ref>, items: seq<Ref>)

  type Memory = map<Node, Cell>

  ghost function MemoryOf(nodes: set<Node>): Memory
    reads nodes
  {
    map n | n in nodes :: Cell(n.fields, n.items)
  }

  /** In this memory there is data of this shape behind r. */
  ghost predicate Holds(m: Memory, r: Ref, t: Tree)
    decreases t
  {
    match t
    case Leaf(v) => r == Atom(v)
    case Branch(node, fields, items) =>
      && r == Link(node) && node in m
      && m[node].fields.Keys == fields.Keys
      && (forall k <- fields :: Holds(m, m[node].fields[k], fields[k]))
      && |m[node].items| == |items|
      && (forall i :: 0 <= i < |items| ==> Holds(m, m[node].items[i], items[i]))
  }

  ghost predicate Agree(m: Memory, m': Memory, nodes: set<Node>) {
    forall n <- nodes :: n in m && n in m' && m[n] == m'[n]
  }

  lemma {:induction false} HoldsCovers(m: Memory, r: Ref, t: Tree)
    requires Holds(m, r, t)
    ensures Nodes(t) <= m.Keys
    decreases t
  {
    if t.Branch? {
      forall k <- t.fields ensures Nodes(t.fields[k]) <= m.Keys { HoldsCovers(m, m[t.node].fields[k], t.fields[k]); }
      forall i | 0 <= i < |t.items| ensures Nodes(t.items[i]) <= m.Keys {
        HoldsCovers(m, m[t.node].items[i], t.items[i]);
      }
    }
  }

  lemma {:induction false} HoldsElsewhere(m: Memory, m': Memory, r: Ref, t: Tree)
    requires Holds(m, r, t) && Agree(m, m', Nodes(t))
    ensures Holds(m', r, t)
    decreases t
  {
    if t.Branch? {
      forall k <- t.fields ensures Holds(m', m[t.node].fields[k], t.fields[k]) {
        HoldsElsewhere(m, m', m[t.node].fields[k], t.fields[k]);
      }
      forall i | 0 <= i < |t.items| ensures Holds(m', m[t.node].items[i], t.items[i]) {
        HoldsElsewhere(m, m', m[t.node].items[i], t.items[i]);
      }
    }
  }

  lemma KidNodes(t: Tree)
    requires t.Branch? && Separate(t)
    ensures forall k <- t.fields :: Nodes(t.fields[k]) <= Nodes(t) - {t.node}
    ensures forall i :: 0 <= i < |t.items| ==> Nodes(t.items[i]) <= Nodes(t) - {t.node}
  { }

  // ---------------------------------------------------------------- one field of a node

  ghost function WithField(b: Tree, name: string, c: Tree): Tree
    requires b.Branch?
  {
    b.(fields := b.fields[name := c])
  }

  lemma FieldSeparate(b: Tree, name: string, c: Tree)
    requires b.Branch? && Separate(b) && Separate(c)
    requires forall n :: n in Nodes(c) && n in Nodes(b) ==> name in b.fields && n in Nodes(b.fields[name])
    ensures Separate(WithField(b, name, c)) && Nodes(WithField(b, name, c)) <= Nodes(b) + Nodes(c)
  {
    var w := WithField(b, name, c);
    assert forall k <- b.fields :: Nodes(b.fields[k]) <= Nodes(b);
    assert forall i :: 0 <= i < |b.items| ==> Nodes(b.items[i]) <= Nodes(b);
    assert b.node in Nodes(b);
    forall k <- w.fields ensures Separate(w.fields[k]) && w.node !in Nodes(w.fields[k]) { }
    forall k <- w.fields, l <- w.fields | k != l ensures Nodes(w.fields[k]) !! Nodes(w.fields[l]) { }
    forall k <- w.fields, i | 0 <= i < |w.items| ensures Nodes(w.fields[k]) !! Nodes(w.items[i]) { }
  }

  lemma FieldValue(b: Tree, name: string, c: Tree)
    requires b.Branch? && HasFields(Value(b))
    ensures Value(WithField(b, name, c)) == Store(Value(b), name, Value(c))
  {
    assert (map k | k in WithField(b, name, c).fields :: Value(WithField(b, name, c).fields[k]))
      == (map k | k in b.fields :: Value(b.fields[k]))[name := Value(c)];
  }

  // ---------------------------------------------------------------- a node further down

  ghost predicate Reaches(t: Tree, names: seq<string>)
    decreases |names|
  {
    names == [] || (t.Branch? && names[0] in t.fields && Reaches(t.fields[names[0]], names[1..]))
  }

  ghost function SubTree(t: Tree, names: seq<string>): Tree
    requires Reaches(t, names)
    decreases |names|
  {
    if names == [] then t else SubTree(t.fields[names[0]], names[1..])
  }

  ghost function Replace(t: Tree, names: seq<string>, s: Tree): Tree
    requires Reaches(t, names)
    decreases |names|
  {
    if names == [] then s else WithField(t, names[0], Replace(t.fields[names[0]], names[1..], s))
  }

  function RefOf(t: Tree): Ref {
    match t
    case Leaf(v) => Atom(v)
    case Branch(node, _, _) => Link(node)
  }

  lemma {:induction false} SubTreeHolds(m: Memory, root: Ref, t: Tree, names: seq<string>)
    requires Reaches(t, names) && Holds(m, root, t)
    ensures Holds(m, RefOf(SubTree(t, names)), SubTree(t, names))
    decreases |names|
  {
    if names != [] { SubTreeHolds(m, m[t.node].fields[names[0]], t.fields[names[0]], names[1..]); }
  }

  lemma {:induction false} SubTreeReplace(t: Tree, names: seq<string>, s: Tree)
    requires Reaches(t, names)
    ensures Reaches(Replace(t, names, s), names) && SubTree(Replace(t, names, s), names) == s
    ensures Replace(t, names, SubTree(t, names)) == t
    decreases |names|
  {
    if names != [] {
      var c := t.fields[names[0]];
      SubTreeReplace(c, names[1..], s);
      assert t.fields[names[0] := c] == t.fields;
    }
  }

  lemma {:induction false} SubTreeBelow(t: Tree, names: seq<string>, name: string)
    requires Reaches(t, names) && SubTree(t, names).Branch? && name in SubTree(t, names).fields
    ensures Reaches(t, names + [name]) && SubTree(t, names + [name]) == SubTree(t, names).fields[name]
    decreases |names|
  {
    if names == [] {
      assert ([name])[1..] == [];
    } else {
      assert (names + [name])[1..] == names[1..] + [name];
      SubTreeBelow(t.fields[names[0]], names[1..], name);
    }
  }

  lemma {:induction false} SubTreeNodes(t: Tree, names: seq<string>)
    requires Reaches(t, names)
    ensures Nodes(SubTree(t, names)) <= Nodes(t) && (Separate(t) ==> Separate(SubTree(t, names)))
    decreases |names|
  {
    if names != [] { SubTreeNodes(t.fields[names[0]], names[1..]); }
  }

  /** The nodes that the new part may have: those of the old part, and new ones. */
  ghost predicate MayReplace(t: Tree, names: seq<string>, s: Tree)
    requires Reaches(t, names)
  {
    forall n :: n in Nodes(s) && n in Nodes(t) ==> n in Nodes(SubTree(t, names))
  }

  lemma {:induction false} ReplaceSeparate(t: Tree, names: seq<string>, s: Tree)
    requires Reaches(t, names) && Separate(t) && Separate(s) && MayReplace(t, names, s)
    ensures Separate(Replace(t, names, s)) && Nodes(Replace(t, names, s)) <= Nodes(t) + Nodes(s)
    decreases |names|
  {
    if names != [] {
      var c := t.fields[names[0]];
      ReplaceSeparate(c, names[1..], s);
      SubTreeNodes(c, names[1..]);
      FieldSeparate(t, names[0], Replace(c, names[1..], s));
    }
  }

  lemma OthersHold(m: Memory, m': Memory, t: Tree, name: string)
    requires t.Branch? && Separate(t) && Holds(m, Link(t.node), t) && name in t.fields
    requires Agree(m, m', Nodes(t) - Nodes(t.fields[name]))
    ensures t.node in m' && m'[t.node] == m[t.node]
    ensures forall k <- t.fields :: k != name ==> Holds(m', m[t.node].fields[k], t.fields[k])
    ensures forall i :: 0 <= i < |t.items| ==> Holds(m', m[t.node].items[i], t.items[i])
  {
    KidNodes(t);
    forall k <- t.fields | k != name ensures Holds(m', m[t.node].fields[k], t.fields[k]) {
      HoldsElsewhere(m, m', m[t.node].fields[k], t.fields[k]);
    }
    forall i | 0 <= i < |t.items| ensures Holds(m', m[t.node].items[i], t.items[i]) {
      HoldsElsewhere(m, m', m[t.node].items[i], t.items[i]);
    }
  }

  lemma KidReplaced(m: Memory, m': Memory, t: Tree, name: string, c: Tree)
    requires t.Branch? && Separate(t) && Holds(m, Link(t.node), t) && name in t.fields
    requires Agree(m, m', Nodes(t) - Nodes(t.fields[name])) && Holds(m', m[t.node].fields[name], c)
    ensures Holds(m', Link(t.node), WithField(t, name, c))
  {
    var cell := m[t.node];
    OthersHold(m, m', t, name);
    NodeHolds(m', t, cell, name, c);
  }

  lemma NodeHolds(m: Memory, t: Tree, cell: Cell, name: string, c: Tree)
    requires t.Branch? && t.node in m && m[t.node] == cell && name in t.fields && cell.fields.Keys == t.fields.Keys
    requires |cell.items| == |t.items| && forall i :: 0 <= i < |t.items| ==> Holds(m, cell.items[i], t.items[i])
    requires forall k <- t.fields :: k != name ==> Holds(m, cell.fields[k], t.fields[k])
    requires Holds(m, cell.fields[name], c)
    ensures Holds(m, Link(t.node), WithField(t, name, c))
  {
    assert WithField(t, name, c).fields.Keys == t.fields.Keys;
  }

  /** The nodes of the part were changed, and nothing else. */
  lemma {:induction false} ReplaceHolds(m: Memory, m': Memory, root: Ref, t: Tree, names: seq<string>, s: Tree)
    requires Reaches(t, names) && Separate(t) && Holds(m, root, t)
    requires s.Branch? && SubTree(t, names).Branch? && s.node == SubTree(t, names).node && Holds(m', Link(s.node), s)
    requires Agree(m, m', Nodes(t) - Nodes(SubTree(t, names)))
    ensures Holds(m', root, Replace(t, names, s))
    decreases |names|
  {
    if names != [] {
      var c := t.fields[names[0]];
      SubTreeNodes(c, names[1..]);
      assert Nodes(c) <= Nodes(t);
      ReplaceHolds(m, m', m[t.node].fields[names[0]], c, names[1..], s);
      KidReplaced(m, m', t, names[0], Replace(c, names[1..], s));
    }
  }

  // ---------------------------------------------------------------- what a write at a part means for the whole

  /** The value of the whole when the part at the end of the names has become y. */
  ghost function Plug(d: Val, names: seq<string>, y: Val): Val
    decreases |names|
  {
    if names == [] then y
    else if HasFields(d) then Store(d, names[0], Plug(Prop(d, names[0]), names[1..], y))
    else d
  }

  lemma {:induction false} PlugValue(t: Tree, names: seq<string>, s: Tree)
    requires Reaches(t, names)
    ensures Value(Replace(t, names, s)) == Plug(Value(t), names, Value(s))
    decreases |names|
  {
    if names != [] {
      PlugValue(t.fields[names[0]], names[1..], s);
      FieldValue(t, names[0], Replace(t.fields[names[0]], names[1..], s));
    }
  }

  lemma {:induction false} PlugTwice(d: Val, names: seq<string>, x: Val, name: string, y: Val)
    requires HasFields(x)
    ensures Plug(Plug(d, names, x), names + [name], y) == Plug(d, names, Store(x, name, y))
    decreases |names|
  {
    if names == [] {
    } else if HasFields(d) {
      assert (names + [name])[1..] == names[1..] + [name];
      PlugTwice(Prop(d, names[0]), names[1..], x, name, y);
      var fields := d.fields[names[0] := Plug(Prop(d, names[0]), names[1..], x)];
      var z := Plug(Prop(d, names[0]), names[1..], Store(x, name, y));
      assert fields[names[0] := z] == d.fields[names[0] := z];
    }
  }

  // ---------------------------------------------------------------- assignments

  /** There is data of this shape behind r. */
  ghost predicate Represents(r: Ref, t: Tree)
    reads Nodes(t)
  {
    Separate(t) && Holds(MemoryOf(Nodes(t)), r, t)
  }

  lemma PartRepresented(r: Ref, t: Tree, s: Tree, part: Ref)
    requires Represents(r, t) && Separate(s) && Nodes(s) <= Nodes(t) && Holds(MemoryOf(Nodes(t)), part, s)
    ensures Represents(part, s)
  {
    HoldsElsewhere(MemoryOf(Nodes(t)), MemoryOf(Nodes(s)), part, s);
  }

  lemma FieldHolds(m: Memory, m': Memory, b: Tree, name: string, r: Ref, c: Tree)
    requires b.Branch? && Separate(b) && Holds(m, Link(b.node), b) && Holds(m', r, c)
    requires Agree(m, m', Nodes(b) - {b.node})
    requires b.node in m' && m'[b.node] == m[b.node].(fields := m[b.node].fields[name := r])
    ensures Holds(m', Link(b.node), WithField(b, name, c))
  {
    KidNodes(b);
    forall k <- b.fields | k != name ensures Holds(m', m[b.node].fields[k], b.fields[k]) {
      HoldsElsewhere(m, m', m[b.node].fields[k], b.fields[k]);
    }
    forall i | 0 <= i < |b.items| ensures Holds(m', m[b.node].items[i], b.items[i]) {
      HoldsElsewhere(m, m', m[b.node].items[i], b.items[i]);
    }
  }

  lemma FieldAssigned(m: Memory, m': Memory, root: Ref, t: Tree, names: seq<string>, name: string, r: Ref, c: Tree)
    requires Separate(t) && Holds(m, root, t) && Reaches(t, names) && SubTree(t, names).Branch?
    requires Separate(c) && Holds(m, r, c) && Nodes(c) !! Nodes(t)
    requires var n := SubTree(t, names).node; n in m && m' == m[n := m[n].(fields := m[n].fields[name := r])]
    ensures var t' := Replace(t, names, WithField(SubTree(t, names), name, c));
            Separate(t') && Holds(m', root, t') && Nodes(t') <= Nodes(t) + Nodes(c)
  {
    var b := SubTree(t, names);
    HoldsCovers(m, root, t);
    HoldsCovers(m, r, c);
    SubTreeNodes(t, names);
    SubTreeHolds(m, root, t, names);
    HoldsElsewhere(m, m', r, c);
    FieldSeparate(b, name, c);
    FieldHolds(m, m', b, name, r, c);
    ReplaceSeparate(t, names, WithField(b, name, c));
    ReplaceHolds(m, m', root, t, names, WithField(b, name, c));
  }

  lemma PartNode(t: Tree, names: seq<string>)
    requires Reaches(t, names) && SubTree(t, names).Branch?
    ensures SubTree(t, names).node in Nodes(t)
  {
    SubTreeNodes(t, names);
  }

  /** The memory at this moment. */
  lemma Snapshot(nodes: set<Node>) returns (m: Memory)
    ensures m.Keys == nodes && IsNow(m, nodes)
  {
    m := MemoryOf(nodes);
  }

  ghost predicate IsNow(m: Memory, nodes: set<Node>)
    reads nodes
  {
    forall n <- nodes :: n in m && m[n].fields == n.fields && m[n].items == n.items
  }

  lemma FromMemory(m: Memory, r: Ref, t: Tree)
    requires Separate(t) && Holds(m, r, t) && IsNow(m, Nodes(t))
    ensures Represents(r, t)
  {
    HoldsElsewhere(m, MemoryOf(Nodes(t)), r, t);
  }

  lemma ToMemory(m: Memory, r: Ref, t: Tree)
    requires Represents(r, t) && IsNow(m, Nodes(t))
    ensures Separate(t) && Holds(m, r, t)
  {
    HoldsElsewhere(MemoryOf(Nodes(t)), m, r, t);
  }

  // ---------------------------------------------------------------- adding to arrays

  ghost function ListTree(list: Node, trees: seq<Tree>): Tree {
    Branch(list, map[], trees)
  }

  lemma PushNodes(list: Node, trees: seq<Tree>, c: Tree)
    ensures Nodes(ListTree(list, trees + [c])) == Nodes(ListTree(list, trees)) + Nodes(c)
  {
    var t, t' := ListTree(list, trees), ListTree(list, trees + [c]);
    assert t'.items[|trees|] == c;
    assert forall i :: 0 <= i < |trees| ==> t'.items[i] == t.items[i];
    ItemNodes(t);
    ItemNodes(t');
  }

  lemma ItemNodes(t: Tree)
    requires t.Branch? && t.fields == map[]
    ensures forall n :: n in Nodes(t) <==> n == t.node || exists i :: 0 <= i < |t.items| && n in Nodes(t.items[i])
    ensures forall i :: 0 <= i < |t.items| ==> Nodes(t.items[i]) <= Nodes(t)
  { }

  lemma PushSeparate(list: Node, trees: seq<Tree>, c: Tree)
    requires Separate(ListTree(list, trees)) && list.isArray && Separate(c) && Nodes(c) !! Nodes(ListTree(list, trees))
    ensures Separate(ListTree(list, trees + [c]))
  {
    var t, t' := ListTree(list, trees), ListTree(list, trees + [c]);
    KidNodes(t);
    assert list in Nodes(t);
    forall i | 0 <= i < |t'.items| ensures Separate(t'.items[i]) && list !in Nodes(t'.items[i]) {
      assert i < |trees| ==> t'.items[i] == t.items[i];
    }
    forall i, j | 0 <= i < j < |t'.items| ensures Nodes(t'.items[i]) !! Nodes(t'.items[j]) {
      if j < |trees| { assert Nodes(t.items[i]) !! Nodes(t.items[j]); }
    }
  }

  lemma PushHolds(m: Memory, m': Memory, list: Node, trees: seq<Tree>, r: Ref, c: Tree)
    requires Separate(ListTree(list, trees)) && Holds(m, Link(list), ListTree(list, trees)) && Holds(m', r, c)
    requires Agree(m, m', Nodes(ListTree(list, trees)) - {list})
    requires list in m' && m'[list] == m[list].(items := m[list].items + [r])
    ensures Holds(m', Link(list), ListTree(list, trees + [c]))
  {
    var t := ListTree(list, trees);
    forall i | 0 <= i < |trees| ensures Holds(m', m[list].items[i], trees[i]) {
      assert trees[i] == t.items[i] && Nodes(t.items[i]) <= Nodes(t) - {list};
      HoldsElsewhere(m, m', m[list].items[i], trees[i]);
    }
  }

  lemma Pushed(m: Memory, m': Memory, list: Node, trees: seq<Tree>, r: Ref, c: Tree)
    requires Separate(ListTree(list, trees)) && list.isArray && Holds(m, Link(list), ListTree(list, trees))
    requires Separate(c) && Holds(m, r, c) && Nodes(c) !! Nodes(ListTree(list, trees))
    requires list in m && m' == m[list := m[list].(items := m[list].items + [r])]
    ensures var t' := ListTree(list, trees + [c]);
            Separate(t') && Holds(m', Link(list), t') && Nodes(t') == Nodes(ListTree(list, trees)) + Nodes(c)
  {
    HoldsCovers(m, r, c);
    HoldsCovers(m, Link(list), ListTree(list, trees));
    assert list in Nodes(ListTree(list, trees));
    HoldsElsewhere(m, m', r, c);
    PushSeparate(list, trees, c);
    PushNodes(list, trees, c);
    PushHolds(m, m', list, trees, r, c);
  }
}
