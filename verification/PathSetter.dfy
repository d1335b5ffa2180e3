/** The path setter, which updates nested data in place. The ghost arguments are the shape of the data
    and of the value, and the names that lead to the part at hand. */
module PathSetter {
  import opened Wrappers
  import opened ObjectPath
  import opened ObjectHeap

  /** The assignment itself, and the memory after it. */
  method Assign(data: Node, name: string, r: Ref, ghost m: Memory, ghost nodes: set<Node>) returns (ghost m': Memory)
    requires IsNow(m, nodes) && data in nodes
    modifies data
    ensures data.fields == old(data.fields)[name := r] && data.items == old(data.items)
    ensures m' == m[data := m[data].(fields := m[data].fields[name := r])] && IsNow(m', nodes)
  {
    data.fields := data.fields[name := r];
    m' := m[data := m[data].(fields := m[data].fields[name := r])];
  }

  method Append(list: Node, r: Ref, ghost m: Memory, ghost nodes: set<Node>) returns (ghost m': Memory)
    requires IsNow(m, nodes) && list in nodes
    modifies list
    ensures list.items == old(list.items) + [r] && list.fields == old(list.fields)
    ensures m' == m[list := m[list].(items := m[list].items + [r])] && IsNow(m', nodes)
  {
    list.items := list.items + [r];
    m' := m[list := m[list].(items := m[list].items + [r])];
  }

  /** Assigns a property of an object somewhere in the data. */
  method SetField(data: Node, name: string, r: Ref, root: Ref, ghost t: Tree, ghost names: seq<string>, ghost c: Tree)
      returns (ghost t': Tree)
    requires Represents(root, t) && Represents(r, c) && Nodes(c) !! Nodes(t)
    requires Reaches(t, names) && SubTree(t, names).Branch? && SubTree(t, names).node == data
    modifies data
    ensures data.fields == old(data.fields)[name := r] && data.items == old(data.items)
    ensures t' == Replace(t, names, WithField(SubTree(t, names), name, c))
    ensures Represents(root, t') && Nodes(t') <= Nodes(t) + Nodes(c)
  {
    ghost var m := Snapshot(Nodes(t) + Nodes(c));
    ToMemory(m, root, t);
    ToMemory(m, r, c);
    PartNode(t, names);
    ghost var m' := Assign(data, name, r, m, Nodes(t) + Nodes(c));
    FieldAssigned(m, m', root, t, names, name, r, c);
    t' := Replace(t, names, WithField(SubTree(t, names), name, c));
    FromMemory(m', root, t');
  }

  /** Adds an entry at the end of an array. */
  method Push(list: Node, r: Ref, ghost trees: seq<Tree>, ghost c: Tree)
    requires list.isArray && Represents(Link(list), ListTree(list, trees))
    requires Represents(r, c) && Nodes(c) !! Nodes(ListTree(list, trees))
    modifies list
    ensures list.items == old(list.items) + [r] && list.fields == old(list.fields)
    ensures Represents(Link(list), ListTree(list, trees + [c]))
    ensures Nodes(ListTree(list, trees + [c])) == Nodes(ListTree(list, trees)) + Nodes(c)
  {
    ghost var t := ListTree(list, trees);
    ghost var m := Snapshot(Nodes(t) + Nodes(c));
    ToMemory(m, Link(list), t);
    ToMemory(m, r, c);
    assert list in Nodes(t);
    ghost var m' := Append(list, r, m, Nodes(t) + Nodes(c));
    Pushed(m, m', list, trees, r, c);
    FromMemory(m', Link(list), ListTree(list, trees + [c]));
  }

  // ---------------------------------------------------------------- the steps of the setter

  predicate IsMissing(r: Ref) {
    r.Atom? && Missing(r.val)
  }

  /** Data is the part of the whole at the end of the names. */
  ghost predicate Below(root: Ref, t: Tree, names: seq<string>, data: Ref)
    reads Nodes(t)
  {
    Represents(root, t) && Reaches(t, names) && data == RefOf(SubTree(t, names))
  }

  ghost function Part(t: Tree, names: seq<string>): Val
    requires Reaches(t, names)
  {
    Value(SubTree(t, names))
  }

  /** The fields seen on the node are those of the part. */
  lemma Seen(root: Ref, t: Tree, names: seq<string>, data: Ref)
    requires Below(root, t, names, data)
    ensures data.Link? <==> HasFields(Part(t, names))
    ensures data.Link? ==> data.node in Nodes(t) && SubTree(t, names).Branch? && SubTree(t, names).node == data.node
    ensures data.Link? ==> data.node.fields.Keys == SubTree(t, names).fields.Keys
    ensures data.Link? ==> forall k <- data.node.fields :: data.node.fields[k] == RefOf(SubTree(t, names).fields[k])
  {
    SubTreeNodes(t, names);
    SubTreeHolds(MemoryOf(Nodes(t)), root, t, names);
  }

  lemma MissingSeen(t: Tree)
    requires Separate(t)
    ensures IsMissing(RefOf(t)) <==> Missing(Value(t))
  { }

  lemma PlugField(t: Tree, names: seq<string>, name: string, c: Tree)
    requires Reaches(t, names) && SubTree(t, names).Branch?
    ensures var t' := Replace(t, names, WithField(SubTree(t, names), name, c));
            && Reaches(t', names + [name]) && SubTree(t', names + [name]) == c
            && Value(t') == Plug(Value(t), names, Store(Part(t, names), name, Value(c)))
  {
    var b := SubTree(t, names);
    var s := WithField(b, name, c);
    SubTreeReplace(t, names, s);
    SubTreeBelow(Replace(t, names, s), names, name);
    PlugValue(t, names, s);
    FieldValue(b, name, c);
  }

  lemma EmptyNode(o: Node)
    requires o.fields == map[] && o.items == []
    ensures Represents(Link(o), Branch(o, map[], [])) && Nodes(Branch(o, map[], [])) == {o}
    ensures Value(Branch(o, map[], [])) == if o.isArray then Arr([], map[]) else Obj(map[])
  { }

  lemma PresentValue(t: Tree, names: seq<string>, name: string)
    requires Reaches(t, names) && SubTree(t, names).Branch? && name in SubTree(t, names).fields
    requires !Missing(Value(SubTree(t, names).fields[name]))
    ensures var x := Value(SubTree(t, names).fields[name]);
            Inner(Part(t, names), name) == x && Value(t) == Plug(Value(t), names, Store(Part(t, names), name, x))
  {
    SubTreeReplace(t, names, SubTree(t, names));
    PlugValue(t, names, SubTree(t, names));
    var part := Part(t, names);
    assert part.fields[name := part.fields[name]] == part.fields;
  }

  /** The property is there. */
  lemma Present(root: Ref, t: Tree, names: seq<string>, data: Node, name: string)
    requires Below(root, t, names, Link(data)) && name in data.fields && !IsMissing(data.fields[name])
    ensures Below(root, t, names + [name], data.fields[name]) && HasFields(Part(t, names))
    ensures Part(t, names + [name]) == Inner(Part(t, names), name)
    ensures Value(t) == Plug(Value(t), names, Store(Part(t, names), name, Part(t, names + [name])))
  {
    Seen(root, t, names, Link(data));
    SubTreeNodes(t, names);
    SubTreeBelow(t, names, name);
    MissingSeen(SubTree(t, names).fields[name]);
    PresentValue(t, names, name);
  }

  /** A new object or array is assigned to a property. */
  method Create(data: Node, name: string, isArray: bool, root: Ref, ghost t: Tree, ghost names: seq<string>)
      returns (o: Node, ghost t': Tree)
    requires Below(root, t, names, Link(data))
    modifies data
    ensures fresh(o) && o.isArray == isArray && o.fields == map[] && o.items == []
    ensures data.fields == old(data.fields)[name := Link(o)]
    ensures HasFields(Part(t, names)) && Below(root, t', names + [name], Link(o))
    ensures SubTree(t', names + [name]) == Branch(o, map[], [])
    ensures Value(t') == Plug(Value(t), names, Store(Part(t, names), name, Value(Branch(o, map[], []))))
    ensures forall n <- Nodes(t') :: n in Nodes(t) || fresh(n)
  {
    Seen(root, t, names, Link(data));
    ghost var before := Nodes(t);
    assert allocated(before);
    o := new Node(isArray);
    EmptyNode(o);
    ghost var c := Branch(o, map[], []);
    assert o !in before;
    t' := SetField(data, name, Link(o), root, t, names, c);
    PlugField(t, names, name, c);
  }

  /** The object under a name, created when it is missing. */
  method Descend(data: Node, name: string, root: Ref, ghost t: Tree, ghost names: seq<string>)
      returns (child: Ref, ghost t': Tree)
    requires Below(root, t, names, Link(data))
    modifies data
    ensures Below(root, t', names + [name], child) && HasFields(Part(t, names))
    ensures Part(t', names + [name]) == Inner(Part(t, names), name)
    ensures Value(t') == Plug(Value(t), names, Store(Part(t, names), name, Part(t', names + [name])))
    ensures forall n <- Nodes(t') :: n in Nodes(t) || fresh(n)
  {
    Seen(root, t, names, Link(data));
    if name !in data.fields || IsMissing(data.fields[name]) {
      Absent(root, t, names, data, name);
      var o;
      o, t' := Create(data, name, false, root, t, names);
    } else {
      Present(root, t, names, data, name);
      t' := t;
    }
    child := data.fields[name];
  }

  lemma Absent(root: Ref, t: Tree, names: seq<string>, data: Node, name: string)
    requires Below(root, t, names, Link(data)) && (name !in data.fields || IsMissing(data.fields[name]))
    ensures Inner(Part(t, names), name) == Obj(map[])
  {
    Seen(root, t, names, Link(data));
    SubTreeNodes(t, names);
    if name in data.fields { MissingSeen(SubTree(t, names).fields[name]); }
  }

  // ---------------------------------------------------------------- arrays

  ghost function Values(trees: seq<Tree>): seq<Val> {
    seq(|trees|, i requires 0 <= i < |trees| => Value(trees[i]))
  }

  lemma ValuesPush(trees: seq<Tree>, c: Tree)
    ensures Values(trees + [c]) == Values(trees) + [Value(c)]
  { }

  ghost function NodesOf(trees: seq<Tree>): set<Node> {
    set i, n | 0 <= i < |trees| && n in Nodes(trees[i]) :: n
  }

  ghost predicate IsList(list: Node, t: Tree)
    reads Nodes(t)
  {
    Represents(Link(list), t) && list.isArray && t.Branch? && t.node == list && t.fields == map[]
  }

  ghost function ItemTrees(t: Tree): seq<Tree> {
    if t.Branch? then t.items else []
  }

  /** A new object, filled from one entry of the value. */
  method NewEntry(item: Ref, path: Path, ghost vt: Tree) returns (ok: bool, o: Node, ghost c: Tree)
    requires path != [] && Represents(item, vt)
    ensures ok == Put(Obj(map[]), path, Value(vt)).Ok?
    ensures ok ==> Represents(Link(o), c) && Value(c) == Put(Obj(map[]), path, Value(vt)).value
    ensures ok ==> forall n <- Nodes(c) :: n in Nodes(vt) || fresh(n)
    decreases |path|, 1
  {
    ghost var theirs := Nodes(vt);
    assert allocated(theirs);
    o := new Node(false);
    EmptyNode(o);
    ok, c := SetData(Link(o), path, item, Branch(o, map[], []), vt);
  }

  /** It is added to the array. */
  method AddEntry(list: Node, item: Ref, path: Path, ghost t: Tree, ghost vt: Tree) returns (ok: bool, ghost t': Tree)
    requires path != [] && IsList(list, t)
    requires Represents(item, vt) && Nodes(vt) !! Nodes(t)
    modifies list
    ensures ok == Put(Obj(map[]), path, Value(vt)).Ok?
    ensures ok ==> IsList(list, t')
    ensures ok ==> Values(ItemTrees(t')) == Values(ItemTrees(t)) + [Put(Obj(map[]), path, Value(vt)).value]
    ensures ok ==> forall n <- Nodes(t') :: n in Nodes(t) || n in Nodes(vt) || fresh(n)
    decreases |path|, 2
  {
    ghost var mine := Nodes(t);
    assert allocated(mine);
    t' := t;
    var o;
    ghost var c;
    ok, o, c := NewEntry(item, path, vt);
    if ok {
      assert Nodes(c) !! mine;
      Push(list, Link(o), t.items, c);
      ValuesPush(t.items, c);
      t' := ListTree(list, t.items + [c]);
    }
  }

  /** The entries that are done, and those that come. */
  ghost function After(done: seq<Val>, rest: Result<seq<Val>, Error>): Result<seq<Val>, Error> {
    if rest.Ok? then Ok(done + rest.value) else rest
  }

  lemma AfterNone(values: seq<Val>, path: Path)
    requires path != []
    ensures PutAll(values, path) == After(Values([]), PutAll(values[0..], path))
  {
    assert values[0..] == values;
    assert Values([]) == [];
    assert forall r: seq<Val> :: [] + r == r;
  }

  lemma AfterNext(values: seq<Val>, j: nat, path: Path, done: seq<Val>)
    requires path != [] && j < |values|
    ensures var r := Put(Obj(map[]), path, values[j]);
            After(done, PutAll(values[j..], path)) ==
            if r.Ok? then After(done + [r.value], PutAll(values[j + 1..], path)) else Err(TypeError)
  {
    assert values[j..][1..] == values[j + 1..];
    var r, rest := Put(Obj(map[]), path, values[j]), PutAll(values[j + 1..], path);
    if r.Ok? && rest.Ok? {
      assert done + ([r.value] + rest.value) == done + [r.value] + rest.value;
    }
  }

  lemma NodesOfNext(vts: seq<Tree>, j: nat)
    requires j < |vts|
    ensures NodesOf(vts[..j + 1]) == NodesOf(vts[..j]) + Nodes(vts[j])
    ensures NodesOf(vts[..j]) <= NodesOf(vts) && Nodes(vts[j]) <= NodesOf(vts)
  {
    forall n | n in Nodes(vts[j]) ensures n in NodesOf(vts[..j + 1]) { assert n in Nodes(vts[..j + 1][j]); }
    forall n | n in NodesOf(vts[..j]) ensures n in NodesOf(vts[..j + 1]) && n in NodesOf(vts) {
      var i :| 0 <= i < j && n in Nodes(vts[..j][i]);
      assert n in Nodes(vts[..j + 1][i]) && n in Nodes(vts[i]);
    }
    forall n | n in NodesOf(vts[..j + 1]) ensures n in NodesOf(vts[..j]) || n in Nodes(vts[j]) {
      var i :| 0 <= i < j + 1 && n in Nodes(vts[..j + 1][i]);
      if i < j { assert n in Nodes(vts[..j][i]); }
    }
  }

  lemma EntryAt(val: Node, vt: Tree, j: nat)
    requires Represents(Link(val), vt) && j < |val.items|
    ensures vt.Branch? && vt.node == val && |vt.items| == |val.items|
    ensures Represents(val.items[j], vt.items[j])
    ensures Nodes(vt.items[j]) !! NodesOf(vt.items[..j])
    ensures Nodes(vt.items[j]) <= Nodes(vt)
  {
    var part := vt.items[j];
    assert Nodes(part) <= Nodes(vt);
    PartRepresented(Link(val), vt, part, val.items[j]);
    forall n | n in Nodes(part) ensures n !in NodesOf(vt.items[..j]) {
      assert forall i :: 0 <= i < j ==> Nodes(vt.items[..j][i]) !! Nodes(part);
    }
  }

  lemma ItemsSeen(val: Ref, vt: Tree)
    requires Represents(val, vt)
    ensures IsMissing(val) <==> Missing(Value(vt))
    ensures ItemsOf(Value(vt)) == if val.Link? && val.node.isArray then Values(ItemTrees(vt)) else []
    ensures val.Link? ==> |val.node.items| == |ItemTrees(vt)|
  { }

  /** Fills an empty array with one new object for each entry of the value; anything but an array has
      no length and so no entries. */
  method SetEntries(list: Node, val: Ref, path: Path, ghost vt: Tree) returns (ok: bool, ghost t: Tree)
    requires path != [] && list.isArray && list.fields == map[] && list.items == []
    requires Represents(val, vt) && list !in Nodes(vt)
    modifies list
    ensures ok == PutAll(ItemsOf(Value(vt)), path).Ok?
    ensures ok ==> IsList(list, t) && Values(ItemTrees(t)) == PutAll(ItemsOf(Value(vt)), path).value
    ensures ok ==> forall n <- Nodes(t) :: n == list || n in Nodes(vt) || fresh(n)
    decreases |path|, 3
  {
    t := ListTree(list, []);
    EmptyNode(list);
    ItemsSeen(val, vt);
    if val.Atom? || !val.node.isArray { return true, t; }
    ghost var vts := ItemTrees(vt);
    ghost var values, theirs := Values(vts), Nodes(vt);
    assert allocated(theirs) && val.node in theirs;
    AfterNone(values, path);
    for j := 0 to |val.node.items|
      invariant IsList(list, t)
      invariant forall n <- Nodes(t) :: n == list || n in NodesOf(vts[..j]) || fresh(n)
      invariant PutAll(values, path) == After(Values(ItemTrees(t)), PutAll(values[j..], path))
    {
      EntryAt(val.node, vt, j);
      NodesOfNext(vts, j);
      AfterNext(values, j, path, Values(ItemTrees(t)));
      ok, t := AddEntry(list, val.node.items[j], path, t, vts[j]);
      if !ok { return; }
    }
    assert vts[..|vts|] == vts;
    ok := true;
  }

  /** The array was filled, and nothing else changed since the memory m. */
  lemma Filled(m: Memory, root: Ref, t: Tree, names: seq<string>, list: Node, lt: Tree)
    requires Separate(t) && Holds(m, root, t) && Reaches(t, names) && SubTree(t, names) == Branch(list, map[], [])
    requires IsList(list, lt) && forall n <- Nodes(lt) :: n in Nodes(t) ==> n == list
    requires IsNow(m, Nodes(t) - {list})
    ensures var t' := Replace(t, names, lt);
            Represents(root, t') && Nodes(t') <= Nodes(t) + Nodes(lt) && Value(t') == Plug(Value(t), names, Value(lt))
  {
    assert Nodes(Branch(list, map[], [])) == {list};
    HoldsCovers(m, root, t);
    var m' := Snapshot(Nodes(t) + Nodes(lt));
    ToMemory(m', Link(list), lt);
    ReplaceSeparate(t, names, lt);
    ReplaceHolds(m, m', root, t, names, lt);
    PlugValue(t, names, lt);
    FromMemory(m', root, Replace(t, names, lt));
  }

  lemma ListValue(list: Node, t: Tree)
    requires IsList(list, t)
    ensures Value(t) == Arr(Values(t.items), map[])
  { }

  /** The memory of nodes apart from the array stays as it is. */
  method SetEntriesApart(list: Node, val: Ref, path: Path, ghost vt: Tree, ghost m: Memory, ghost others: set<Node>)
      returns (ok: bool, ghost t: Tree)
    requires path != [] && list.isArray && list.fields == map[] && list.items == []
    requires Represents(val, vt) && list !in Nodes(vt)
    requires list !in others && IsNow(m, others)
    modifies list
    ensures ok == PutAll(ItemsOf(Value(vt)), path).Ok?
    ensures ok ==> IsList(list, t) && Values(ItemTrees(t)) == PutAll(ItemsOf(Value(vt)), path).value
    ensures ok ==> forall n <- Nodes(t) :: n == list || n in Nodes(vt) || n !in others
    ensures ok ==> forall n <- Nodes(t) :: n == list || n in Nodes(vt) || fresh(n)
    ensures IsNow(m, others)
    decreases |path|, 4
  {
    assert allocated(others);
    ok, t := SetEntries(list, val, path, vt);
    assert unchanged(others);
  }

  /** Fills a new array somewhere in the data. */
  method FillArray(list: Node, path: Path, val: Ref, root: Ref, ghost t: Tree, ghost names: seq<string>, ghost vt: Tree)
      returns (ok: bool, ghost t': Tree)
    requires path != [] && list.isArray && list.fields == map[] && list.items == []
    requires Represents(root, t) && list in Nodes(t)
    requires Reaches(t, names) && SubTree(t, names) == Branch(list, map[], [])
    requires Represents(val, vt) && Nodes(vt) !! Nodes(t)
    modifies list
    ensures ok == PutAll(ItemsOf(Value(vt)), path).Ok?
    ensures ok ==> Represents(root, t')
    ensures ok ==> Value(t') == Plug(Value(t), names, Arr(PutAll(ItemsOf(Value(vt)), path).value, map[]))
    ensures ok ==> forall n <- Nodes(t') :: n in Nodes(t) || n in Nodes(vt) || fresh(n)
    decreases |path|, 5
  {
    t' := t;
    ghost var m := Snapshot(Nodes(t));
    ToMemory(m, root, t);
    ghost var lt;
    ok, lt := SetEntriesApart(list, val, path, vt, m, Nodes(t) - {list});
    if ok {
      ListValue(list, lt);
      Filled(m, root, t, names, list, lt);
      t' := Replace(t, names, lt);
    }
  }

  lemma PlugOver(d: Val, names: seq<string>, part: Val, name: string, x: Val, y: Val)
    requires HasFields(part)
    ensures Plug(Plug(d, names, Store(part, name, x)), names + [name], y)
         == Plug(d, names, Store(part, name, y))
  {
    PlugTwice(d, names, Store(part, name, x), name, y);
    assert part.fields[name := x][name := y] == part.fields[name := y];
  }

  /** The memory of nodes apart from the data stays as it is. */
  method CreateApart(data: Node, name: string, isArray: bool, root: Ref, ghost t: Tree, ghost names: seq<string>,
      ghost m: Memory, ghost others: set<Node>)
      returns (o: Node, ghost t': Tree)
    requires Below(root, t, names, Link(data))
    requires others !! Nodes(t) && data in Nodes(t) && IsNow(m, others)
    modifies data
    ensures fresh(o) && o.isArray == isArray && o.fields == map[] && o.items == []
    ensures data.fields == old(data.fields)[name := Link(o)]
    ensures HasFields(Part(t, names)) && Below(root, t', names + [name], Link(o))
    ensures SubTree(t', names + [name]) == Branch(o, map[], [])
    ensures Value(t') == Plug(Value(t), names, Store(Part(t, names), name, Value(Branch(o, map[], []))))
    ensures forall n <- Nodes(t') :: n in Nodes(t) || fresh(n)
    ensures others !! Nodes(t') && IsNow(m, others)
  {
    assert allocated(others);
    o, t' := Create(data, name, isArray, root, t, names);
    assert unchanged(others);
  }

  /** An empty array for a property; the value to be stored is apart from it. */
  method NewArray(data: Node, name: string, val: Ref, root: Ref,
      ghost t: Tree, ghost names: seq<string>, ghost vt: Tree)
      returns (list: Node, ghost t': Tree)
    requires Below(root, t, names, Link(data)) && Represents(val, vt) && Nodes(vt) !! Nodes(t)
    modifies data
    ensures fresh(list) && list.isArray && list.fields == map[] && list.items == []
    ensures Below(root, t', names + [name], Link(list)) && SubTree(t', names + [name]) == Branch(list, map[], [])
    ensures Represents(val, vt) && Nodes(vt) !! Nodes(t') && HasFields(Part(t, names))
    ensures Value(t') == Plug(Value(t), names, Store(Part(t, names), name, Arr([], map[])))
    ensures forall n <- Nodes(t') :: n in Nodes(t) || fresh(n)
  {
    ghost var m := Snapshot(Nodes(vt));
    ToMemory(m, val, vt);
    Seen(root, t, names, Link(data));
    list, t' := CreateApart(data, name, true, root, t, names, m, Nodes(vt));
    FromMemory(m, val, vt);
    EmptyNode(list);
  }

  /** Assigns a new array to a property and fills it; the length of something missing raises. */
  method SetArray(data: Node, name: string, path: Path, val: Ref, root: Ref,
      ghost t: Tree, ghost names: seq<string>, ghost vt: Tree)
      returns (ok: bool, ghost t': Tree)
    requires path != [] && Below(root, t, names, Link(data)) && Represents(val, vt) && Nodes(vt) !! Nodes(t)
    modifies data
    ensures HasFields(Part(t, names))
    ensures ok == (!Missing(Value(vt)) && PutAll(ItemsOf(Value(vt)), path).Ok?)
    ensures ok ==> Represents(root, t')
    ensures ok ==> Value(t') == Plug(Value(t), names,
              Store(Part(t, names), name, Arr(PutAll(ItemsOf(Value(vt)), path).value, map[])))
    ensures ok ==> forall n <- Nodes(t') :: n in Nodes(t) || n in Nodes(vt) || fresh(n)
    decreases |path|, 6
  {
    var list;
    list, t' := NewArray(data, name, val, root, t, names, vt);
    ItemsSeen(val, vt);
    if IsMissing(val) { return false, t'; }
    Seen(root, t', names + [name], Link(list));
    ok, t' := FillArray(list, path, val, root, t', names + [name], vt);
    if ok {
      PlugOver(Value(t), names, Part(t, names), name, Arr([], map[]),
        Arr(PutAll(ItemsOf(Value(vt)), path).value, map[]));
    }
  }

  // ---------------------------------------------------------------- the setter

  /** Writing below a part is writing to the part. */
  ghost predicate Remains(d: Val, path: Path, v: Val, now: Val, names: seq<string>, part: Val, rest: Path)
    requires path != [] && rest != []
  {
    Put(d, path, v) == match Put(part, rest, v)
                       case Ok(y) => Ok(Plug(now, names, y))
                       case Err(e) => Err(e)
  }

  lemma RemainsAtFirst(d: Val, path: Path, v: Val)
    requires path != []
    ensures Remains(d, path, v, d, [], d, path[0..])
  {
    assert path[0..] == path;
  }

  /** What the rest of the path still asks for. */
  lemma RemainsNow(d: Val, path: Path, v: Val, now: Val, names: seq<string>, part: Val, rest: Path)
    requires path != [] && rest != [] && Remains(d, path, v, now, names, part, rest)
    ensures !HasFields(part) ==> Put(d, path, v).Err?
    ensures HasFields(part) && |rest| == 1 ==>
              Put(d, path, v) == Ok(Plug(now, names, Store(part, rest[0].name, v)))
    ensures HasFields(part) && |rest| > 1 && rest[0].isArray ==>
              var items := PutAll(ItemsOf(v), rest[1..]);
              && Put(d, path, v).Ok? == (!Missing(v) && items.Ok?)
              && (Put(d, path, v).Ok? ==>
                    Put(d, path, v).value == Plug(now, names, Store(part, rest[0].name, Arr(items.value, map[]))))
  { }

  lemma RemainsBelow(d: Val, path: Path, v: Val, now: Val, names: seq<string>, part: Val, rest: Path)
    requires |path| > 0 && |rest| > 1 && !rest[0].isArray && HasFields(part)
    requires Remains(d, path, v, now, names, part, rest)
    ensures var inner := Inner(part, rest[0].name);
            Remains(d, path, v, Plug(now, names, Store(part, rest[0].name, inner)),
              names + [rest[0].name], inner, rest[1..])
  {
    var name := rest[0].name;
    var inner := Inner(part, name);
    var part' := Store(part, name, inner);
    var r := Put(inner, rest[1..], v);
    if r.Ok? {
      PlugTwice(now, names, part', name, r.value);
      assert part'.fields[name := r.value] == part.fields[name := r.value];
    }
  }

  /** The last assignment stores the value itself. */
  method SetLast(data: Node, name: string, val: Ref, root: Ref, ghost t: Tree, ghost names: seq<string>, ghost vt: Tree)
      returns (ghost t': Tree)
    requires Below(root, t, names, Link(data)) && Represents(val, vt) && Nodes(vt) !! Nodes(t)
    modifies data
    ensures Represents(root, t') && HasFields(Part(t, names)) && Nodes(t') <= Nodes(t) + Nodes(vt)
    ensures Value(t') == Plug(Value(t), names, Store(Part(t, names), name, Value(vt)))
  {
    Seen(root, t, names, Link(data));
    t' := SetField(data, name, val, root, t, names, vt);
    PlugField(t, names, name, vt);
  }

  /** `setData`, in place: the memory afterwards holds what `Put` says. The data and the value have no
      object in common, and none is reached in two ways. */
  method SetData(root: Ref, path: Path, val: Ref, ghost t0: Tree, ghost vt: Tree) returns (ok: bool, ghost t: Tree)
    requires path != [] && Represents(root, t0) && Represents(val, vt) && Nodes(t0) !! Nodes(vt)
    modifies Nodes(t0)
    ensures ok == Put(Value(t0), path, Value(vt)).Ok?
    ensures ok ==> Represents(root, t) && Value(t) == Put(Value(t0), path, Value(vt)).value
    ensures ok ==> forall n <- Nodes(t) :: n in Nodes(t0) || n in Nodes(vt) || fresh(n)
    decreases |path|, 0
  {
    t := t0;
    var data := root;
    ghost var names: seq<string> := [];
    ghost var v, mine, theirs := Value(vt), Nodes(t0), Nodes(vt);
    assert allocated(mine) && allocated(theirs);
    RemainsAtFirst(Value(t0), path, v);
    for i := 0 to |path| - 1
      invariant Below(root, t, names, data)
      invariant forall n <- Nodes(t) :: n in mine || fresh(n)
      invariant Remains(Value(t0), path, v, Value(t), names, Part(t, names), path[i..])
    {
      Seen(root, t, names, data);
      RemainsNow(Value(t0), path, v, Value(t), names, Part(t, names), path[i..]);
      if data.Atom? { return false, t; }
      var name := path[i].name;
      if path[i].isArray {
        ok, t := SetArray(data.node, name, path[i + 1..], val, root, t, names, vt);
        return;
      }
      RemainsBelow(Value(t0), path, v, Value(t), names, Part(t, names), path[i..]);
      data, t := Descend(data.node, name, root, t, names);
      names := names + [name];
    }
    Seen(root, t, names, data);
    RemainsNow(Value(t0), path, v, Value(t), names, Part(t, names), path[|path| - 1..]);
    if data.Atom? { return false, t; }
    t := SetLast(data.node, path[|path| - 1].name, val, root, t, names, vt);
    ok := true;
  }
}
