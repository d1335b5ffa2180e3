/** Reading and writing nested data by a path such as `a.b[].c`. */
module ObjectPath {
  import opened Wrappers

  /** Data as the scripts see it. A property that is not there reads as Undefined; arrays may have named
      properties too. */
  datatype Val =
    | Undefined
    | NullVal
    | Prim(n: int)
    | Obj(fields: map<string, Val>)
    | Arr(items: seq<Val>, fields: map<string, Val>)

  /** One segment of a path; `isArray` for a name, possibly empty, followed by a pair of brackets. */
  datatype Seg = Seg(name: string, isArray: bool)

  type Path = seq<Seg>

  datatype Error = TypeError

  function Prop(d: Val, name: string): Val {
    if HasFields(d) && name in d.fields then d.fields[name] else Undefined
  }

  predicate HasFields(d: Val) {
    d.Obj? || d.Arr?
  }

  function Store(d: Val, name: string, v: Val): Val
    requires HasFields(d)
  {
    d.(fields := d.fields[name := v])
  }

  predicate Missing(d: Val) {
    d.Undefined? || d.NullVal?
  }

  function ItemsOf(d: Val): seq<Val> {
    if d.Arr? then d.items else []
  }

  // ---------------------------------------------------------------- the getter

  /** `fetchData`; the empty path reads the data itself. Brackets without a name stay at the data, and
      only segments without brackets test for missing data. */
  function Fetch(d: Val, path: Path): Result<Val, Error>
    decreases |path|, 0
  {
    if path == [] then Ok(d)
    else if path[0].isArray then
      if Missing(d) then Err(TypeError)
      else
        var list := if path[0].name == "" then d else Prop(d, path[0].name);
        if Missing(list) then Err(TypeError) else FetchAll(ItemsOf(list), path[1..])
    else if d.NullVal? then Ok(Undefined)
    else if d.Undefined? then Err(TypeError)
    else if Prop(d, path[0].name).Undefined? then Ok(Undefined)
    else Fetch(Prop(d, path[0].name), path[1..])
  }

  function FetchAll(items: seq<Val>, path: Path): Result<Val, Error>
    decreases |path|, |items| + 1
  {
    if items == [] then Ok(Arr([], map[]))
    else
      var first, rest := Fetch(items[0], path), FetchAll(items[1..], path);
      if first.Ok? && rest.Ok? then Ok(Arr([first.value] + ItemsOf(rest.value), map[])) else Err(TypeError)
  }

  /** A plain name is looked up directly. */
  function Get(d: Val, path: Path): Result<Val, Error> {
    if |path| == 1 && !path[0].isArray then
      if Missing(d) then Err(TypeError) else Ok(Prop(d, path[0].name))
    else Fetch(d, path)
  }

  // ---------------------------------------------------------------- the setter

  /** What setting `name` goes on with: a missing object is created. */
  function Inner(d: Val, name: string): Val {
    if Missing(Prop(d, name)) then Obj(map[]) else Prop(d, name)
  }

  /** `setData`: missing objects on the way are created, an array is built anew with one object for
      each entry of the value, and brackets on the last segment are dropped. */
  function Put(d: Val, path: Path, v: Val): Result<Val, Error>
    requires path != []
    decreases |path|, 0
  {
    var name := path[0].name;
    if !HasFields(d) then Err(TypeError)
    else if |path| == 1 then Ok(Store(d, name, v))
    else if path[0].isArray then
      if Missing(v) then Err(TypeError)
      else match PutAll(ItemsOf(v), path[1..])
        case Ok(items) => Ok(Store(d, name, Arr(items, map[])))
        case Err(e) => Err(e)
    else match Put(Inner(d, name), path[1..], v)
      case Ok(x) => Ok(Store(d, name, x))
      case Err(e) => Err(e)
  }

  function PutAll(values: seq<Val>, path: Path): Result<seq<Val>, Error>
    requires path != []
    decreases |path|, |values| + 1
  {
    if values == [] then Ok([])
    else
      var first, rest := Put(Obj(map[]), path, values[0]), PutAll(values[1..], path);
      if first.Ok? && rest.Ok? then Ok([first.value] + rest.value) else Err(TypeError)
  }

  // ---------------------------------------------------------------- when a write raises

  /** The data has fields; at brackets the value has a length and each of its entries can be written into
      an empty object, otherwise what is there, or created, can be written on. */
  predicate Writable(d: Val, path: Path, v: Val)
    requires path != []
    decreases |path|
  {
    && HasFields(d)
    && (|path| == 1
        || if path[0].isArray then !Missing(v) && forall x <- ItemsOf(v) :: Writable(Obj(map[]), path[1..], x)
           else Writable(Inner(d, path[0].name), path[1..], v))
  }

  /** A write succeeds exactly then. */
  lemma {:induction false} PutSucceeds(d: Val, path: Path, v: Val)
    requires path != []
    ensures Put(d, path, v).Ok? <==> Writable(d, path, v)
    decreases |path|, 0
  {
    if |path| > 1 && HasFields(d) {
      if path[0].isArray {
        PutAllSucceeds(ItemsOf(v), path[1..]);
      } else {
        PutSucceeds(Inner(d, path[0].name), path[1..], v);
      }
    }
  }

  lemma {:induction false} PutAllSucceeds(values: seq<Val>, path: Path)
    requires path != []
    ensures PutAll(values, path).Ok? <==> forall x <- values :: Writable(Obj(map[]), path, x)
    decreases |path|, |values| + 1
  {
    if values != [] {
      PutSucceeds(Obj(map[]), path, values[0]);
      PutAllSucceeds(values[1..], path);
      assert values == [values[0]] + values[1..];
    }
  }

  /** On the way there are objects or arrays, as far as there is anything but undefined and null. */
  predicate Open(d: Val, path: Path)
    requires path != []
    decreases |path|
  {
    && (d.Obj? || d.Arr?)
    && (|path| > 1 ==>
          var x := Prop(d, path[0].name); x == Undefined || x == NullVal || Open(x, path[1..]))
  }

  /** A write to a path without brackets on the way succeeds exactly then: what is missing is created. */
  lemma {:induction false} DottedWriteSucceeds(d: Val, path: Path, v: Val)
    requires path != [] && forall i :: 0 <= i < |path| - 1 ==> !path[i].isArray
    ensures Put(d, path, v).Ok? <==> Open(d, path)
    decreases |path|
  {
    if |path| > 1 && HasFields(d) {
      DottedWriteSucceeds(Inner(d, path[0].name), path[1..], v);
      if Missing(Prop(d, path[0].name)) { OpenFromNothing(path[1..]); }
    }
  }

  lemma OpenFromNothing(path: Path)
    requires path != []
    ensures Open(Obj(map[]), path)
  { }

  /** The property behind several names; missing data has undefined properties. */
  function PropertyOf(d: Val, path: Path): Val
    decreases |path|
  {
    if path == [] then d else PropertyOf(Prop(d, path[0].name), path[1..])
  }

  lemma {:induction false} NothingBehindMissing(path: Path)
    ensures PropertyOf(Undefined, path) == Undefined
  {
    if path != [] { NothingBehindMissing(path[1..]); }
  }

  lemma {:induction false} FetchNames(d: Val, path: Path)
    requires path != [] && forall seg <- path :: !seg.isArray
    ensures Fetch(d, path) == if d.Undefined? then Err(TypeError) else Ok(PropertyOf(d, path))
  {
    NothingBehindMissing(path[1..]);
    assert forall seg <- path[1..] :: seg in path;
    if |path| > 1 && !d.NullVal? && !Prop(d, path[0].name).Undefined? { FetchNames(Prop(d, path[0].name), path[1..]); }
  }

  /** Reading through names alone reads the property behind them. It raises for undefined data, and for
      null data exactly if there is a single name. */
  lemma NamesReadProperties(d: Val, path: Path)
    requires path != [] && forall seg <- path :: !seg.isArray
    ensures Get(d, path).Err? <==> d.Undefined? || (d.NullVal? && |path| == 1)
    ensures Get(d, path).Ok? ==> Get(d, path).value == PropertyOf(d, path)
  {
    FetchNames(d, path);
    assert path[0] in path;
    if |path| == 1 { assert path[1..] == []; }
  }

  /** An array is written entry by entry, in order, each into an object of its own. */
  lemma {:induction false} EntriesWritten(values: seq<Val>, path: Path, i: nat)
    requires path != [] && PutAll(values, path).Ok? && i < |values|
    ensures var r := PutAll(values, path).value;
            |r| == |values| && Ok(r[i]) == Put(Obj(map[]), path, values[i])
    decreases |values|
  {
    if i > 0 {
      EntriesWritten(values[1..], path, i - 1);
    } else if |values| > 1 {
      EntriesWritten(values[1..], path, 0);
    }
  }

  /** And read so. */
  lemma {:induction false} EntriesRead(items: seq<Val>, path: Path, i: nat)
    requires FetchAll(items, path).Ok? && i < |items|
    ensures var r := FetchAll(items, path).value;
            r.Arr? && r.fields == map[] && |r.items| == |items| && Ok(r.items[i]) == Fetch(items[i], path)
    decreases |items|
  {
    if i > 0 { EntriesRead(items[1..], path, i - 1); } else if |items| > 1 { EntriesRead(items[1..], path, 0); }
  }

  /** A write to an object or array leaves the entries alone. */
  lemma EntriesStay(d: Val, p: Path, v: Val)
    requires p != [] && Put(d, p, v).Ok?
    ensures ItemsOf(Put(d, p, v).value) == ItemsOf(d) && HasFields(Put(d, p, v).value)
  { }

  // ---------------------------------------------------------------- get after set

  /** The value has arrays where the path has brackets, without named properties, which are not read
      back. Brackets without a name read the entries of the data itself, which no write changes. */
  predicate Fits(d: Val, path: Path, v: Val)
    requires path != []
    decreases |path|
  {
    if path[0].isArray then
      if path[0].name == "" then Ok(v) == FetchAll(ItemsOf(d), path[1..])
      else v.Arr? && v.fields == map[] && (|path| == 1 || forall x <- v.items :: Fits(Obj(map[]), path[1..], x))
    else |path| == 1 || Fits(Inner(d, path[0].name), path[1..], v)
  }

  /** Reading all entries with the empty path copies the array. */
  lemma {:induction false} FetchItself(items: seq<Val>)
    ensures FetchAll(items, []) == Ok(Arr(items, map[]))
  {
    if items != [] {
      FetchItself(items[1..]);
      assert items == [items[0]] + items[1..];
    }
  }

  /** A value written to a path is read back exactly when it fits the path. */
  lemma {:induction false} FetchAfterPut(d: Val, path: Path, v: Val)
    requires path != [] && Put(d, path, v).Ok?
    ensures Fetch(Put(d, path, v).value, path) == Ok(v) <==> Fits(d, path, v)
    decreases |path|, 0
  {
    var r := Put(d, path, v).value;
    var name := path[0].name;
    if |path| == 1 {
      if path[0].isArray && v.Arr? { FetchItself(v.items); }
    } else if path[0].isArray {
      FetchAllAfterPut(ItemsOf(v), path[1..]);
      if name != "" {
        assert Prop(r, name) == Arr(PutAll(ItemsOf(v), path[1..]).value, map[]);
      }
    } else {
      FetchAfterPut(Inner(d, name), path[1..], v);
    }
  }

  lemma {:induction false} FetchAllAfterPut(values: seq<Val>, path: Path)
    requires path != [] && PutAll(values, path).Ok?
    ensures FetchAll(PutAll(values, path).value, path) == Ok(Arr(values, map[]))
            <==> forall x <- values :: Fits(Obj(map[]), path, x)
    decreases |path|, |values| + 1
  {
    if values != [] {
      FetchAfterPut(Obj(map[]), path, values[0]);
      FetchAllAfterPut(values[1..], path);
      FetchAllIsArray(PutAll(values[1..], path).value, path);
      var puts := PutAll(values, path).value;
      assert puts[1..] == PutAll(values[1..], path).value;
      assert values == [values[0]] + values[1..];
    }
  }

  lemma FetchAllIsArray(items: seq<Val>, path: Path)
    ensures FetchAll(items, path).Ok? ==> FetchAll(items, path).value.Arr?
  { }

  /** The first lens law, for the getter and setter as they are handed out. */
  lemma GetAfterSet(d: Val, path: Path, v: Val)
    requires path != [] && Put(d, path, v).Ok?
    ensures Get(Put(d, path, v).value, path) == Ok(v) <==> Fits(d, path, v)
  {
    FetchAfterPut(d, path, v);
  }

  // ---------------------------------------------------------------- set after set

  lemma StoreTwice(d: Val, name: string, x: Val, y: Val)
    requires HasFields(d)
    ensures var r := Store(d, name, x);
            Store(r, name, y) == Store(d, name, y)
  {
    assert d.fields[name := x][name := y] == d.fields[name := y];
  }

  /** Writing twice is writing the second value. */
  lemma {:induction false} SetAfterSet(d: Val, path: Path, v: Val, w: Val)
    requires path != [] && Put(d, path, v).Ok?
    ensures Put(Put(d, path, v).value, path, w) == Put(d, path, w)
    decreases |path|
  {
    var name := path[0].name;
    if |path| == 1 {
      StoreTwice(d, name, v, w);
    } else if path[0].isArray {
      var items, old_ := PutAll(ItemsOf(w), path[1..]), PutAll(ItemsOf(v), path[1..]).value;
      if items.Ok? { StoreTwice(d, name, Arr(old_, map[]), Arr(items.value, map[])); }
    } else {
      var inner := Inner(d, name);
      var x := Put(inner, path[1..], v).value;
      SetAfterSet(inner, path[1..], v, w);
      EntriesStay(inner, path[1..], v);
      assert Inner(Store(d, name, x), name) == x;
      var y := Put(inner, path[1..], w);
      if y.Ok? { StoreTwice(d, name, x, y.value); }
    }
  }

  // ---------------------------------------------------------------- other paths

  /** The paths agree on their first k segments, without brackets, and there part: in the next name, or
      in that q reads the entries of what p goes on from. */
  ghost predicate PartAt(p: Path, q: Path, k: nat) {
    && k < |p| && k < |q|
    && (forall i :: 0 <= i < k ==> p[i] == q[i] && !p[i].isArray)
    && (p[k].name != q[k].name || (q[k].isArray && !p[k].isArray && k + 1 < |p|))
  }

  /** One of the properties with the first n names is missing. */
  ghost predicate MissingOnWay(d: Val, q: Path, n: nat)
    requires n <= |q|
    decreases n
  {
    n > 0 && (Missing(Prop(d, q[0].name)) || MissingOnWay(Prop(d, q[0].name), q[1..], n - 1))
  }

  /** How a write disturbs a path that parts from it in a name: the objects they share were missing and
      are created, and the other path then goes on with brackets. (A null just before the brackets
      raised already, and with a name it still does.) */
  ghost predicate DisturbedBeside(d: Val, q: Path, k: nat)
    requires k < |q|
    decreases k
  {
    k > 0 && q[k].isArray &&
    var x := Prop(d, q[0].name);
    if x.Undefined? then true
    else if x.NullVal? then k > 1 || q[k].name == ""
    else DisturbedBeside(x, q[1..], k - 1)
  }

  /** And one that reads entries where the write goes on: something they share was missing. Brackets
      without a name read the entries of the data itself. */
  ghost predicate Disturbed(d: Val, p: Path, q: Path, k: nat)
    requires PartAt(p, q, k)
  {
    if p[k].name != q[k].name then DisturbedBeside(d, q, k)
    else MissingOnWay(d, q, if q[k].name == "" then k else k + 1)
  }

  /** The other path begins where the two part. */
  lemma FetchWhereParted(d: Val, p: Path, v: Val, q: Path)
    requires PartAt(p, q, 0) && Put(d, p, v).Ok?
    ensures Fetch(Put(d, p, v).value, q) == Fetch(d, q) <==> !Disturbed(d, p, q, 0)
  {
    var r := Put(d, p, v).value;
    var name := q[0].name;
    EntriesStay(d, p, v);
    if p[0].name != name {
      assert Prop(r, name) == Prop(d, name);
    } else if name != "" {
      EntriesStay(Inner(d, name), p[1..], v);
      assert Prop(r, name) == Put(Inner(d, name), p[1..], v).value;
    }
  }

  lemma {:induction false} FetchAfterOther(d: Val, p: Path, v: Val, q: Path, k: nat)
    requires PartAt(p, q, k) && Put(d, p, v).Ok?
    ensures Fetch(Put(d, p, v).value, q) == Fetch(d, q) <==> !Disturbed(d, p, q, k)
    decreases k
  {
    if k == 0 {
      FetchWhereParted(d, p, v, q);
    } else {
      var x, inner := Prop(d, p[0].name), Inner(d, p[0].name);
      FetchBelow(d, p, v, q);
      assert PartAt(p[1..], q[1..], k - 1);
      if Missing(x) {
        FetchFromCreated(p[1..], v, q[1..], k - 1);
      } else {
        FetchAfterOther(inner, p[1..], v, q[1..], k - 1);
      }
    }
  }

  /** One shared name on. */
  lemma FetchBelow(d: Val, p: Path, v: Val, q: Path)
    requires |p| > 1 && |q| > 1 && p[0] == q[0] && !p[0].isArray && Put(d, p, v).Ok?
    ensures Put(Inner(d, p[0].name), p[1..], v).Ok?
    ensures Fetch(Put(d, p, v).value, q) == Fetch(Put(Inner(d, p[0].name), p[1..], v).value, q[1..])
  {
    var inner := Inner(d, p[0].name);
    EntriesStay(inner, p[1..], v);
    assert Prop(Put(d, p, v).value, p[0].name) == Put(inner, p[1..], v).value;
  }

  /** In freshly created objects the other path finds nothing. */
  lemma {:induction false} FetchFromCreated(p: Path, v: Val, q: Path, k: nat)
    requires PartAt(p, q, k) && Put(Obj(map[]), p, v).Ok?
    ensures Fetch(Put(Obj(map[]), p, v).value, q) ==
            if !q[k].isArray then Ok(Undefined)
            else if q[k].name == "" || p[k].name == q[k].name then Ok(Arr([], map[]))
            else Err(TypeError)
    decreases k
  {
    var r := Put(Obj(map[]), p, v).value;
    var name := q[0].name;
    if k == 0 {
      if p[0].name == name {
        EntriesStay(Obj(map[]), p[1..], v);
      } else {
        assert Prop(r, name) == Undefined;
      }
    } else {
      assert PartAt(p[1..], q[1..], k - 1);
      FetchFromCreated(p[1..], v, q[1..], k - 1);
      assert Prop(r, name) == Put(Obj(map[]), p[1..], v).value;
    }
  }

  /** A write leaves every path that parts from it unchanged, and the condition under which it does
      not is exact. Without brackets in the other path it always does. */
  lemma SetLeavesOthers(d: Val, p: Path, v: Val, q: Path, k: nat)
    requires PartAt(p, q, k) && Put(d, p, v).Ok?
    ensures Get(Put(d, p, v).value, q) == Get(d, q) <==> !Disturbed(d, p, q, k)
    ensures !q[k].isArray ==> !Disturbed(d, p, q, k)
  {
    FetchAfterOther(d, p, v, q, k);
  }

  /** No brackets on the way; those on the last segment are dropped. */
  ghost predicate Dotted(p: Path) {
    forall i :: 0 <= i < |p| - 1 ==> !p[i].isArray
  }

  /** One path is a beginning of the other: what one reads is part of what the other writes, or the
      other way round. */
  ghost predicate Along(p: Path, q: Path) {
    forall i :: 0 <= i < |p| && i < |q| ==> p[i].name == q[i].name && (i + 1 < |p| ==> !q[i].isArray)
  }

  /** For a write to a dotted path these are all the paths there are: those along it, and those that
      part from it. */
  lemma OthersPart(p: Path, q: Path)
    requires Dotted(p)
    ensures !Along(p, q) <==> exists k :: PartAt(p, q, k)
  {
    if k: nat :| PartAt(p, q, k) {
      assert p[k].name != q[k].name || (k + 1 < |p| && q[k].isArray);
    }
    if !Along(p, q) {
      var k := FirstParting(p, q, 0);
      forall i | 0 <= i < k ensures p[i] == q[i] && !p[i].isArray { assert i + 1 < |p|; }
      assert PartAt(p, q, k);
    }
  }

  lemma FirstParting(p: Path, q: Path, from: nat) returns (k: nat)
    requires exists i :: from <= i < |p| && i < |q| && !(p[i].name == q[i].name && (i + 1 < |p| ==> !q[i].isArray))
    ensures from <= k < |p| && k < |q| && !(p[k].name == q[k].name && (k + 1 < |p| ==> !q[k].isArray))
    ensures forall i :: from <= i < k ==> p[i].name == q[i].name && (i + 1 < |p| ==> !q[i].isArray)
    decreases |p| - from
  {
    if p[from].name != q[from].name || (from + 1 < |p| && q[from].isArray) {
      return from;
    }
    k := FirstParting(p, q, from + 1);
  }

  // ---------------------------------------------------------------- where the laws fail

  /** A value that is no array, written to a path with brackets, is not read back. */
  lemma BracketsReadNothing()
    ensures var d, path := Obj(map[]), [Seg("a", true)];
            Put(d, path, Prim(1)).Ok? && Get(Put(d, path, Prim(1)).value, path) == Ok(Arr([], map[])) != Ok(Prim(1))
  {
    var r := Put(Obj(map[]), [Seg("a", true)], Prim(1)).value;
    assert Prop(r, "a") == Prim(1);
  }

  /** Writing `a.b` into an empty object makes `a.c[]` raise, which read as undefined before. */
  lemma WriteMakesOtherRaise()
    ensures var d, p, q := Obj(map[]), [Seg("a", false), Seg("b", false)], [Seg("a", false), Seg("c", true)];
            Put(d, p, Prim(1)).Ok? && Get(d, q) == Ok(Undefined) && Get(Put(d, p, Prim(1)).value, q) == Err(TypeError)
  {
    var d, p, q := Obj(map[]), [Seg("a", false), Seg("b", false)], [Seg("a", false), Seg("c", true)];
    assert q[1..] == [Seg("c", true)];
    FetchFromCreated(p[1..], Prim(1), q[1..], 0);
    assert Prop(Put(d, p, Prim(1)).value, "a") == Put(d, p[1..], Prim(1)).value;
  }

  /** And it makes `a[].c` read as an empty array, which raised before. */
  lemma WriteMakesOtherEmpty()
    ensures var d, p, q := Obj(map[]), [Seg("a", false), Seg("b", false)], [Seg("a", true), Seg("c", false)];
            Put(d, p, Prim(1)).Ok? && Get(d, q) == Err(TypeError)
            && Get(Put(d, p, Prim(1)).value, q) == Ok(Arr([], map[]))
  {
    var d, p, q := Obj(map[]), [Seg("a", false), Seg("b", false)], [Seg("a", true), Seg("c", false)];
    assert Put(d, p[1..], Prim(1)).Ok?;
    FetchFromCreated(p, Prim(1), q, 0);
  }
}
