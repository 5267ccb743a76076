/**
  The flattener: `flattenDict` walks one decoded event, an ordered
  dictionary whose values are either nested dictionaries or scalars, and
  writes every scalar into a flat record under its dotted full path.
 */
module Flatten {
  import opened Strings

  /** A decoded value: a scalar, already rendered as Go's `%v` text, or a
      nested ordered dictionary. */
  datatype Tree = Scalar(text: string) | Node(fields: Dict)

  /** One key/value entry of an ordered dictionary. */
  datatype Field = Field(name: string, value: Tree)

  /** An ordered dictionary: its entries in key order. */
  type Dict = seq<Field>

  /** One write into the flat record: a full path and its text. */
  type Cell = (string, string)

  /** The key under which a child named `key` is stored below `prefix`:
      the bare name at the root, `prefix.key` below it. */
  function FullKey(prefix: string, key: string): string
  {
    if prefix != "" then prefix + "." + key else key
  }

  /** The writes flattening `d` under `prefix` performs, in the order it
      performs them: a depth-first walk over the entries in key order,
      one write per scalar, none for a nested dictionary itself. */
  function Leaves(prefix: string, d: Dict): seq<Cell>
    decreases d
  {
    if d == [] then []
    else Leaves(prefix, d[..|d| - 1]) + FieldLeaves(prefix, d[|d| - 1])
  }

  function FieldLeaves(prefix: string, f: Field): seq<Cell>
    decreases f
  {
    match f.value
    case Scalar(text) => [(FullKey(prefix, f.name), text)]
    case Node(children) => Leaves(FullKey(prefix, f.name), children)
  }

  /** The map `m` after performing the writes `cells` in order, a later
      write to a path replacing an earlier one. */
  function Store(m: map<string, string>, cells: seq<Cell>): map<string, string>
  {
    if cells == [] then m
    else
      var last := cells[|cells| - 1];
      Store(m, cells[..|cells| - 1])[last.0 := last.1]
  }

  /** The paths written by `cells`. */
  function Paths(cells: seq<Cell>): set<string>
  {
    set c | c in cells :: c.0
  }

  /** The flat record of one event: flattening it from the root into a
      fresh, empty map. */
  function Flattened(d: Dict): map<string, string>
  {
    Store(map[], Leaves("", d))
  }

  /** The Go map `flattenDict` fills; it is passed by reference, so the
      recursive calls all write into the same record. */
  class FlatRecord {
    var cells: map<string, string>

    constructor ()
      ensures cells == map[]
    {
      cells := map[];
    }
  }

  /** Walks the entries of `d` in order, writing each scalar into `out`
      under its full path below `prefix` and descending into each nested
      dictionary with that path as the new prefix. */
  method FlattenDict(prefix: string, d: Dict, out: FlatRecord)
    modifies out
    ensures out.cells == Store(old(out.cells), Leaves(prefix, d))
    decreases d
  {
    var i := 0;
    while i < |d|
      invariant 0 <= i <= |d|
      invariant out.cells == Store(old(out.cells), Leaves(prefix, d[..i]))
    {
      var key := d[i].name;
      var val := d[i].value;
      var fullKey := key;
      if prefix != "" {
        fullKey := prefix + "." + key;
      }
      assert d[..i + 1][..i] == d[..i];
      match val {
        case Node(children) =>
          FlattenDict(fullKey, children, out);
          StoreAppend(old(out.cells), Leaves(prefix, d[..i]), Leaves(fullKey, children));
        case Scalar(text) =>
          out.cells := out.cells[fullKey := text];
          assert Leaves(prefix, d[..i + 1]) == Leaves(prefix, d[..i]) + [(fullKey, text)];
      }
      i := i + 1;
    }
    assert d[..i] == d;
  }

  /** Writing `a` and then `b` is writing `a + b`. */
  lemma {:induction false} StoreAppend(m: map<string, string>, a: seq<Cell>, b: seq<Cell>)
    ensures Store(m, a + b) == Store(Store(m, a), b)
    decreases |b|
  {
    if b != [] {
      assert (a + b)[..|a + b| - 1] == a + b[..|b| - 1];
      StoreAppend(m, a, b[..|b| - 1]);
    } else {
      assert a + b == a;
    }
  }

  /** Flattening only adds keys: the result holds the keys already present
      and the written paths, and nothing else. */
  lemma {:induction false} StoreKeys(m: map<string, string>, cells: seq<Cell>)
    ensures Store(m, cells).Keys == m.Keys + Paths(cells)
  {
    if cells != [] {
      var init := cells[..|cells| - 1];
      StoreKeys(m, init);
      assert cells == init + [cells[|cells| - 1]];
      assert Paths(cells) == Paths(init) + {cells[|cells| - 1].0};
    }
  }

  /** An entry whose key is not a written path is left exactly as it was. */
  lemma {:induction false} StoreKeepsOthers(m: map<string, string>, cells: seq<Cell>, k: string)
    requires k !in Paths(cells)
    ensures k in Store(m, cells) <==> k in m
    ensures k in m ==> Store(m, cells)[k] == m[k]
  {
    if cells != [] {
      var init := cells[..|cells| - 1];
      assert cells[|cells| - 1] in cells;
      assert Paths(init) <= Paths(cells);
      StoreKeepsOthers(m, init, k);
    }
  }

  /** The last write to a path decides its value. */
  lemma {:induction false} StoreLastWins(m: map<string, string>, cells: seq<Cell>, i: nat)
    requires i < |cells|
    requires forall j :: i < j < |cells| ==> cells[j].0 != cells[i].0
    ensures cells[i].0 in Store(m, cells)
    ensures Store(m, cells)[cells[i].0] == cells[i].1
  {
    if i < |cells| - 1 {
      StoreLastWins(m, cells[..|cells| - 1], i);
    }
  }

  /* The same walk, seen through field names rather than dotted strings. */

  /** A leaf named by the field names on the way to it from the root. */
  type NamedCell = (seq<string>, string)

  /** The field names of the entries of `d`. */
  function Names(d: Dict): set<string>
  {
    set f | f in d :: f.name
  }

  /** Every scalar below `d`, in depth-first order, with the list of names
      leading to it. */
  function NameLeaves(d: Dict): (r: seq<NamedCell>)
    ensures forall c :: c in r ==> |c.0| >= 1 && c.0[0] in Names(d)
    decreases d
  {
    if d == [] then []
    else
      var init := d[..|d| - 1];
      assert Names(init) <= Names(d);
      NameLeaves(init) + FieldNameLeaves(d[|d| - 1])
  }

  function FieldNameLeaves(f: Field): (r: seq<NamedCell>)
    ensures forall c :: c in r ==> |c.0| >= 1 && c.0[0] == f.name
    decreases f
  {
    match f.value
    case Scalar(text) => [([f.name], text)]
    case Node(children) => Nest(f.name, NameLeaves(children))
  }

  /** The leaves of a nested dictionary, seen from its parent. */
  function Nest(name: string, cs: seq<NamedCell>): seq<NamedCell>
  {
    seq(|cs|, k requires 0 <= k < |cs| => ([name] + cs[k].0, cs[k].1))
  }

  /** The name lists of the nested dictionaries below `d`. */
  function NodeNames(d: Dict): (r: set<seq<string>>)
    ensures forall p :: p in r ==> |p| >= 1 && p[0] in Names(d)
    decreases d
  {
    if d == [] then {}
    else
      var init := d[..|d| - 1];
      assert Names(init) <= Names(d);
      NodeNames(init) + FieldNodeNames(d[|d| - 1])
  }

  function FieldNodeNames(f: Field): (r: set<seq<string>>)
    ensures forall p :: p in r ==> |p| >= 1 && p[0] == f.name
    decreases f
  {
    match f.value
    case Scalar(_) => {}
    case Node(children) => {[f.name]} + set p | p in NodeNames(children) :: [f.name] + p
  }

  /** At every level the field names are pairwise distinct, as the keys of
      an ordered dictionary are. */
  predicate UniqueNames(d: Dict)
    decreases d
  {
    && (forall i, j :: 0 <= i < j < |d| ==> d[i].name != d[j].name)
    && (forall i :: 0 <= i < |d| ==> UniqueNamesTree(d[i].value))
  }

  predicate UniqueNamesTree(t: Tree)
    decreases t
  {
    match t
    case Scalar(_) => true
    case Node(fields) => UniqueNames(fields)
  }

  /** At every level every field name is non-empty. */
  predicate NonEmptyNames(d: Dict)
    decreases d
  {
    && (forall i :: 0 <= i < |d| ==> d[i].name != "")
    && (forall i :: 0 <= i < |d| ==> NonEmptyNamesTree(d[i].value))
  }

  predicate NonEmptyNamesTree(t: Tree)
    decreases t
  {
    match t
    case Scalar(_) => true
    case Node(fields) => NonEmptyNames(fields)
  }

  /** At every level no field name contains a dot. */
  predicate DotFreeNames(d: Dict)
    decreases d
  {
    && (forall i :: 0 <= i < |d| ==> '.' !in d[i].name)
    && (forall i :: 0 <= i < |d| ==> DotFreeNamesTree(d[i].value))
  }

  predicate DotFreeNamesTree(t: Tree)
    decreases t
  {
    match t
    case Scalar(_) => true
    case Node(fields) => DotFreeNames(fields)
  }

  /** The naming condition under which every scalar gets its own full
      path: at each level the field names are non-empty, free of dots and
      pairwise distinct. */
  predicate Unambiguous(d: Dict)
  {
    UniqueNames(d) && NonEmptyNames(d) && DotFreeNames(d)
  }

  predicate DotFree(names: seq<string>)
  {
    forall i :: 0 <= i < |names| ==> '.' !in names[i]
  }

  /** `leaves` are the writes that `named` describes under `prefix`: the
      same texts in the same order, each path the dotted join of the names. */
  predicate JoinedUnder(prefix: string, leaves: seq<Cell>, named: seq<NamedCell>)
  {
    && |leaves| == |named|
    && forall k :: 0 <= k < |named| ==>
         |named[k].0| >= 1 && leaves[k] == (FullKey(prefix, Join(named[k].0)), named[k].1)
  }

  /** With non-empty names, every full path is the names from the root to
      the leaf joined by dots (below a non-empty prefix, `prefix.` comes
      first): the bare name for a top-level scalar, `a.b.c` three levels down. */
  lemma {:induction false} LeavesAreJoinedNames(prefix: string, d: Dict)
    requires NonEmptyNames(d)
    ensures JoinedUnder(prefix, Leaves(prefix, d), NameLeaves(d))
    decreases d
  {
    if d != [] {
      var init, f := d[..|d| - 1], d[|d| - 1];
      LeavesAreJoinedNames(prefix, init);
      FieldLeavesAreJoinedNames(prefix, f);
      var named := NameLeaves(d);
      forall k | 0 <= k < |named|
        ensures |named[k].0| >= 1
      {
        assert named[k] in named;
      }
    }
  }

  lemma {:induction false} FieldLeavesAreJoinedNames(prefix: string, f: Field)
    requires f.name != "" && NonEmptyNamesTree(f.value)
    ensures JoinedUnder(prefix, FieldLeaves(prefix, f), FieldNameLeaves(f))
    decreases f
  {
    match f.value {
      case Scalar(text) =>
      case Node(children) =>
        var q := FullKey(prefix, f.name);
        LeavesAreJoinedNames(q, children);
        var inner := NameLeaves(children);
        forall k | 0 <= k < |inner|
          ensures FullKey(q, Join(inner[k].0)) == FullKey(prefix, Join([f.name] + inner[k].0))
        {
          var names := [f.name] + inner[k].0;
          assert names[1..] == inner[k].0;
          assert Join(names) == f.name + "." + Join(inner[k].0);
        }
    }
  }

  /** When no name contains a dot, no name on any leaf's path does. */
  lemma {:induction false} NameLeavesDotFree(d: Dict)
    requires DotFreeNames(d)
    ensures forall c :: c in NameLeaves(d) ==> DotFree(c.0)
    decreases d
  {
    if d != [] {
      var init, f := d[..|d| - 1], d[|d| - 1];
      NameLeavesDotFree(init);
      FieldNameLeavesDotFree(f);
    }
  }

  lemma {:induction false} FieldNameLeavesDotFree(f: Field)
    requires '.' !in f.name && DotFreeNamesTree(f.value)
    ensures forall c :: c in FieldNameLeaves(f) ==> DotFree(c.0)
    decreases f
  {
    match f.value {
      case Scalar(text) =>
      case Node(children) =>
        NameLeavesDotFree(children);
        var inner := NameLeaves(children);
        forall c | c in FieldNameLeaves(f) ensures DotFree(c.0) {
          var k :| 0 <= k < |inner| && c == ([f.name] + inner[k].0, inner[k].1);
          assert inner[k] in inner;
        }
    }
  }

  predicate DistinctNames(cs: seq<NamedCell>)
  {
    forall a, b :: 0 <= a < b < |cs| ==> cs[a].0 != cs[b].0
  }

  /** With unique names at every level no two leaves share a name list. */
  lemma {:induction false} NameLeavesDistinct(d: Dict)
    requires UniqueNames(d)
    ensures DistinctNames(NameLeaves(d))
    decreases d
  {
    if d != [] {
      var init, f := d[..|d| - 1], d[|d| - 1];
      NameLeavesDistinct(init);
      FieldNameLeavesDistinct(f);
      var a, b := NameLeaves(init), FieldNameLeaves(f);
      assert f.name !in Names(init);
      forall x, y | 0 <= x < |a| && 0 <= y < |b| ensures a[x].0 != b[y].0 {
        assert a[x] in a && b[y] in b;
      }
    }
  }

  lemma {:induction false} FieldNameLeavesDistinct(f: Field)
    requires UniqueNamesTree(f.value)
    ensures DistinctNames(FieldNameLeaves(f))
    decreases f
  {
    match f.value {
      case Scalar(text) =>
      case Node(children) =>
        NameLeavesDistinct(children);
        var inner := NameLeaves(children);
        var r := FieldNameLeaves(f);
        forall x, y | 0 <= x < y < |r| ensures r[x].0 != r[y].0 {
          assert r[x].0[1..] == inner[x].0;
          assert r[y].0[1..] == inner[y].0;
        }
    }
  }

  /** With unique names at every level no leaf's name list is also that
      of a nested dictionary: a nested dictionary never gets a column of
      its own. */
  lemma {:induction false} LeavesAreNotNodes(d: Dict)
    requires UniqueNames(d)
    ensures forall c :: c in NameLeaves(d) ==> c.0 !in NodeNames(d)
    decreases d
  {
    if d != [] {
      var init, f := d[..|d| - 1], d[|d| - 1];
      LeavesAreNotNodes(init);
      FieldLeavesAreNotNodes(f);
      assert f.name !in Names(init);
    }
  }

  lemma {:induction false} FieldLeavesAreNotNodes(f: Field)
    requires UniqueNamesTree(f.value)
    ensures forall c :: c in FieldNameLeaves(f) ==> c.0 !in FieldNodeNames(f)
    decreases f
  {
    match f.value {
      case Scalar(text) =>
      case Node(children) =>
        LeavesAreNotNodes(children);
        var inner := NameLeaves(children);
        forall c | c in FieldNameLeaves(f) ensures c.0 !in FieldNodeNames(f) {
          var k :| 0 <= k < |inner| && c == ([f.name] + inner[k].0, inner[k].1);
          assert inner[k] in inner;
          assert c.0[1..] == inner[k].0;
          assert c.0 != [f.name];
          forall p | p in NodeNames(children) ensures c.0 != [f.name] + p {
            assert ([f.name] + p)[1..] == p;
          }
        }
    }
  }

  /** Under Unambiguous no two writes of the walk go to the same path. */
  lemma LeafPathsDistinct(d: Dict)
    requires Unambiguous(d)
    ensures forall i, j :: 0 <= i < j < |Leaves("", d)| ==> Leaves("", d)[i].0 != Leaves("", d)[j].0
  {
    var leaves, named := Leaves("", d), NameLeaves(d);
    LeavesAreJoinedNames("", d);
    NameLeavesDotFree(d);
    NameLeavesDistinct(d);
    forall i, j | 0 <= i < j < |leaves| ensures leaves[i].0 != leaves[j].0 {
      assert named[i] in named && named[j] in named;
      if leaves[j].0 == leaves[i].0 {
        JoinInjective(named[i].0, named[j].0);
      }
    }
  }

  /** Under Unambiguous the flat record of an event holds every scalar
      under the dotted join of the names leading to it, with its text. */
  lemma FlattenedHasEveryLeaf(d: Dict)
    requires Unambiguous(d)
    ensures forall c :: c in NameLeaves(d) ==>
      Join(c.0) in Flattened(d) && Flattened(d)[Join(c.0)] == c.1
  {
    var leaves, named := Leaves("", d), NameLeaves(d);
    LeavesAreJoinedNames("", d);
    LeafPathsDistinct(d);
    forall c | c in named
      ensures Join(c.0) in Flattened(d) && Flattened(d)[Join(c.0)] == c.1
    {
      var i :| 0 <= i < |named| && named[i] == c;
      StoreLastWins(map[], leaves, i);
    }
  }

  /** With non-empty names, the flat record of an event holds nothing but
      scalars: every key is the dotted path of some leaf. */
  lemma FlattenedOnlyLeaves(d: Dict)
    requires NonEmptyNames(d)
    ensures forall p :: p in Flattened(d) ==>
      exists c :: c in NameLeaves(d) && p == Join(c.0)
  {
    var leaves, named := Leaves("", d), NameLeaves(d);
    LeavesAreJoinedNames("", d);
    StoreKeys(map[], leaves);
    forall p | p in Flattened(d) ensures exists c :: c in named && p == Join(c.0) {
      var cell :| cell in leaves && cell.0 == p;
      var i :| 0 <= i < |leaves| && leaves[i] == cell;
      assert named[i] in named;
    }
  }

  /** Under Unambiguous a nested dictionary never gets an entry of its own
      in the flat record. */
  lemma FlattenedNoNodes(d: Dict)
    requires Unambiguous(d)
    ensures forall p :: p in NodeNames(d) ==> Join(p) !in Flattened(d)
  {
    var leaves, named := Leaves("", d), NameLeaves(d);
    LeavesAreJoinedNames("", d);
    NameLeavesDotFree(d);
    NodeNamesDotFree(d);
    LeavesAreNotNodes(d);
    StoreKeys(map[], leaves);
    forall p | p in NodeNames(d) ensures Join(p) !in Flattened(d) {
      if Join(p) in Flattened(d) {
        var cell :| cell in leaves && cell.0 == Join(p);
        var i :| 0 <= i < |leaves| && leaves[i] == cell;
        assert named[i] in named;
        JoinInjective(p, named[i].0);
      }
    }
  }

  /** When no name contains a dot, no name on the way to a nested
      dictionary does. */
  lemma {:induction false} NodeNamesDotFree(d: Dict)
    requires DotFreeNames(d)
    ensures forall p :: p in NodeNames(d) ==> DotFree(p)
    decreases d
  {
    if d != [] {
      var init, f := d[..|d| - 1], d[|d| - 1];
      NodeNamesDotFree(init);
      FieldNodeNamesDotFree(f);
    }
  }

  lemma {:induction false} FieldNodeNamesDotFree(f: Field)
    requires '.' !in f.name && DotFreeNamesTree(f.value)
    ensures forall p :: p in FieldNodeNames(f) ==> DotFree(p)
    decreases f
  {
    match f.value {
      case Scalar(text) =>
      case Node(children) =>
        NodeNamesDotFree(children);
        forall p | p in FieldNodeNames(f) ensures DotFree(p) {
          if p != [f.name] {
            var q :| q in NodeNames(children) && p == [f.name] + q;
            assert forall i :: 1 <= i < |p| ==> p[i] == q[i - 1];
          }
        }
    }
  }
}
