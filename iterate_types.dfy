/**
 * The walk over a config type that lists every type it is built from, and the
 * schema snapshot built from that walk. The walk is post-order: the inner type
 * of an array or noneable type, the field types of a shape (in field order),
 * and the two sides of a scalar union come before the type itself, which is
 * always last. The scalar side of a union is listed as it is, without walking
 * into it. Types that occur more than once in the tree are listed once per
 * occurrence.
 *
 * The snapshot maps each listed type's key to its snap; when two listed types
 * share a key, the one listed later wins. Snapping a single type lies outside
 * this model and is a function parameter.
 */
module IterateTypes {

  /** The kinds of type that have neither an inner type, nor fields, nor branches. */
  datatype LeafKind = AnyKind | ScalarKind | EnumKind

  /** The kinds for which `ConfigTypeKind.has_fields` holds. */
  datatype ShapeKind = SelectorKind | StrictShapeKind | PermissiveShapeKind

  /** A named field of a shape; the order of a shape's fields is their declaration order. */
  datatype Field = Field(name: string, configType: ConfigType)

  datatype ConfigType =
    | Leaf(key: string, leafKind: LeafKind)
    | Array(key: string, inner: ConfigType)
    | Noneable(key: string, inner: ConfigType)
    | Shape(key: string, shapeKind: ShapeKind, fields: seq<Field>)
    | ScalarUnion(key: string, scalarType: ConfigType, nonScalarType: ConfigType)

  /**
   * `iterate_config_types`: every type the given type is built from, in
   * post-order, the type itself last.
   */
  function Iterate(t: ConfigType): (r: seq<ConfigType>)
    ensures |r| >= 1 && r[|r| - 1] == t
    decreases t
  {
    match t
    case Leaf(_, _) => [t]
    case Array(_, inner) => Iterate(inner) + [t]
    case Noneable(_, inner) => Iterate(inner) + [t]
    case Shape(_, _, fields) => IterateFields(fields) + [t]
    case ScalarUnion(_, scalarType, nonScalarType) => [scalarType] + Iterate(nonScalarType) + [t]
  }

  /** The walks of the field types, concatenated in field order. */
  function IterateFields(fields: seq<Field>): (r: seq<ConfigType>)
    ensures |r| >= |fields|
    ensures r == [] <==> fields == []
    decreases fields
  {
    if fields == [] then [] else Iterate(fields[0].configType) + IterateFields(fields[1..])
  }

  // ---------------------------------------------------------------------------
  // Reference definitions

  /** The types the walk reaches: the type itself and, below it, what the walk enters. */
  predicate Reaches(t: ConfigType, x: ConfigType)
    decreases t
  {
    x == t
    || match t
       case Leaf(_, _) => false
       case Array(_, inner) => Reaches(inner, x)
       case Noneable(_, inner) => Reaches(inner, x)
       case Shape(_, _, fields) => FieldsReach(fields, x)
       case ScalarUnion(_, scalarType, nonScalarType) => x == scalarType || Reaches(nonScalarType, x)
  }

  predicate FieldsReach(fields: seq<Field>, x: ConfigType)
    decreases fields
  {
    fields != [] && (Reaches(fields[0].configType, x) || FieldsReach(fields[1..], x))
  }

  /** Number of positions in the tree the walk visits: every occurrence counts. */
  function Size(t: ConfigType): nat
    decreases t
  {
    match t
    case Leaf(_, _) => 1
    case Array(_, inner) => Size(inner) + 1
    case Noneable(_, inner) => Size(inner) + 1
    case Shape(_, _, fields) => FieldsSize(fields) + 1
    case ScalarUnion(_, _, nonScalarType) => Size(nonScalarType) + 2
  }

  function FieldsSize(fields: seq<Field>): nat
    decreases fields
  {
    if fields == [] then 0 else Size(fields[0].configType) + FieldsSize(fields[1..])
  }

  /** `a` occurs in `b` as a contiguous block starting at index `i`. */
  ghost predicate BlockAt<T>(a: seq<T>, b: seq<T>, i: int)
  {
    0 <= i && i + |a| <= |b| && b[i..i + |a|] == a
  }

  /** `a` occurs in `b` as a contiguous block. */
  ghost predicate Infix<T>(a: seq<T>, b: seq<T>)
  {
    exists i :: BlockAt(a, b, i)
  }

  // ---------------------------------------------------------------------------
  // Properties of the walk

  /** The walk lists exactly the types it reaches: the root and types below it, nothing else. */
  lemma {:induction false} IterateListsReached(t: ConfigType, x: ConfigType)
    ensures x in Iterate(t) <==> Reaches(t, x)
    decreases t
  {
    match t
    case Leaf(_, _) =>
    case Array(_, inner) =>
      IterateListsReached(inner, x);
    case Noneable(_, inner) =>
      IterateListsReached(inner, x);
    case Shape(_, _, fields) =>
      FieldsListReached(fields, x);
    case ScalarUnion(_, scalarType, nonScalarType) =>
      IterateListsReached(nonScalarType, x);
  }

  lemma {:induction false} FieldsListReached(fields: seq<Field>, x: ConfigType)
    ensures x in IterateFields(fields) <==> FieldsReach(fields, x)
    decreases fields
  {
    if fields != [] {
      IterateListsReached(fields[0].configType, x);
      FieldsListReached(fields[1..], x);
    }
  }

  /** The walk has one entry per position in the tree, so shared types are listed once per occurrence. */
  lemma {:induction false} IterateLength(t: ConfigType)
    ensures |Iterate(t)| == Size(t)
    decreases t
  {
    match t
    case Leaf(_, _) =>
    case Array(_, inner) =>
      IterateLength(inner);
    case Noneable(_, inner) =>
      IterateLength(inner);
    case Shape(_, _, fields) =>
      FieldsLength(fields);
    case ScalarUnion(_, scalarType, nonScalarType) =>
      IterateLength(nonScalarType);
  }

  lemma {:induction false} FieldsLength(fields: seq<Field>)
    ensures |IterateFields(fields)| == FieldsSize(fields)
    decreases fields
  {
    if fields != [] {
      IterateLength(fields[0].configType);
      FieldsLength(fields[1..]);
    }
  }

  /** The walk of two runs of fields is the walk of the first run, then the walk of the second. */
  lemma {:induction false} FieldsAppend(a: seq<Field>, b: seq<Field>)
    ensures IterateFields(a + b) == IterateFields(a) + IterateFields(b)
    decreases a
  {
    if a == [] {
      assert a + b == b;
    } else {
      assert (a + b)[0] == a[0] && (a + b)[1..] == a[1..] + b;
      FieldsAppend(a[1..], b);
    }
  }

  /**
   * Field order: the walk of the fields is the walk of the fields before
   * field `i`, then the whole walk of field `i`, then the walk of the rest.
   */
  lemma FieldsInOrder(fields: seq<Field>, i: nat)
    requires i < |fields|
    ensures IterateFields(fields)
         == IterateFields(fields[..i]) + Iterate(fields[i].configType) + IterateFields(fields[i + 1..])
  {
    var single := [fields[i]];
    assert fields == fields[..i] + (single + fields[i + 1..]);
    FieldsAppend(fields[..i], single + fields[i + 1..]);
    FieldsAppend(single, fields[i + 1..]);
    assert single[1..] == [];
    assert IterateFields(single) == Iterate(fields[i].configType);
  }

  /**
   * A scalar union lists its scalar type first, then the walk of its
   * non-scalar type, then itself; in the snapshot, the non-scalar side
   * therefore wins over the scalar side for a shared key.
   */
  lemma ScalarSideFirst(t: ConfigType)
    requires t.ScalarUnion?
    ensures Iterate(t)[0] == t.scalarType
    ensures BlockAt(Iterate(t.nonScalarType), Iterate(t), 1)
    ensures |Iterate(t)| == |Iterate(t.nonScalarType)| + 2
  {
    var w := Iterate(t.nonScalarType);
    assert Iterate(t)[1..1 + |w|] == w;
  }

  lemma InfixTransitive<T>(a: seq<T>, b: seq<T>, c: seq<T>)
    requires Infix(a, b) && Infix(b, c)
    ensures Infix(a, c)
  {
    var i :| BlockAt(a, b, i);
    var j :| BlockAt(b, c, j);
    forall k | 0 <= k < |a| ensures c[j + i + k] == a[k] {
      assert c[j..j + |b|][i + k] == b[i + k];
      assert b[i..i + |a|][k] == b[i + k];
    }
    assert c[j + i..j + i + |a|] == a;
    assert BlockAt(a, c, j + i);
  }

  lemma InfixOfConcat<T>(p: seq<T>, a: seq<T>, q: seq<T>)
    ensures Infix(a, p + a + q)
  {
    assert (p + a + q)[|p|..|p| + |a|] == a;
    assert BlockAt(a, p + a + q, |p|);
  }

  /**
   * Post-order: below the root, the walk of every type the walk enters
   * (every type it reaches, except the unwalked scalar side of a union)
   * appears as one contiguous block strictly before the root.
   */
  lemma {:induction false} SubtreeWalksComeFirst(t: ConfigType, d: ConfigType)
    requires Entered(t, d)
    ensures Infix(Iterate(d), Iterate(t)[..|Iterate(t)| - 1])
    decreases t, 0
  {
    var whole := Iterate(t);
    assert whole[..|whole| - 1] + [t] == whole;
    match t
    case Leaf(_, _) =>
    case Array(_, inner) =>
      assert whole[..|whole| - 1] == Iterate(inner);
      ChildWalkInside(inner, d);
    case Noneable(_, inner) =>
      assert whole[..|whole| - 1] == Iterate(inner);
      ChildWalkInside(inner, d);
    case Shape(_, _, fields) =>
      assert whole[..|whole| - 1] == IterateFields(fields);
      FieldWalkInside(fields, d);
    case ScalarUnion(_, scalarType, nonScalarType) =>
      assert whole[..|whole| - 1] == [scalarType] + Iterate(nonScalarType) + [];
      ChildWalkInside(nonScalarType, d);
      InfixOfConcat([scalarType], Iterate(nonScalarType), []);
      InfixTransitive(Iterate(d), Iterate(nonScalarType), [scalarType] + Iterate(nonScalarType) + []);
  }

  /** `d` is a type below `t` whose walk the walk of `t` performs. */
  predicate Entered(t: ConfigType, d: ConfigType)
    decreases t, 0
  {
    match t
    case Leaf(_, _) => false
    case Array(_, inner) => WalkedFrom(inner, d)
    case Noneable(_, inner) => WalkedFrom(inner, d)
    case Shape(_, _, fields) => FieldsWalk(fields, d)
    case ScalarUnion(_, _, nonScalarType) => WalkedFrom(nonScalarType, d)
  }

  /** `d` is `t` or a type below `t` whose walk the walk of `t` performs. */
  predicate WalkedFrom(t: ConfigType, d: ConfigType)
    decreases t, 1
  {
    d == t || Entered(t, d)
  }

  predicate FieldsWalk(fields: seq<Field>, d: ConfigType)
    decreases fields
  {
    fields != [] && (WalkedFrom(fields[0].configType, d) || FieldsWalk(fields[1..], d))
  }

  lemma {:induction false} ChildWalkInside(child: ConfigType, d: ConfigType)
    requires WalkedFrom(child, d)
    ensures Infix(Iterate(d), Iterate(child))
    decreases child, 1
  {
    if d == child {
      assert BlockAt(Iterate(child), Iterate(child), 0);
    } else {
      SubtreeWalksComeFirst(child, d);
      var whole := Iterate(child);
      InfixOfConcat([], whole[..|whole| - 1], [child]);
      assert [] + whole[..|whole| - 1] + [child] == whole;
      InfixTransitive(Iterate(d), whole[..|whole| - 1], whole);
    }
  }

  lemma {:induction false} FieldWalkInside(fields: seq<Field>, d: ConfigType)
    requires FieldsWalk(fields, d)
    ensures Infix(Iterate(d), IterateFields(fields))
    decreases fields
  {
    var first := Iterate(fields[0].configType);
    var rest := IterateFields(fields[1..]);
    if WalkedFrom(fields[0].configType, d) {
      ChildWalkInside(fields[0].configType, d);
      InfixOfConcat([], first, rest);
      assert [] + first + rest == first + rest;
      InfixTransitive(Iterate(d), first, first + rest);
    } else {
      FieldWalkInside(fields[1..], d);
      InfixOfConcat(first, rest, []);
      assert first + rest + [] == first + rest;
      InfixTransitive(Iterate(d), rest, first + rest);
    }
  }

  // ---------------------------------------------------------------------------
  // The schema snapshot

  /**
   * The dictionary comprehension over the walk: entries are inserted in walk
   * order, so a later type with the same key replaces an earlier one. Its keys
   * are the keys of the listed types.
   */
  function Snapshot<S>(walk: seq<ConfigType>, snap: ConfigType -> S): (m: map<string, S>)
    ensures forall i :: 0 <= i < |walk| ==> walk[i].key in m
    ensures forall k :: k in m ==> exists i :: 0 <= i < |walk| && walk[i].key == k
    decreases |walk|
  {
    if walk == [] then map[]
    else
      var front := walk[..|walk| - 1];
      var last := walk[|walk| - 1];
      assert forall i :: 0 <= i < |walk| - 1 ==> front[i] == walk[i];
      Snapshot(front, snap)[last.key := snap(last)]
  }

  /** The later-listed type wins: a type listed after every other type with its key gives that key its snap. */
  lemma {:induction false} SnapshotLaterWins<S>(walk: seq<ConfigType>, snap: ConfigType -> S, i: nat)
    requires i < |walk|
    requires forall j :: i < j < |walk| ==> walk[j].key != walk[i].key
    ensures Snapshot(walk, snap)[walk[i].key] == snap(walk[i])
    decreases |walk|
  {
    if i < |walk| - 1 {
      var front := walk[..|walk| - 1];
      assert front[i] == walk[i];
      SnapshotLaterWins(front, snap, i);
    }
  }

  /**
   * `config_schema_snapshot_from_config_type`: the snapshot of the walk of
   * `t`. The root is listed last, so its own snap is the one kept for its key.
   */
  function SchemaSnapshot<S>(t: ConfigType, snap: ConfigType -> S): (m: map<string, S>)
    ensures t.key in m && m[t.key] == snap(t)
  {
    var walk := Iterate(t);
    SnapshotLaterWins(walk, snap, |walk| - 1);
    Snapshot(walk, snap)
  }

  /** The snapshot's keys are exactly the keys of the types the walk reaches. */
  lemma SnapshotKeysAreReachedKeys<S>(t: ConfigType, snap: ConfigType -> S, k: string)
    ensures k in SchemaSnapshot(t, snap) <==> exists x :: Reaches(t, x) && x.key == k
  {
    var walk := Iterate(t);
    if k in SchemaSnapshot(t, snap) {
      var i :| 0 <= i < |walk| && walk[i].key == k;
      IterateListsReached(t, walk[i]);
    }
    if exists x :: Reaches(t, x) && x.key == k {
      var x :| Reaches(t, x) && x.key == k;
      IterateListsReached(t, x);
      var i :| 0 <= i < |walk| && walk[i] == x;
    }
  }
}
