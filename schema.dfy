/**
 * The provider schema as the subset computation sees it: three tables (types,
 * resources, functions) from a qualified name to the references its definition
 * holds, and reachability along those references.
 */
module SchemaModel {

  /** The three kinds of entity; a name is only meaningful together with its kind. */
  datatype Kind = TypeKind | ResourceKind | FunctionKind

  /** A reference token, decoded: which table, and which qualified name in it. */
  datatype Ref = Ref(kind: Kind, name: string)

  /**
   * A loaded schema. Each definition is abstracted to the set of references found
   * in it; the same name may be a key of several tables, with no relation implied.
   */
  datatype Schema = Schema(
    types: map<string, set<Ref>>,
    resources: map<string, set<Ref>>,
    functions: map<string, set<Ref>>)

  /** The table that holds entities of kind `k`. */
  function Table(s: Schema, k: Kind): map<string, set<Ref>>
  {
    match k
    case TypeKind => s.types
    case ResourceKind => s.resources
    case FunctionKind => s.functions
  }

  /** Whether `x` names an entity of the schema, in the table of its own kind. */
  predicate Defined(s: Schema, x: Ref)
  {
    x.name in Table(s, x.kind)
  }

  /** The references held by `x`'s definition; none for a dangling reference. */
  function Refs(s: Schema, x: Ref): set<Ref>
  {
    if Defined(s, x) then Table(s, x.kind)[x.name] else {}
  }

  /** Every entity of the schema, all three tables. */
  function Entities(s: Schema): set<Ref>
  {
    (set n | n in s.types :: Ref(TypeKind, n))
    + (set n | n in s.resources :: Ref(ResourceKind, n))
    + (set n | n in s.functions :: Ref(FunctionKind, n))
  }

  /** The entities are exactly the defined references. */
  lemma EntitiesAreDefined(s: Schema, x: Ref)
    ensures x in Entities(s) <==> Defined(s, x)
  {
  }

  /** Every reference held by some definition of the schema. */
  ghost function Targets(s: Schema): set<Ref>
  {
    (set n, x | n in s.types && x in s.types[n] :: x)
    + (set n, x | n in s.resources && x in s.resources[n] :: x)
    + (set n, x | n in s.functions && x in s.functions[n] :: x)
  }

  /** What a traversal from `root` can ever touch: the root and every reference in the schema. */
  ghost function Universe(s: Schema, root: Ref): set<Ref>
  {
    {root} + Targets(s)
  }

  /** `C` holds every reference of each of its members. */
  predicate Closed(s: Schema, c: set<Ref>)
  {
    forall x :: x in c ==> Refs(s, x) <= c
  }

  /** `c` holds every defined entity that one of its members references; dangling ones may be missing. */
  predicate ClosedUpToDangling(s: Schema, c: set<Ref>)
  {
    forall x, y :: x in c && y in Refs(s, x) && Defined(s, y) ==> y in c
  }

  /** A walk: a non-empty chain in which each entity references the next. */
  ghost predicate IsWalk(s: Schema, p: seq<Ref>)
  {
    |p| > 0 && forall i :: 0 <= i < |p| - 1 ==> p[i + 1] in Refs(s, p[i])
  }

  /** `b` is reachable from `a` by zero or more references. */
  ghost predicate Reachable(s: Schema, a: Ref, b: Ref)
  {
    exists p :: IsWalk(s, p) && p[0] == a && p[|p| - 1] == b
  }

  lemma RefsInTargets(s: Schema, x: Ref)
    ensures Refs(s, x) <= Targets(s)
  {
    forall y | y in Refs(s, x) ensures y in Targets(s) {
      match x.kind
      case TypeKind => assert y in (set n, z | n in s.types && z in s.types[n] :: z);
      case ResourceKind => assert y in (set n, z | n in s.resources && z in s.resources[n] :: z);
      case FunctionKind => assert y in (set n, z | n in s.functions && z in s.functions[n] :: z);
    }
  }

  /** Every entity reaches itself (the walk of length one): a closure always holds its root. */
  lemma ReachableSelf(s: Schema, a: Ref)
    ensures Reachable(s, a, a)
  {
    assert IsWalk(s, [a]);
  }

  /** Extending a walk by one reference. */
  lemma ReachableStep(s: Schema, a: Ref, b: Ref, c: Ref)
    requires Reachable(s, a, b) && c in Refs(s, b)
    ensures Reachable(s, a, c)
  {
    var p :| IsWalk(s, p) && p[0] == a && p[|p| - 1] == b;
    var q := p + [c];
    forall i | 0 <= i < |q| - 1 ensures q[i + 1] in Refs(s, q[i]) {
      if i < |p| - 1 { assert q[i] == p[i] && q[i + 1] == p[i + 1]; }
    }
    assert IsWalk(s, q);
  }

  /** Reachability is transitive: two walks that meet join into one. */
  lemma ReachableTransitive(s: Schema, a: Ref, b: Ref, c: Ref)
    requires Reachable(s, a, b) && Reachable(s, b, c)
    ensures Reachable(s, a, c)
  {
    var p :| IsWalk(s, p) && p[0] == a && p[|p| - 1] == b;
    var q :| IsWalk(s, q) && q[0] == b && q[|q| - 1] == c;
    var w := p + q[1..];
    forall i | 0 <= i < |w| - 1 ensures w[i + 1] in Refs(s, w[i]) {
      if i < |p| - 1 {
        assert w[i] == p[i] && w[i + 1] == p[i + 1];
      } else {
        var j := i - (|p| - 1);
        assert w[i] == q[j] && w[i + 1] == q[j + 1];
      }
    }
    assert IsWalk(s, w);
    if |q| == 1 { assert w == p; } else { assert w[|w| - 1] == q[|q| - 1]; }
  }

  /** Everything reachable from the root lies in the universe a traversal draws from. */
  lemma ReachableInUniverse(s: Schema, a: Ref, b: Ref)
    requires Reachable(s, a, b)
    ensures b in Universe(s, a)
  {
    var p :| IsWalk(s, p) && p[0] == a && p[|p| - 1] == b;
    if |p| > 1 {
      RefsInTargets(s, p[|p| - 2]);
      assert p[|p| - 1] in Refs(s, p[|p| - 2]);
    }
  }

  /** A walk that starts in a closed set never leaves it. */
  lemma {:induction false} WalkStaysInClosed(s: Schema, p: seq<Ref>, c: set<Ref>)
    requires IsWalk(s, p) && p[0] in c && Closed(s, c)
    ensures p[|p| - 1] in c
    decreases |p|
  {
    if |p| > 1 {
      var q := p[..|p| - 1];
      assert IsWalk(s, q) by {
        forall i | 0 <= i < |q| - 1 ensures q[i + 1] in Refs(s, q[i]) {
          assert q[i] == p[i] && q[i + 1] == p[i + 1];
        }
      }
      WalkStaysInClosed(s, q, c);
      assert p[|p| - 1] in Refs(s, p[|p| - 2]);
    }
  }

  /** The closure is the least closed set holding the root: any such set contains all that is reachable. */
  lemma ReachableStaysInClosed(s: Schema, root: Ref, c: set<Ref>, e: Ref)
    requires root in c && Closed(s, c) && Reachable(s, root, e)
    ensures e in c
  {
    var p :| IsWalk(s, p) && p[0] == root && p[|p| - 1] == e;
    WalkStaysInClosed(s, p, c);
  }

  /** An entity that references nothing but itself has itself alone as closure. */
  lemma ClosureOfLeaf(s: Schema, root: Ref)
    requires Refs(s, root) <= {root}
    ensures forall x :: Reachable(s, root, x) <==> x == root
  {
    ReachableSelf(s, root);
    forall x | Reachable(s, root, x) ensures x == root {
      ReachableStaysInClosed(s, root, {root}, x);
    }
  }

  /** Two entities that reference only each other (or themselves): the closure of the first is exactly both. */
  lemma ClosureOfCycle(s: Schema, a: Ref, b: Ref)
    requires b in Refs(s, a)
    requires Refs(s, a) <= {a, b} && Refs(s, b) <= {a, b}
    ensures forall x :: Reachable(s, a, x) <==> x == a || x == b
  {
    ReachableSelf(s, a);
    ReachableStep(s, a, a, b);
    forall x | Reachable(s, a, x) ensures x == a || x == b {
      ReachableStaysInClosed(s, a, {a, b}, x);
    }
  }

  /**
   * When every reference held in the schema targets a type, a closure holds its root
   * and otherwise types only.
   */
  lemma ClosureOnlyTypes(s: Schema, root: Ref, x: Ref)
    requires forall y :: y in Targets(s) ==> y.kind == TypeKind
    requires Reachable(s, root, x) && x != root
    ensures x.kind == TypeKind
  {
    ReachableInUniverse(s, root, x);
  }
}
