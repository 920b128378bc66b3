/**
 * The schema-subset computation end to end: validate the root, take its forward
 * closure, optionally extend it by full parents, and keep exactly those entities
 * of the schema, table by table.
 */
module SchemaSubset {
  import opened Wrappers
  import opened SchemaModel
  import opened Closure
  import opened FullParents

  /** Message of the failure for a root that is not an entity of its table. */
  const UnknownRoot: string := "entity not found in schema"

  /** The entries of `table` whose reference of kind `k` is in `c`. */
  function Restrict(table: map<string, set<Ref>>, k: Kind, c: set<Ref>): map<string, set<Ref>>
  {
    map n | n in table && Ref(k, n) in c :: table[n]
  }

  /**
   * `buildSubset`: a new schema holding, in each table, exactly the entities of `s`
   * that are in `c`, with their definitions unchanged. Members of `c` that the schema
   * does not define (dangling references) are dropped; kinds never mix.
   */
  function BuildSubset(s: Schema, c: set<Ref>): (r: Schema)
    ensures forall x :: Defined(r, x) <==> Defined(s, x) && x in c
    ensures forall x :: Defined(r, x) ==> Refs(r, x) == Refs(s, x)
  {
    Schema(Restrict(s.types, TypeKind, c), Restrict(s.resources, ResourceKind, c), Restrict(s.functions, FunctionKind, c))
  }

  /**
   * The members of `c` that the schema defines. A closure keeps the dangling references
   * it met; the entity set handed on to the full-parents pass holds defined names only.
   */
  function DefinedPart(s: Schema, c: set<Ref>): (r: set<Ref>)
    ensures r <= c
    ensures forall x :: x in r <==> x in c && Defined(s, x)
  {
    set x | x in c && Defined(s, x)
  }

  /** The defined part of a closure is closed up to dangling references. */
  lemma DefinedPartClosedUpToDangling(s: Schema, root: Ref, known: set<Ref>)
    requires forall y :: y in known <==> Reachable(s, root, y) && Defined(s, y)
    ensures ClosedUpToDangling(s, known)
  {
    forall x, y | x in known && y in Refs(s, x) && Defined(s, y) ensures y in known {
      ReachableStep(s, root, x, y);
    }
  }

  /** Some defined member of `root`'s closure is reachable from `e`. */
  ghost predicate ParentOfClosure(s: Schema, root: Ref, e: Ref)
  {
    exists y :: Reachable(s, root, y) && Defined(s, y) && Reachable(s, e, y)
  }

  /**
   * Whether `x` belongs to the subset for `root`: reachable from it, or, with full
   * parents, reachable from an entity whose closure meets the defined part of the
   * root's closure.
   */
  ghost predicate InSubset(s: Schema, root: Ref, loadFullParents: bool, x: Ref)
  {
    Reachable(s, root, x)
    || (loadFullParents && exists e :: Defined(s, e) && ParentOfClosure(s, root, e) && Reachable(s, e, x))
  }

  /** `out` is the subset of `s` for `root`: exactly the members in `InSubset`, definitions unchanged. */
  ghost predicate IsSubsetOf(s: Schema, root: Ref, loadFullParents: bool, out: Schema)
  {
    && (forall x :: Defined(out, x) <==> Defined(s, x) && InSubset(s, root, loadFullParents, x))
    && (forall x :: Defined(out, x) ==> Refs(out, x) == Refs(s, x))
  }

  /** `assertContainsOnly`: the three key sets of a schema, compared independently. */
  predicate ContainsOnly(out: Schema, functions: set<string>, resources: set<string>, types: set<string>)
  {
    out.types.Keys == types && out.resources.Keys == resources && out.functions.Keys == functions
  }

  /**
   * The full-parents extension of the defined part of a computed closure is the
   * full-parents subset of its root, on every entity the schema defines.
   */
  lemma FullParentsOfClosure(s: Schema, root: Ref, known: set<Ref>, x: Ref)
    requires forall y :: y in known <==> Reachable(s, root, y) && Defined(s, y)
    ensures InFullParents(s, known, x) ==> InSubset(s, root, true, x)
    ensures Defined(s, x) && InSubset(s, root, true, x) ==> InFullParents(s, known, x)
  {
    if InSubset(s, root, true, x) && !Reachable(s, root, x) {
      var e :| Defined(s, e) && ParentOfClosure(s, root, e) && Reachable(s, e, x);
      var y :| Reachable(s, root, y) && Defined(s, y) && Reachable(s, e, y);
      assert y in known;
      assert Meets(s, e, known);
      FullParentsIncludeParent(s, known, e, x);
    }
    if InFullParents(s, known, x) && x !in known {
      var e :| Defined(s, e) && Meets(s, e, known) && Reachable(s, e, x);
      var y :| y in known && Reachable(s, e, y);
      assert ParentOfClosure(s, root, e);
    }
  }

  /**
   * The subset script: fails for an unknown root; otherwise the closure of the root,
   * with full parents of its defined part when asked, kept table by table. The root is always in
   * the output, in the table of its own kind.
   */
  method ComputeSchemaSubset(s: Schema, rootKind: Kind, rootName: string, loadFullParents: bool)
    returns (r: Result<Schema>)
    ensures r.Failure? <==> rootName !in Table(s, rootKind)
    ensures r.Failure? ==> r.error == UnknownRoot
    ensures r.Success? ==> IsSubsetOf(s, Ref(rootKind, rootName), loadFullParents, r.value)
    ensures r.Success? ==> rootName in Table(r.value, rootKind)
  {
    var root := Ref(rootKind, rootName);
    if rootName !in Table(s, rootKind) {
      return Failure(UnknownRoot);
    }
    var closure := ComputeClosure(s, root);
    ReachableSelf(s, root);
    var subset := closure;
    if loadFullParents {
      var known := DefinedPart(s, closure);
      subset := IncludeFullParents(s, known);
      forall x ensures Defined(s, x) && x in subset <==> Defined(s, x) && InSubset(s, root, true, x) {
        FullParentsOfClosure(s, root, known, x);
      }
    }
    var out := BuildSubset(s, subset);
    assert Defined(out, root);
    r := Success(out);
  }

  /**
   * Subset closure: every reference inside an entity of the output resolves to an
   * entity of the output, or to nothing in the schema at all (a dangling reference).
   */
  lemma SubsetResolves(s: Schema, root: Ref, loadFullParents: bool, out: Schema, x: Ref, y: Ref)
    requires IsSubsetOf(s, root, loadFullParents, out)
    requires Defined(out, x) && y in Refs(out, x)
    ensures Defined(out, y) || !Defined(s, y)
  {
    assert y in Refs(s, x);
    if Reachable(s, root, x) {
      ReachableStep(s, root, x, y);
    } else {
      var e :| Defined(s, e) && ParentOfClosure(s, root, e) && Reachable(s, e, x);
      ReachableStep(s, e, x, y);
    }
  }

  /** Determinism: the output is fixed by the inputs, whatever order the traversals took. */
  lemma SubsetDeterministic(s: Schema, root: Ref, loadFullParents: bool, out1: Schema, out2: Schema)
    requires IsSubsetOf(s, root, loadFullParents, out1) && IsSubsetOf(s, root, loadFullParents, out2)
    ensures out1 == out2
  {
    forall k: Kind ensures Table(out1, k) == Table(out2, k) {
      forall n | n in Table(out1, k) ensures n in Table(out2, k) && Table(out1, k)[n] == Table(out2, k)[n] {
        assert Defined(out1, Ref(k, n));
        assert Refs(out1, Ref(k, n)) == Refs(out2, Ref(k, n));
      }
      forall n | n in Table(out2, k) ensures n in Table(out1, k) {
        assert Defined(out2, Ref(k, n));
      }
    }
    assert Table(out1, TypeKind) == Table(out2, TypeKind);
    assert Table(out1, ResourceKind) == Table(out2, ResourceKind);
    assert Table(out1, FunctionKind) == Table(out2, FunctionKind);
  }

  /** Loading full parents yields a superset of the plain subset, with the same definitions. */
  lemma FullParentsExtendSubset(s: Schema, root: Ref, plain: Schema, full: Schema, x: Ref)
    requires IsSubsetOf(s, root, false, plain) && IsSubsetOf(s, root, true, full)
    requires Defined(plain, x)
    ensures Defined(full, x) && Refs(full, x) == Refs(plain, x)
  {
  }

  /**
   * A type that references nothing else is its own subset, and only in `types`: a
   * resource or function under the same name is not pulled in.
   */
  lemma LeafTypeSubset(s: Schema, name: string, out: Schema)
    requires name in s.types && Refs(s, Ref(TypeKind, name)) <= {Ref(TypeKind, name)}
    requires IsSubsetOf(s, Ref(TypeKind, name), false, out)
    ensures ContainsOnly(out, {}, {}, {name})
  {
    var root := Ref(TypeKind, name);
    ClosureOfLeaf(s, root);
    forall n | n in out.types ensures n == name {
      assert Defined(out, Ref(TypeKind, n));
    }
    assert Defined(out, root);
    forall n | n in out.resources ensures false {
      assert Defined(out, Ref(ResourceKind, n));
    }
    forall n | n in out.functions ensures false {
      assert Defined(out, Ref(FunctionKind, n));
    }
  }

  /**
   * In a schema whose references all point at types, a resource's subset is the
   * resource itself plus exactly the defined types reachable from it.
   */
  lemma ResourceSubset(s: Schema, name: string, out: Schema)
    requires name in s.resources && forall y :: y in Targets(s) ==> y.kind == TypeKind
    requires IsSubsetOf(s, Ref(ResourceKind, name), false, out)
    ensures out.resources.Keys == {name} && out.functions.Keys == {}
    ensures forall n :: n in out.types <==> n in s.types && Reachable(s, Ref(ResourceKind, name), Ref(TypeKind, n))
  {
    var root := Ref(ResourceKind, name);
    ReachableSelf(s, root);
    assert Defined(out, root);
    forall n | n in out.resources ensures n == name {
      assert Defined(out, Ref(ResourceKind, n));
      if n != name { ClosureOnlyTypes(s, root, Ref(ResourceKind, n)); }
    }
    forall n | n in out.functions ensures false {
      assert Defined(out, Ref(FunctionKind, n));
      ClosureOnlyTypes(s, root, Ref(FunctionKind, n));
    }
    forall n ensures n in out.types <==> n in s.types && Reachable(s, root, Ref(TypeKind, n)) {
      assert Defined(out, Ref(TypeKind, n)) <==> Defined(s, Ref(TypeKind, n)) && InSubset(s, root, false, Ref(TypeKind, n));
    }
  }

  /** A function's subset holds the function and every defined type it references. */
  lemma FunctionSubset(s: Schema, name: string, out: Schema, t: string)
    requires name in s.functions
    requires IsSubsetOf(s, Ref(FunctionKind, name), false, out)
    requires Ref(TypeKind, t) in s.functions[name] && t in s.types
    ensures name in out.functions && t in out.types
  {
    var root := Ref(FunctionKind, name);
    ReachableSelf(s, root);
    ReachableStep(s, root, root, Ref(TypeKind, t));
    assert Defined(out, root) && Defined(out, Ref(TypeKind, t));
  }
}
