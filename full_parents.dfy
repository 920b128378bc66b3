/**
 * The "load full parents" pass: walk every entity of the whole schema and add the
 * entire closure of each one whose closure meets the current subset.
 */
module FullParents {
  import opened SchemaModel
  import opened Closure

  /** The closure of `e` meets `target`: some member of `target` is reachable from `e`. */
  ghost predicate Meets(s: Schema, e: Ref, target: set<Ref>)
  {
    exists y :: y in target && Reachable(s, e, y)
  }

  /** `x` lies in the closure of some member of `es` whose closure meets `target`. */
  ghost predicate InParentClosure(s: Schema, target: set<Ref>, es: set<Ref>, x: Ref)
  {
    exists e :: e in es && Meets(s, e, target) && Reachable(s, e, x)
  }

  /**
   * Membership in the full-parents extension of `target`: `x` is in `target`, or in the
   * closure of an entity anywhere in the schema whose closure meets `target`.
   */
  ghost predicate InFullParents(s: Schema, target: set<Ref>, x: Ref)
  {
    x in target || exists e :: Defined(s, e) && Meets(s, e, target) && Reachable(s, e, x)
  }

  /** A computed closure meets the target exactly when its set intersects it. */
  lemma MeetsIffIntersects(s: Schema, e: Ref, closure: set<Ref>, target: set<Ref>)
    requires forall x :: x in closure <==> Reachable(s, e, x)
    ensures closure * target != {} <==> Meets(s, e, target)
  {
    if Meets(s, e, target) {
      var y :| y in target && Reachable(s, e, y);
      assert y in closure * target;
    }
  }

  /** Scanning one more entity: its closure is added exactly when it meets the target. */
  lemma ScanStep(s: Schema, target: set<Ref>, scanned: set<Ref>, e: Ref, closure: set<Ref>, result: set<Ref>)
    requires forall x :: x in closure <==> Reachable(s, e, x)
    requires forall x :: x in result <==> x in target || InParentClosure(s, target, scanned, x)
    ensures var result' := if closure * target != {} then result + closure else result;
      forall x :: x in result' <==> x in target || InParentClosure(s, target, scanned + {e}, x)
  {
    MeetsIffIntersects(s, e, closure, target);
    forall x | InParentClosure(s, target, scanned + {e}, x) && !InParentClosure(s, target, scanned, x)
      ensures Meets(s, e, target) && x in closure
    {
      var e' :| e' in scanned + {e} && Meets(s, e', target) && Reachable(s, e', x);
      assert e' == e;
    }
  }

  /**
   * The loop of `includeFullParents` over the entities `es`: each one's closure is
   * computed and, when it meets `target`, unioned into the result.
   */
  method ScanEntities(s: Schema, target: set<Ref>, es: set<Ref>) returns (result: set<Ref>)
    ensures forall x :: x in result <==> x in target || InParentClosure(s, target, es, x)
  {
    result := target;
    var remaining := es;
    ghost var scanned: set<Ref> := {};
    while remaining != {}
      invariant remaining + scanned == es
      invariant forall x :: x in result <==> x in target || InParentClosure(s, target, scanned, x)
      decreases |remaining|
    {
      var e :| e in remaining;
      var closure := ComputeClosure(s, e);
      ScanStep(s, target, scanned, e, closure, result);
      if closure * target != {} {
        result := result + closure;
      }
      remaining := remaining - {e};
      scanned := scanned + {e};
    }
    assert scanned == es;
  }

  /** `includeFullParents`: the scan runs over every entity of the whole schema, all three tables. */
  method IncludeFullParents(s: Schema, target: set<Ref>) returns (result: set<Ref>)
    ensures forall x :: x in result <==> InFullParents(s, target, x)
  {
    result := ScanEntities(s, target, Entities(s));
    forall e | e in Entities(s) || Defined(s, e) ensures e in Entities(s) <==> Defined(s, e) {
      EntitiesAreDefined(s, e);
    }
  }

  /** The pass only ever adds: the subset is kept. */
  lemma FullParentsSuperset(s: Schema, target: set<Ref>, x: Ref)
    requires x in target
    ensures InFullParents(s, target, x)
  {
  }

  /** Every entity whose closure meets the subset is added, together with its whole closure. */
  lemma FullParentsIncludeParent(s: Schema, target: set<Ref>, e: Ref, x: Ref)
    requires Defined(s, e) && Meets(s, e, target) && Reachable(s, e, x)
    ensures InFullParents(s, target, x)
  {
  }

  /**
   * Applied to the defined part of a forward closure of a defined root, the pass reaches
   * every ancestor of the root, however distant: an entity from which the root is
   * reachable is added with its whole closure.
   */
  lemma FullParentsIncludeAncestors(s: Schema, root: Ref, known: set<Ref>, e: Ref, x: Ref)
    requires Defined(s, root)
    requires forall y :: y in known <==> Reachable(s, root, y) && Defined(s, y)
    requires Defined(s, e) && Reachable(s, e, root) && Reachable(s, e, x)
    ensures InFullParents(s, known, e) && InFullParents(s, known, x)
  {
    ReachableSelf(s, root);
    ReachableSelf(s, e);
    assert root in known;
    FullParentsIncludeParent(s, known, e, e);
    FullParentsIncludeParent(s, known, e, x);
  }

  /**
   * Extending a closed subset keeps it closed: every reference of an added entity is
   * added too. The set the subset computation passes is closed only up to dangling
   * references; `FullParentsClosedUpToDangling` covers that case.
   */
  lemma FullParentsClosed(s: Schema, target: set<Ref>, x: Ref, y: Ref)
    requires Closed(s, target)
    requires InFullParents(s, target, x) && y in Refs(s, x)
    ensures InFullParents(s, target, y)
  {
    if x !in target {
      var e :| Defined(s, e) && Meets(s, e, target) && Reachable(s, e, x);
      ReachableStep(s, e, x, y);
      FullParentsIncludeParent(s, target, e, y);
    }
  }

  /**
   * The same for a subset closed up to dangling references, such as the defined part
   * of a closure: every defined reference of an entity of the extension is in it.
   */
  lemma FullParentsClosedUpToDangling(s: Schema, target: set<Ref>, x: Ref, y: Ref)
    requires ClosedUpToDangling(s, target)
    requires InFullParents(s, target, x) && y in Refs(s, x) && Defined(s, y)
    ensures InFullParents(s, target, y)
  {
    if x !in target {
      var e :| Defined(s, e) && Meets(s, e, target) && Reachable(s, e, x);
      ReachableStep(s, e, x, y);
      FullParentsIncludeParent(s, target, e, y);
    }
  }
}
