/**
 * The forward closure walker: a worklist seeded with the root and a visited set
 * that is checked before an entity is expanded, so reference cycles terminate.
 */
module Closure {
  import opened SchemaModel

  /** Every member of `c` is reachable from `root`. */
  ghost predicate AllReachable(s: Schema, root: Ref, c: set<Ref>)
  {
    forall x :: x in c ==> Reachable(s, root, x)
  }

  /** The worklist invariant: each visited entity's references are visited or still queued. */
  predicate ClosedUpTo(s: Schema, visited: set<Ref>, work: set<Ref>)
  {
    forall x :: x in visited ==> Refs(s, x) <= visited + work
  }

  /** Visiting a queued entity and queueing all its references keeps the worklist invariant. */
  lemma VisitKeepsInvariant(s: Schema, root: Ref, visited: set<Ref>, work: set<Ref>, x: Ref)
    requires x in work && x !in visited
    requires AllReachable(s, root, visited + work) && ClosedUpTo(s, visited, work)
    requires visited + work <= Universe(s, root)
    ensures var visited', work' := visited + {x}, (work - {x}) + Refs(s, x);
      && AllReachable(s, root, visited' + work')
      && ClosedUpTo(s, visited', work')
      && visited' + work' <= Universe(s, root)
      && |Universe(s, root) - visited'| < |Universe(s, root) - visited|
  {
    var visited', work' := visited + {x}, (work - {x}) + Refs(s, x);
    RefsInTargets(s, x);
    forall y | y in Refs(s, x) ensures Reachable(s, root, y) {
      ReachableStep(s, root, x, y);
    }
    assert visited' + work' == visited + work + Refs(s, x);
    assert Universe(s, root) - visited' == (Universe(s, root) - visited) - {x};
  }

  /** Dropping a queued entity that is already visited keeps the worklist invariant. */
  lemma SkipKeepsInvariant(s: Schema, root: Ref, visited: set<Ref>, work: set<Ref>, x: Ref)
    requires x in work && x in visited
    requires AllReachable(s, root, visited + work) && ClosedUpTo(s, visited, work)
    ensures AllReachable(s, root, visited + (work - {x})) && ClosedUpTo(s, visited, work - {x})
  {
    assert visited + (work - {x}) == visited + work;
  }

  /**
   * The closure of `root`, computed with a worklist. Every reference found is queued,
   * and an entry already visited is skipped when it is taken; a dangling one is marked
   * visited and not expanded. The result is the reachable set whatever order entries
   * are taken in.
   */
  method ComputeClosure(s: Schema, root: Ref) returns (visited: set<Ref>)
    ensures forall x :: x in visited <==> Reachable(s, root, x)
  {
    ghost var universe := Universe(s, root);
    visited := {};
    var work := {root};
    ReachableSelf(s, root);
    while work != {}
      invariant visited + work <= universe
      invariant root in visited + work
      invariant AllReachable(s, root, visited + work)
      invariant ClosedUpTo(s, visited, work)
      decreases |universe - visited|, |work|
    {
      var x :| x in work;
      if x in visited {
        SkipKeepsInvariant(s, root, visited, work, x);
        work := work - {x};
      } else {
        VisitKeepsInvariant(s, root, visited, work, x);
        var found := if x.name in Table(s, x.kind) then Table(s, x.kind)[x.name] else {};
        assert found == Refs(s, x);
        visited := visited + {x};
        work := (work - {x}) + found;
      }
    }
    forall x | Reachable(s, root, x) ensures x in visited {
      ReachableStaysInClosed(s, root, visited, x);
    }
  }
}
