/**
 * The scenarios of ComputeSchemaSubsetScriptTest.kt on small schemas that keep only
 * the references each scenario depends on, stated over the output of the subset
 * computation and compared, as the tests do, as three key sets.
 */
module SubsetScenarios {
  import opened SchemaModel
  import opened SchemaSubset

  const Filter: string := "aws:fsx/getOpenZfsSnapshotFilter:getOpenZfsSnapshotFilter"
  const GetSnapshot: string := "aws:fsx/getOpenZfsSnapshot:getOpenZfsSnapshot"

  /** A function that references a type. */
  function SnapshotSchema(): Schema
  {
    Schema(map[Filter := {}], map[], map[GetSnapshot := {Ref(TypeKind, Filter)}])
  }

  /** The type on its own: exactly itself. */
  lemma TypeItself(out: Schema)
    requires IsSubsetOf(SnapshotSchema(), Ref(TypeKind, Filter), false, out)
    ensures ContainsOnly(out, {}, {}, {Filter})
  {
    LeafTypeSubset(SnapshotSchema(), Filter, out);
  }

  /** The function: itself and the type it references. */
  lemma FunctionWithType(out: Schema)
    requires IsSubsetOf(SnapshotSchema(), Ref(FunctionKind, GetSnapshot), false, out)
    ensures ContainsOnly(out, {GetSnapshot}, {}, {Filter})
  {
    var s, f, t := SnapshotSchema(), Ref(FunctionKind, GetSnapshot), Ref(TypeKind, Filter);
    assert Refs(s, f) == {t};
    assert Refs(s, t) == {};
    assert Closed(s, {f, t});
    forall x | Reachable(s, f, x) ensures x == f || x == t {
      ReachableStaysInClosed(s, f, {f, t}, x);
    }
    FunctionSubset(s, GetSnapshot, out, Filter);
    forall n | n in out.types ensures n == Filter { assert Defined(out, Ref(TypeKind, n)); }
    forall n | n in out.functions ensures n == GetSnapshot { assert Defined(out, Ref(FunctionKind, n)); }
    forall n | n in out.resources ensures false { assert Defined(out, Ref(ResourceKind, n)); }
  }

  /** With full parents, the defined members of the filter type's subset are the type and the function. */
  lemma SnapshotSubsetMembers(x: Ref)
    ensures Defined(SnapshotSchema(), x) && InSubset(SnapshotSchema(), Ref(TypeKind, Filter), true, x)
        <==> x == Ref(FunctionKind, GetSnapshot) || x == Ref(TypeKind, Filter)
  {
    var s, f, t := SnapshotSchema(), Ref(FunctionKind, GetSnapshot), Ref(TypeKind, Filter);
    assert Refs(s, f) == {t};
    ReachableSelf(s, t);
    ReachableSelf(s, f);
    ReachableStep(s, f, f, t);
    assert Defined(s, t);
    assert ParentOfClosure(s, t, f);
    if Defined(s, x) {
      assert x == f || x == t;
    }
  }

  /** The type with full parents: the function that references it comes in as well. */
  lemma TypeWithFullParents(out: Schema)
    requires IsSubsetOf(SnapshotSchema(), Ref(TypeKind, Filter), true, out)
    ensures ContainsOnly(out, {GetSnapshot}, {}, {Filter})
  {
    var f, t := Ref(FunctionKind, GetSnapshot), Ref(TypeKind, Filter);
    SnapshotSubsetMembers(f);
    SnapshotSubsetMembers(t);
    assert Defined(out, f) && Defined(out, t);
    forall n | n in out.types ensures n == Filter {
      SnapshotSubsetMembers(Ref(TypeKind, n));
      assert Defined(out, Ref(TypeKind, n));
    }
    forall n | n in out.functions ensures n == GetSnapshot {
      SnapshotSubsetMembers(Ref(FunctionKind, n));
      assert Defined(out, Ref(FunctionKind, n));
    }
    forall n | n in out.resources ensures false {
      SnapshotSubsetMembers(Ref(ResourceKind, n));
      assert Defined(out, Ref(ResourceKind, n));
    }
  }

  const IpAllocationMethod: string := "azure-native:network:IPAllocationMethod"

  /** The same name as a type and as a resource that references it. */
  function KeyConflictSchema(): Schema
  {
    Schema(map[IpAllocationMethod := {}], map[IpAllocationMethod := {Ref(TypeKind, IpAllocationMethod)}], map[])
  }

  /** Key conflicts: the resource of the same name stays out. */
  lemma KeyConflict(out: Schema)
    requires IsSubsetOf(KeyConflictSchema(), Ref(TypeKind, IpAllocationMethod), false, out)
    ensures ContainsOnly(out, {}, {}, {IpAllocationMethod})
  {
    LeafTypeSubset(KeyConflictSchema(), IpAllocationMethod, out);
  }

  const RunResponse: string := "azure-native:batch:AutoScaleRunResponse"
  const RunErrorResponse: string := "azure-native:batch:AutoScaleRunErrorResponse"

  /** A response type referencing an error type that references itself. */
  function RecursionSchema(): Schema
  {
    Schema(
      map[RunResponse := {Ref(TypeKind, RunErrorResponse)}, RunErrorResponse := {Ref(TypeKind, RunErrorResponse)}],
      map[], map[])
  }

  /** Recursive references: the traversal ends with exactly the two types. */
  lemma RecursiveReferences(out: Schema)
    requires IsSubsetOf(RecursionSchema(), Ref(TypeKind, RunResponse), false, out)
    ensures ContainsOnly(out, {}, {}, {RunResponse, RunErrorResponse})
  {
    var s, a, b := RecursionSchema(), Ref(TypeKind, RunResponse), Ref(TypeKind, RunErrorResponse);
    assert Refs(s, a) == {b} && Refs(s, b) == {b};
    ClosureOfCycle(s, a, b);
    assert Defined(out, a) && Defined(out, b);
    forall n | n in out.types ensures n == RunResponse || n == RunErrorResponse {
      assert Defined(out, Ref(TypeKind, n));
    }
    forall n | n in out.resources ensures false { assert Defined(out, Ref(ResourceKind, n)); }
    forall n | n in out.functions ensures false { assert Defined(out, Ref(FunctionKind, n)); }
  }

  const LambdaFunction: string := "aws:lambda/function:Function"
  const TracingConfig: string := "aws:lambda/FunctionTracingConfig:FunctionTracingConfig"
  const VpcConfig: string := "aws:lambda/FunctionVpcConfig:FunctionVpcConfig"
  const Unrelated: string := "aws:fsx/getOpenZfsSnapshotFilter:getOpenZfsSnapshotFilter"

  const Runtime: string := "aws:lambda/Runtime:Runtime"
  const DeadLetterConfig: string := "aws:lambda/FunctionDeadLetterConfig:FunctionDeadLetterConfig"
  const Environment: string := "aws:lambda/FunctionEnvironment:FunctionEnvironment"
  const EphemeralStorage: string := "aws:lambda/FunctionEphemeralStorage:FunctionEphemeralStorage"
  const FileSystemConfig: string := "aws:lambda/FunctionFileSystemConfig:FunctionFileSystemConfig"
  const ImageConfig: string := "aws:lambda/FunctionImageConfig:FunctionImageConfig"

  /** The eight types the lambda resource references. */
  function LambdaTypeNames(): set<string>
  {
    {Runtime, DeadLetterConfig, Environment, EphemeralStorage, FileSystemConfig, ImageConfig, TracingConfig, VpcConfig}
  }

  /**
   * The lambda resource referencing its eight types, beside the snapshot filter type,
   * which nothing here references. Each of the eight types references nothing.
   */
  function LambdaResourceSchema(): Schema
  {
    Schema(
      map n | n in LambdaTypeNames() + {Unrelated} :: {},
      map[LambdaFunction := set n | n in LambdaTypeNames() :: Ref(TypeKind, n)],
      map[])
  }

  /** From the lambda resource, exactly the resource and its eight types are reachable. */
  lemma LambdaResourceReaches(x: Ref)
    ensures Reachable(LambdaResourceSchema(), Ref(ResourceKind, LambdaFunction), x)
        <==> x == Ref(ResourceKind, LambdaFunction) || (x.kind == TypeKind && x.name in LambdaTypeNames())
  {
    var s, r := LambdaResourceSchema(), Ref(ResourceKind, LambdaFunction);
    var c := {r} + set n | n in LambdaTypeNames() :: Ref(TypeKind, n);
    assert Refs(s, r) == c - {r};
    forall y | y in c ensures Refs(s, y) <= c {
      if y != r { assert Refs(s, y) == {}; }
    }
    if Reachable(s, r, x) {
      ReachableStaysInClosed(s, r, c, x);
    }
    ReachableSelf(s, r);
    if x.kind == TypeKind && x.name in LambdaTypeNames() {
      assert x in Refs(s, r);
      ReachableStep(s, r, r, x);
    }
  }

  /** The entities of the lambda resource schema. */
  lemma LambdaResourceDefined(x: Ref)
    ensures Defined(LambdaResourceSchema(), x)
        <==> x == Ref(ResourceKind, LambdaFunction) || (x.kind == TypeKind && x.name in LambdaTypeNames() + {Unrelated})
  {
  }

  /** A type is in the resource's subset exactly when the resource references it. */
  lemma LambdaResourceType(out: Schema, n: string)
    requires IsSubsetOf(LambdaResourceSchema(), Ref(ResourceKind, LambdaFunction), false, out)
    ensures n in out.types <==> n in LambdaTypeNames()
  {
    var s, r, x := LambdaResourceSchema(), Ref(ResourceKind, LambdaFunction), Ref(TypeKind, n);
    LambdaResourceReaches(x);
    LambdaResourceDefined(x);
    assert Defined(out, x) <==> Defined(s, x) && InSubset(s, r, false, x);
  }

  /** The resource on its own: itself and the eight types it references, as the resource test asserts. */
  lemma LambdaResourceAlone(out: Schema)
    requires IsSubsetOf(LambdaResourceSchema(), Ref(ResourceKind, LambdaFunction), false, out)
    ensures ContainsOnly(out, {}, {LambdaFunction}, LambdaTypeNames())
  {
    var s, r := LambdaResourceSchema(), Ref(ResourceKind, LambdaFunction);
    LambdaResourceReaches(r);
    LambdaResourceDefined(r);
    assert Defined(out, r);
    forall n ensures n in out.types <==> n in LambdaTypeNames() {
      LambdaResourceType(out, n);
    }
    forall n | n in out.resources ensures n == LambdaFunction {
      var x := Ref(ResourceKind, n);
      LambdaResourceReaches(x);
      assert Defined(out, x);
    }
    forall n | n in out.functions ensures false {
      var x := Ref(FunctionKind, n);
      LambdaResourceReaches(x);
      assert Defined(out, x);
    }
  }


  /** Apart from the resource, every entity of the lambda resource schema is reached by itself alone. */
  lemma LeafReachedOnlyByItself(e: Ref, n: string)
    requires n in LambdaTypeNames() + {Unrelated}
    requires e != Ref(ResourceKind, LambdaFunction)
    ensures Reachable(LambdaResourceSchema(), e, Ref(TypeKind, n)) ==> e == Ref(TypeKind, n)
  {
    var s := LambdaResourceSchema();
    assert Refs(s, e) == {};
    ClosureOfLeaf(s, e);
  }

  /** Only the unrelated type itself reaches the unrelated type. */
  lemma OnlyItselfReachesUnrelated(e: Ref)
    ensures Reachable(LambdaResourceSchema(), e, Ref(TypeKind, Unrelated)) ==> e == Ref(TypeKind, Unrelated)
  {
    if e == Ref(ResourceKind, LambdaFunction) {
      LambdaResourceReaches(Ref(TypeKind, Unrelated));
    } else {
      LeafReachedOnlyByItself(e, Unrelated);
    }
  }

  /** The unrelated type is outside the full-parents subset of the tracing config. */
  lemma UnrelatedOutsideSubset()
    ensures !InSubset(LambdaResourceSchema(), Ref(TypeKind, TracingConfig), true, Ref(TypeKind, Unrelated))
  {
    var s, t, u := LambdaResourceSchema(), Ref(TypeKind, TracingConfig), Ref(TypeKind, Unrelated);
    if Reachable(s, t, u) {
      LeafReachedOnlyByItself(t, Unrelated);
    }
    forall e | Reachable(s, e, u) ensures !ParentOfClosure(s, t, e) {
      OnlyItselfReachesUnrelated(e);
      UnrelatedNotParent();
    }
  }

  /** The unrelated type reaches nothing of the tracing config's closure. */
  lemma UnrelatedNotParent()
    ensures !ParentOfClosure(LambdaResourceSchema(), Ref(TypeKind, TracingConfig), Ref(TypeKind, Unrelated))
  {
    var s, t, u := LambdaResourceSchema(), Ref(TypeKind, TracingConfig), Ref(TypeKind, Unrelated);
    if ParentOfClosure(s, t, u) {
      var y :| Reachable(s, t, y) && Defined(s, y) && Reachable(s, u, y);
      assert Refs(s, t) == {};
      ClosureOfLeaf(s, t);
      LeafReachedOnlyByItself(u, TracingConfig);
    }
  }

  /**
   * The defined members of the full-parents subset of the tracing config: the resource,
   * a parent of it, and everything the resource reaches.
   */
  lemma LambdaSubsetMembers(x: Ref)
    ensures Defined(LambdaResourceSchema(), x) && InSubset(LambdaResourceSchema(), Ref(TypeKind, TracingConfig), true, x)
        <==> x == Ref(ResourceKind, LambdaFunction) || (x.kind == TypeKind && x.name in LambdaTypeNames())
  {
    var s, t, r := LambdaResourceSchema(), Ref(TypeKind, TracingConfig), Ref(ResourceKind, LambdaFunction);
    LambdaResourceDefined(x);
    LambdaResourceReaches(x);
    LambdaResourceReaches(t);
    ReachableSelf(s, t);
    assert Defined(s, t) && Defined(s, r);
    assert ParentOfClosure(s, t, r);
    UnrelatedOutsideSubset();
  }

  /**
   * Full parents of one of the resource's types: the resource comes in with its whole
   * closure, all eight of its types; the unrelated type stays out.
   */
  lemma ParentWithWholeClosure(out: Schema)
    requires IsSubsetOf(LambdaResourceSchema(), Ref(TypeKind, TracingConfig), true, out)
    ensures ContainsOnly(out, {}, {LambdaFunction}, LambdaTypeNames())
  {
    forall n ensures n in out.types <==> n in LambdaTypeNames() {
      LambdaSubsetMembers(Ref(TypeKind, n));
      assert Defined(out, Ref(TypeKind, n)) <==> n in out.types;
    }
    forall n ensures n in out.resources <==> n == LambdaFunction {
      LambdaSubsetMembers(Ref(ResourceKind, n));
      assert Defined(out, Ref(ResourceKind, n)) <==> n in out.resources;
    }
    forall n | n in out.functions ensures false {
      LambdaSubsetMembers(Ref(FunctionKind, n));
      assert Defined(out, Ref(FunctionKind, n));
    }
  }

  const Alpha: string := "provider:index:Alpha"
  const Beta: string := "provider:index:Beta"
  const Missing: string := "other:index:Missing"

  /** Two types whose only reference is to the same type of another provider's schema. */
  function DanglingSchema(): Schema
  {
    Schema(map[Alpha := {Ref(TypeKind, Missing)}, Beta := {Ref(TypeKind, Missing)}], map[], map[])
  }

  /** A type reaches itself and the dangling reference, nothing more. */
  lemma DanglingClosure(e: Ref, x: Ref)
    requires e == Ref(TypeKind, Alpha) || e == Ref(TypeKind, Beta)
    requires Reachable(DanglingSchema(), e, x)
    ensures x == e || x == Ref(TypeKind, Missing)
  {
    var s, m := DanglingSchema(), Ref(TypeKind, Missing);
    assert Refs(s, e) == {m} && Refs(s, m) == {};
    assert Closed(s, {e, m});
    ReachableStaysInClosed(s, e, {e, m}, x);
  }

  /**
   * A shared dangling reference does not make a full parent: the only defined member
   * of `Alpha`'s closure is `Alpha`, which `Beta` does not reach.
   */
  lemma SharedDanglingReferenceNoParent()
    ensures !InSubset(DanglingSchema(), Ref(TypeKind, Alpha), true, Ref(TypeKind, Beta))
  {
    var s, a, b := DanglingSchema(), Ref(TypeKind, Alpha), Ref(TypeKind, Beta);
    if Reachable(s, a, b) {
      DanglingClosure(a, b);
    }
    forall e | Defined(s, e) && Reachable(s, e, b) ensures !ParentOfClosure(s, a, e) {
      if ParentOfClosure(s, a, e) {
        var y :| Reachable(s, a, y) && Defined(s, y) && Reachable(s, e, y);
        DanglingClosure(a, y);
        assert e == a || e == b;
        DanglingClosure(e, y);
        if e == a { DanglingClosure(a, b); }
      }
    }
  }
}
