/** The "Add annotation" intention of actions/AddAnnotation.kt: it collects the
    binding targets of a Python file that can be annotated and are not yet,
    and annotates each one, with a PEP 526 variable annotation from Python 3.6
    on or a PEP 484 type comment before that. */
module Actions {
  import opened Util
  import opened Psi
  import opened TypeHint
  import opened HostInsert

  predicate IsTargetOrReference(s: Site) {
    s.node.kind.TargetExpr? || s.node.kind.ReferenceExpr?
  }

  /** `traverseTree`: the target and reference expressions of the file, in pre-order. */
  method TraverseTree(file: PyFileModel) returns (r: seq<Site>)
    ensures r == Filter(PreOrder(file.root, []), IsTargetOrReference)
    ensures forall s :: s in r ==> s in PreOrder(file.root, []) && IsTargetOrReference(s)
  {
    r := Traverse(file.root, [], IsTargetOrReference, []);
    forall s | s in r
      ensures s in PreOrder(file.root, []) && IsTargetOrReference(s)
    {
      FilterKeeps(PreOrder(file.root, []), IsTargetOrReference, s);
    }
  }

  /** `findSuitableTargetsUnderCaret`: the walk's target expressions (reference
      expressions are dropped), outside library files, that can be annotated
      and are not yet annotated, in pre-order. */
  method FindSuitableTargetsUnderCaret(file: PyFileModel) returns (targets: seq<Site>)
    ensures targets == SuitableTargets(file)
    ensures forall s :: s in targets <==> s in PreOrder(file.root, []) && Suitable(file, s)
  {
    var walked := TraverseTree(file);
    var expressions := Filter(walked, IsTargetSite);
    var local := Filter(expressions, (s: Site) => !file.inLibrary);
    var annotatable := Filter(local, CanBeAnnotated);
    targets := Filter(annotatable, (s: Site) => IsTargetSite(s) && !IsAnnotated(s.node.kind.facts));

    var all := PreOrder(file.root, []);
    var p1 := (s: Site) => IsTargetSite(s) && !file.inLibrary;
    var p2 := (s: Site) => IsTargetSite(s) && !file.inLibrary && CanBeAnnotated(s);
    var p3 := (s: Site) => Suitable(file, s);
    FilterFilter(all, IsTargetOrReference, IsTargetSite, IsTargetSite);
    FilterFilter(all, IsTargetSite, (s: Site) => !file.inLibrary, p1);
    FilterFilter(all, p1, CanBeAnnotated, p2);
    FilterFilter(all, p2, (s: Site) => IsTargetSite(s) && !IsAnnotated(s.node.kind.facts), p3);
    SuitableTargetsMembers(file);
  }

  /** `isAvailable`: a Python file that is not a docstring, with an editor, that
      has a target to annotate. */
  method IsAvailable(file: PyFileModel, hasEditor: bool) returns (available: bool)
    ensures available <==> file.kind.PythonFile? && hasEditor && SuitableTargets(file) != []
    ensures available ==> !file.inLibrary
  {
    if !file.kind.PythonFile? || !hasEditor {
      return false;
    }
    var resolved := FindSuitableTargetsUnderCaret(file);
    available := |resolved| > 0;
    SuitableTargetsMembers(file);
  }

  /** `preferSyntacticAnnotation`: Python 3.6 and later have variable annotations. */
  function PreferSyntacticAnnotation(level: LanguageLevel): (r: bool)
    ensures r <==> level.major > 3 || (level.major == 3 && level.minor >= 6)
  {
    level.IsAtLeast(Python36)
  }

  /** The call `insertVariableAnnotation` makes, or None when the target's
      inferred type is not PEP 484 compatible. The info carries the text "Any"
      with the inferred type; the type's own hint text is computed and dropped. */
  function VariableAnnotationCall(s: Site, o: Oracle): (c: Option<HostCall>)
    requires IsTargetSite(s)
    ensures c.None? <==> !o.compatible(GetInferredTypeOrObject(o, s.node))
    ensures c.Some? ==> c.value.op.IsSyntactic() && c.value.info == Whole("Any", GetInferredTypeOrObject(o, s.node))
    ensures c.Some? ==> c.value == Dispatch(s, true, Whole("Any", GetInferredTypeOrObject(o, s.node)))
  {
    var inferredType := GetInferredTypeOrObject(o, s.node);
    if !o.compatible(inferredType) then None
    else Some(Dispatch(s, true, Whole("Any", inferredType)))
  }

  /** The call `insertVariableTypeComment` makes, or None when some leaf of the
      target's pattern is not PEP 484 compatible. */
  function TypeCommentCall(s: Site, o: Oracle): (c: Option<HostCall>)
    requires Annotatable(s)
    ensures c.None? <==> !AllCompatible(Leaves(TopmostTarget(s)), o)
    ensures c.Some? ==> !c.value.op.IsSyntactic() && c.value.info.Nested?
    ensures c.Some? ==> Serialises(c.value.info.hint, TopmostTarget(s), o, 0)
    ensures c.Some? ==> TypeCommentInfo(s, o).Some? && c.value == Dispatch(s, false, TypeCommentInfo(s, o).value)
  {
    NestedHintCorrect(TopmostTarget(s), o, 0);
    match TypeCommentInfo(s, o)
    case None => None
    case Some(info) => Some(Dispatch(s, false, info))
  }

  /** What `doInvoke` does for one target: the host call it makes, or None when
      the target's type is incompatible and the exception is swallowed. */
  function PlannedCall(file: PyFileModel, s: Site, o: Oracle): (c: Option<HostCall>)
    requires Annotatable(s)
    ensures file.level.IsAtLeast(Python36) ==> (c.None? <==> !o.compatible(GetInferredTypeOrObject(o, s.node)))
    ensures !file.level.IsAtLeast(Python36) ==> (c.None? <==> !AllCompatible(Leaves(TopmostTarget(s)), o))
    ensures c.Some? ==> (c.value.op.IsSyntactic() <==> file.level.IsAtLeast(Python36))
  {
    if PreferSyntacticAnnotation(file.level) then VariableAnnotationCall(s, o) else TypeCommentCall(s, o)
  }

  function Planner(file: PyFileModel, o: Oracle): Site --> Option<HostCall> {
    (s: Site) requires Annotatable(s) => PlannedCall(file, s, o)
  }

  /** Every suitable target is annotatable. */
  lemma SuitableAnnotatable(file: PyFileModel, o: Oracle)
    ensures forall s :: s in SuitableTargets(file) ==> Annotatable(s)
    ensures forall s :: s in SuitableTargets(file) ==> Planner(file, o).requires(s)
  {
    SuitableTargetsMembers(file);
  }

  /** One target's step in the invoke loop. */
  method InsertFor(file: PyFileModel, s: Site, o: Oracle) returns (c: Option<HostCall>)
    requires Annotatable(s)
    ensures c == PlannedCall(file, s, o)
  {
    if PreferSyntacticAnnotation(file.level) {
      c := VariableAnnotationCall(s, o);
    } else {
      var info := GenerateNestedTypeHint(s, o);
      if info.None? {
        c := None;
      } else {
        c := Some(Dispatch(s, false, info.value));
      }
    }
  }

  /** `doInvoke`: annotates every suitable target in turn; a target whose type
      is incompatible is skipped and the loop goes on. Returns the host calls
      made, in order. */
  method DoInvoke(file: PyFileModel, hasEditor: bool, o: Oracle) returns (calls: seq<HostCall>)
    ensures !hasEditor ==> calls == []
    ensures hasEditor ==> calls == Successes(SuitableTargets(file), Planner(file, o))
  {
    calls := [];
    if !hasEditor {
      return;
    }
    var targets := FindSuitableTargetsUnderCaret(file);
    SuitableAnnotatable(file, o);
    calls := InsertAll(file, targets, o);
  }

  /** The loop of `doInvoke`: each target's planned call, where it succeeds. */
  method InsertAll(file: PyFileModel, targets: seq<Site>, o: Oracle) returns (calls: seq<HostCall>)
    requires forall s :: s in targets ==> Annotatable(s)
    ensures calls == Successes(targets, Planner(file, o))
  {
    calls := [];
    var i := 0;
    while i < |targets|
      invariant i <= |targets|
      invariant calls == Successes(targets[..i], Planner(file, o))
    {
      var c := InsertFor(file, targets[i], o);
      assert targets[..i + 1][..i] == targets[..i];
      if c.Some? {
        calls := calls + [c.value];
      }
      i := i + 1;
    }
    assert targets[..i] == targets;
  }

  /** A target whose type is incompatible drops out of the calls and changes
      nothing about the calls made for the targets before and after it. */
  lemma FailureSkipsOnlyThatTarget(file: PyFileModel, o: Oracle, i: nat)
    requires i < |SuitableTargets(file)|
    ensures var ts := SuitableTargets(file);
      Successes(ts, Planner(file, o))
      == Successes(ts[..i], Planner(file, o))
         + (if PlannedCall(file, ts[i], o).Some? then [PlannedCall(file, ts[i], o).value] else [])
         + Successes(ts[i + 1..], Planner(file, o))
  {
    SuitableAnnotatable(file, o);
    SuccessesAround(SuitableTargets(file), i, Planner(file, o));
  }

  /** A call is made exactly when it is some suitable target's planned call. */
  lemma InvokeCalls(file: PyFileModel, o: Oracle, c: HostCall)
    ensures c in Successes(SuitableTargets(file), Planner(file, o))
      <==> exists i :: 0 <= i < |SuitableTargets(file)| && PlannedCall(file, SuitableTargets(file)[i], o) == Some(c)
  {
    SuitableAnnotatable(file, o);
    SuccessesMembers(SuitableTargets(file), Planner(file, o), c);
  }
}
