/** The "Add stub-annotation" intention of intentions/AddAnnotation.kt: it
    annotates every suitable binding target of a Python file with `Any`, then
    gives every function of the file the return annotation `-> Any` and every
    named parameter other than `self` the type `Any`. */
module Intentions {
  import opened Util
  import opened Psi
  import opened TypeHint
  import opened HostInsert
  import opened Text

  /** The text of every annotation this intention writes
      (`getParameterType`, `getFunctionType`, `getVariableAnnotationText`). */
  const AnyText := "Any"

  /** The type handed to the host with a variable annotation (`getVariableType`). */
  const AnyType := Builtin("Any")

  predicate IsFunctionSite(s: Site) {
    s.node.kind.FunctionDef?
  }

  // ---------------------------------------------------------------------------
  // Discovery

  /** `traversePsiTreeVariables`: the target expressions of the file, in pre-order. */
  method TraversePsiTreeVariables(file: PyFileModel) returns (r: seq<Site>)
    ensures r == Filter(PreOrder(file.root, []), IsTargetSite)
    ensures forall s :: s in r ==> s in PreOrder(file.root, []) && IsTargetSite(s)
  {
    r := Traverse(file.root, [], IsTargetSite, []);
    FilterSatisfies(PreOrder(file.root, []), IsTargetSite);
  }

  /** The functions to annotate: every function definition of the file in
      pre-order, already annotated or not, unless the file is a library file. */
  function FunctionsOf(file: PyFileModel): (r: seq<Site>)
    ensures forall s :: s in r ==> IsFunctionSite(s)
  {
    FilterSatisfies(PreOrder(file.root, []), IsFunctionSite);
    if file.inLibrary then [] else Filter(PreOrder(file.root, []), IsFunctionSite)
  }

  /** `traversePsiTreeFunctions`: the walk keeps a function when its file is not
      a library file. */
  method TraversePsiTreeFunctions(file: PyFileModel) returns (r: seq<Site>)
    ensures r == FunctionsOf(file)
    ensures file.inLibrary ==> r == []
    ensures !file.inLibrary ==> forall s :: s in r <==> s in PreOrder(file.root, []) && IsFunctionSite(s)
  {
    var keep := (s: Site) => s.node.kind.FunctionDef? && !file.inLibrary;
    r := Traverse(file.root, [], keep, []);
    var all := PreOrder(file.root, []);
    if file.inLibrary {
      FilterNone(all, keep);
    } else {
      FilterExt(all, keep, IsFunctionSite);
      forall s ensures s in r <==> s in all && IsFunctionSite(s) {
        FilterKeeps(all, IsFunctionSite, s);
      }
    }
  }

  /** `findSuitableTargets`: the target expressions of the walk, outside
      library files, that can be annotated and are not yet annotated, in pre-order. */
  method FindSuitableTargets(file: PyFileModel) returns (targets: seq<Site>)
    ensures targets == SuitableTargets(file)
    ensures forall s :: s in targets <==> s in PreOrder(file.root, []) && Suitable(file, s)
  {
    var variables := TraversePsiTreeVariables(file);
    var local := Filter(variables, (s: Site) => !file.inLibrary);
    var annotatable := Filter(local, CanBeAnnotated);
    targets := Filter(annotatable, (s: Site) => IsTargetSite(s) && !IsAnnotated(s.node.kind.facts));

    var all := PreOrder(file.root, []);
    var p1 := (s: Site) => IsTargetSite(s) && !file.inLibrary;
    var p2 := (s: Site) => IsTargetSite(s) && !file.inLibrary && CanBeAnnotated(s);
    var p3 := (s: Site) => Suitable(file, s);
    FilterFilter(all, IsTargetSite, (s: Site) => !file.inLibrary, p1);
    FilterFilter(all, p1, CanBeAnnotated, p2);
    FilterFilter(all, p2, (s: Site) => IsTargetSite(s) && !IsAnnotated(s.node.kind.facts), p3);
    SuitableTargetsMembers(file);
  }

  /** `isAvailable`: a Python file that is not a docstring, with an editor, that
      has a target to annotate or a function. */
  method IsAvailable(file: PyFileModel, hasEditor: bool) returns (available: bool)
    ensures available <==> file.kind.PythonFile? && hasEditor && (SuitableTargets(file) != [] || FunctionsOf(file) != [])
    ensures available ==> !file.inLibrary
  {
    if !file.kind.PythonFile? || !hasEditor {
      return false;
    }
    var resolvedVars := FindSuitableTargets(file);
    var resolvedFunctions := TraversePsiTreeFunctions(file);
    available := |resolvedVars| > 0 || |resolvedFunctions| > 0;
    SuitableTargetsMembers(file);
  }

  // ---------------------------------------------------------------------------
  // Variables

  /** The call `insertVariableAnnotation` makes: the annotation `Any` with the
      type `Any`, or None when the host finds that type incompatible. The type
      is the same for every target, so either every target fails or none does. */
  function VariableCall(s: Site, o: Oracle): (c: Option<HostCall>)
    requires IsTargetSite(s)
    ensures c.None? <==> !o.compatible(AnyType)
    ensures c.Some? ==> c.value.op.IsSyntactic() && c.value.info == Whole(AnyText, AnyType)
  {
    if !o.compatible(AnyType) then None
    else Some(Dispatch(s, true, Whole(AnyText, AnyType)))
  }

  /** One entry of what `doInvoke` does: a host call for a variable, or the
      annotation of a function's signature. */
  datatype Step = AnnotateVariable(call: HostCall) | AnnotateFunction(at: NodeId)

  function VariableStep(s: Site, o: Oracle): Option<Step>
    requires IsTargetSite(s)
  {
    match VariableCall(s, o)
    case None => None
    case Some(c) => Some(AnnotateVariable(c))
  }

  function VariableStepper(o: Oracle): Site --> Option<Step> {
    (s: Site) requires IsTargetSite(s) => VariableStep(s, o)
  }

  /** `annotateTypes` goes ahead only when the function can be prepared for writing. */
  function FunctionStep(s: Site): Option<Step> {
    if s.node.kind.FunctionDef? && s.node.kind.fn.writable then Some(AnnotateFunction(s.node.id)) else None
  }

  /** `doInvoke`: annotates the suitable targets, skipping those whose type is
      incompatible, and then the functions; returns what it did, in order. */
  method DoInvoke(file: PyFileModel, hasEditor: bool, o: Oracle) returns (steps: seq<Step>)
    ensures !hasEditor ==> steps == []
    ensures hasEditor ==>
      steps == Successes(SuitableTargets(file), VariableStepper(o)) + Successes(FunctionsOf(file), FunctionStep)
  {
    if !hasEditor {
      return [];
    }
    var targets := FindSuitableTargets(file);
    var variableSteps := AnnotateVariables(targets, o);
    var functions := TraversePsiTreeFunctions(file);
    var functionSteps := AnnotateFunctions(functions);
    steps := variableSteps + functionSteps;
  }

  /** The first loop of `doInvoke`: each target in turn, an incompatible one skipped. */
  method AnnotateVariables(targets: seq<Site>, o: Oracle) returns (steps: seq<Step>)
    requires forall t :: t in targets ==> IsTargetSite(t)
    ensures steps == Successes(targets, VariableStepper(o))
  {
    steps := [];
    var i := 0;
    while i < |targets|
      invariant i <= |targets|
      invariant steps == Successes(targets[..i], VariableStepper(o))
    {
      var c := VariableCall(targets[i], o);
      assert targets[..i + 1][..i] == targets[..i];
      if c.Some? {
        steps := steps + [AnnotateVariable(c.value)];
      }
      i := i + 1;
    }
    assert targets[..i] == targets;
  }

  /** The second loop of `doInvoke`: `annotateTypes` on each function in turn. */
  method AnnotateFunctions(functions: seq<Site>) returns (steps: seq<Step>)
    requires forall s :: s in functions ==> IsFunctionSite(s)
    ensures steps == Successes(functions, FunctionStep)
  {
    steps := [];
    var j := 0;
    while j < |functions|
      invariant j <= |functions|
      invariant steps == Successes(functions[..j], FunctionStep)
    {
      assert functions[j] in functions;
      var fn := functions[j].node.kind.fn;
      assert functions[..j + 1][..j] == functions[..j];
      if fn.writable {
        steps := steps + [AnnotateFunction(functions[j].node.id)];
      }
      j := j + 1;
    }
    assert functions[..j] == functions;
  }

  /** Variables come first: every step before the first function step is a
      variable annotation, and the rest are function annotations. */
  lemma VariablesBeforeFunctions(file: PyFileModel, o: Oracle)
    ensures var vs := Successes(SuitableTargets(file), VariableStepper(o));
      && (forall k :: 0 <= k < |vs| ==> vs[k].AnnotateVariable?)
      && (forall k :: 0 <= k < |Successes(FunctionsOf(file), FunctionStep)| ==>
            Successes(FunctionsOf(file), FunctionStep)[k].AnnotateFunction?)
  {
    var vs := Successes(SuitableTargets(file), VariableStepper(o));
    var ts := SuitableTargets(file);
    forall k | 0 <= k < |vs| ensures vs[k].AnnotateVariable? {
      assert vs[k] in vs;
      SuccessesMembers(ts, VariableStepper(o), vs[k]);
      var i :| 0 <= i < |ts| && VariableStepper(o)(ts[i]) == Some(vs[k]);
      assert VariableStep(ts[i], o) == Some(vs[k]);
    }
    var fs := Successes(FunctionsOf(file), FunctionStep);
    forall k | 0 <= k < |fs| ensures fs[k].AnnotateFunction? {
      assert fs[k] in fs;
      SuccessesMembers(FunctionsOf(file), FunctionStep, fs[k]);
    }
  }

  /** Whatever happens to the variables, every writable function of a file that
      is not a library file is annotated. */
  lemma EveryFunctionAnnotated(file: PyFileModel, s: Site)
    requires !file.inLibrary
    requires s in PreOrder(file.root, []) && IsFunctionSite(s) && s.node.kind.fn.writable
    ensures AnnotateFunction(s.node.id) in Successes(FunctionsOf(file), FunctionStep)
  {
    FilterKeeps(PreOrder(file.root, []), IsFunctionSite, s);
    var fs := FunctionsOf(file);
    var i :| 0 <= i < |fs| && fs[i] == s;
    SuccessesMembers(fs, FunctionStep, AnnotateFunction(s.node.id));
  }

  /** The variable part is all or nothing: with `Any` compatible every suitable
      target gets its call, in order; otherwise none does. */
  lemma VariableStepsAllOrNothing(file: PyFileModel, o: Oracle)
    ensures !o.compatible(AnyType) ==> Successes(SuitableTargets(file), VariableStepper(o)) == []
    ensures o.compatible(AnyType) ==>
      && |Successes(SuitableTargets(file), VariableStepper(o))| == |SuitableTargets(file)|
      && forall i :: 0 <= i < |SuitableTargets(file)| ==>
           Successes(SuitableTargets(file), VariableStepper(o))[i]
           == AnnotateVariable(Dispatch(SuitableTargets(file)[i], true, Whole(AnyText, AnyType)))
  {
    if o.compatible(AnyType) {
      SuccessesAll(SuitableTargets(file), VariableStepper(o));
    } else {
      SuccessesNone(SuitableTargets(file), VariableStepper(o));
    }
  }

  // ---------------------------------------------------------------------------
  // The return annotation

  /** The host's facts about a function fit a text of length `len`. */
  predicate ReturnFits(fn: FunctionFacts, len: nat) {
    && (fn.annotation.Some? ==> fn.annotation.value.start <= fn.annotation.value.end <= len)
    && fn.beforeBody.range.start <= fn.beforeBody.range.end <= len
  }

  /** The offset at which the return annotation is written. */
  function ReturnAt(fn: FunctionFacts): nat {
    match fn.annotation
    case Some(a) => a.start
    case None => if fn.beforeBody.isColon then fn.beforeBody.range.start else fn.beforeBody.range.end
  }

  /** The edit `annotateReturnType` makes: an existing annotation is replaced by
      `-> Any`; otherwise ` -> Any` goes in front of the header's colon, or
      ` -> Any:` after the last token before the body when that is not a colon. */
  function ReturnSplice(t: string, fn: FunctionFacts): (r: string)
    requires ReturnFits(fn, |t|)
    ensures fn.annotation.Some? ==> |r| == |t| - (fn.annotation.value.end - fn.annotation.value.start) + 6
    ensures fn.annotation.None? && fn.beforeBody.isColon ==> |r| == |t| + 7
    ensures fn.annotation.None? && !fn.beforeBody.isColon ==> |r| == |t| + 8
    ensures ReturnAt(fn) <= |r|
    ensures r[..ReturnAt(fn)] == t[..ReturnAt(fn)]
    ensures fn.annotation.Some? ==>
      var a := fn.annotation.value;
      && r[a.start..a.start + 6] == "-> Any"
      && r[a.start + 6..] == t[a.end..]
    ensures fn.annotation.None? && fn.beforeBody.isColon ==>
      var p := fn.beforeBody.range.start;
      && r[p..p + 7] == " -> Any"
      && r[p + 7..] == t[p..]
    ensures fn.annotation.None? && !fn.beforeBody.isColon ==>
      var p := fn.beforeBody.range.end;
      && r[p..p + 8] == " -> Any:"
      && r[p + 8..] == t[p..]
  {
    var annotationText := "-> " + AnyText;
    match fn.annotation
    case Some(a) => Splice(t, a.start, a.end, annotationText)
    case None =>
      var range := fn.beforeBody.range;
      if fn.beforeBody.isColon then Splice(t, range.start, range.start, " " + annotationText)
      else Splice(t, range.end, range.end, " " + annotationText + ":")
  }

  /** `annotateReturnType` on the document. */
  method AnnotateReturnType(doc: Document, fn: FunctionFacts)
    requires ReturnFits(fn, |doc.text|)
    modifies doc
    ensures doc.text == ReturnSplice(old(doc.text), fn)
  {
    var annotationText := "-> " + AnyText;
    match fn.annotation {
      case Some(oldRange) =>
        doc.ReplaceString(oldRange.start, oldRange.end, annotationText);
      case None =>
        var range := fn.beforeBody.range;
        if fn.beforeBody.isColon {
          doc.InsertString(range.start, " " + annotationText);
        } else {
          doc.InsertString(range.end, " " + annotationText + ":");
        }
    }
  }

  // ---------------------------------------------------------------------------
  // Parameters

  /** What `createParameter` is asked for: name, default value text, type text. */
  datatype ParamDecl = ParamDecl(name: string, defaultText: Option<string>, typeText: string)

  /** A rewritten parameter keeps its name (an absent name becomes `""`) and its
      default value, and gets the type `Any`. */
  function NewDecl(p: Param): (d: ParamDecl)
    ensures p.name.Some? ==> d.name == p.name.value
    ensures p.name.None? ==> d.name == ""
    ensures d.defaultText == p.defaultText && d.typeText == AnyText
  {
    ParamDecl(p.name.GetOr(""), p.defaultText, AnyText)
  }

  /** Named parameters other than `self` are rewritten; `*`, `/` and `self` are not. */
  predicate Rewritten(p: Param) {
    p.named && !p.isSelf
  }

  /** The parameters' ranges lie in `[lo, hi]`, in order and without overlap. */
  predicate Ordered(ps: seq<Param>, lo: nat, hi: nat) {
    && (forall i :: 0 <= i < |ps| ==> lo <= ps[i].range.start <= ps[i].range.end <= hi)
    && (forall i, j :: 0 <= i < j < |ps| ==> ps[i].range.end <= ps[j].range.start)
  }

  /** The text a parameter ends up with. `render` stands for the host's
      `createParameter`, whose output is not part of this model. */
  function NewText(t: string, p: Param, render: ParamDecl -> string): string
    requires p.range.start <= p.range.end <= |t|
  {
    if Rewritten(p) then render(NewDecl(p)) else t[p.range.start..p.range.end]
  }

  /** Reference definition, left to right: the text from offset `lo` on with
      every parameter replaced by its new text. */
  function Rebuild(t: string, ps: seq<Param>, lo: nat, render: ParamDecl -> string): string
    requires lo <= |t| && Ordered(ps, lo, |t|)
    decreases |ps|
  {
    if ps == [] then t[lo..]
    else
      var p := ps[0];
      OrderedTail(ps, lo, |t|, 0);
      t[lo..p.range.start] + NewText(t, p, render) + Rebuild(t, ps[1..], p.range.end, render)
  }

  lemma OrderedTail(ps: seq<Param>, lo: nat, hi: nat, k: nat)
    requires Ordered(ps, lo, hi) && k < |ps|
    ensures Ordered(ps[k + 1..], ps[k].range.end, hi)
    ensures Ordered(ps[k..], lo, hi)
  {
    var tail := ps[k + 1..];
    forall i | 0 <= i < |tail|
      ensures ps[k].range.end <= tail[i].range.start
    {
      assert tail[i] == ps[k + 1 + i];
    }
  }

  lemma OrderedWiden(ps: seq<Param>, lo: nat, mid: nat, hi: nat)
    requires lo <= mid && Ordered(ps, mid, hi)
    ensures Ordered(ps, lo, hi)
  {
  }

  /** Text before the first parameter can be split off. */
  lemma RebuildShift(t: string, ps: seq<Param>, lo: nat, mid: nat, render: ParamDecl -> string)
    requires lo <= mid <= |t| && Ordered(ps, mid, |t|) && Ordered(ps, lo, |t|)
    ensures Rebuild(t, ps, lo, render) == t[lo..mid] + Rebuild(t, ps, mid, render)
  {
    if ps == [] {
      assert t[lo..] == t[lo..mid] + t[mid..];
    } else {
      var p := ps[0];
      RebuildFirst(t, ps, lo, render);
      RebuildFirst(t, ps, mid, render);
      SplitAt(t, lo, mid, p.range.start, NewText(t, p, render), Rebuild(t, ps[1..], p.range.end, render));
    }
  }

  lemma SplitAt(t: string, lo: nat, mid: nat, hi: nat, x: string, rest: string)
    requires lo <= mid <= hi <= |t|
    ensures t[lo..hi] + x + rest == t[lo..mid] + (t[mid..hi] + x + rest)
  {
    assert t[lo..hi] == t[lo..mid] + t[mid..hi];
    AppendAssoc4(t[lo..mid], t[mid..hi], x, rest);
  }

  lemma RebuildFirst(t: string, ps: seq<Param>, lo: nat, render: ParamDecl -> string)
    requires lo <= |t| && Ordered(ps, lo, |t|) && ps != []
    ensures Ordered(ps[1..], ps[0].range.end, |t|)
    ensures Rebuild(t, ps, lo, render)
      == t[lo..ps[0].range.start] + NewText(t, ps[0], render) + Rebuild(t, ps[1..], ps[0].range.end, render)
  {
    OrderedTail(ps, lo, |t|, 0);
  }

  /** One step of the reverse loop: splicing the new text of `ps[k]` into the
      text in which `ps[k + 1..]` are already rewritten gives the text in which
      `ps[k..]` are. */
  lemma RebuildStep(t: string, ps: seq<Param>, k: nat, render: ParamDecl -> string)
    requires Ordered(ps, 0, |t|) && k < |ps|
    ensures Ordered(ps[k..], 0, |t|) && Ordered(ps[k + 1..], 0, |t|)
    ensures var p := ps[k]; var cur := Rebuild(t, ps[k + 1..], 0, render);
      && p.range.end <= |cur|
      && cur[..p.range.end] == t[..p.range.end]
      && Rebuild(t, ps[k..], 0, render)
         == (if Rewritten(p) then Splice(cur, p.range.start, p.range.end, render(NewDecl(p))) else cur)
  {
    var p := ps[k];
    OrderedTail(ps, 0, |t|, k);
    OrderedWiden(ps[k + 1..], 0, p.range.end, |t|);
    RebuildShift(t, ps[k + 1..], 0, p.range.end, render);
    assert ps[k..][1..] == ps[k + 1..];
    RebuildFirst(t, ps[k..], 0, render);
    SpliceAround(t, p.range.start, p.range.end, Rebuild(t, ps[k + 1..], p.range.end, render), NewText(t, p, render));
  }

  /** The string algebra of `RebuildStep`: `t[..end] + rest` with `[start, end)`
      replaced by `x`. */
  lemma SpliceAround(t: string, start: nat, end: nat, rest: string, x: string)
    requires start <= end <= |t|
    ensures var cur := t[..end] + rest;
      && cur[..end] == t[..end]
      && Splice(cur, start, end, x) == t[..start] + x + rest
      && cur == t[..start] + t[start..end] + rest
  {
    var cur := t[..end] + rest;
    assert cur[..end] == t[..end];
    assert cur[..start] == t[..start];
    assert cur[end..] == rest;
    assert t[..end] == t[..start] + t[start..end];
  }

  /** A function without parameters to rewrite keeps its text. */
  lemma {:induction false} RebuildUntouched(t: string, ps: seq<Param>, lo: nat, render: ParamDecl -> string)
    requires lo <= |t| && Ordered(ps, lo, |t|)
    requires forall i :: 0 <= i < |ps| ==> !Rewritten(ps[i])
    ensures Rebuild(t, ps, lo, render) == t[lo..]
    decreases |ps|
  {
    if ps != [] {
      var p := ps[0];
      OrderedTail(ps, lo, |t|, 0);
      RebuildUntouched(t, ps[1..], p.range.end, render);
      assert t[lo..] == t[lo..p.range.start] + t[p.range.start..p.range.end] + t[p.range.end..];
    }
  }

  /** `annotateParameter` on the document: the parameter's range is replaced by
      the rendered new declaration. */
  method AnnotateParameter(doc: Document, p: Param, render: ParamDecl -> string)
    requires p.range.start <= p.range.end <= |doc.text|
    modifies doc
    ensures doc.text == Splice(old(doc.text), p.range.start, p.range.end, render(NewDecl(p)))
  {
    var paramName := p.name.GetOr("");
    var namedParameter := ParamDecl(paramName, p.defaultText, AnyText);
    doc.ReplaceString(p.range.start, p.range.end, render(namedParameter));
  }

  /** The host's facts about a function fit a text of length `len`, with the
      parameters in order before the point where the return annotation goes. */
  predicate FunctionFits(fn: FunctionFacts, len: nat) {
    ReturnFits(fn, len) && Ordered(fn.params, 0, ReturnAt(fn))
  }

  /** The text of a function's file once its signature is annotated. */
  function Annotated(t: string, fn: FunctionFacts, render: ParamDecl -> string): string
    requires FunctionFits(fn, |t|)
  {
    var t' := ReturnSplice(t, fn);
    assert Ordered(fn.params, 0, |t'|);
    Rebuild(t', fn.params, 0, render)
  }

  /** `generatePy3kTypeAnnotations`: the return annotation first, then the
      parameters from last to first, so that each replacement happens after
      every parameter still to be replaced and leaves their text where it was. */
  method GeneratePy3kTypeAnnotations(doc: Document, fn: FunctionFacts, render: ParamDecl -> string)
    requires FunctionFits(fn, |doc.text|)
    modifies doc
    ensures doc.text == Annotated(old(doc.text), fn, render)
  {
    AnnotateReturnType(doc, fn);
    ghost var t := doc.text;
    var params := fn.params;
    assert Ordered(params, 0, |t|);
    assert params[|params|..] == [];
    var i: nat := |params|;
    while i > 0
      invariant i <= |params|
      invariant Ordered(params[i..], 0, |t|)
      invariant doc.text == Rebuild(t, params[i..], 0, render)
      invariant i > 0 ==> params[i - 1].range.end <= |doc.text|
      invariant i > 0 ==> doc.text[..params[i - 1].range.end] == t[..params[i - 1].range.end]
    {
      i := i - 1;
      RebuildStep(t, params, i, render);
      if Rewritten(params[i]) {
        AnnotateParameter(doc, params[i], render);
      }
      if i > 0 {
        RebuildStep(t, params, i - 1, render);
      }
    }
  }

  /** `annotateTypes`: a function whose file cannot be made writable is left alone. */
  method AnnotateTypes(doc: Document, fn: FunctionFacts, render: ParamDecl -> string)
    requires FunctionFits(fn, |doc.text|)
    modifies doc
    ensures doc.text == if fn.writable then Annotated(old(doc.text), fn, render) else old(doc.text)
  {
    if !fn.writable {
      return;
    }
    GeneratePy3kTypeAnnotations(doc, fn, render);
  }

  /** The return annotation is written after every parameter, so the parameter
      texts the host reads back afterwards are the ones it read before. */
  lemma ReturnSpliceKeepsParameters(t: string, fn: FunctionFacts, i: nat)
    requires FunctionFits(fn, |t|) && i < |fn.params|
    ensures var p := fn.params[i].range;
      p.end <= |ReturnSplice(t, fn)| && ReturnSplice(t, fn)[p.start..p.end] == t[p.start..p.end]
  {
    var p := fn.params[i].range;
    var r := ReturnSplice(t, fn);
    assert r[p.start..p.end] == r[..ReturnAt(fn)][p.start..p.end];
    assert t[p.start..p.end] == t[..ReturnAt(fn)][p.start..p.end];
  }
}
