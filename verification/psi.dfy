/** The host's syntax tree (PSI) as a closed set of node kinds, the pre-order walk
    both intentions use to collect nodes, and the two filters both apply to the
    binding targets they collect: `canBeAnnotated` and `isAnnotated`.

    What the host's resolution services would answer about a target (its scope
    owner, the same-named bindings of its scope, the class members its name
    resolves to, whether its qualifier is the method's `self`) is carried by the
    target node itself as given data. */
module Psi {
  import opened Util

  type NodeId = nat

  /** A Python language level, compared lexicographically. */
  datatype LanguageLevel = LanguageLevel(major: nat, minor: nat) {
    predicate IsAtLeast(other: LanguageLevel) {
      major > other.major || (major == other.major && minor >= other.minor)
    }
  }

  const Python36 := LanguageLevel(3, 6)

  /** A type as the host's type evaluator hands it out; only its identity matters here. */
  datatype PyType = Builtin(name: string) | Inferred(id: nat)

  /** The builtin `object` type, the fallback for a target with no inferred type. */
  const ObjectType := Builtin("object")

  /** Another binding site of a name, with its two annotation slots: a PEP 526
      annotation value (`x: int = ...`) and a PEP 484 type comment (`# type: int`). */
  datatype Binding = Binding(id: NodeId, name: Option<string>, hasAnnotationValue: bool, hasTypeComment: bool)

  /** The kind of the node that owns a target's scope (`ScopeUtil.getScopeOwner`). */
  datatype ScopeOwner = NoOwner | FileOwner | ClassOwner | FunctionOwner

  /** One result of resolving an attribute name as a class member. */
  datatype Member = Member(binding: Binding, isTargetExpression: bool, ownerIsClass: bool)

  /** What the host knows about one binding target.
      - `own`: the target's own name and annotation slots;
      - `maySwitchToAst`: whether the type-evaluation context may read the syntax tree;
      - `scopeNamedElements`: the same-named target bindings of the control-flow scope;
      - `ownerAttributes`: the top-level attributes of the file, or the class
        attributes of the class, that owns the scope (of every name);
      - `inClass`, `qualifierIsSelf`: the target lies inside a class, and its
        qualifier resolves to the `self` parameter of the enclosing function;
      - `classMembers`: the members the name resolves to in the containing class,
        or None when member resolution finds nothing. */
  datatype TargetFacts = TargetFacts(
    own: Binding,
    qualified: bool,
    scopeOwner: ScopeOwner,
    maySwitchToAst: bool,
    scopeNamedElements: seq<Binding>,
    ownerAttributes: seq<Binding>,
    inClass: bool,
    qualifierIsSelf: bool,
    classMembers: Option<seq<Member>>)

  /** One parameter of a function: `named` is false for the bare `*` and `/`
      markers, `range` is its text range in the document. */
  datatype Param = Param(named: bool, isSelf: bool, name: Option<string>, defaultText: Option<string>, range: TextRange)

  /** A token with its range; `isColon` when its element type is the colon. */
  datatype Token = Token(range: TextRange, isColon: bool)

  /** What the host knows about one function definition: the range of its return
      annotation if it has one, the previous non-comment sibling of its body
      (the colon of the header, normally), its parameters and whether the file
      can be prepared for writing. */
  datatype FunctionFacts = FunctionFacts(
    annotation: Option<TextRange>,
    beforeBody: Token,
    params: seq<Param>,
    writable: bool)

  /** The closed set of node kinds the intentions distinguish. */
  datatype Kind =
    | FileNode
    | TargetExpr(facts: TargetFacts)
    | ReferenceExpr
    | FunctionDef(fn: FunctionFacts)
    | ImportElement
    | ComprehensionFor
    | GlobalStmt
    | NonlocalStmt
    | WithItem
    | AssignmentStmt
    | ForPart
    | ParenthesizedExpr
    | TupleExpr
    | OtherExpr
    | OtherElement

  /** Every expression is a typed element; statements and clauses are not. */
  predicate IsTypedElement(k: Kind) {
    k.TargetExpr? || k.ReferenceExpr? || k.ParenthesizedExpr? || k.TupleExpr? || k.OtherExpr?
  }

  datatype Node = Node(id: NodeId, kind: Kind, children: seq<Node>)

  /** A node together with its ancestors, nearest first: `ancestors[0]` is the
      direct parent and the last one the root. */
  datatype Site = Site(node: Node, ancestors: seq<Node>)

  /** The ancestors list really is the node's chain of parents. */
  ghost predicate Linked(s: Site) {
    && (|s.ancestors| > 0 ==> s.node in s.ancestors[0].children)
    && forall j :: 0 <= j < |s.ancestors| - 1 ==> s.ancestors[j] in s.ancestors[j + 1].children
  }

  /** All nodes of the tree rooted at `n`, each with its ancestors, in pre-order:
      a node before its children, children from first to last. */
  function PreOrder(n: Node, ancestors: seq<Node>): (r: seq<Site>)
    ensures |r| > 0 && r[0] == Site(n, ancestors)
    decreases n, |n.children| + 1
  {
    [Site(n, ancestors)] + ChildrenPreOrder(n, ancestors, |n.children|)
  }

  /** The pre-order sites of the first `k` children of `n`. */
  function ChildrenPreOrder(n: Node, ancestors: seq<Node>, k: nat): seq<Site>
    requires k <= |n.children|
    decreases n, k
  {
    if k == 0 then []
    else ChildrenPreOrder(n, ancestors, k - 1) + PreOrder(n.children[k - 1], [n] + ancestors)
  }

  lemma {:induction false} PreOrderLinked(n: Node, ancestors: seq<Node>)
    requires Linked(Site(n, ancestors))
    ensures forall s :: s in PreOrder(n, ancestors) ==> Linked(s)
    decreases n, |n.children| + 1
  {
    ChildrenPreOrderLinked(n, ancestors, |n.children|);
  }

  lemma {:induction false} ChildrenPreOrderLinked(n: Node, ancestors: seq<Node>, k: nat)
    requires k <= |n.children|
    requires Linked(Site(n, ancestors))
    ensures forall s :: s in ChildrenPreOrder(n, ancestors, k) ==> Linked(s)
    decreases n, k
  {
    if k > 0 {
      ChildrenPreOrderLinked(n, ancestors, k - 1);
      var c := n.children[k - 1];
      var anc := [n] + ancestors;
      assert forall j :: 0 <= j < |anc| - 1 ==> anc[j] in anc[j + 1].children by {
        forall j | 0 <= j < |anc| - 1 ensures anc[j] in anc[j + 1].children {
          if j > 0 {
            assert anc[j] == ancestors[j - 1] && anc[j + 1] == ancestors[j];
          }
        }
      }
      assert Linked(Site(c, anc));
      PreOrderLinked(c, anc);
    }
  }

  /** Walks the tree rooted at `element` in pre-order and appends to `result`
      every site that `keep` selects: the accumulator-passing recursion shared by
      `traverseTree`, `traversePsiTreeVariables` and `traversePsiTreeFunctions`. */
  method Traverse(element: Node, ancestors: seq<Node>, keep: Site -> bool, result: seq<Site>)
    returns (r: seq<Site>)
    ensures r == result + Filter(PreOrder(element, ancestors), keep)
    decreases element
  {
    var here := Site(element, ancestors);
    r := result;
    if keep(here) {
      r := r + [here];
    }
    var i := 0;
    while i < |element.children|
      invariant i <= |element.children|
      invariant r == result + Walked(element, ancestors, i, keep)
    {
      var child := element.children[i];
      ghost var done := Walked(element, ancestors, i, keep);
      ghost var sub := Filter(PreOrder(child, [element] + ancestors), keep);
      r := Traverse(child, [element] + ancestors, keep, r);
      AppendAssoc(result, done, sub);
      i := i + 1;
    }
    WalkedAll(element, ancestors, keep);
  }

  /** The selected sites among `element` and the subtrees of its first `i` children. */
  function Walked(element: Node, ancestors: seq<Node>, i: nat, keep: Site -> bool): seq<Site>
    requires i <= |element.children|
  {
    if i == 0 then (if keep(Site(element, ancestors)) then [Site(element, ancestors)] else [])
    else Walked(element, ancestors, i - 1, keep) + Filter(PreOrder(element.children[i - 1], [element] + ancestors), keep)
  }

  /** Walking the first `i` children is filtering their part of the pre-order. */
  lemma {:induction false} WalkedFilters(element: Node, ancestors: seq<Node>, i: nat, keep: Site -> bool)
    requires i <= |element.children|
    ensures Walked(element, ancestors, i, keep) == Filter([Site(element, ancestors)] + ChildrenPreOrder(element, ancestors, i), keep)
  {
    var here := [Site(element, ancestors)];
    if i == 0 {
      assert here + ChildrenPreOrder(element, ancestors, 0) == here;
      FilterOne(Site(element, ancestors), keep);
    } else {
      WalkedFilters(element, ancestors, i - 1, keep);
      var before := here + ChildrenPreOrder(element, ancestors, i - 1);
      var sub := PreOrder(element.children[i - 1], [element] + ancestors);
      assert before + sub == here + ChildrenPreOrder(element, ancestors, i);
      FilterAppend(before, sub, keep);
    }
  }

  /** Walking every child is filtering the whole pre-order. */
  lemma WalkedAll(element: Node, ancestors: seq<Node>, keep: Site -> bool)
    ensures Walked(element, ancestors, |element.children|, keep) == Filter(PreOrder(element, ancestors), keep)
  {
    WalkedFilters(element, ancestors, |element.children|, keep);
  }

  /** The kinds under which a binding target is never annotated. */
  predicate IsExcludedParent(k: Kind) {
    k.ImportElement? || k.ComprehensionFor? || k.GlobalStmt? || k.NonlocalStmt?
  }

  /** The statements that can carry a variable annotation. */
  predicate IsBindingStatement(k: Kind) {
    k.WithItem? || k.AssignmentStmt? || k.ForPart?
  }

  /** The index of the nearest ancestor that is a with-item, an assignment or a
      for-part (`PsiTreeUtil.getParentOfType` with those three classes). */
  function BindingStatementIndex(ancestors: seq<Node>): (r: Option<nat>)
    ensures r.Some? ==> r.value < |ancestors| && IsBindingStatement(ancestors[r.value].kind)
    ensures r.Some? ==> forall j :: 0 <= j < r.value ==> !IsBindingStatement(ancestors[j].kind)
    ensures r.None? <==> forall j :: 0 <= j < |ancestors| ==> !IsBindingStatement(ancestors[j].kind)
  {
    if ancestors == [] then None
    else if IsBindingStatement(ancestors[0].kind) then Some(0)
    else match BindingStatementIndex(ancestors[1..])
      case None => None
      case Some(i) => Some(i + 1)
  }

  /** `canBeAnnotated`: the direct parent is not an import element, a
      comprehension `for`, a `global` or a `nonlocal` statement, and some
      ancestor is a with-item, an assignment or a for-part. */
  function CanBeAnnotated(s: Site): (r: bool)
    ensures |s.ancestors| > 0 && IsExcludedParent(s.ancestors[0].kind) ==> !r
    ensures !(|s.ancestors| > 0 && IsExcludedParent(s.ancestors[0].kind)) ==>
      (r <==> exists j :: 0 <= j < |s.ancestors| && IsBindingStatement(s.ancestors[j].kind))
    ensures r ==> BindingStatementIndex(s.ancestors).Some?
  {
    if |s.ancestors| > 0 && IsExcludedParent(s.ancestors[0].kind) then false
    else BindingStatementIndex(s.ancestors).Some?
  }

  /** `hasInlineAnnotation`: an annotation value or a type comment. */
  function HasInlineAnnotation(b: Binding): (r: bool)
    ensures b.hasAnnotationValue ==> r
    ensures b.hasTypeComment ==> r
    ensures !b.hasAnnotationValue && !b.hasTypeComment ==> !r
  {
    b.hasAnnotationValue || b.hasTypeComment
  }

  predicate AnyAnnotated(bs: seq<Binding>) {
    exists i :: 0 <= i < |bs| && HasInlineAnnotation(bs[i])
  }

  /** The same-named bindings an unqualified target is compared with: those of
      its control-flow scope when the syntax tree may be read, otherwise the
      same-named top-level attributes of its file or class attributes of its
      class, and None for any other scope owner. */
  function Candidates(f: TargetFacts): (r: Option<seq<Binding>>)
    requires f.own.name.Some?
    ensures r.None? <==> !f.maySwitchToAst && !f.scopeOwner.FileOwner? && !f.scopeOwner.ClassOwner?
    ensures f.maySwitchToAst ==> r == Some(f.scopeNamedElements)
    ensures !f.maySwitchToAst && r.Some? ==>
      forall b :: b in r.value <==> b in f.ownerAttributes && b.name == f.own.name
  {
    if f.maySwitchToAst then Some(f.scopeNamedElements)
    else if f.scopeOwner.FileOwner? || f.scopeOwner.ClassOwner? then
      var sameName := (b: Binding) => b.name == f.own.name;
      FilterMembers(f.ownerAttributes, sameName);
      Some(Filter(f.ownerAttributes, sameName))
    else None
  }

  /** `isInstanceAttribute`: a qualified target inside a class, in a function,
      whose qualifier resolves to that function's `self` parameter (the
      syntax-tree resolution and the `PyUtil.isInstanceAttribute` fallback both
      give `qualifierIsSelf`). */
  function IsInstanceAttribute(f: TargetFacts): (r: bool)
    ensures !f.qualified || !f.inClass || !f.scopeOwner.FunctionOwner? ==> !r
    ensures f.qualified && f.inClass && f.scopeOwner.FunctionOwner? ==> (r <==> f.qualifierIsSelf)
  {
    f.qualified && f.inClass && f.scopeOwner.FunctionOwner? && f.qualifierIsSelf
  }

  /** A resolved member that `findClassLevelDefinitions` keeps: a target
      expression whose scope owner is the class. */
  predicate IsClassTarget(m: Member) {
    m.isTargetExpression && m.ownerIsClass
  }

  /** `b` is the binding of the first member, in resolution order, that is kept. */
  predicate FirstClassTargetIs(ms: seq<Member>, b: Binding) {
    exists i :: 0 <= i < |ms| && IsClassTarget(ms[i]) && ms[i].binding == b && NoClassTargetBefore(ms, i)
  }

  predicate NoClassTargetBefore(ms: seq<Member>, i: nat)
    requires i <= |ms|
  {
    forall j :: 0 <= j < i ==> !IsClassTarget(ms[j])
  }

  /** `findClassLevelDefinitions`: the target expressions among the resolved
      members that are defined at class scope, in resolution order. */
  function ClassLevelDefinitions(members: Option<seq<Member>>): (r: seq<Binding>)
    ensures members.None? ==> r == []
    ensures members.Some? ==> |r| <= |members.value|
    ensures forall b :: b in r ==> exists m :: m in members.value && m.isTargetExpression && m.ownerIsClass && m.binding == b
    ensures members.Some? ==> forall m :: m in members.value && IsClassTarget(m) ==> m.binding in r
    ensures r == [] <==> members.None? || forall m :: m in members.value ==> !(m.isTargetExpression && m.ownerIsClass)
    ensures r != [] ==> FirstClassTargetIs(members.value, r[0])
  {
    match members
    case None => []
    case Some(ms) => ClassTargets(ms)
  }

  function ClassTargets(ms: seq<Member>): (r: seq<Binding>)
    ensures |r| <= |ms|
    ensures forall b :: b in r ==> exists m :: m in ms && m.isTargetExpression && m.ownerIsClass && m.binding == b
    ensures forall m :: m in ms && IsClassTarget(m) ==> m.binding in r
    ensures r == [] <==> forall m :: m in ms ==> !(m.isTargetExpression && m.ownerIsClass)
    ensures r != [] ==> FirstClassTargetIs(ms, r[0])
  {
    if ms == [] then []
    else
      var rest := ClassTargets(ms[1..]);
      MembersCons(ms);
      if IsClassTarget(ms[0]) then
        assert NoClassTargetBefore(ms, 0);
        [ms[0].binding] + rest
      else
        if rest != [] then FirstClassTargetSkip(ms, rest[0]); rest else rest
  }

  lemma MembersCons(ms: seq<Member>)
    requires ms != []
    ensures forall m :: m in ms <==> m == ms[0] || m in ms[1..]
  {
    assert ms == [ms[0]] + ms[1..];
  }

  /** A member that is not kept does not change which member is first kept. */
  lemma FirstClassTargetSkip(ms: seq<Member>, b: Binding)
    requires ms != [] && !IsClassTarget(ms[0]) && FirstClassTargetIs(ms[1..], b)
    ensures FirstClassTargetIs(ms, b)
  {
    var i :| 0 <= i < |ms[1..]| && IsClassTarget(ms[1..][i]) && ms[1..][i].binding == b && NoClassTargetBefore(ms[1..], i);
    assert ms[i + 1] == ms[1..][i];
    forall j | 0 <= j < i + 1
      ensures !IsClassTarget(ms[j])
    {
      if j > 0 {
        assert ms[j] == ms[1..][j - 1];
      }
    }
    assert NoClassTargetBefore(ms, i + 1);
  }

  /** `isAnnotated`: whether a target, or the binding its annotation would live on,
      already carries an annotation. */
  function IsAnnotated(f: TargetFacts): (r: bool)
    ensures f.scopeOwner.NoOwner? || f.own.name.None? ==> !r
    ensures !f.scopeOwner.NoOwner? && f.own.name.Some? && !f.qualified && HasInlineAnnotation(f.own) ==> r
    ensures !f.scopeOwner.NoOwner? && f.own.name.Some? && !f.qualified && !HasInlineAnnotation(f.own) ==>
      (r <==> Candidates(f).Some? && AnyAnnotated(Candidates(f).value))
    ensures !f.scopeOwner.NoOwner? && f.own.name.Some? && f.qualified ==>
      (r <==> IsInstanceAttribute(f) && AnyAnnotated(ClassLevelDefinitions(f.classMembers)))
  {
    if f.scopeOwner.NoOwner? || f.own.name.None? then false
    else if !f.qualified then
      if HasInlineAnnotation(f.own) then true
      else match Candidates(f)
        case Some(c) => AnyAnnotated(c)
        case None => false
    else if IsInstanceAttribute(f) then AnyAnnotated(ClassLevelDefinitions(f.classMembers))
    else false
  }

  /** A file as both intentions see it. */
  datatype FileKind = PythonFile | DocstringFile | OtherFile

  /** `inLibrary` is the project index's answer for the file; every node of the
      file shares it. */
  datatype PyFileModel = PyFileModel(kind: FileKind, root: Node, inLibrary: bool, level: LanguageLevel)

  predicate IsTargetSite(s: Site) { s.node.kind.TargetExpr? }

  /** A pre-order site that both intentions annotate: a target expression outside
      library files that can be annotated and is not yet annotated. */
  predicate Suitable(file: PyFileModel, s: Site) {
    && IsTargetSite(s)
    && !file.inLibrary
    && CanBeAnnotated(s)
    && !IsAnnotated(s.node.kind.facts)
  }

  /** The targets to annotate, as a specification: the suitable sites of the
      file's tree in pre-order. */
  function SuitableTargets(file: PyFileModel): (r: seq<Site>)
    ensures forall s :: s in r ==> s in PreOrder(file.root, []) && Suitable(file, s)
    ensures forall i :: 0 <= i < |r| ==> Suitable(file, r[i])
  {
    FilterSatisfies(PreOrder(file.root, []), (s: Site) => Suitable(file, s));
    Filter(PreOrder(file.root, []), (s: Site) => Suitable(file, s))
  }

  /** A site is a target to annotate exactly when the walk visits it and it is
      suitable; a library file has none. */
  /** Every target the walk yields carries its real chain of parents, so the
      binding statement found for it is an ancestor in the file's tree. */
  lemma SuitableTargetsLinked(file: PyFileModel)
    ensures forall s :: s in SuitableTargets(file) ==> Linked(s)
  {
    PreOrderLinked(file.root, []);
  }

  lemma SuitableTargetsMembers(file: PyFileModel)
    ensures forall s :: s in SuitableTargets(file) <==> s in PreOrder(file.root, []) && Suitable(file, s)
    ensures file.inLibrary ==> SuitableTargets(file) == []
  {
    var all := PreOrder(file.root, []);
    forall s ensures s in SuitableTargets(file) <==> s in all && Suitable(file, s) {
      FilterKeeps(all, (s: Site) => Suitable(file, s), s);
    }
    if file.inLibrary {
      FilterNone(all, (s: Site) => Suitable(file, s));
    }
  }
}
