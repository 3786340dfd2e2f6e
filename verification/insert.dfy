/** The insertion utilities of the host (`PyTypeHintGenerationUtil`) that both
    intentions call, and the choice both make of which utility to call on which
    binding. What text the host writes is not part of this model: a call is
    recorded as the utility, the binding it is applied to and the annotation
    info it is handed. */
module HostInsert {
  import opened Util
  import opened Psi
  import opened TypeHint

  /** The four insertion utilities: a PEP 526 annotation or a PEP 484 type
      comment, on a variable binding or as a standalone attribute annotation. */
  datatype Insertion =
    | VariableAnnotation
    | StandaloneAttributeAnnotation
    | VariableTypeComment
    | StandaloneAttributeTypeComment
  {
    predicate IsSyntactic() { this == VariableAnnotation || this == StandaloneAttributeAnnotation }
    predicate IsStandalone() { this == StandaloneAttributeAnnotation || this == StandaloneAttributeTypeComment }
  }

  datatype HostCall = HostCall(op: Insertion, at: NodeId, info: AnnotationInfo)

  /** A binding target that the annotation paths accept: a target expression
      below a with-item, an assignment or a for-part. */
  predicate Annotatable(s: Site) {
    IsTargetSite(s) && CanBeAnnotated(s)
  }

  /** Where an annotation of `s` goes: an instance attribute is annotated on the
      first of its class-level definitions, or, when it has none, as a
      standalone attribute at the usage; any other target is annotated on
      itself. `syntactic` chooses between the annotation and the type comment. */
  function Dispatch(s: Site, syntactic: bool, info: AnnotationInfo): (c: HostCall)
    requires IsTargetSite(s)
    ensures c.info == info
    ensures c.op.IsSyntactic() <==> syntactic
    ensures c.op.IsStandalone() <==> IsInstanceAttribute(s.node.kind.facts) && ClassLevelDefinitions(s.node.kind.facts.classMembers) == []
    ensures c.at != s.node.id ==>
      && IsInstanceAttribute(s.node.kind.facts)
      && s.node.kind.facts.classMembers.Some?
      && exists m :: m in s.node.kind.facts.classMembers.value && m.isTargetExpression && m.ownerIsClass && m.binding.id == c.at
    ensures !IsInstanceAttribute(s.node.kind.facts) ==> c.at == s.node.id
    ensures IsInstanceAttribute(s.node.kind.facts) && ClassLevelDefinitions(s.node.kind.facts.classMembers) != [] ==>
      c.at == ClassLevelDefinitions(s.node.kind.facts.classMembers)[0].id
  {
    var f := s.node.kind.facts;
    if IsInstanceAttribute(f) then
      var defs := ClassLevelDefinitions(f.classMembers);
      if defs == [] then
        HostCall(if syntactic then StandaloneAttributeAnnotation else StandaloneAttributeTypeComment, s.node.id, info)
      else
        HostCall(if syntactic then VariableAnnotation else VariableTypeComment, defs[0].id, info)
    else
      HostCall(if syntactic then VariableAnnotation else VariableTypeComment, s.node.id, info)
  }
}
