/**
 * The transient value service: for a feature of an owner object (and, for a
 * many-valued feature, an index into its values) it decides whether the value
 * is left out of the textual rendering because the parser re-derives it.
 * The decision is an ordered case analysis over the identity of the feature
 * and a few reads of the owner's context; anything not covered falls through
 * to the default policy, a collaborator whose code is not part of this model.
 *
 * The meta-model's class hierarchy is not part of this model either: every
 * object carries the set of meta-classes it is an instance of, so an object
 * can pass several `instanceof` tests at once, and the order of the tests is
 * what decides.
 */
module TransientValues {
  import opened Optional

  /** The meta-classes the service tests objects against. */
  datatype MetaClass =
    | Expression | OperatorExpression | FeatureReferenceExpression | InvocationExpression
    | ReturnParameterMembership | ParameterMembership | EndFeatureMembership | OwningMembership
    | ItemFlowEnd | Multiplicity | MultiplicityRange

  /** The structural features the service singles out; every other feature
      is `Other`. */
  datatype StructuralFeature =
    | ElementId | IsComposite | TypedFeature | SubsettingFeature | RedefiningFeature
    | ConjugatedType | OriginalPortDefinition | ReferencedFeature
    | OwnedRelationship | OwnedRelatedElement
    | Direction | IsEnd | Operand
    | Other(name: string)

  /** Features initialised implicitly by setting delegates: always transient. */
  const TransientFeatures: set<StructuralFeature> :=
    {ElementId, IsComposite, TypedFeature, SubsettingFeature, RedefiningFeature}

  /** Targets of relationships that are transient when the relationship owns
      a related element. */
  const OwningRelationshipTargets: set<StructuralFeature> :=
    {ConjugatedType, OriginalPortDefinition, ReferencedFeature}

  /** The containers whose elements are decided one by one. */
  const CheckElementsIndividually: set<StructuralFeature> := {OwnedRelationship, OwnedRelatedElement}

  /** The owning feature membership of a feature: its meta-classes and those
      of its owning type (absent when it has none). */
  datatype FeatureMembershipInfo = FeatureMembershipInfo(types: set<MetaClass>, owningType: Option<set<MetaClass>>)

  /** An object of the model as far as the service reads it.
      - `types`: the meta-classes it is an instance of;
      - `owningMembership`: the meta-classes of its owning membership, if any;
      - `owningFeatureMembership`: its owning feature membership, if any;
      - `firstRedefinedFeature`: `None` without owned redefinitions, otherwise
        whether the first one has a redefined feature;
      - `operator`: the operator of an operator expression (`None` for null);
      - `ownedMembershipCount`: the number of its owned memberships;
      - `ownedRelationship`, `ownedRelatedElement`: its two containers. */
  datatype Element = Element(
    types: set<MetaClass>,
    owningMembership: Option<set<MetaClass>>,
    owningFeatureMembership: Option<FeatureMembershipInfo>,
    firstRedefinedFeature: Option<bool>,
    operator: Option<string>,
    ownedMembershipCount: nat,
    ownedRelationship: seq<Element>,
    ownedRelatedElement: seq<Element>
  )

  /** The default service the class extends, and the utility that tells
      whether a parameter membership's owned member feature is an input
      parameter. */
  datatype Policy = Policy(
    isTransient: (Element, StructuralFeature, int) -> bool,
    isCheckElementsIndividually: (Element, StructuralFeature) -> bool,
    isInputParameter: Element -> bool
  )

  /** The index the service reads from a container must exist. */
  predicate IndexInRange(owner: Element, feature: StructuralFeature, index: int) {
    && (feature == OwnedRelationship ==> 0 <= index < |owner.ownedRelationship|)
    && (feature == OwnedRelatedElement ==> 0 <= index < |owner.ownedRelatedElement|)
  }

  /** `isCheckElementsIndividually`. */
  function IsCheckElementsIndividually(policy: Policy, owner: Element, feature: StructuralFeature): (r: bool)
    ensures feature == OwnedRelationship || feature == OwnedRelatedElement ==> r
    ensures feature != OwnedRelationship && feature != OwnedRelatedElement ==>
              r == policy.isCheckElementsIndividually(owner, feature)
  {
    if feature in CheckElementsIndividually then true
    else policy.isCheckElementsIndividually(owner, feature)
  }

  /** The direction of a feature is implied by how it is owned: by a
      (return) parameter membership, or as an end of an item flow whose first
      redefinition names the redefined feature. */
  predicate DirectionImplied(owner: Element) {
    match owner.owningFeatureMembership
    case None => false
    case Some(m) =>
      || ReturnParameterMembership in m.types
      || ParameterMembership in m.types
      || (m.owningType.Some? && ItemFlowEnd in m.owningType.value && owner.firstRedefinedFeature == Some(true))
  }

  /** The result parameter of an expression is implicit, except after the
      operators `all`, `as` and `meta` and in a feature reference expression
      with exactly one owned membership. */
  predicate ResultImplicit(owner: Element) {
    if OperatorExpression in owner.types then
      owner.operator != Some("all") && owner.operator != Some("as") && owner.operator != Some("meta")
    else if FeatureReferenceExpression in owner.types then
      owner.ownedMembershipCount != 1
    else
      true
  }

  /** `isTransient`. */
  function IsTransient(policy: Policy, owner: Element, feature: StructuralFeature, index: int): (r: bool)
    requires IndexInRange(owner, feature, index)
    // delegate-initialised features are always transient; operands never are
    ensures feature in TransientFeatures ==> r
    ensures feature == Operand ==> !r
    // direction: transient when implied by the owning membership, else the default decides
    ensures feature == Direction ==>
              r == (DirectionImplied(owner) || policy.isTransient(owner, feature, index))
    // isEnd: exactly when owned through an end feature membership, with no default
    ensures feature == IsEnd ==>
              (r <==> owner.owningMembership.Some? && EndFeatureMembership in owner.owningMembership.value)
    // relationship targets: transient iff the relationship owns a related element
    ensures feature in OwningRelationshipTargets ==> (r <==> |owner.ownedRelatedElement| > 0)
    // a placeholder multiplicity is transient
    ensures (&& feature == OwnedRelatedElement
             && Multiplicity in owner.ownedRelatedElement[index].types
             && MultiplicityRange !in owner.ownedRelatedElement[index].types) ==> r
    // any other owned related element is left to the default
    ensures (&& feature == OwnedRelatedElement
             && !(Multiplicity in owner.ownedRelatedElement[index].types
                  && MultiplicityRange !in owner.ownedRelatedElement[index].types))
            ==> r == policy.isTransient(owner, feature, index)
    // every feature the service does not single out is left to the default
    ensures feature.Other? ==> r == policy.isTransient(owner, feature, index)
  {
    if feature in TransientFeatures then
      true
    else if feature == Direction then
      DirectionImplied(owner) || policy.isTransient(owner, feature, index)
    else if feature == IsEnd then
      owner.owningMembership.Some? && EndFeatureMembership in owner.owningMembership.value
    else if feature == OwnedRelationship then
      var relationship := owner.ownedRelationship[index];
      if Expression in owner.types && ReturnParameterMembership in relationship.types then
        ResultImplicit(owner)
      else if InvocationExpression in owner.types && ParameterMembership in relationship.types
              && policy.isInputParameter(relationship) then
        true
      else if OwningMembership in relationship.types then
        IsAllTransient(policy, relationship, 0)
      else
        policy.isTransient(owner, feature, index)
    else if feature == OwnedRelatedElement then
      RelatedElementTransient(policy, owner, index)
    else if feature == Operand then
      false
    else if feature in OwningRelationshipTargets then
      |owner.ownedRelatedElement| > 0
    else
      policy.isTransient(owner, feature, index)
  }

  /** The `ownedRelatedElement` case of `isTransient`: a placeholder
      multiplicity (one that is not a range) is transient, anything else is
      left to the default policy. It does not look deeper into the model, so
      `isAllTransient` below calls it directly. */
  predicate RelatedElementTransient(policy: Policy, owner: Element, index: int)
    requires 0 <= index < |owner.ownedRelatedElement|
  {
    var related := owner.ownedRelatedElement[index];
    (Multiplicity in related.types && MultiplicityRange !in related.types)
    || policy.isTransient(owner, OwnedRelatedElement, index)
  }

  /** `isAllTransient(relationship, ownedRelatedElement)`, from index `from`
      on: the loop stops with false at the first element that is not
      transient, and is true when it runs out of elements. */
  function IsAllTransient(policy: Policy, relationship: Element, from: nat): (r: bool)
    ensures r <==> forall i | from <= i < |relationship.ownedRelatedElement| ::
                     RelatedElementTransient(policy, relationship, i)
    decreases |relationship.ownedRelatedElement| - from
  {
    if from >= |relationship.ownedRelatedElement| then true
    else if !RelatedElementTransient(policy, relationship, from) then false
    else IsAllTransient(policy, relationship, from + 1)
  }

  // ---------------------------------------------------------------------------
  // The owned-relationship cascade
  // ---------------------------------------------------------------------------

  /** A return parameter membership of an expression is decided by the
      result rule alone, even when it is also an (input) parameter
      membership of an invocation or an owning membership. */
  lemma ReturnParameterOfExpression(policy: Policy, owner: Element, index: int)
    requires 0 <= index < |owner.ownedRelationship|
    requires Expression in owner.types
    requires ReturnParameterMembership in owner.ownedRelationship[index].types
    ensures IsTransient(policy, owner, OwnedRelationship, index) == ResultImplicit(owner)
  {
  }

  /** The three cases of the result rule, spelled out. */
  lemma ResultImplicitCases(owner: Element)
    ensures OperatorExpression in owner.types ==>
              (ResultImplicit(owner) <==> owner.operator !in {Some("all"), Some("as"), Some("meta")})
    ensures OperatorExpression !in owner.types && FeatureReferenceExpression in owner.types ==>
              (ResultImplicit(owner) <==> owner.ownedMembershipCount != 1)
    ensures OperatorExpression !in owner.types && FeatureReferenceExpression !in owner.types ==>
              ResultImplicit(owner)
  {
  }

  /** An input parameter of an invocation is transient, unless the result
      rule of an expression got to it first. */
  lemma InputParameterOfInvocation(policy: Policy, owner: Element, index: int)
    requires 0 <= index < |owner.ownedRelationship|
    requires InvocationExpression in owner.types
    requires ParameterMembership in owner.ownedRelationship[index].types
    requires policy.isInputParameter(owner.ownedRelationship[index])
    requires !(Expression in owner.types && ReturnParameterMembership in owner.ownedRelationship[index].types)
    ensures IsTransient(policy, owner, OwnedRelationship, index)
  {
  }

  /** An owning membership that reaches the last test is transient exactly
      when all the elements it owns are. */
  lemma OwningMembershipIsAllTransient(policy: Policy, owner: Element, index: int)
    requires 0 <= index < |owner.ownedRelationship|
    requires var rel := owner.ownedRelationship[index];
             && OwningMembership in rel.types
             && !(Expression in owner.types && ReturnParameterMembership in rel.types)
             && !(InvocationExpression in owner.types && ParameterMembership in rel.types && policy.isInputParameter(rel))
    ensures IsTransient(policy, owner, OwnedRelationship, index) <==>
              forall i | 0 <= i < |owner.ownedRelationship[index].ownedRelatedElement| ::
                IsTransient(policy, owner.ownedRelationship[index], OwnedRelatedElement, i)
  {
    var rel := owner.ownedRelationship[index];
    assert IsTransient(policy, owner, OwnedRelationship, index) == IsAllTransient(policy, rel, 0);
    forall i | 0 <= i < |rel.ownedRelatedElement|
      ensures IsTransient(policy, rel, OwnedRelatedElement, i) == RelatedElementTransient(policy, rel, i)
    {
    }
  }

  /** The membership the utility inserts to hold a default multiplicity (it
      owns only multiplicities that are not ranges) is transient whatever the
      default policy says, and so is a membership owning nothing. */
  lemma InsertedMultiplicityMembershipIsTransient(policy: Policy, owner: Element, index: int)
    requires 0 <= index < |owner.ownedRelationship|
    requires var rel := owner.ownedRelationship[index];
             && OwningMembership in rel.types
             && !(Expression in owner.types && ReturnParameterMembership in rel.types)
             && !(InvocationExpression in owner.types && ParameterMembership in rel.types && policy.isInputParameter(rel))
             && forall i | 0 <= i < |rel.ownedRelatedElement| ::
                  Multiplicity in rel.ownedRelatedElement[i].types && MultiplicityRange !in rel.ownedRelatedElement[i].types
    ensures IsTransient(policy, owner, OwnedRelationship, index)
  {
    var rel := owner.ownedRelationship[index];
    forall i | 0 <= i < |rel.ownedRelatedElement|
      ensures IsTransient(policy, rel, OwnedRelatedElement, i)
    {
    }
    OwningMembershipIsAllTransient(policy, owner, index);
  }

  /** A membership owning a multiplicity range is printed as soon as the
      default policy keeps that range. */
  lemma MembershipWithKeptRangeIsPrinted(policy: Policy, owner: Element, index: int, i: nat)
    requires 0 <= index < |owner.ownedRelationship|
    requires var rel := owner.ownedRelationship[index];
             && OwningMembership in rel.types
             && !(Expression in owner.types && ReturnParameterMembership in rel.types)
             && !(InvocationExpression in owner.types && ParameterMembership in rel.types && policy.isInputParameter(rel))
             && i < |rel.ownedRelatedElement|
             && MultiplicityRange in rel.ownedRelatedElement[i].types
             && !policy.isTransient(rel, OwnedRelatedElement, i)
    ensures !IsTransient(policy, owner, OwnedRelationship, index)
  {
    var rel := owner.ownedRelationship[index];
    assert !IsTransient(policy, rel, OwnedRelatedElement, i);
  }

  /** Any other owned relationship is left to the default policy. */
  lemma OtherRelationshipIsDefault(policy: Policy, owner: Element, index: int)
    requires 0 <= index < |owner.ownedRelationship|
    requires var rel := owner.ownedRelationship[index];
             && !(Expression in owner.types && ReturnParameterMembership in rel.types)
             && !(InvocationExpression in owner.types && ParameterMembership in rel.types && policy.isInputParameter(rel))
             && OwningMembership !in rel.types
    ensures IsTransient(policy, owner, OwnedRelationship, index) == policy.isTransient(owner, OwnedRelationship, index)
  {
  }

  // ---------------------------------------------------------------------------
  // What does not depend on the default policy
  // ---------------------------------------------------------------------------

  /** The decisions the service takes itself are the same under any default
      policy: delegate-initialised features, `isEnd`, operands and
      relationship targets. */
  lemma FixedDecisionsIgnorePolicy(p1: Policy, p2: Policy, owner: Element, feature: StructuralFeature, index: int)
    requires IndexInRange(owner, feature, index)
    requires feature in TransientFeatures || feature in OwningRelationshipTargets || feature in {IsEnd, Operand}
    ensures IsTransient(p1, owner, feature, index) == IsTransient(p2, owner, feature, index)
  {
  }

  /** An implied direction is transient under any default policy; otherwise
      the default alone decides. */
  lemma DirectionDecision(policy: Policy, owner: Element, index: int)
    ensures DirectionImplied(owner) ==> IsTransient(policy, owner, Direction, index)
    ensures !DirectionImplied(owner) ==>
              IsTransient(policy, owner, Direction, index) == policy.isTransient(owner, Direction, index)
    ensures owner.owningFeatureMembership.None? ==>
              IsTransient(policy, owner, Direction, index) == policy.isTransient(owner, Direction, index)
  {
  }
}
