/**
 * The cross-reference serializer: the token printed for a reference to a
 * target object. It is an ordered fallback pipeline: reuse the original
 * text of an unresolved reference; give up without a scope; print the fully
 * qualified name (or that of the member a membership wraps) when the scope
 * resolves it to the target; otherwise print the effective name when the
 * scope resolves that to the target; otherwise fail.
 *
 * The scope provider, the qualified-name provider, the name converter, proxy
 * resolution and node serialisation are collaborators whose code is not part
 * of this model; they appear as the function-valued fields of `Naming` and as
 * the `Scope` the provider returned.
 */
module CrossReferences {
  import opened Optional

  /** The platform-resource-or-normalised URI that identifies an object. */
  type Uri = string

  /** A qualified name as a sequence of segments. */
  type QualifiedName = seq<string>

  /** What kind of object a reference target is: not a language element at
      all, an element, or an owning membership wrapping its owned member. */
  datatype TargetKind =
    | NonElement
    | PlainElement
    | OwningMembership(ownedMemberElement: EObj)
  {
    predicate IsElement() { !NonElement? }
  }

  /** A reference target: its URI, whether it is an unresolved proxy, and its kind. */
  datatype EObj = EObj(uri: Uri, isProxy: bool, kind: TargetKind)

  /** A node of the parse tree that still holds the reference's original text. */
  datatype Node = Node(id: nat)

  /** The scope visible at the reference: `singleElement(q)` is the URI of
      the element the scope's single-element lookup returns for `q`, if any. */
  datatype Scope = Scope(singleElement: QualifiedName -> Option<Uri>)

  /** The collaborators the pipeline calls. */
  datatype Naming = Naming(
    fullyQualifiedName: EObj -> Option<QualifiedName>,
    effectiveName: EObj -> Option<string>,
    toQualifiedName: string -> QualifiedName,
    toText: QualifiedName -> string,
    handleProxy: EObj -> EObj,
    serializeNode: Node -> string
  )

  /** Why no name could be found; each is an `IllegalArgumentException` in the
      source, except `NullTarget`, the null dereference of a missing
      target for which no node was given either. */
  datatype Failure = NullTarget | NotAnElement | NoEffectiveName | EffectiveNameNotInScope

  /** The result of `serializeCrossRef`: a token, the null returned when no
      scope exists (with whether a diagnostic was reported), or a failure. */
  datatype Outcome = Text(token: string) | NoScope(diagnosed: bool) | Error(failure: Failure)

  /** The name chosen for a resolved target, before conversion to text. */
  datatype Choice = Chosen(name: QualifiedName) | Failed(failure: Failure)

  /** `validInScope`: the scope's single-element lookup for the name returns
      an element, and its URI is the target's. */
  predicate ValidInScope(scope: Scope, name: QualifiedName, target: Uri) {
    scope.singleElement(name) == Some(target)
  }

  /** The first candidate name: the target's fully qualified name, or, when
      it has none and it is an owning membership, that of its owned member. */
  function Candidate(naming: Naming, target: EObj): (r: Option<QualifiedName>)
    ensures naming.fullyQualifiedName(target).Some? ==> r == naming.fullyQualifiedName(target)
    ensures naming.fullyQualifiedName(target).None? && target.kind.OwningMembership? ==>
              r == naming.fullyQualifiedName(target.kind.ownedMemberElement)
    ensures naming.fullyQualifiedName(target).None? && !target.kind.OwningMembership? ==> r.None?
  {
    match naming.fullyQualifiedName(target)
    case Some(q) => Some(q)
    case None =>
      if target.kind.OwningMembership? then naming.fullyQualifiedName(target.kind.ownedMemberElement)
      else None
  }

  /** The name chosen for a resolved target: the candidate when it is valid
      in the scope, otherwise the effective name when that is valid. */
  function ChooseName(naming: Naming, scope: Scope, target: EObj): (r: Choice)
    // whatever is chosen designates exactly the target in this scope
    ensures r.Chosen? ==> ValidInScope(scope, r.name, target.uri)
    // the candidate wins whenever it is valid
    ensures (var c := Candidate(naming, target); c.Some? && ValidInScope(scope, c.value, target.uri))
              ==> r == Chosen(Candidate(naming, target).value)
    // otherwise the converted effective name is the only other possible choice
    ensures r.Chosen? && !ValidCandidate(naming, scope, target) ==>
              target.kind.IsElement() && naming.effectiveName(target).Some? &&
              r.name == naming.toQualifiedName(naming.effectiveName(target).value)
    // the three failures of the fallback
    ensures r == Failed(NotAnElement) <==> !ValidCandidate(naming, scope, target) && !target.kind.IsElement()
    ensures r == Failed(NoEffectiveName) <==>
              !ValidCandidate(naming, scope, target) && target.kind.IsElement() && naming.effectiveName(target).None?
    ensures r == Failed(EffectiveNameNotInScope) <==>
              && !ValidCandidate(naming, scope, target) && target.kind.IsElement()
              && naming.effectiveName(target).Some?
              && !ValidInScope(scope, naming.toQualifiedName(naming.effectiveName(target).value), target.uri)
    ensures r.Failed? ==> r.failure != NullTarget
  {
    var candidate := Candidate(naming, target);
    if candidate.Some? && ValidInScope(scope, candidate.value, target.uri) then
      Chosen(candidate.value)
    else if !target.kind.IsElement() then
      Failed(NotAnElement)
    else
      match naming.effectiveName(target)
      case None => Failed(NoEffectiveName)
      case Some(effective) =>
        var q := naming.toQualifiedName(effective);
        if ValidInScope(scope, q, target.uri) then Chosen(q) else Failed(EffectiveNameNotInScope)
  }

  /** The candidate name exists and the scope resolves it to the target. */
  predicate ValidCandidate(naming: Naming, scope: Scope, target: EObj) {
    var c := Candidate(naming, target);
    c.Some? && ValidInScope(scope, c.value, target.uri)
  }

  /** True when the original text of the reference is reused: the target is
      missing or an unresolved proxy, and a node is at hand. */
  predicate Reuses(target: Option<EObj>, node: Option<Node>) {
    (target.None? || target.value.isProxy) && node.Some?
  }

  /** `SysMLCrossReferenceSerializer.serializeCrossRef`. `scope` is what the
      scope provider returned for the referencing object and reference, and
      `reportErrors` says whether an error acceptor was supplied. */
  function SerializeCrossRef(naming: Naming, scope: Option<Scope>, target: Option<EObj>,
                             node: Option<Node>, reportErrors: bool): (r: Outcome)
    // an unresolved reference whose text is known is printed as it was written
    ensures Reuses(target, node) ==> r == Text(naming.serializeNode(node.value))
    // without a scope nothing is printed; a diagnostic is reported iff an acceptor is given
    ensures !Reuses(target, node) && scope.None? ==> r == NoScope(reportErrors)
    ensures r.NoScope? ==> scope.None? && r.diagnosed == reportErrors
    // a missing target with no node to reuse fails
    ensures !Reuses(target, node) && scope.Some? && target.None? ==> r == Error(NullTarget)
    // otherwise the chosen name is printed, and a failure to choose one is the error
    ensures !Reuses(target, node) && scope.Some? && target.Some? ==>
              var c := ChooseName(naming, scope.value, Resolve(naming, target.value));
              && (r.Text? <==> c.Chosen?)
              && (c.Chosen? ==> r == Text(naming.toText(c.name)))
              && (c.Failed? ==> r == Error(c.failure))
    // every other token is the text of a name the scope resolves to the (proxy-resolved) target
    ensures !Reuses(target, node) && r.Text? ==>
              scope.Some? && target.Some? &&
              var t := Resolve(naming, target.value);
              ChooseName(naming, scope.value, t).Chosen? &&
              ValidInScope(scope.value, ChooseName(naming, scope.value, t).name, t.uri) &&
              r.token == naming.toText(ChooseName(naming, scope.value, t).name)
  {
    if Reuses(target, node) then
      Text(naming.serializeNode(node.value))
    else if scope.None? then
      NoScope(reportErrors)
    else if target.None? then
      Error(NullTarget)
    else
      match ChooseName(naming, scope.value, Resolve(naming, target.value))
      case Chosen(q) => Text(naming.toText(q))
      case Failed(f) => Error(f)
  }

  /** The target after `handleProxy` has been given the chance to resolve it. */
  function Resolve(naming: Naming, target: EObj): EObj {
    if target.isProxy then naming.handleProxy(target) else target
  }

  // ---------------------------------------------------------------------------
  // Properties of the pipeline
  // ---------------------------------------------------------------------------

  /** Reusing the original text does not consult the scope: the result is the
      same whatever the scope provider answered. */
  lemma ReuseIgnoresScope(naming: Naming, s1: Option<Scope>, s2: Option<Scope>,
                          target: Option<EObj>, node: Option<Node>, reportErrors: bool)
    requires Reuses(target, node)
    ensures SerializeCrossRef(naming, s1, target, node, reportErrors)
         == SerializeCrossRef(naming, s2, target, node, reportErrors)
  {
  }

  /** The printed token resolves back to the target: when the name converter
      reads back what it writes, parsing the token and looking it up in the
      same scope yields exactly the target's URI. */
  lemma TokenResolvesToTarget(naming: Naming, scope: Scope, target: EObj, node: Option<Node>,
                              reportErrors: bool)
    requires !target.isProxy || node.None?
    requires forall q :: naming.toQualifiedName(naming.toText(q)) == q
    ensures var r := SerializeCrossRef(naming, Some(scope), Some(target), node, reportErrors);
            r.Text? ==> scope.singleElement(naming.toQualifiedName(r.token)) == Some(Resolve(naming, target).uri)
  {
  }

  /** Within one scope two targets with different URIs never get the same
      name: the scope maps a name to one URI at most. */
  lemma DistinctTargetsGetDistinctNames(naming: Naming, scope: Scope, t1: EObj, t2: EObj)
    requires t1.uri != t2.uri
    requires ChooseName(naming, scope, t1).Chosen? && ChooseName(naming, scope, t2).Chosen?
    ensures ChooseName(naming, scope, t1).name != ChooseName(naming, scope, t2).name
  {
  }

  /** The same for the printed tokens, given a name converter that reads back
      what it writes. */
  lemma DistinctTargetsGetDistinctTokens(naming: Naming, scope: Scope, t1: EObj, t2: EObj)
    requires forall q :: naming.toQualifiedName(naming.toText(q)) == q
    requires !t1.isProxy && !t2.isProxy && t1.uri != t2.uri
    ensures var r1 := SerializeCrossRef(naming, Some(scope), Some(t1), None, false);
            var r2 := SerializeCrossRef(naming, Some(scope), Some(t2), None, false);
            r1.Text? && r2.Text? ==> r1.token != r2.token
  {
    var r1 := SerializeCrossRef(naming, Some(scope), Some(t1), None, false);
    var r2 := SerializeCrossRef(naming, Some(scope), Some(t2), None, false);
    if r1.Text? && r2.Text? {
      DistinctTargetsGetDistinctNames(naming, scope, t1, t2);
      assert naming.toQualifiedName(r1.token) == ChooseName(naming, scope, t1).name;
      assert naming.toQualifiedName(r2.token) == ChooseName(naming, scope, t2).name;
    }
  }

  /** A wrapped member's name is used only for a membership without a
      qualified name of its own, and only when it designates the membership
      itself in the scope. */
  lemma MembershipFallsBackToMemberName(naming: Naming, scope: Scope, target: EObj)
    requires target.kind.OwningMembership? && naming.fullyQualifiedName(target).None?
    requires var m := naming.fullyQualifiedName(target.kind.ownedMemberElement);
             m.Some? && ValidInScope(scope, m.value, target.uri)
    ensures ChooseName(naming, scope, target) == Chosen(naming.fullyQualifiedName(target.kind.ownedMemberElement).value)
  {
  }

  /** The effective name is tried exactly when the candidate is missing or
      invalid, and a valid effective name is then printed. */
  lemma EffectiveNameFallback(naming: Naming, scope: Scope, target: EObj)
    requires !ValidCandidate(naming, scope, target)
    requires target.kind.IsElement() && naming.effectiveName(target).Some?
    requires ValidInScope(scope, naming.toQualifiedName(naming.effectiveName(target).value), target.uri)
    ensures ChooseName(naming, scope, target) == Chosen(naming.toQualifiedName(naming.effectiveName(target).value))
  {
  }
}
