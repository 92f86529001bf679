# SysML v2 textual serializer, modelled in Dafny

This project models the core of the SysML v2 Pilot Implementation's textual serializer. That serializer turns a model
object tree back into KerML/SysML text with Xtext. The model covers five parts:

- **Feature upper bounds** (`StateGraph`, `Tarjan`, `TarjanProof`, `UpperBounds`, `BoundReference`, `BoundPaths`,
  `JavaIntBounds`). The grammar constraint provider computes how often each feature of a rule may be assigned. A
  rule's semantic-state automaton becomes an `Nfa` with follower lists, one feature id per state and a start state.
  Tarjan's algorithm finds the strongly connected components: three mutually recursive functions over an immutable
  record of the `Tarjan` object's fields. The memoized longest-path computation is written once, over the integer
  operations it uses. It is instantiated with saturating bounds and with Java's 32-bit `int`.
  - The components are proved to be exactly the reachable strongly connected components.
  - The saturating bounds are proved to be the supremum of how often a walk from the start assigns the feature, and
    `MAX` exactly when that is unbounded.
  - The 32-bit instance exhibits the overflow under "## Findings".
- **Transient values** (`TransientValues`). The service decides which features and which elements of
  `ownedRelationship`/`ownedRelatedElement` are not printed.
- **Cross references** (`CrossReferences`). The serializer picks the name printed for a reference target: reuse of
  the original text, the fully qualified name, the owned member's name for an owning membership, then the effective
  name, each checked against the scope.
- **Regular comments** (`CommentConverter`). `toEscapedString` turns a comment body into a `/* ... */` token.
- **The round-trip comparator of the serialization example** (`Snapshots`). It covers pre-order numbering of a
  containment tree, object snapshots and their comparison. Comparison is proved blind to object identities inside
  the tree.

EMF reflection, scopes, name providers and the default transient-value policy are passed in as data or function
values. `Optional.Option` stands for Java's nullable results.

## Model

| member | source | states |
|---|---|---|
| CommentConverter.ToEscapedString | org.omg.sysml.xtext/src/org/omg/sysml/xtext/conversion/RegularCommentValueConverter.java:39-58 | The value is rejected exactly when it contains `*/`. Otherwise the token starts with `/*`, ends with ` */`, and holds no other closer. |
| CommentConverter.JavaSplitJoin | org.omg.sysml.xtext/src/org/omg/sysml/xtext/conversion/RegularCommentValueConverter.java:43 | The lines of `split("\n")` hold no line feed. Joined with line feeds, they give the value without its trailing line feeds. |
| CommentConverter.JavaSplit | org.omg.sysml.xtext/src/org/omg/sysml/xtext/conversion/RegularCommentValueConverter.java:43 | `split("\n")`: a value without a line feed is its own only line; otherwise the pieces between line feeds, with trailing empty pieces dropped. JavaSplitJoin and JavaSplitEmptyIff state what the lines are. |
| CommentConverter.JavaSplitEmptyIff | org.omg.sysml.xtext/src/org/omg/sysml/xtext/conversion/RegularCommentValueConverter.java:43-46 | The split yields no line exactly when the value is one or more line feeds. |
| CommentConverter.JoinSplitAll | org.omg.sysml.xtext/src/org/omg/sysml/xtext/conversion/RegularCommentValueConverter.java:43 | Splitting at every line feed and joining back restores the value. |
| CommentConverter.JoinDropTrailing | org.omg.sysml.xtext/src/org/omg/sysml/xtext/conversion/RegularCommentValueConverter.java:43 | Dropping the trailing empty pieces equals stripping the trailing line feeds. |
| CommentConverter.DropTrailingEmpty | org.omg.sysml.xtext/src/org/omg/sysml/xtext/conversion/RegularCommentValueConverter.java:43 | The result is a prefix of the pieces. It ends with a non-empty piece, and only empty pieces were removed. |
| CommentConverter.StripTrailingNewlines | org.omg.sysml.xtext/src/org/omg/sysml/xtext/conversion/RegularCommentValueConverter.java:43 | The result is a prefix not ending in a line feed, and only line feeds were removed. |
| CommentConverter.EmptyBodyIsEmptyComment | org.omg.sysml.xtext/src/org/omg/sysml/xtext/conversion/RegularCommentValueConverter.java:45-46 | A body made only of line feeds becomes `/* */`. |
| CommentConverter.OneLineComment | org.omg.sysml.xtext/src/org/omg/sysml/xtext/conversion/RegularCommentValueConverter.java:47-48 | A body of one line, trailing line feeds aside, becomes `/* line */`. |
| CommentConverter.ManyLineComment | org.omg.sysml.xtext/src/org/omg/sysml/xtext/conversion/RegularCommentValueConverter.java:49-56 | A body of several lines becomes `/*`, one ` * line` per line and ` */`. The lines joined back give the body. |
| CrossReferences.ValidInScope | org.omg.sysml.xtext/src/org/omg/sysml/xtext/serializer/SysMLCrossReferenceSerializer.java:109-112 | `validInScope`: the scope's single-element lookup for the name returns an element whose URI is the target's. DistinctTargetsGetDistinctNames draws the consequence that one name serves one URI. |
| CrossReferences.Reuses | org.omg.sysml.xtext/src/org/omg/sysml/xtext/serializer/SysMLCrossReferenceSerializer.java:69-70 | The original text is reused exactly when the target is missing or an unresolved proxy and a node is given. ReuseIgnoresScope shows the scope plays no part then. |
| CrossReferences.Resolve | org.omg.sysml.xtext/src/org/omg/sysml/xtext/serializer/SysMLCrossReferenceSerializer.java:80-82 | A proxy target is replaced by what `handleProxy` returns; any other target is kept. TokenResolvesToTarget shows the token designates the resolved target. |
| CrossReferences.Candidate | org.omg.sysml.xtext/src/org/omg/sysml/xtext/serializer/SysMLCrossReferenceSerializer.java:86-90 | The fully qualified name is used when there is one. Otherwise an owning membership's owned member's name is used. Otherwise there is none. |
| CrossReferences.ChooseName | org.omg.sysml.xtext/src/org/omg/sysml/xtext/serializer/SysMLCrossReferenceSerializer.java:91-105 | A chosen name always resolves in the scope to the target. The candidate is kept exactly when it resolves. Each of the three failures happens exactly under its condition. |
| CrossReferences.SerializeCrossRef | org.omg.sysml.xtext/src/org/omg/sysml/xtext/serializer/SysMLCrossReferenceSerializer.java:68-107 | An unresolved target with a node reuses the node's text. A missing scope yields null, diagnosed when errors are accepted. Otherwise a missing target fails. For a present target, a token is printed exactly when a name is chosen for the proxy-resolved target: the token is the converted chosen name, and a failure to choose becomes that failure's exception. |
| CrossReferences.ReuseIgnoresScope | org.omg.sysml.xtext/src/org/omg/sysml/xtext/serializer/SysMLCrossReferenceSerializer.java:70-71 | When the original text is reused, the scope makes no difference. |
| CrossReferences.TokenResolvesToTarget | org.omg.sysml.xtext/src/org/omg/sysml/xtext/serializer/SysMLCrossReferenceSerializer.java:92-112 | Given a name converter that reads back what it writes, a printed token read back resolves in the scope to the target. |
| CrossReferences.DistinctTargetsGetDistinctNames | org.omg.sysml.xtext/src/org/omg/sysml/xtext/serializer/SysMLCrossReferenceSerializer.java:109-112 | Two targets with different URIs never get the same name in one scope. |
| CrossReferences.DistinctTargetsGetDistinctTokens | org.omg.sysml.xtext/src/org/omg/sysml/xtext/serializer/SysMLCrossReferenceSerializer.java:106-112 | The same holds for the printed tokens. |
| CrossReferences.MembershipFallsBackToMemberName | org.omg.sysml.xtext/src/org/omg/sysml/xtext/serializer/SysMLCrossReferenceSerializer.java:87-90 | A membership without its own name, whose member's name resolves to it, is printed with the member's name. |
| CrossReferences.EffectiveNameFallback | org.omg.sysml.xtext/src/org/omg/sysml/xtext/serializer/SysMLCrossReferenceSerializer.java:92-104 | When the candidate fails and the effective name resolves, the effective name is chosen. |
| TransientValues.IsCheckElementsIndividually | org.omg.sysml.xtext/src/org/omg/sysml/xtext/serializer/SysMLTransientValueService.java:79-85 | `ownedRelationship` and `ownedRelatedElement` are checked element by element. Every other feature is left to the default policy. |
| TransientValues.IsTransient | org.omg.sysml.xtext/src/org/omg/sysml/xtext/serializer/SysMLTransientValueService.java:87-156 | The listed features are always transient. Operands never are. The targets of owning relationships are transient exactly when the relationship owns an element. A placeholder multiplicity is transient, and any other owned related element follows the default policy. An implied direction is transient, and any other direction follows the default policy. Every feature the service does not single out follows the default policy. |
| TransientValues.IsAllTransient | org.omg.sysml.xtext/src/org/omg/sysml/xtext/serializer/SysMLTransientValueService.java:158-170 | True exactly when every owned related element from the index on is transient. |
| TransientValues.RelatedElementTransient | org.omg.sysml.xtext/src/org/omg/sysml/xtext/serializer/SysMLTransientValueService.java:139-147 | An owned related element is transient when it is a multiplicity that is not a range, otherwise when the default policy says so. InsertedMultiplicityMembershipIsTransient and MembershipWithKeptRangeIsPrinted state both outcomes. |
| TransientValues.DirectionImplied | org.omg.sysml.xtext/src/org/omg/sysml/xtext/serializer/SysMLTransientValueService.java:92-111 | The direction is implied by a return parameter or parameter membership, or by an item flow end owner when the first redefinition names a redefined feature. DirectionDecision ties it to `isTransient`. |
| TransientValues.ResultImplicit | org.omg.sysml.xtext/src/org/omg/sysml/xtext/serializer/SysMLTransientValueService.java:117-127 | An expression's result parameter is implicit except after `all`, `as` and `meta`, and except in a feature reference expression with exactly one owned membership. ResultImplicitCases spells out the cases. |
| TransientValues.ReturnParameterOfExpression | org.omg.sysml.xtext/src/org/omg/sysml/xtext/serializer/SysMLTransientValueService.java:117-128 | An expression's return parameter membership is transient exactly when the result is implicit. |
| TransientValues.ResultImplicitCases | org.omg.sysml.xtext/src/org/omg/sysml/xtext/serializer/SysMLTransientValueService.java:118-127 | The result is implicit unless the operator is `all`, `as` or `meta`, or a feature reference owns exactly one membership. |
| TransientValues.InputParameterOfInvocation | org.omg.sysml.xtext/src/org/omg/sysml/xtext/serializer/SysMLTransientValueService.java:129-134 | An input parameter membership of an invocation is transient. |
| TransientValues.OwningMembershipIsAllTransient | org.omg.sysml.xtext/src/org/omg/sysml/xtext/serializer/SysMLTransientValueService.java:135-138 | An owning membership that reaches the last test is transient exactly when all its owned related elements are. |
| TransientValues.InsertedMultiplicityMembershipIsTransient | org.omg.sysml.xtext/src/org/omg/sysml/xtext/serializer/SysMLTransientValueService.java:135-147 | A membership holding only placeholder multiplicities is not printed. |
| TransientValues.MembershipWithKeptRangeIsPrinted | org.omg.sysml.xtext/src/org/omg/sysml/xtext/serializer/SysMLTransientValueService.java:135-147 | A membership owning a multiplicity range is printed when the default policy keeps the range. |
| TransientValues.OtherRelationshipIsDefault | org.omg.sysml.xtext/src/org/omg/sysml/xtext/serializer/SysMLTransientValueService.java:115-138 | Any other owned relationship follows the default policy. |
| TransientValues.FixedDecisionsIgnorePolicy | org.omg.sysml.xtext/src/org/omg/sysml/xtext/serializer/SysMLTransientValueService.java:89-91 | The decisions the service takes itself do not depend on the default policy. |
| TransientValues.DirectionDecision | org.omg.sysml.xtext/src/org/omg/sysml/xtext/serializer/SysMLTransientValueService.java:92-111 | A direction implied by a parameter membership or by a redefining flow end is transient. Any other direction follows the default policy. |
| Snapshots.IdsOf | org.omg.sysml.interactive/src/org/omg/sysml/interactive/SerializationExample.java:297-308 | The identities are listed in traversal order, one per object. |
| Snapshots.LastIndex | org.omg.sysml.interactive/src/org/omg/sysml/interactive/SerializationExample.java:303-305 | The position of the last put of an identity: it holds the identity and no later position does. |
| Snapshots.NumberingSnoc | org.omg.sysml.interactive/src/org/omg/sysml/interactive/SerializationExample.java:303-305 | Putting one more identity maps it to the next number and leaves the others. |
| Snapshots.LastIndexUnique | org.omg.sysml.interactive/src/org/omg/sysml/interactive/SerializationExample.java:303-305 | The last position of an identity is determined by the sequence. |
| Snapshots.NumberObjects | org.omg.sysml.interactive/src/org/omg/sysml/interactive/SerializationExample.java:297-308 | The loop builds the map that sends each object to its last pre-order position. |
| Snapshots.NumberingIsPosition | org.omg.sysml.interactive/src/org/omg/sysml/interactive/SerializationExample.java:297-308 | In a tree of distinct objects, the k-th object gets number k, and the numbers are 0 to n-1. |
| Snapshots.Numbered | org.omg.sysml.interactive/src/org/omg/sysml/interactive/SerializationExample.java:149-152 | A target inside the numbering gets its number. Any other target gets -1. |
| Snapshots.NumberedIsSameEquivalence | org.omg.sysml.interactive/src/org/omg/sysml/interactive/SerializationExample.java:154-159 | `isSame` on numbered objects is an equivalence. A numbered object never matches an unnumbered one. Unnumbered objects match by identity. |
| Snapshots.NumberedIsSame | org.omg.sysml.interactive/src/org/omg/sysml/interactive/SerializationExample.java:154-159 | Two unnumbered objects match when they are the same object; otherwise their numbers must be equal. NumberedIsSameEquivalence shows it is an equivalence that never matches numbered with unnumbered. |
| Snapshots.GetList | org.omg.sysml.interactive/src/org/omg/sysml/interactive/SerializationExample.java:233-244 | A many-valued reference becomes its numbered targets in order. A single-valued one becomes no element or one element. |
| Snapshots.FirstUnsupported | org.omg.sysml.interactive/src/org/omg/sysml/interactive/SerializationExample.java:183-197 | The first recorded feature, in class order, that is a many-valued attribute or neither attribute nor reference. There is none exactly when every feature is supported. |
| Snapshots.FirstUnsupportedAt | org.omg.sysml.interactive/src/org/omg/sysml/interactive/SerializationExample.java:183-197 | An unsupported feature after a supported prefix is the first one. |
| Snapshots.Snapshot | org.omg.sysml.interactive/src/org/omg/sysml/interactive/SerializationExample.java:178-201 | A successful snapshot records exactly the kept attributes and references of the object's class. |
| Snapshots.SnapshotObject | org.omg.sysml.interactive/src/org/omg/sysml/interactive/SerializationExample.java:178-201 | The constructor's loop computes the declarative snapshot. It throws exactly when the class has an unsupported recorded feature. |
| Snapshots.IsSameEquivalence | org.omg.sysml.interactive/src/org/omg/sysml/interactive/SerializationExample.java:203-231 | `isSame` on snapshots is reflexive, symmetric and transitive. |
| Snapshots.IsSame | org.omg.sysml.interactive/src/org/omg/sysml/interactive/SerializationExample.java:203-231 | `ObjectSnapshot.isSame`: the same class, equal values for every recorded attribute, and element-wise matching lists of equal length for every recorded reference. IsSameEquivalence and RenamedModelCompares are its properties. |
| Snapshots.SnapshotAll | org.omg.sysml.interactive/src/org/omg/sysml/interactive/SerializationExample.java:271-281 | One snapshot per object, in order: the k-th snapshot, when all succeed, is that of the k-th object. |
| Snapshots.SnapshotModel | org.omg.sysml.interactive/src/org/omg/sysml/interactive/SerializationExample.java:271-281 | `snapshotModel`: the snapshots of the root and then its contents in pre-order, all taken with the pre-order numbering. SnapshotOrderMatchesNumbering, SnapshotModelValid and RenamedModelCompares state its properties. |
| Snapshots.SnapshotAllOk | org.omg.sysml.interactive/src/org/omg/sysml/interactive/SerializationExample.java:271-281 | The model snapshots exactly when every object does. |
| Snapshots.SnapshotAllFail | org.omg.sysml.interactive/src/org/omg/sysml/interactive/SerializationExample.java:178-197 | A failing model fails with the error of the first object that cannot be snapshotted. |
| Snapshots.SnapshotOrderMatchesNumbering | org.omg.sysml.interactive/src/org/omg/sysml/interactive/SerializationExample.java:271-281 | The k-th snapshot is of the object numbered k. |
| Snapshots.SnapshotModelValid | org.omg.sysml.interactive/src/org/omg/sysml/interactive/SerializationExample.java:271-281 | Every snapshot of a model records exactly its class's kept features. |
| Snapshots.CompareSnapshots | org.omg.sysml.interactive/src/org/omg/sysml/interactive/SerializationExample.java:283-295 | True exactly when the lengths agree and the snapshots at each position are the same. |
| Snapshots.RenamedModelCompares | org.omg.sysml.interactive/src/org/omg/sysml/interactive/SerializationExample.java:145-159 | A model that differs only in the identities of its objects snapshots exactly when the original does. Its snapshots compare the same, position by position. |
| Snapshots.SnapshotRename | org.omg.sysml.interactive/src/org/omg/sysml/interactive/SerializationExample.java:178-201 | Renaming an object and the numbering with it keeps its snapshot the same. |
| Snapshots.ReferenceListRename | org.omg.sysml.interactive/src/org/omg/sysml/interactive/SerializationExample.java:233-244 | The numbered targets of a reference match after renaming. |
| Snapshots.NumberedRename | org.omg.sysml.interactive/src/org/omg/sysml/interactive/SerializationExample.java:149-159 | A target inside the tree keeps its number. One outside keeps its identity. |
| Snapshots.NumberingRename | org.omg.sysml.interactive/src/org/omg/sysml/interactive/SerializationExample.java:297-308 | An injective renaming moves the numbering with it. |
| Snapshots.PreorderRename | org.omg.sysml.interactive/src/org/omg/sysml/interactive/SerializationExample.java:274-279 | A renamed tree is traversed in the same order. |
| Tarjan.PopComponent | org.omg.sysml.xtext/src/org/omg/sysml/xtext/serializer/SysMLGrammarConstraintProvider.java:213-219 | The do-while loop never grows the stack, and it collects `v` when `v` is on the stack. |
| Tarjan.StrongConnect | org.omg.sysml.xtext/src/org/omg/sysml/xtext/serializer/SysMLGrammarConstraintProvider.java:197-222 | Every numbered state has a low link. The visited state and everything numbered before stay numbered. |
| Tarjan.Followers | org.omg.sysml.xtext/src/org/omg/sysml/xtext/serializer/SysMLGrammarConstraintProvider.java:203-211 | The follower loop keeps the shape of the state and never un-numbers a state. |
| Tarjan.ComponentMap | org.omg.sysml.xtext/src/org/omg/sysml/xtext/serializer/SysMLGrammarConstraintProvider.java:186-194 | Each state of a found component of at least two states is mapped to that component. ComponentMapSpec states it. |
| Tarjan.ComputeComponents | org.omg.sysml.xtext/src/org/omg/sysml/xtext/serializer/SysMLGrammarConstraintProvider.java:184-195 | `computeComponents`: the search from the start state, then the map of kept components. ComputeComponentsCorrect shows it maps exactly the reachable states whose strongly connected component has at least two states, each to that component. |
| TarjanProof.PopComponentSpec | org.omg.sysml.xtext/src/org/omg/sysml/xtext/serializer/SysMLGrammarConstraintProvider.java:213-219 | Popping down to a state leaves the part of the stack below it. It collects exactly the part from it up, without repetition, and clears it from the on-stack set. |
| TarjanProof.SearchCorrect | org.omg.sysml.xtext/src/org/omg/sysml/xtext/serializer/SysMLGrammarConstraintProvider.java:184-185 | The search numbers exactly the states reachable from the start. It ends with an empty stack. |
| TarjanProof.ComponentsCorrect | org.omg.sysml.xtext/src/org/omg/sysml/xtext/serializer/SysMLGrammarConstraintProvider.java:197-222 | Each popped component is a whole strongly connected component without repetition. No two share a state. Together they hold exactly the reachable states. |
| TarjanProof.ComponentMapSpec | org.omg.sysml.xtext/src/org/omg/sysml/xtext/serializer/SysMLGrammarConstraintProvider.java:186-194 | A state is mapped exactly when it is in a component of at least two states, and it is mapped to that component. |
| TarjanProof.ComputeComponentsCorrect | org.omg.sysml.xtext/src/org/omg/sysml/xtext/serializer/SysMLGrammarConstraintProvider.java:184-195 | A state is mapped exactly when it is reachable and its strongly connected component has at least two states. It is mapped to that component, and all its members to the same one. |
| TarjanProof.DistinctCard | org.omg.sysml.xtext/src/org/omg/sysml/xtext/serializer/SysMLGrammarConstraintProvider.java:188 | A component without repetition has as many states as entries, so the size test counts states. |
| UpperBounds.Remember | org.omg.sysml.xtext/src/org/omg/sysml/xtext/serializer/SysMLGrammarConstraintProvider.java:133-135 | Every state of the component is memoized with the distance. Every other entry is kept. |
| UpperBounds.CycleFacts | org.omg.sysml.xtext/src/org/omg/sysml/xtext/serializer/SysMLGrammarConstraintProvider.java:120-123 | A mapped state belongs to its component. The component's states are states and reach what the state reaches. |
| UpperBounds.ExitShrinks | org.omg.sysml.xtext/src/org/omg/sysml/xtext/serializer/SysMLGrammarConstraintProvider.java:126-128 | A follower outside a kept component reaches strictly fewer states than the component. The recursion therefore terminates. |
| UpperBounds.StepShrinks | org.omg.sysml.xtext/src/org/omg/sysml/xtext/serializer/SysMLGrammarConstraintProvider.java:141-149 | A follower, other than the state itself, of a state outside every kept component reaches strictly fewer states. |
| UpperBounds.SccPair | org.omg.sysml.xtext/src/org/omg/sysml/xtext/serializer/SysMLGrammarConstraintProvider.java:142-147 | Two different states that reach each other form a component of at least two states, so only self-loops remain outside components. |
| UpperBounds.UpperBound | org.omg.sysml.xtext/src/org/omg/sysml/xtext/serializer/SysMLGrammarConstraintProvider.java:114-156 | The memo only grows, and afterwards it holds the returned distance for the state. |
| UpperBounds.CycleExits | org.omg.sysml.xtext/src/org/omg/sysml/xtext/serializer/SysMLGrammarConstraintProvider.java:125-132 | The outer component loop only adds to the memo. |
| UpperBounds.ExitFollowers | org.omg.sysml.xtext/src/org/omg/sysml/xtext/serializer/SysMLGrammarConstraintProvider.java:126-131 | The inner component loop only adds to the memo. |
| UpperBounds.FollowerLoop | org.omg.sysml.xtext/src/org/omg/sysml/xtext/serializer/SysMLGrammarConstraintProvider.java:141-152 | The follower loop only adds to the memo. |
| UpperBounds.ComputeUpperBounds | org.omg.sysml.xtext/src/org/omg/sysml/xtext/serializer/SysMLGrammarConstraintProvider.java:89-108 | There is one bound per feature. A feature assigned by a state of a kept component gets `MAX`. |
| BoundReference.UpperBoundIsDist | org.omg.sysml.xtext/src/org/omg/sysml/xtext/serializer/SysMLGrammarConstraintProvider.java:114-156 | With saturating arithmetic the memoized computation returns the memo-free reference distance, and it memoizes only reference distances. |
| BoundReference.CycleIsDist | org.omg.sysml.xtext/src/org/omg/sysml/xtext/serializer/SysMLGrammarConstraintProvider.java:120-136 | For an unmemoized state in a kept component, the computed bound is the largest reference distance of the component's exits, and the memo it leaves holds only reference distances. |
| BoundReference.StepIsDist | org.omg.sysml.xtext/src/org/omg/sysml/xtext/serializer/SysMLGrammarConstraintProvider.java:137-155 | For an unmemoized state outside every kept component, the computed bound is the reference distance, which is the largest follower distance plus the increment, and the memo it leaves holds only reference distances. |
| BoundReference.CycleExitsIsMax | org.omg.sysml.xtext/src/org/omg/sysml/xtext/serializer/SysMLGrammarConstraintProvider.java:124-132 | The component loops yield the running maximum joined with the largest remaining exit distance. |
| BoundReference.ExitFollowersIsMax | org.omg.sysml.xtext/src/org/omg/sysml/xtext/serializer/SysMLGrammarConstraintProvider.java:126-131 | The inner loop yields the running maximum joined with the state's remaining exits. |
| BoundReference.FollowerLoopIsMax | org.omg.sysml.xtext/src/org/omg/sysml/xtext/serializer/SysMLGrammarConstraintProvider.java:139-152 | The follower loop yields the running maximum joined with the remaining follower distances plus the increment. |
| BoundReference.DistInCycle | org.omg.sysml.xtext/src/org/omg/sysml/xtext/serializer/SysMLGrammarConstraintProvider.java:133-135 | All states of a component have the same distance. |
| BoundPaths.BoundsAreSupremum | org.omg.sysml.xtext/src/org/omg/sysml/xtext/serializer/SysMLGrammarConstraintProvider.java:89-108 | With saturating arithmetic a feature's bound is `MAX` exactly when walks from the start assign it arbitrarily often. Otherwise it is the largest number of times a walk assigns it. |
| BoundPaths.FeatureBound | org.omg.sysml.xtext/src/org/omg/sysml/xtext/serializer/SysMLGrammarConstraintProvider.java:102-106 | The same for one feature. |
| BoundPaths.UnassignedIsZero | org.omg.sysml.xtext/src/org/omg/sysml/xtext/serializer/SysMLGrammarConstraintProvider.java:139-154 | A feature that no reachable state assigns has bound 0. |
| BoundPaths.CountWithin | org.omg.sysml.xtext/src/org/omg/sysml/xtext/serializer/SysMLGrammarConstraintProvider.java:114-156 | No walk from a reachable state assigns the feature more often than the state's distance. |
| BoundPaths.DistAttained | org.omg.sysml.xtext/src/org/omg/sysml/xtext/serializer/SysMLGrammarConstraintProvider.java:114-156 | A finite distance is attained by some walk from the state. |
| BoundPaths.DistUnbounded | org.omg.sysml.xtext/src/org/omg/sysml/xtext/serializer/SysMLGrammarConstraintProvider.java:142-147 | A state without a bound starts walks that assign the feature any number of times. |
| BoundPaths.CycleTagPumps | org.omg.sysml.xtext/src/org/omg/sysml/xtext/serializer/SysMLGrammarConstraintProvider.java:92-99 | A feature assigned inside a kept component is assigned arbitrarily often by walks from the start. |
| BoundPaths.SelfLoopMax | org.omg.sysml.xtext/src/org/omg/sysml/xtext/serializer/SysMLGrammarConstraintProvider.java:142-147 | A state outside every component that assigns the feature and follows itself has no bound. |
| BoundPaths.ExitBelow | org.omg.sysml.xtext/src/org/omg/sysml/xtext/serializer/SysMLGrammarConstraintProvider.java:124-132 | A component's distance is at least that of every exit. |
| BoundPaths.StepBelow | org.omg.sysml.xtext/src/org/omg/sysml/xtext/serializer/SysMLGrammarConstraintProvider.java:148-151 | A state's distance is at least every follower's distance plus its increment. |
| JavaIntBounds.Wrap32 | org.omg.sysml.xtext/src/org/omg/sysml/xtext/serializer/SysMLGrammarConstraintProvider.java:150 | Java `int` addition: the result is in range, equals the sum when that is in range, and is congruent to it modulo 2^32. |
| JavaIntBounds.OverflowLosesBound | org.omg.sysml.xtext/src/org/omg/sysml/xtext/serializer/SysMLGrammarConstraintProvider.java:148-150 | In the three-state example, `MAX + 1` wraps to the least `int`, so the 32-bit computation gives bound 0. The saturating one gives `MAX`, and walks there assign the feature arbitrarily often. |

## Left out

- I/O, the `main` method of the serialization example, and its printing and parsing of text are left out. Only
  snapshotting and comparison are modelled.
- The grammar constraint provider's per-grammar cache and the Xtext context plumbing around `computeUpperBounds` are
  left out. Only the bound computation on one rule's automaton is modelled.
- `TestSemanticSequencer.java` and `SysMLValueConverterService.java` are not part of this model. The first is a
  generated sequencer and the second only registers converters. `toValue` of the comment converter is left out too.
- The scope provider, qualified name provider, name converter, proxy handling, token utility, the default
  transient-value policy and `FeatureUtil.isInputParameter` are collaborators outside this core. They are function
  values in `CrossReferences.Naming` and `TransientValues.Policy`.
- EMF reflection is an explicit tree (`Snapshots.EObject`) whose class lists its features in order. Java runtime
  classes are the `EClass` record.
- Java exceptions are results. An `IllegalArgumentException` is `CrossReferences.Failure` or `Snapshots.SnapError`.
  A `ValueConverterException` is `CommentConverter.Rejected`. A null target without a node is
  `CrossReferences.NullTarget`.
- Iteration over Java `HashSet` components and `HashMap` values follows sequence order. The bounds are the same for
  every order, because `Math.max` is associative and commutative. The memo then holds reference distances only.
- UpperBounds.ComputeUpperBounds: requires every feature id of a state of a kept component to be below the feature
  count. The original would throw `ArrayIndexOutOfBoundsException` there, and the model does not produce that
  error.
- UpperBounds.ComputeUpperBounds: assumes `IGrammarConstraintProvider.MAX` is `Integer.MAX_VALUE`. That constant's
  definition is not part of this model.
- Snapshots.NumberObjects: the counter `i` is an unbounded integer. A tree of more than 2^31 objects is out of
  reach.
- Snapshots.IsSame: requires both snapshots to be valid, which every constructed snapshot is. Two valid snapshots
  of the same class record the same features, so the lookups into the other snapshot never miss.
- Snapshots.GetList: a single-valued reference stores its target as the first element of its target sequence.
- TransientValues.IsTransient: requires the index to be within the container it reads, as the Java `get(index)`
  does.

## Findings

| source | as written | input that shows it | evidently intended | confidence | as-written member | corrected member |
|---|---|---|---|---|---|---|
| org.omg.sysml.xtext/src/org/omg/sysml/xtext/serializer/SysMLGrammarConstraintProvider.java:150 | `followerDistance + increment` on `int`: a follower distance of `MAX` plus an increment of 1 wraps to `Integer.MIN_VALUE`, and `Math.max` then drops it | followers `[[1], [2], [2]]`, feature ids `[-1, 0, 0]`, start 0, one feature: state 2 assigns feature 0 and follows itself, state 1 assigns it and leads to 2. The computed bound is 0. | bound `MAX`, since walks assign the feature arbitrarily often | not executed | JavaIntBounds.OverflowLosesBound | BoundPaths.BoundsAreSupremum |
