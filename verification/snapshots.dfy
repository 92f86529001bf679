/**
 * The round-trip comparator of the serialization example: a model is
 * snapshotted before it is printed and after the printed text is parsed
 * again, and the two snapshot lists are compared position by position.
 *
 * Objects are numbered in pre-order (the root 0, then the contents as the
 * tree iterator yields them), and a reference to an object inside the tree
 * is recorded as that number, so two models built from different object
 * identities can still compare equal. A reference to an object outside the
 * tree keeps the object's identity and number -1.
 *
 * EMF reflection is replaced by an explicit tree: every object carries its
 * class (whose ordered feature list plays `getEAllStructuralFeatures`), the
 * values of its attributes and references, and its contained children.
 */
module Snapshots {
  import opened Optional

  /** Object identity, as Java's `Objects.equals` on model objects sees it. */
  type ObjId = nat

  /** Structural features: the four identifier features the comparison
      ignores, and every other feature by name. */
  datatype FeatureId = ElementId | AliasIds | MemberElementId | OwnedMemberElementId | Named(name: string)

  /** `IGNORED_FEATURES`. */
  const IgnoredFeatures: set<FeatureId> := {ElementId, AliasIds, MemberElementId, OwnedMemberElementId}

  /** A feature is an attribute, a reference, or neither. */
  datatype FeatureKind = Attribute | Reference | OtherFeature

  /** A structural feature of a class. */
  datatype Feature = Feature(id: FeatureId, kind: FeatureKind, many: bool, derived: bool)

  /** A class and all its structural features, inherited ones included, in order. */
  datatype EClass = EClass(name: string, features: seq<Feature>)

  /** An attribute value; `NullValue` is Java's null. */
  datatype Value = NullValue | Value(text: string)

  /** A model object. A feature missing from `attributes` or `references`
      has its default: null, or no targets. A single-valued reference holds
      its target as the first (and only) element of its sequence. */
  datatype EObject = EObject(
    id: ObjId,
    eClass: EClass,
    attributes: map<FeatureId, Value>,
    references: map<FeatureId, seq<ObjId>>,
    contents: seq<EObject>
  )

  // ---------------------------------------------------------------------------
  // Pre-order traversal and numbering
  // ---------------------------------------------------------------------------

  /** The object followed by everything it contains, in pre-order: the
      root first, then what `eAllContents` yields. */
  function Preorder(o: EObject): (r: seq<EObject>)
    ensures |r| >= 1 && r[0] == o
    decreases o
  {
    [o] + PreorderAll(o.contents)
  }

  /** The pre-order traversals of a sequence of siblings, concatenated. */
  function PreorderAll(cs: seq<EObject>): seq<EObject>
    decreases cs
  {
    if cs == [] then [] else Preorder(cs[0]) + PreorderAll(cs[1..])
  }

  /** The identities of a sequence of objects. */
  function IdsOf(objs: seq<EObject>): (r: seq<ObjId>)
    ensures |r| == |objs| && forall k | 0 <= k < |objs| :: r[k] == objs[k].id
  {
    seq(|objs|, k requires 0 <= k < |objs| => objs[k].id)
  }

  /** The identities of the tree in pre-order. */
  function Ids(root: EObject): seq<ObjId> {
    IdsOf(Preorder(root))
  }

  /** The last position at which `x` occurs. */
  function LastIndex(ids: seq<ObjId>, x: ObjId): (k: nat)
    requires x in ids
    ensures k < |ids| && ids[k] == x
    ensures forall j | k < j < |ids| :: ids[j] != x
  {
    if ids[|ids| - 1] == x then |ids| - 1 else LastIndex(ids[..|ids| - 1], x)
  }

  /** The numbering a sequence of puts leaves behind: every identity is
      mapped to the last position it was put at. */
  function Numbering(ids: seq<ObjId>): map<ObjId, int> {
    map x | x in ids :: LastIndex(ids, x)
  }

  /** Putting one more identity at the next position. */
  lemma NumberingSnoc(ids: seq<ObjId>, x: ObjId)
    ensures Numbering(ids + [x]) == Numbering(ids)[x := |ids|]
  {
    var s := ids + [x];
    forall y | y in ids && y != x
      ensures LastIndex(s, y) == LastIndex(ids, y)
    {
      LastIndexUnique(s, y, LastIndex(ids, y));
    }
    assert LastIndex(s, x) == |ids|;
  }

  /** The last position is determined by the sequence. */
  lemma LastIndexUnique(ids: seq<ObjId>, x: ObjId, k: nat)
    requires k < |ids| && ids[k] == x
    requires forall j | k < j < |ids| :: ids[j] != x
    ensures LastIndex(ids, x) == k
  {
  }

  /** `numberObjects`: the root is put at 0, then each object of the
      pre-order contents at the next number. */
  method NumberObjects(root: EObject) returns (m: map<ObjId, int>)
    ensures m == Numbering(Ids(root))
  {
    var objs := Preorder(root);
    var ids := Ids(root);
    m := map[root.id := 0];
    NumberingPrefix(ids, 0);
    var i := 1;
    while i < |objs|
      invariant 1 <= i <= |objs| == |ids|
      invariant m == Numbering(ids[..i])
    {
      var obj := objs[i];
      NumberingPrefix(ids, i);
      m := m[obj.id := i];
      i := i + 1;
    }
    assert ids[..i] == ids;
  }

  /** Numbering one more position of a sequence of puts. */
  lemma NumberingPrefix(ids: seq<ObjId>, i: nat)
    requires i < |ids|
    ensures Numbering(ids[..i + 1]) == Numbering(ids[..i])[ids[i] := i]
  {
    assert ids[..i + 1] == ids[..i] + [ids[i]];
    NumberingSnoc(ids[..i], ids[i]);
  }

  /** In a tree whose objects are distinct (a containment tree always is),
      the k-th object in pre-order gets the number k, so the numbers are
      distinct and cover 0 to n-1. */
  lemma NumberingIsPosition(ids: seq<ObjId>)
    requires forall i, j | 0 <= i < j < |ids| :: ids[i] != ids[j]
    ensures forall k | 0 <= k < |ids| :: ids[k] in Numbering(ids) && Numbering(ids)[ids[k]] == k
    ensures forall x | x in Numbering(ids) :: 0 <= Numbering(ids)[x] < |ids|
  {
    forall k | 0 <= k < |ids|
      ensures Numbering(ids)[ids[k]] == k
    {
      LastIndexUnique(ids, ids[k], k);
    }
  }

  // ---------------------------------------------------------------------------
  // Numbered objects
  // ---------------------------------------------------------------------------

  /** A reference target with its number, or -1 when it is outside the tree. */
  datatype NumberedObject = NumberedObject(obj: ObjId, number: int)

  /** The `NumberedObject` constructor: `getOrDefault(object, -1)`. */
  function Numbered(obj: ObjId, numbering: map<ObjId, int>): (r: NumberedObject)
    ensures r.obj == obj
    ensures obj in numbering ==> r.number == numbering[obj]
    ensures obj !in numbering ==> r.number == -1
  {
    NumberedObject(obj, if obj in numbering then numbering[obj] else -1)
  }

  /** `NumberedObject.isSame`: two unnumbered objects are the same when they
      are the same object; otherwise the numbers decide. */
  predicate NumberedIsSame(a: NumberedObject, b: NumberedObject) {
    if a.number == -1 && b.number == -1 then a.obj == b.obj else a.number == b.number
  }

  /** `isSame` on numbered objects is an equivalence, and a numbered object
      never matches an unnumbered one. */
  lemma NumberedIsSameEquivalence(a: NumberedObject, b: NumberedObject, c: NumberedObject)
    ensures NumberedIsSame(a, a)
    ensures NumberedIsSame(a, b) ==> NumberedIsSame(b, a)
    ensures NumberedIsSame(a, b) && NumberedIsSame(b, c) ==> NumberedIsSame(a, c)
    ensures a.number == -1 && b.number != -1 ==> !NumberedIsSame(a, b)
    ensures a.number != -1 ==> (NumberedIsSame(a, b) <==> b.number == a.number)
    ensures a.number == -1 && b.number == -1 ==> (NumberedIsSame(a, b) <==> a.obj == b.obj)
  {
  }

  // ---------------------------------------------------------------------------
  // Object snapshots
  // ---------------------------------------------------------------------------

  /** A feature the snapshot records: neither derived nor ignored. */
  predicate Kept(f: Feature) {
    !f.derived && f.id !in IgnoredFeatures
  }

  /** A recorded feature that cannot be snapshotted: a many-valued
      attribute, or a feature that is neither attribute nor reference. */
  predicate Unsupported(f: Feature) {
    Kept(f) && ((f.kind == Attribute && f.many) || f.kind == OtherFeature)
  }

  /** Why snapshotting failed: the `IllegalArgumentException`s of the
      constructor. */
  datatype SnapError = ManyAttribute(feature: Feature) | UnknownFeature(feature: Feature)

  /** The outcome of a snapshot, or of a whole model's. */
  datatype Snapped<T> = Ok(value: T) | Fail(error: SnapError)

  /** The exception a feature that cannot be snapshotted raises. */
  function ErrorOf(f: Feature): SnapError {
    if f.kind == Attribute then ManyAttribute(f) else UnknownFeature(f)
  }

  /** The recorded features of a kind among `fs`. */
  function KeysOf(fs: seq<Feature>, kind: FeatureKind): set<Feature> {
    set f | f in fs && Kept(f) && f.kind == kind
  }

  /** `eGet` on an attribute. */
  function AttributeValue(o: EObject, f: Feature): Value {
    if f.id in o.attributes then o.attributes[f.id] else NullValue
  }

  /** The targets held by a reference. */
  function Targets(o: EObject, f: Feature): seq<ObjId> {
    if f.id in o.references then o.references[f.id] else []
  }

  /** `getList`: a many-valued reference becomes its targets, numbered, in
      order; a single-valued one the empty list when null and a one-element
      list otherwise. */
  function GetList(o: EObject, f: Feature, numbering: map<ObjId, int>): (r: seq<NumberedObject>)
    ensures f.many ==> |r| == |Targets(o, f)| &&
                       forall i | 0 <= i < |r| :: r[i] == Numbered(Targets(o, f)[i], numbering)
    ensures !f.many && Targets(o, f) == [] ==> r == []
    ensures !f.many && Targets(o, f) != [] ==> r == [Numbered(Targets(o, f)[0], numbering)]
  {
    var ts := Targets(o, f);
    if f.many then seq(|ts|, i requires 0 <= i < |ts| => Numbered(ts[i], numbering))
    else if ts == [] then []
    else [Numbered(ts[0], numbering)]
  }

  /** An `ObjectSnapshot`: the object, its class, and the values of its
      recorded attributes and references. */
  datatype ObjectSnapshot = ObjectSnapshot(
    objectId: ObjId,
    eClass: EClass,
    attributeValues: map<Feature, Value>,
    referenceValues: map<Feature, seq<NumberedObject>>
  )

  /** What every snapshot satisfies: the recorded features are exactly the
      kept attributes and references of the object's class. */
  predicate ValidSnapshot(s: ObjectSnapshot) {
    && s.attributeValues.Keys == KeysOf(s.eClass.features, Attribute)
    && s.referenceValues.Keys == KeysOf(s.eClass.features, Reference)
  }

  /** The first feature, in class order, that cannot be snapshotted. */
  function FirstUnsupported(fs: seq<Feature>): (r: Option<Feature>)
    ensures r.None? <==> forall i | 0 <= i < |fs| :: !Unsupported(fs[i])
    ensures r.Some? ==> exists i | 0 <= i < |fs| :: fs[i] == r.value && Unsupported(fs[i]) &&
                          forall j | 0 <= j < i :: !Unsupported(fs[j])
  {
    if fs == [] then None
    else if Unsupported(fs[0]) then Some(fs[0])
    else
      var r := FirstUnsupported(fs[1..]);
      assert forall i | 1 <= i < |fs| :: fs[i] == fs[1..][i - 1];
      r
  }

  /** The snapshot of an object, stated declaratively: it fails on the
      first feature that cannot be snapshotted, and otherwise records the
      value of every kept attribute and the numbered targets of every kept
      reference. */
  function Snapshot(o: EObject, numbering: map<ObjId, int>): (r: Snapped<ObjectSnapshot>)
    ensures r.Ok? ==> ValidSnapshot(r.value) && r.value.objectId == o.id && r.value.eClass == o.eClass
  {
    match FirstUnsupported(o.eClass.features)
    case Some(f) => Fail(ErrorOf(f))
    case None =>
      Ok(ObjectSnapshot(o.id, o.eClass, AttributeMap(o, o.eClass.features), ReferenceMap(o, o.eClass.features, numbering)))
  }

  /** The value of every recorded attribute among `fs`. */
  function AttributeMap(o: EObject, fs: seq<Feature>): map<Feature, Value> {
    map f | f in KeysOf(fs, Attribute) :: AttributeValue(o, f)
  }

  /** The numbered targets of every recorded reference among `fs`. */
  function ReferenceMap(o: EObject, fs: seq<Feature>, numbering: map<ObjId, int>): map<Feature, seq<NumberedObject>> {
    map f | f in KeysOf(fs, Reference) :: GetList(o, f, numbering)
  }

  /** One more feature adds at most its own entry to the recorded maps. */
  lemma MapsSnoc(o: EObject, fs: seq<Feature>, i: nat, numbering: map<ObjId, int>)
    requires i < |fs|
    ensures var f := fs[i];
            AttributeMap(o, fs[..i + 1]) ==
              if Kept(f) && f.kind == Attribute then AttributeMap(o, fs[..i])[f := AttributeValue(o, f)]
              else AttributeMap(o, fs[..i])
    ensures var f := fs[i];
            ReferenceMap(o, fs[..i + 1], numbering) ==
              if Kept(f) && f.kind == Reference then ReferenceMap(o, fs[..i], numbering)[f := GetList(o, f, numbering)]
              else ReferenceMap(o, fs[..i], numbering)
  {
    assert fs[..i + 1] == fs[..i] + [fs[i]];
    var f := fs[i];
    assert KeysOf(fs[..i + 1], Attribute) ==
      KeysOf(fs[..i], Attribute) + (if Kept(f) && f.kind == Attribute then {f} else {});
    assert KeysOf(fs[..i + 1], Reference) ==
      KeysOf(fs[..i], Reference) + (if Kept(f) && f.kind == Reference then {f} else {});
  }

  /** The `ObjectSnapshot` constructor: one pass over the class's features,
      skipping derived and ignored ones and throwing at the first that cannot
      be snapshotted. It computes exactly the declarative snapshot. */
  method SnapshotObject(o: EObject, numbering: map<ObjId, int>) returns (r: Snapped<ObjectSnapshot>)
    ensures r == Snapshot(o, numbering)
    ensures r.Fail? <==> exists i | 0 <= i < |o.eClass.features| :: Unsupported(o.eClass.features[i])
  {
    var features := o.eClass.features;
    var attributeValues: map<Feature, Value> := map[];
    var referenceValues: map<Feature, seq<NumberedObject>> := map[];
    assert features[..0] == [];
    for i := 0 to |features|
      invariant forall j | 0 <= j < i :: !Unsupported(features[j])
      invariant attributeValues == AttributeMap(o, features[..i])
      invariant referenceValues == ReferenceMap(o, features[..i], numbering)
    {
      var feature := features[i];
      MapsSnoc(o, features, i, numbering);
      if feature.derived || feature.id in IgnoredFeatures {
        continue;
      }
      if feature.kind == Attribute {
        if feature.many {
          FirstUnsupportedAt(features, i);
          return Fail(ManyAttribute(feature));
        }
        attributeValues := attributeValues[feature := AttributeValue(o, feature)];
      } else if feature.kind == Reference {
        referenceValues := referenceValues[feature := GetList(o, feature, numbering)];
      } else {
        FirstUnsupportedAt(features, i);
        return Fail(UnknownFeature(feature));
      }
    }
    assert features[..|features|] == features;
    r := Ok(ObjectSnapshot(o.id, o.eClass, attributeValues, referenceValues));
  }

  /** The first feature that cannot be snapshotted is the one after a
      prefix of supported features. */
  lemma {:induction false} FirstUnsupportedAt(fs: seq<Feature>, i: nat)
    requires i < |fs| && Unsupported(fs[i])
    requires forall j | 0 <= j < i :: !Unsupported(fs[j])
    ensures FirstUnsupported(fs) == Some(fs[i])
    decreases i
  {
    if i > 0 {
      FirstUnsupportedAt(fs[1..], i - 1);
    }
  }

  /** `ObjectSnapshot.isSame` on two snapshots: the same class, equal
      attribute values, and for every reference lists of equal length that
      match element by element. The Java compares runtime classes, of which
      there is one per model class. */
  predicate IsSame(a: ObjectSnapshot, b: ObjectSnapshot)
    requires ValidSnapshot(a) && ValidSnapshot(b)
  {
    && a.eClass == b.eClass
    && (forall f | f in a.attributeValues :: a.attributeValues[f] == b.attributeValues[f])
    && (forall f | f in a.referenceValues :: SameList(a.referenceValues[f], b.referenceValues[f]))
  }

  /** Two lists of numbered objects of equal length that match element-wise. */
  predicate SameList(xs: seq<NumberedObject>, ys: seq<NumberedObject>) {
    |xs| == |ys| && forall i | 0 <= i < |xs| :: NumberedIsSame(xs[i], ys[i])
  }

  /** `isSame` on snapshots is an equivalence. */
  lemma IsSameEquivalence(a: ObjectSnapshot, b: ObjectSnapshot, c: ObjectSnapshot)
    requires ValidSnapshot(a) && ValidSnapshot(b) && ValidSnapshot(c)
    ensures IsSame(a, a)
    ensures IsSame(a, b) ==> IsSame(b, a)
    ensures IsSame(a, b) && IsSame(b, c) ==> IsSame(a, c)
  {
    forall x: NumberedObject, y: NumberedObject, z: NumberedObject
      ensures NumberedIsSame(x, x)
      ensures NumberedIsSame(x, y) ==> NumberedIsSame(y, x)
      ensures NumberedIsSame(x, y) && NumberedIsSame(y, z) ==> NumberedIsSame(x, z)
    {
      NumberedIsSameEquivalence(x, y, z);
    }
  }

  // ---------------------------------------------------------------------------
  // Model snapshots and their comparison
  // ---------------------------------------------------------------------------

  /** The snapshots of a sequence of objects, failing at the first object
      that cannot be snapshotted. */
  function SnapshotAll(objs: seq<EObject>, numbering: map<ObjId, int>): (r: Snapped<seq<ObjectSnapshot>>)
    ensures r.Ok? ==> |r.value| == |objs| &&
                      forall k | 0 <= k < |objs| :: Snapshot(objs[k], numbering) == Ok(r.value[k])
  {
    if objs == [] then Ok([])
    else
      var first := Snapshot(objs[0], numbering);
      if first.Fail? then
        Fail(first.error)
      else
        var rest := SnapshotAll(objs[1..], numbering);
        if rest.Fail? then
          Fail(rest.error)
        else
          var r := [first.value] + rest.value;
          assert forall k | 1 <= k < |objs| :: objs[k] == objs[1..][k - 1] && r[k] == rest.value[k - 1];
          Ok(r)
  }

  /** The snapshots of a sequence succeed exactly when every object's does. */
  lemma {:induction false} SnapshotAllOk(objs: seq<EObject>, numbering: map<ObjId, int>)
    ensures SnapshotAll(objs, numbering).Ok? <==> forall k | 0 <= k < |objs| :: Snapshot(objs[k], numbering).Ok?
    decreases |objs|
  {
    if objs != [] && Snapshot(objs[0], numbering).Ok? {
      SnapshotAllOk(objs[1..], numbering);
      assert forall k | 1 <= k < |objs| :: objs[k] == objs[1..][k - 1];
    }
  }

  /** When the snapshots of a sequence fail, the error is that of the first
      object that cannot be snapshotted. */
  lemma {:induction false} SnapshotAllFail(objs: seq<EObject>, numbering: map<ObjId, int>)
    ensures var r := SnapshotAll(objs, numbering);
            r.Fail? ==> exists k | 0 <= k < |objs| :: Snapshot(objs[k], numbering) == Fail(r.error) &&
                          forall j | 0 <= j < k :: Snapshot(objs[j], numbering).Ok?
    decreases |objs|
  {
    var r := SnapshotAll(objs, numbering);
    if objs != [] && Snapshot(objs[0], numbering).Ok? && r.Fail? {
      var tail := objs[1..];
      SnapshotAllFail(tail, numbering);
      var k :| 0 <= k < |tail| && Snapshot(tail[k], numbering) == Fail(r.error) &&
               forall j | 0 <= j < k :: Snapshot(tail[j], numbering).Ok?;
      assert forall j | 1 <= j <= k + 1 :: objs[j] == tail[j - 1];
      assert Snapshot(objs[k + 1], numbering) == Fail(r.error);
    }
  }

  /** `snapshotModel`: one snapshot per object of the tree, the root first
      and then the pre-order contents, taken with the pre-order numbering. */
  function SnapshotModel(root: EObject): Snapped<seq<ObjectSnapshot>> {
    SnapshotAll(Preorder(root), Numbering(Ids(root)))
  }

  /** Snapshots and numbers line up: the k-th snapshot is of the object
      numbered k. */
  lemma SnapshotOrderMatchesNumbering(root: EObject)
    requires var ids := Ids(root); forall i, j | 0 <= i < j < |ids| :: ids[i] != ids[j]
    ensures var r := SnapshotModel(root);
            r.Ok? ==> |r.value| == |Ids(root)| &&
                      forall k | 0 <= k < |r.value| :: Numbering(Ids(root))[r.value[k].objectId] == k
  {
    NumberingIsPosition(Ids(root));
  }

  /** Every snapshot of a model is valid. */
  lemma SnapshotModelValid(root: EObject)
    ensures var r := SnapshotModel(root);
            r.Ok? ==> forall k | 0 <= k < |r.value| :: ValidSnapshot(r.value[k])
  {
  }

  /** `compareSnapshots`: false when the lengths differ, otherwise true
      exactly when the snapshots at each position are the same. */
  method CompareSnapshots(original: seq<ObjectSnapshot>, parsed: seq<ObjectSnapshot>) returns (r: bool)
    requires forall k | 0 <= k < |original| :: ValidSnapshot(original[k])
    requires forall k | 0 <= k < |parsed| :: ValidSnapshot(parsed[k])
    ensures r <==> |original| == |parsed| && forall k | 0 <= k < |original| :: IsSame(original[k], parsed[k])
  {
    if |original| != |parsed| {
      return false;
    }
    for i := 0 to |original|
      invariant forall k | 0 <= k < i :: IsSame(original[k], parsed[k])
    {
      if !IsSame(original[i], parsed[i]) {
        return false;
      }
    }
    return true;
  }

  // ---------------------------------------------------------------------------
  // Comparison is blind to object identities inside the tree
  // ---------------------------------------------------------------------------

  /** Renaming every object of a tree and every reference target. */
  function Rename(o: EObject, rho: ObjId -> ObjId): (r: EObject)
    ensures r.id == rho(o.id) && r.eClass == o.eClass && r.attributes == o.attributes
    ensures |r.contents| == |o.contents|
    decreases o
  {
    EObject(
      rho(o.id), o.eClass, o.attributes,
      map f | f in o.references :: RenameIds(o.references[f], rho),
      seq(|o.contents|, i requires 0 <= i < |o.contents| => Rename(o.contents[i], rho)))
  }

  /** Renaming a sequence of identities. */
  function RenameIds(ids: seq<ObjId>, rho: ObjId -> ObjId): (r: seq<ObjId>)
    ensures |r| == |ids| && forall i | 0 <= i < |ids| :: r[i] == rho(ids[i])
  {
    seq(|ids|, i requires 0 <= i < |ids| => rho(ids[i]))
  }

  /** Renaming a sequence of objects. */
  function RenameAll(objs: seq<EObject>, rho: ObjId -> ObjId): (r: seq<EObject>)
    ensures |r| == |objs| && forall i | 0 <= i < |objs| :: r[i] == Rename(objs[i], rho)
  {
    seq(|objs|, i requires 0 <= i < |objs| => Rename(objs[i], rho))
  }

  /** A renaming that never merges two identities. */
  ghost predicate Injective(rho: ObjId -> ObjId) {
    forall x, y :: rho(x) == rho(y) ==> x == y
  }

  /** A renaming that keeps the identity of every object outside the tree
      that the tree refers to. */
  predicate FixesExternalTargets(root: EObject, rho: ObjId -> ObjId) {
    forall o | o in Preorder(root) ::
      forall f | f in o.references ::
        forall t | t in o.references[f] && t !in Ids(root) :: rho(t) == t
  }

  /** The renamed tree is traversed in the same order. */
  lemma {:induction false} PreorderRename(o: EObject, rho: ObjId -> ObjId)
    ensures Preorder(Rename(o, rho)) == RenameAll(Preorder(o), rho)
    decreases o, 1
  {
    PreorderAllRename(o.contents, rho);
    assert Rename(o, rho).contents == RenameAll(o.contents, rho);
  }

  /** The same for a sequence of siblings. */
  lemma {:induction false} PreorderAllRename(cs: seq<EObject>, rho: ObjId -> ObjId)
    ensures PreorderAll(RenameAll(cs, rho)) == RenameAll(PreorderAll(cs), rho)
    decreases cs, 0
  {
    if cs != [] {
      PreorderRename(cs[0], rho);
      PreorderAllRename(cs[1..], rho);
      assert RenameAll(cs, rho)[1..] == RenameAll(cs[1..], rho);
    }
  }

  /** An injective renaming moves the numbering with it. */
  lemma NumberingRename(ids: seq<ObjId>, rho: ObjId -> ObjId, x: ObjId)
    requires Injective(rho)
    ensures x in Numbering(ids) <==> rho(x) in Numbering(RenameIds(ids, rho))
    ensures x in Numbering(ids) ==> Numbering(RenameIds(ids, rho))[rho(x)] == Numbering(ids)[x]
  {
    var rs := RenameIds(ids, rho);
    if x in ids {
      var k := LastIndex(ids, x);
      LastIndexUnique(rs, rho(x), k);
    }
    if rho(x) in rs {
      var k :| 0 <= k < |rs| && rs[k] == rho(x);
      assert ids[k] == x;
    }
  }

  /** A target keeps its match when it is renamed along with the
      numbering: a target inside the tree keeps its number, and one outside
      it keeps its identity and stays unnumbered. */
  lemma NumberedRename(root: EObject, rho: ObjId -> ObjId, t: ObjId)
    requires Injective(rho)
    requires t in Ids(root) || rho(t) == t
    ensures NumberedIsSame(Numbered(t, Numbering(Ids(root))),
                           Numbered(rho(t), Numbering(Ids(Rename(root, rho)))))
  {
    IdsRename(root, rho);
    NumberingRename(Ids(root), rho, t);
  }

  /** The numbered targets of a reference match after renaming. */
  lemma ReferenceListRename(o: EObject, root: EObject, rho: ObjId -> ObjId, f: Feature)
    requires Injective(rho) && FixesExternalTargets(root, rho)
    requires o in Preorder(root)
    ensures SameList(GetList(o, f, Numbering(Ids(root))),
                     GetList(Rename(o, rho), f, Numbering(Ids(Rename(root, rho)))))
  {
    var ts := Targets(o, f);
    assert Targets(Rename(o, rho), f) == RenameIds(ts, rho);
    forall i | 0 <= i < |ts|
      ensures NumberedIsSame(Numbered(ts[i], Numbering(Ids(root))),
                             Numbered(rho(ts[i]), Numbering(Ids(Rename(root, rho)))))
    {
      assert f.id in o.references && ts[i] in o.references[f.id];
      NumberedRename(root, rho, ts[i]);
    }
  }

  /** A snapshot taken after renaming is the same as the one taken before,
      provided the numbering moves with the renaming and targets outside the
      tree keep their identity. */
  lemma SnapshotRename(o: EObject, root: EObject, rho: ObjId -> ObjId)
    requires Injective(rho) && FixesExternalTargets(root, rho)
    requires o in Preorder(root)
    ensures var s1 := Snapshot(o, Numbering(Ids(root)));
            var s2 := Snapshot(Rename(o, rho), Numbering(Ids(Rename(root, rho))));
            && (s1.Ok? <==> s2.Ok?)
            && (s1.Ok? && s2.Ok? ==> IsSame(s1.value, s2.value))
  {
    var n1 := Numbering(Ids(root));
    var n2 := Numbering(Ids(Rename(root, rho)));
    var s1 := Snapshot(o, n1);
    var s2 := Snapshot(Rename(o, rho), n2);
    if s1.Ok? && s2.Ok? {
      forall f | f in s1.value.referenceValues
        ensures SameList(s1.value.referenceValues[f], s2.value.referenceValues[f])
      {
        ReferenceListRename(o, root, rho, f);
      }
    }
  }

  /** The identities of the renamed tree are the renamed identities. */
  lemma IdsRename(root: EObject, rho: ObjId -> ObjId)
    ensures Ids(Rename(root, rho)) == RenameIds(Ids(root), rho)
  {
    PreorderRename(root, rho);
  }

  /** The point of numbering: a parsed model that differs from the
      original only in the identities of its objects compares equal to it,
      and fails to snapshot exactly when the original does. */
  lemma RenamedModelCompares(root: EObject, rho: ObjId -> ObjId)
    requires Injective(rho) && FixesExternalTargets(root, rho)
    ensures SnapshotModel(root).Ok? <==> SnapshotModel(Rename(root, rho)).Ok?
    ensures var r1 := SnapshotModel(root);
            var r2 := SnapshotModel(Rename(root, rho));
            r1.Ok? && r2.Ok? ==>
              && |r1.value| == |r2.value|
              && forall k | 0 <= k < |r1.value| :: IsSame(r1.value[k], r2.value[k])
  {
    var objs := Preorder(root);
    var objs2 := Preorder(Rename(root, rho));
    PreorderRename(root, rho);
    var n1 := Numbering(Ids(root));
    var n2 := Numbering(Ids(Rename(root, rho)));
    SnapshotAllOk(objs, n1);
    SnapshotAllOk(objs2, n2);
    forall k | 0 <= k < |objs|
      ensures Snapshot(objs[k], n1).Ok? <==> Snapshot(objs2[k], n2).Ok?
      ensures Snapshot(objs[k], n1).Ok? && Snapshot(objs2[k], n2).Ok? ==>
                IsSame(Snapshot(objs[k], n1).value, Snapshot(objs2[k], n2).value)
    {
      SnapshotRename(objs[k], root, rho);
    }
  }
}
