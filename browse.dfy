/**
 * The address-space walker of `hub-api/internal/opcuaclient/opcuaclient.go`.
 * The OPC UA server is abstracted as a finite graph: for each node id, the
 * outcome of reading five attributes (NodeClass, BrowseName, Description,
 * AccessLevel, DataType; attribute ids of section 5 of OPC UA Part 3) and the
 * outcome of following forward references of the three hierarchical
 * reference types HasComponent, Organizes and HasProperty (section 7 of OPC
 * UA Part 3), subtypes included as the server reports them.
 */
module Browse {
  import opened Wrappers
  import opened Numerals
  import opened NodeIds

  /** An OPC UA StatusCode (a 32-bit value; 0 is Good). */
  type StatusCode = nat

  const StatusOK: StatusCode := 0
  const StatusBadNodeIdUnknown: StatusCode := 0x8034_0000
  const StatusBadAttributeIdInvalid: StatusCode := 0x8035_0000

  /** The CurrentWrite bit of the AccessLevel attribute (section 5.6.2 of OPC UA Part 3). */
  const AccessLevelCurrentWrite: nat := 0x02

  const NodeClassObject: nat := 1
  const NodeClassVariable: nat := 2

  /** Numeric ids of the reference types, in namespace 0. */
  const HasComponentId: nat := 47
  const OrganizesId: nat := 35
  const HasPropertyId: nat := 46

  /** Numeric ids of the built-in data types, in namespace 0. */
  const BooleanId: nat := 1
  const SByteId: nat := 2
  const ByteId: nat := 3
  const Int16Id: nat := 4
  const UInt16Id: nat := 5
  const Int32Id: nat := 6
  const UInt32Id: nat := 7
  const Int64Id: nat := 8
  const UInt64Id: nat := 9
  const FloatId: nat := 10
  const DoubleId: nat := 11
  const StringId: nat := 12
  const DateTimeId: nat := 13
  const UtcTimeId: nat := 294

  /** The deepest level the walker still reads. */
  const MaxLevel: int := 10

  /** One attribute read: its status and, when the status is Good, its value. */
  datatype Read<T> = Read(status: StatusCode, value: T)

  /**
   * The five attribute reads, as integers where the client library's
   * `Variant.Int()` yields one and as text where `Variant.String()` does.
   */
  datatype AttributeSet = AttributeSet(
    nodeClass: Read<int>,
    browseName: Read<string>,
    description: Read<string>,
    accessLevel: Read<int>,
    dataType: Read<NodeId>)

  /**
   * What the server answers about one node: the attribute service call
   * (None when the call itself fails) and the forward references of each
   * kind (None when browsing them fails).
   */
  datatype ServerNode = ServerNode(
    attributes: Option<AttributeSet>,
    hasComponent: Option<seq<NodeId>>,
    organizes: Option<seq<NodeId>>,
    hasProperty: Option<seq<NodeId>>)

  type AddressSpace = map<NodeId, ServerNode>

  /** A node the server does not know: every attribute read reports BadNodeIdUnknown. */
  function Lookup(space: AddressSpace, id: NodeId): (node: ServerNode)
    ensures id !in space ==> node.attributes.Some? && node.attributes.value.nodeClass.status != StatusOK
  {
    if id in space then space[id]
    else
      var bad := StatusBadNodeIdUnknown;
      ServerNode(
        Some(AttributeSet(Read(bad, 0), Read(bad, ""), Read(bad, ""), Read(bad, 0), Read(bad, Numeric(0, 0)))),
        None, None, None)
  }

  /**
   * `NodeDef`: what the walker records about a node. Unit, Scale, Min and Max
   * are never filled by the walker and stay empty; the NodeIdParts reference is
   * filled only later, by the database layer, and is left out here.
   */
  datatype NodeDef = NodeDef(
    nodeId: NodeId,
    nodeClass: nat,
    browseName: string,
    description: string,
    accessLevel: nat,
    path: string,
    dataType: string,
    writable: bool,
    unit: string,
    scale: string,
    min: string,
    max: string,
    children: seq<NodeDef>)

  datatype ReferenceKind = HasComponent | Organizes | HasProperty

  function ReferenceTypeId(kind: ReferenceKind): nat {
    match kind
    case HasComponent => HasComponentId
    case Organizes => OrganizesId
    case HasProperty => HasPropertyId
  }

  function References(node: ServerNode, kind: ReferenceKind): Option<seq<NodeId>> {
    match kind
    case HasComponent => node.hasComponent
    case Organizes => node.organizes
    case HasProperty => node.hasProperty
  }

  datatype BrowseError =
    | AttributesFailed
    | BadStatus(code: StatusCode)
    | ReferencesFailed(referenceType: nat)
    | ChildFailed(cause: BrowseError)

  /** `join`: the path separator is '.', and an empty prefix adds none. */
  function Join(a: string, b: string): (r: string)
    ensures |r| >= |b| && r[|r| - |b|..] == b
    ensures a == "" ==> r == b
    ensures a != "" ==> |r| == |a| + 1 + |b| && r[..|a|] == a && r[|a|] == '.'
  {
    if a == "" then b else a + "." + b
  }

  /** Go's conversion of an integer to `uint8`: the low eight bits. */
  function Uint8(v: int): (r: nat)
    ensures r < 0x100 && (r - v) % 0x100 == 0
  {
    v % 0x100
  }

  /** Go's conversion of an integer to `uint32`: the low 32 bits. */
  function Uint32(v: int): (r: nat)
    ensures r < 0x1_0000_0000 && (r - v) % 0x1_0000_0000 == 0
  {
    v % 0x1_0000_0000
  }

  /** `accessLevel & CurrentWrite == CurrentWrite`, on a value below 256. */
  predicate CurrentWriteSet(accessLevel: nat) {
    (accessLevel / AccessLevelCurrentWrite) % 2 == 1
  }

  predicate IsKnownDataType(v: nat) {
    v in {BooleanId, SByteId, ByteId, Int16Id, UInt16Id, Int32Id, UInt32Id,
          FloatId, DoubleId, StringId, DateTimeId, UtcTimeId}
  }

  /**
   * The Go type name recorded for a data type: a fixed name for twelve
   * built-in types, chosen by the numeric identifier alone, and otherwise the
   * printed form of the data type's NodeId.
   */
  function DataTypeName(t: NodeId): (name: string)
    ensures IsKnownDataType(IntId(t)) <==> '=' !in name
    ensures IntId(t) == DateTimeId || IntId(t) == UtcTimeId ==> name == "time.Time"
    ensures !IsKnownDataType(IntId(t)) ==> name == NodeIdString(t)
  {
    var v := IntId(t);
    if v == DateTimeId then "time.Time"
    else if v == BooleanId then "bool"
    else if v == SByteId then "int8"
    else if v == Int16Id then "int16"
    else if v == Int32Id then "int32"
    else if v == ByteId then "byte"
    else if v == UInt16Id then "uint16"
    else if v == UInt32Id then "uint32"
    else if v == UtcTimeId then "time.Time"
    else if v == StringId then "string"
    else if v == FloatId then "float32"
    else if v == DoubleId then "float64"
    else
      var printed := NodeIdString(t);
      PrintedHasEquals(t);
      printed
  }

  /** Every printed NodeId holds an '=' (after its type letter). */
  lemma PrintedHasEquals(t: NodeId)
    ensures '=' in NodeIdString(t)
  {
    var head := if t.ns == 0 then "" else "ns=" + NatDigits(t.ns) + ";";
    var s := NodeIdString(t);
    assert s[|head| + 1] == '=';
  }

  /** An attribute status the walker lets through: Good, or "attribute not applicable". */
  predicate Tolerated(status: StatusCode) {
    status == StatusOK || status == StatusBadAttributeIdInvalid
  }

  function EmptyDef(id: NodeId): NodeDef {
    NodeDef(id, 0, "", "", 0, "", "", false, "", "", "", "", [])
  }

  /**
   * The status switches of `Browse`: NodeClass and BrowseName must be Good;
   * Description, AccessLevel and DataType may also be BadAttributeIdInvalid,
   * which leaves their zero value. The path is the parent's path joined with
   * the browse name.
   */
  function DecodeAttributes(id: NodeId, attrs: AttributeSet, path: string): (r: Result<NodeDef, BrowseError>)
    ensures r.Success? <==>
      attrs.nodeClass.status == StatusOK && attrs.browseName.status == StatusOK
      && Tolerated(attrs.description.status) && Tolerated(attrs.accessLevel.status)
      && Tolerated(attrs.dataType.status)
    ensures r.Failure? ==> r.error.BadStatus? && r.error.code != StatusOK
    ensures r.Success? ==>
      var d := r.value;
      && d.nodeId == id && d.children == []
      && d.browseName == attrs.browseName.value
      && d.path == Join(path, d.browseName)
      && (d.writable <==> attrs.accessLevel.status == StatusOK && CurrentWriteSet(Uint8(attrs.accessLevel.value)))
      && (d.description == if attrs.description.status == StatusOK then attrs.description.value else "")
      && (d.dataType == if attrs.dataType.status == StatusOK then DataTypeName(attrs.dataType.value) else "")
  {
    if attrs.nodeClass.status != StatusOK then Failure(BadStatus(attrs.nodeClass.status))
    else if attrs.browseName.status != StatusOK then Failure(BadStatus(attrs.browseName.status))
    else if !Tolerated(attrs.description.status) then Failure(BadStatus(attrs.description.status))
    else if !Tolerated(attrs.accessLevel.status) then Failure(BadStatus(attrs.accessLevel.status))
    else if !Tolerated(attrs.dataType.status) then Failure(BadStatus(attrs.dataType.status))
    else
      var accessLevel := if attrs.accessLevel.status == StatusOK then Uint8(attrs.accessLevel.value) else 0;
      Success(NodeDef(
        id,
        Uint32(attrs.nodeClass.value),
        attrs.browseName.value,
        if attrs.description.status == StatusOK then attrs.description.value else "",
        accessLevel,
        Join(path, attrs.browseName.value),
        if attrs.dataType.status == StatusOK then DataTypeName(attrs.dataType.value) else "",
        attrs.accessLevel.status == StatusOK && CurrentWriteSet(accessLevel),
        "", "", "", "", []))
  }

  /**
   * What `Browse(n, path, level)` returns: nothing beyond level 10;
   * otherwise exactly one NodeDef, whatever its node class, whose children
   * are the results for the HasComponent, then Organizes, then HasProperty
   * targets, in reference order and without de-duplication.
   */
  function BrowseSpec(space: AddressSpace, id: NodeId, path: string, level: int): Result<seq<NodeDef>, BrowseError>
    decreases 11 - level, 3, 0
  {
    if level > MaxLevel then Success([])
    else
      var node := Lookup(space, id);
      if node.attributes.None? then Failure(AttributesFailed)
      else
        var def :- DecodeAttributes(id, node.attributes.value, path);
        var children :- ChildrenSpec(space, node, def.path, level);
        Success([def.(children := children)])
  }

  function ChildrenSpec(space: AddressSpace, node: ServerNode, childPath: string, level: int): Result<seq<NodeDef>, BrowseError>
    requires level <= MaxLevel
    decreases 11 - level, 2, 0
  {
    var a :- ReferencesSpec(space, node, HasComponent, childPath, level);
    var b :- ReferencesSpec(space, node, Organizes, childPath, level);
    var c :- ReferencesSpec(space, node, HasProperty, childPath, level);
    Success(a + b + c)
  }

  /** The `browseChildren` closure for one reference type. */
  function ReferencesSpec(space: AddressSpace, node: ServerNode, kind: ReferenceKind, childPath: string, level: int): Result<seq<NodeDef>, BrowseError>
    requires level <= MaxLevel
    decreases 11 - level, 1, 0
  {
    match References(node, kind)
    case None => Failure(ReferencesFailed(ReferenceTypeId(kind)))
    case Some(targets) => ChildListSpec(space, targets, childPath, level)
  }

  /** Browsing the targets one after the other at `level + 1`; the first failure wins. */
  function ChildListSpec(space: AddressSpace, targets: seq<NodeId>, childPath: string, level: int): Result<seq<NodeDef>, BrowseError>
    requires level <= MaxLevel
    decreases 11 - level, 0, |targets|
  {
    if targets == [] then Success([])
    else
      var earlier :- ChildListSpec(space, targets[..|targets| - 1], childPath, level);
      var last := BrowseSpec(space, targets[|targets| - 1], childPath, level + 1);
      if last.Failure? then Failure(ChildFailed(last.error)) else Success(earlier + last.value)
  }

  /** Once a prefix of the targets fails, the whole list fails with the same error. */
  lemma {:induction false} ChildListPrefixFailure(space: AddressSpace, targets: seq<NodeId>, k: nat, childPath: string, level: int)
    requires level <= MaxLevel && k <= |targets|
    requires ChildListSpec(space, targets[..k], childPath, level).Failure?
    ensures ChildListSpec(space, targets, childPath, level) == ChildListSpec(space, targets[..k], childPath, level)
    decreases |targets| - k
  {
    if k < |targets| {
      var longer := targets[..k + 1];
      assert longer[..k] == targets[..k];
      ChildListPrefixFailure(space, targets, k + 1, childPath, level);
    } else {
      assert targets[..k] == targets;
    }
  }

  /** A successful non-empty list is the walks of all but the last target, then the last target's walk. */
  lemma ChildListUnfold(space: AddressSpace, targets: seq<NodeId>, childPath: string, level: int)
    requires level <= MaxLevel && targets != []
    requires ChildListSpec(space, targets, childPath, level).Success?
    ensures ChildListSpec(space, targets[..|targets| - 1], childPath, level).Success?
    ensures BrowseSpec(space, targets[|targets| - 1], childPath, level + 1).Success?
    ensures ChildListSpec(space, targets, childPath, level) == Success(
      ChildListSpec(space, targets[..|targets| - 1], childPath, level).value
      + BrowseSpec(space, targets[|targets| - 1], childPath, level + 1).value)
  {
  }

  /** One more target: the list so far, extended by the target's walk or failing with it. */
  lemma ChildListStep(space: AddressSpace, targets: seq<NodeId>, i: nat, childPath: string, level: int)
    requires level <= MaxLevel && i < |targets|
    requires ChildListSpec(space, targets[..i], childPath, level).Success?
    ensures BrowseSpec(space, targets[i], childPath, level + 1).Failure? ==>
      ChildListSpec(space, targets[..i + 1], childPath, level)
        == Failure(ChildFailed(BrowseSpec(space, targets[i], childPath, level + 1).error))
    ensures BrowseSpec(space, targets[i], childPath, level + 1).Success? ==>
      ChildListSpec(space, targets[..i + 1], childPath, level)
        == Success(ChildListSpec(space, targets[..i], childPath, level).value + BrowseSpec(space, targets[i], childPath, level + 1).value)
  {
    assert targets[..i + 1][..i] == targets[..i];
  }

  /**
   * `Browse`: reads the attributes, fills the NodeDef field by field through
   * the status switches, and browses the children of each reference type.
   */
  method Walk(space: AddressSpace, id: NodeId, path: string, level: int) returns (r: Result<seq<NodeDef>, BrowseError>)
    ensures r == BrowseSpec(space, id, path, level)
    decreases 11 - level, 3, 0
  {
    if level > MaxLevel {
      return Success([]);
    }
    var node := Lookup(space, id);
    if node.attributes.None? {
      return Failure(AttributesFailed);
    }
    var attrs := node.attributes.value;
    var def := EmptyDef(id);
    if attrs.nodeClass.status != StatusOK {
      return Failure(BadStatus(attrs.nodeClass.status));
    }
    def := def.(nodeClass := Uint32(attrs.nodeClass.value));
    if attrs.browseName.status != StatusOK {
      return Failure(BadStatus(attrs.browseName.status));
    }
    def := def.(browseName := attrs.browseName.value);
    if attrs.description.status == StatusOK {
      def := def.(description := attrs.description.value);
    } else if attrs.description.status != StatusBadAttributeIdInvalid {
      return Failure(BadStatus(attrs.description.status));
    }
    if attrs.accessLevel.status == StatusOK {
      def := def.(accessLevel := Uint8(attrs.accessLevel.value));
      def := def.(writable := CurrentWriteSet(def.accessLevel));
    } else if attrs.accessLevel.status != StatusBadAttributeIdInvalid {
      return Failure(BadStatus(attrs.accessLevel.status));
    }
    if attrs.dataType.status == StatusOK {
      def := def.(dataType := DataTypeName(attrs.dataType.value));
    } else if attrs.dataType.status != StatusBadAttributeIdInvalid {
      return Failure(BadStatus(attrs.dataType.status));
    }
    def := def.(path := Join(path, def.browseName));
    assert DecodeAttributes(id, attrs, path) == Success(def);

    // The walker also collects Variable and Object nodes in a list it never returns.
    var nodes: seq<NodeDef> := [];
    if def.nodeClass == NodeClassVariable || def.nodeClass == NodeClassObject {
      nodes := nodes + [def];
    }

    var components := BrowseChildren(space, node, HasComponent, def.path, level);
    if components.Failure? {
      return Failure(components.error);
    }
    var organized := BrowseChildren(space, node, Organizes, def.path, level);
    if organized.Failure? {
      return Failure(organized.error);
    }
    var properties := BrowseChildren(space, node, HasProperty, def.path, level);
    if properties.Failure? {
      return Failure(properties.error);
    }
    var children := components.value + organized.value + properties.value;
    return Success([def.(children := children)]);
  }

  /** The `browseChildren` closure: follow the references of one type and browse each target. */
  method BrowseChildren(space: AddressSpace, node: ServerNode, kind: ReferenceKind, childPath: string, level: int)
    returns (r: Result<seq<NodeDef>, BrowseError>)
    requires level <= MaxLevel
    ensures r == ReferencesSpec(space, node, kind, childPath, level)
    decreases 11 - level, 1, 0
  {
    var refs := References(node, kind);
    if refs.None? {
      return Failure(ReferencesFailed(ReferenceTypeId(kind)));
    }
    var targets := refs.value;
    var children: seq<NodeDef> := [];
    for i := 0 to |targets|
      invariant ChildListSpec(space, targets[..i], childPath, level) == Success(children)
    {
      var sub := Walk(space, targets[i], childPath, level + 1);
      ChildListStep(space, targets, i, childPath, level);
      if sub.Failure? {
        ChildListPrefixFailure(space, targets, i + 1, childPath, level);
        return Failure(ChildFailed(sub.error));
      }
      children := children + sub.value;
    }
    assert targets[..|targets|] == targets;
    return Success(children);
  }

  /** Height of a forest of NodeDefs: 0 for none, one more than the tallest child forest. */
  function Height(defs: seq<NodeDef>): nat
    decreases defs
  {
    if defs == [] then 0
    else
      var last := defs[|defs| - 1];
      Max(Height(defs[..|defs| - 1]), 1 + Height(last.children))
  }

  lemma HeightSingleton(def: NodeDef)
    ensures Height([def]) == 1 + Height(def.children)
  {
    assert [def][..0] == [];
  }

  function Max(a: nat, b: nat): nat {
    if a < b then b else a
  }

  lemma {:induction false} HeightAppend(a: seq<NodeDef>, b: seq<NodeDef>)
    ensures Height(a + b) == Max(Height(a), Height(b))
    decreases |b|
  {
    if b == [] {
      assert a + b == a;
    } else {
      var b' := b[..|b| - 1];
      assert (a + b)[..|a + b| - 1] == a + b';
      HeightAppend(a, b');
    }
  }

  /** A walk outcome that is a failure, or a forest no taller than `budget`. */
  predicate WithinBudget(r: Result<seq<NodeDef>, BrowseError>, budget: nat) {
    r.Success? ==> Height(r.value) <= budget
  }

  /** How many levels a walk started at `level` may still descend. */
  function Budget(level: int): nat {
    if level > MaxLevel then 0 else MaxLevel + 1 - level
  }

  /**
   * The walk is bounded: a walk started at `level` returns a tree of height at
   * most 11 - level, so from the root at level 0 no returned node lies below
   * level 10.
   */
  lemma {:induction false} BrowseHeight(space: AddressSpace, id: NodeId, path: string, level: int)
    ensures WithinBudget(BrowseSpec(space, id, path, level), Budget(level))
    decreases 11 - level, 3, 0
  {
    if level <= MaxLevel && BrowseSpec(space, id, path, level).Success? {
      var def, childPath := BrowseUnfold(space, id, path, level);
      ChildrenHeight(space, Lookup(space, id), childPath, level);
      HeightSingleton(def);
    }
  }

  /** A successful walk below the bound is one definition whose children are the browsed children. */
  lemma BrowseUnfold(space: AddressSpace, id: NodeId, path: string, level: int) returns (def: NodeDef, childPath: string)
    requires level <= MaxLevel && BrowseSpec(space, id, path, level).Success?
    ensures ChildrenSpec(space, Lookup(space, id), childPath, level).Success?
    ensures def.children == ChildrenSpec(space, Lookup(space, id), childPath, level).value
    ensures BrowseSpec(space, id, path, level) == Success([def])
    ensures def.path == childPath && childPath == Join(path, def.browseName)
  {
    var node := Lookup(space, id);
    var d := DecodeAttributes(id, node.attributes.value, path);
    childPath := d.value.path;
    def := d.value.(children := ChildrenSpec(space, node, childPath, level).value);
  }

  lemma {:induction false} ChildrenHeight(space: AddressSpace, node: ServerNode, childPath: string, level: int)
    requires level <= MaxLevel
    ensures WithinBudget(ChildrenSpec(space, node, childPath, level), Budget(level + 1))
    decreases 11 - level, 2, 0
  {
    var a := ReferencesSpec(space, node, HasComponent, childPath, level);
    var b := ReferencesSpec(space, node, Organizes, childPath, level);
    var c := ReferencesSpec(space, node, HasProperty, childPath, level);
    ReferencesHeight(space, node, HasComponent, childPath, level);
    ReferencesHeight(space, node, Organizes, childPath, level);
    ReferencesHeight(space, node, HasProperty, childPath, level);
    if a.Success? && b.Success? && c.Success? {
      HeightAppend(a.value, b.value);
      HeightAppend(a.value + b.value, c.value);
    }
  }

  lemma {:induction false} ReferencesHeight(space: AddressSpace, node: ServerNode, kind: ReferenceKind, childPath: string, level: int)
    requires level <= MaxLevel
    ensures WithinBudget(ReferencesSpec(space, node, kind, childPath, level), Budget(level + 1))
    decreases 11 - level, 1, 0
  {
    if References(node, kind).Some? {
      ChildListHeight(space, References(node, kind).value, childPath, level);
    }
  }

  lemma {:induction false} ChildListHeight(space: AddressSpace, targets: seq<NodeId>, childPath: string, level: int)
    requires level <= MaxLevel
    ensures WithinBudget(ChildListSpec(space, targets, childPath, level), Budget(level + 1))
    decreases 11 - level, 0, |targets|
  {
    if targets != [] && ChildListSpec(space, targets, childPath, level).Success? {
      var front := targets[..|targets| - 1];
      ChildListUnfold(space, targets, childPath, level);
      ChildListHeight(space, front, childPath, level);
      BrowseHeight(space, targets[|targets| - 1], childPath, level + 1);
      HeightWithin(ChildListSpec(space, front, childPath, level).value,
        BrowseSpec(space, targets[|targets| - 1], childPath, level + 1).value, Budget(level + 1));
    }
  }

  lemma HeightWithin(a: seq<NodeDef>, b: seq<NodeDef>, budget: nat)
    requires Height(a) <= budget && Height(b) <= budget
    ensures Height(a + b) <= budget
  {
    HeightAppend(a, b);
  }

  /**
   * Every NodeDef in the forest has the path of its parent joined with its
   * own browse name.
   */
  predicate PathsFrom(defs: seq<NodeDef>, parentPath: string)
    decreases defs
  {
    forall i :: 0 <= i < |defs| ==>
      defs[i].path == Join(parentPath, defs[i].browseName) && PathsFrom(defs[i].children, defs[i].path)
  }

  /** A walk outcome that is a failure, or a forest whose paths hang below `parentPath`. */
  predicate PathsBelow(r: Result<seq<NodeDef>, BrowseError>, parentPath: string) {
    r.Success? ==> PathsFrom(r.value, parentPath)
  }

  lemma PathsFromAppend(a: seq<NodeDef>, b: seq<NodeDef>, parentPath: string)
    requires PathsFrom(a, parentPath) && PathsFrom(b, parentPath)
    ensures PathsFrom(a + b, parentPath)
  {
    forall i | 0 <= i < |a + b|
      ensures (a + b)[i].path == Join(parentPath, (a + b)[i].browseName)
      ensures PathsFrom((a + b)[i].children, (a + b)[i].path)
    {
      if i < |a| { assert (a + b)[i] == a[i]; } else { assert (a + b)[i] == b[i - |a|]; }
    }
  }

  /**
   * Paths are built consistently: the walked node's path is `join(path,
   * BrowseName)`, and every child's path is its parent's path, a '.', and
   * its own browse name.
   */
  lemma {:induction false} BrowsePaths(space: AddressSpace, id: NodeId, path: string, level: int)
    ensures PathsBelow(BrowseSpec(space, id, path, level), path)
    decreases 11 - level, 3, 0
  {
    if level <= MaxLevel && BrowseSpec(space, id, path, level).Success? {
      var def, childPath := BrowseUnfold(space, id, path, level);
      ChildrenPaths(space, Lookup(space, id), childPath, level);
    }
  }

  lemma {:induction false} ChildrenPaths(space: AddressSpace, node: ServerNode, childPath: string, level: int)
    requires level <= MaxLevel
    ensures PathsBelow(ChildrenSpec(space, node, childPath, level), childPath)
    decreases 11 - level, 2, 0
  {
    var a := ReferencesSpec(space, node, HasComponent, childPath, level);
    var b := ReferencesSpec(space, node, Organizes, childPath, level);
    var c := ReferencesSpec(space, node, HasProperty, childPath, level);
    ReferencesPaths(space, node, HasComponent, childPath, level);
    ReferencesPaths(space, node, Organizes, childPath, level);
    ReferencesPaths(space, node, HasProperty, childPath, level);
    if a.Success? && b.Success? && c.Success? {
      PathsFromAppend(a.value, b.value, childPath);
      PathsFromAppend(a.value + b.value, c.value, childPath);
    }
  }

  lemma {:induction false} ReferencesPaths(space: AddressSpace, node: ServerNode, kind: ReferenceKind, childPath: string, level: int)
    requires level <= MaxLevel
    ensures PathsBelow(ReferencesSpec(space, node, kind, childPath, level), childPath)
    decreases 11 - level, 1, 0
  {
    if References(node, kind).Some? {
      ChildListPaths(space, References(node, kind).value, childPath, level);
    }
  }

  lemma {:induction false} ChildListPaths(space: AddressSpace, targets: seq<NodeId>, childPath: string, level: int)
    requires level <= MaxLevel
    ensures PathsBelow(ChildListSpec(space, targets, childPath, level), childPath)
    decreases 11 - level, 0, |targets|
  {
    if targets != [] && ChildListSpec(space, targets, childPath, level).Success? {
      var front := targets[..|targets| - 1];
      ChildListUnfold(space, targets, childPath, level);
      ChildListPaths(space, front, childPath, level);
      BrowsePaths(space, targets[|targets| - 1], childPath, level + 1);
      var earlier := ChildListSpec(space, front, childPath, level);
      var last := BrowseSpec(space, targets[|targets| - 1], childPath, level + 1);
      PathsFromAppend(earlier.value, last.value, childPath);
    }
  }

  /**
   * Below the depth bound a successful walk returns exactly one NodeDef, for
   * the node asked about, whatever its node class.
   */
  lemma BrowseSingleResult(space: AddressSpace, id: NodeId, path: string, level: int)
    requires level <= MaxLevel
    requires BrowseSpec(space, id, path, level).Success?
    ensures |BrowseSpec(space, id, path, level).value| == 1
    ensures BrowseSpec(space, id, path, level).value[0].nodeId == id
  {
  }

  /** The node's children are its HasComponent, Organizes and HasProperty results, concatenated in that order. */
  lemma ChildrenInReferenceOrder(space: AddressSpace, id: NodeId, path: string, level: int)
    requires level <= MaxLevel
    requires BrowseSpec(space, id, path, level).Success?
    ensures var node := Lookup(space, id);
      var def := BrowseSpec(space, id, path, level).value[0];
      && ReferencesSpec(space, node, HasComponent, def.path, level).Success?
      && ReferencesSpec(space, node, Organizes, def.path, level).Success?
      && ReferencesSpec(space, node, HasProperty, def.path, level).Success?
      && def.children == ReferencesSpec(space, node, HasComponent, def.path, level).value
           + ReferencesSpec(space, node, Organizes, def.path, level).value
           + ReferencesSpec(space, node, HasProperty, def.path, level).value
  {
  }

  /**
   * `NodeDef.Records`: nine columns in the documented order: browse name,
   * data type, printed NodeId, unit, scale, min, max, the writable flag as
   * "true" or "false", and the description.
   */
  function Records(n: NodeDef): (r: seq<string>)
    ensures |r| == 9
    ensures r[0] == n.browseName && r[1] == n.dataType && r[2] == NodeIdString(n.nodeId)
    ensures r[3..7] == [n.unit, n.scale, n.min, n.max]
    ensures r[7] == "true" <==> n.writable
    ensures r[7] == "false" <==> !n.writable
    ensures r[8] == n.description
  {
    [n.browseName, n.dataType, NodeIdString(n.nodeId), n.unit, n.scale, n.min, n.max, FormatBool(n.writable), n.description]
  }

  /** The NodeId column of a record parses back to the parts of the node's id. */
  lemma RecordsNodeIdParses(n: NodeDef)
    requires Parsable(n.nodeId)
    ensures ParseNodeIdString(Records(n)[2]) == Success(PartsOf(n.nodeId))
  {
    ParsePrintedNodeId(n.nodeId);
  }

  /** `NodeClass.String()` of the client library. */
  function NodeClassName(c: nat): (name: string)
    ensures name != []
  {
    if c == 0 then "NodeClassUnspecified"
    else if c == 1 then "NodeClassObject"
    else if c == 2 then "NodeClassVariable"
    else if c == 4 then "NodeClassMethod"
    else if c == 8 then "NodeClassObjectType"
    else if c == 16 then "NodeClassVariableType"
    else if c == 32 then "NodeClassReferenceType"
    else if c == 64 then "NodeClassDataType"
    else if c == 128 then "NodeClassView"
    else "NodeClass(" + NatDigits(c) + ")"
  }
}
