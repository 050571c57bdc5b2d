/** A node of the editable device tree: a name, properties by name and
    children by name, both kept in insertion order. */
module ModelNode {
  import opened Bytes
  import opened Wrappers
  import opened IndexMaps
  import opened ModelProperty

  datatype DeviceTreeNode = DeviceTreeNode(
    name: seq<u8>,
    properties: IndexMap<seq<u8>, DeviceTreeProperty>,
    children: IndexMap<seq<u8>, DeviceTreeNode>)

  /** Every map key is the name of the entry stored under it, so keys are
      distinct names; and the same holds all the way down. */
  predicate WellFormed(n: DeviceTreeNode)
    decreases n
  {
    && UniqueKeys(n.properties)
    && UniqueKeys(n.children)
    && (forall e {:trigger e in n.properties.entries} :: e in n.properties.entries ==> e.0 == e.1.name)
    && (forall e {:trigger e in n.children.entries} :: e in n.children.entries ==> e.0 == e.1.name && WellFormed(e.1))
  }

  /** In a well-formed node every entry is keyed by its value's name. */
  lemma KeysAreNames(n: DeviceTreeNode)
    requires WellFormed(n)
    ensures forall i :: 0 <= i < |n.properties.entries| ==> n.properties.entries[i].0 == n.properties.entries[i].1.name
    ensures forall i :: 0 <= i < |n.children.entries| ==> n.children.entries[i].0 == n.children.entries[i].1.name
  {
    forall i | 0 <= i < |n.properties.entries|
      ensures n.properties.entries[i].0 == n.properties.entries[i].1.name
    {
      assert n.properties.entries[i] in n.properties.entries;
    }
    forall i | 0 <= i < |n.children.entries|
      ensures n.children.entries[i].0 == n.children.entries[i].1.name
    {
      assert n.children.entries[i] in n.children.entries;
    }
  }

  /** `DeviceTreeNode::new`. */
  function New(name: seq<u8>): (r: DeviceTreeNode)
    ensures r.name == name && |Properties(r)| == 0 && |Children(r)| == 0
    ensures WellFormed(r)
  {
    DeviceTreeNode(name, Empty(), Empty())
  }

  /** `DeviceTreeNode::properties`, in order. */
  function Properties(n: DeviceTreeNode): seq<DeviceTreeProperty>
  {
    Values(n.properties)
  }

  /** `DeviceTreeNode::children`, in order. */
  function Children(n: DeviceTreeNode): seq<DeviceTreeNode>
  {
    Values(n.children)
  }

  /** `DeviceTreeNode::property` (and `property_mut`). */
  function Property(n: DeviceTreeNode, name: seq<u8>): (r: Option<DeviceTreeProperty>)
    ensures r.Some? ==> (name, r.value) in n.properties.entries
  {
    Get(n.properties, name)
  }

  /** In a well-formed node, `property(name)` finds the one property of
      that name, and finds nothing exactly when no property has it. */
  lemma PropertyIff(n: DeviceTreeNode, name: seq<u8>)
    requires WellFormed(n)
    ensures Property(n, name).Some? <==> exists p :: p in Properties(n) && p.name == name
    ensures Property(n, name).Some? ==> Property(n, name).value in Properties(n) && Property(n, name).value.name == name
  {
    var r := Property(n, name);
    if r.Some? {
      GetIffEntry(n.properties, name, r.value);
      var i :| 0 <= i < |n.properties.entries| && n.properties.entries[i] == (name, r.value);
      assert Properties(n)[i] == r.value;
    }
    if exists p :: p in Properties(n) && p.name == name {
      var p :| p in Properties(n) && p.name == name;
      var i :| 0 <= i < |Properties(n)| && Properties(n)[i] == p;
      assert n.properties.entries[i] in n.properties.entries;
    }
  }

  /** `DeviceTreeNode::add_property`: keyed by the property's own name. */
  function AddProperty(n: DeviceTreeNode, p: DeviceTreeProperty): (r: DeviceTreeNode)
    ensures r.name == n.name && r.children == n.children
    ensures WellFormed(n) ==> WellFormed(r)
  {
    n.(properties := Insert(n.properties, p.name, p))
  }

  /** After `add_property(p)`, `property(p.name)` is `p`, every other name
      reads as before, and the other properties keep their places. */
  lemma AddPropertyLookup(n: DeviceTreeNode, p: DeviceTreeProperty, other: seq<u8>)
    requires WellFormed(n)
    ensures WellFormed(AddProperty(n, p))
    ensures Property(AddProperty(n, p), p.name) == Some(p)
    ensures other != p.name ==> Property(AddProperty(n, p), other) == Property(n, other)
    ensures forall i :: 0 <= i < |Properties(n)| && Properties(n)[i].name != p.name ==>
      Properties(AddProperty(n, p))[i] == Properties(n)[i]
  {
    GetInsert(n.properties, p.name, p, other);
    KeysAreNames(n);
  }

  /** Re-adding a name keeps its position; a new name goes last. */
  lemma AddPropertyPosition(n: DeviceTreeNode, p: DeviceTreeProperty)
    requires WellFormed(n)
    ensures Property(n, p.name).Some? ==>
      |Properties(AddProperty(n, p))| == |Properties(n)|
      && forall i :: 0 <= i < |Properties(n)| && Properties(n)[i].name == p.name ==> Properties(AddProperty(n, p))[i] == p
    ensures Property(n, p.name).None? ==> Properties(AddProperty(n, p)) == Properties(n) + [p]
  {
    var r := AddProperty(n, p);
    KeysAreNames(n);
    if Property(n, p.name).None? {
      assert Properties(r) == Properties(n) + [p];
    }
  }

  /** `DeviceTreeNode::remove_property`. */
  function RemoveProperty(n: DeviceTreeNode, name: seq<u8>): (r: (DeviceTreeNode, Option<DeviceTreeProperty>))
    ensures r.1 == Property(n, name)
    ensures r.0.name == n.name && r.0.children == n.children
    ensures r.1.None? ==> r.0 == n
    ensures WellFormed(n) ==> WellFormed(r.0)
  {
    var (props, removed) := ShiftRemove(n.properties, name);
    (n.(properties := props), removed)
  }

  /** After `remove_property(name)` the node is still well-formed, the name
      is gone and other names read as before. */
  lemma RemovePropertyLookup(n: DeviceTreeNode, name: seq<u8>, other: seq<u8>)
    requires WellFormed(n)
    ensures WellFormed(RemoveProperty(n, name).0) && Property(RemoveProperty(n, name).0, name).None?
    ensures other != name ==> Property(RemoveProperty(n, name).0, other) == Property(n, other)
  {
    GetShiftRemove(n.properties, name, other);
  }

  /** The remaining properties keep their relative order: the removed one is
      cut out at its position `at`. */
  lemma RemovePropertyOrder(n: DeviceTreeNode, name: seq<u8>) returns (at: nat)
    requires RemoveProperty(n, name).1.Some?
    ensures at < |Properties(n)| && Properties(n)[at] == RemoveProperty(n, name).1.value
    ensures Properties(RemoveProperty(n, name).0) == Properties(n)[..at] + Properties(n)[at + 1..]
  {
    at := RemovedAt(n.properties, name);
  }


  /** `DeviceTreeNode::child` (and `child_mut`). */
  function Child(n: DeviceTreeNode, name: seq<u8>): (r: Option<DeviceTreeNode>)
    ensures r.Some? ==> (name, r.value) in n.children.entries
  {
    Get(n.children, name)
  }

  /** In a well-formed node, `child(name)` finds the one child of that
      name, which is itself well-formed, and finds nothing exactly when no
      child has it. */
  lemma ChildIff(n: DeviceTreeNode, name: seq<u8>)
    requires WellFormed(n)
    ensures Child(n, name).Some? <==> exists c :: c in Children(n) && c.name == name
    ensures Child(n, name).Some? ==> Child(n, name).value in Children(n) && Child(n, name).value.name == name
    ensures Child(n, name).Some? ==> WellFormed(Child(n, name).value)
  {
    var r := Child(n, name);
    if r.Some? {
      GetIffEntry(n.children, name, r.value);
      var i :| 0 <= i < |n.children.entries| && n.children.entries[i] == (name, r.value);
      assert Children(n)[i] == r.value;
    }
    if exists c :: c in Children(n) && c.name == name {
      var c :| c in Children(n) && c.name == name;
      var i :| 0 <= i < |Children(n)| && Children(n)[i] == c;
      assert n.children.entries[i] in n.children.entries;
    }
  }

  /** A child found by name in a well-formed node is itself well-formed
      and carries that name. */
  lemma ChildWellFormed(n: DeviceTreeNode, name: seq<u8>, c: DeviceTreeNode)
    requires WellFormed(n) && Child(n, name) == Some(c)
    ensures WellFormed(c) && c.name == name
  {
    GetIffEntry(n.children, name, c);
  }

  /** `DeviceTreeNode::add_child`: a present name is replaced by the whole
      new subtree, in place and without merging. */
  function AddChild(n: DeviceTreeNode, c: DeviceTreeNode): (r: DeviceTreeNode)
    ensures r.name == n.name && r.properties == n.properties
    ensures WellFormed(n) && WellFormed(c) ==> WellFormed(r)
  {
    n.(children := Insert(n.children, c.name, c))
  }

  /** After `add_child(c)`, `child(c.name)` is `c` itself, every other
      name reads as before, and the other children keep their places. */
  lemma AddChildLookup(n: DeviceTreeNode, c: DeviceTreeNode, other: seq<u8>)
    requires WellFormed(n) && WellFormed(c)
    ensures WellFormed(AddChild(n, c))
    ensures Child(AddChild(n, c), c.name) == Some(c)
    ensures other != c.name ==> Child(AddChild(n, c), other) == Child(n, other)
    ensures forall i :: 0 <= i < |Children(n)| && Children(n)[i].name != c.name ==>
      Children(AddChild(n, c))[i] == Children(n)[i]
  {
    GetInsert(n.children, c.name, c, other);
    KeysAreNames(n);
  }

  /** Re-adding a name replaces that child where it stood; a new name goes
      last. */
  lemma AddChildPosition(n: DeviceTreeNode, c: DeviceTreeNode)
    requires WellFormed(n)
    ensures Child(n, c.name).Some? ==>
      |Children(AddChild(n, c))| == |Children(n)|
      && forall i :: 0 <= i < |Children(n)| && Children(n)[i].name == c.name ==> Children(AddChild(n, c))[i] == c
    ensures Child(n, c.name).None? ==> Children(AddChild(n, c)) == Children(n) + [c]
  {
    var r := AddChild(n, c);
    KeysAreNames(n);
    if Child(n, c.name).None? {
      assert Children(r) == Children(n) + [c];
    }
  }

  /** `DeviceTreeNode::remove_child`. */
  function RemoveChild(n: DeviceTreeNode, name: seq<u8>): (r: (DeviceTreeNode, Option<DeviceTreeNode>))
    ensures r.1 == Child(n, name)
    ensures r.0.name == n.name && r.0.properties == n.properties
    ensures r.1.None? ==> r.0 == n
    ensures WellFormed(n) ==> WellFormed(r.0)
  {
    var (kids, removed) := ShiftRemove(n.children, name);
    (n.(children := kids), removed)
  }

  /** After `remove_child(name)` the node is still well-formed, the name
      is gone and other names read as before. */
  lemma RemoveChildLookup(n: DeviceTreeNode, name: seq<u8>, other: seq<u8>)
    requires WellFormed(n)
    ensures WellFormed(RemoveChild(n, name).0) && Child(RemoveChild(n, name).0, name).None?
    ensures other != name ==> Child(RemoveChild(n, name).0, other) == Child(n, other)
  {
    GetShiftRemove(n.children, name, other);
  }

  /** The remaining children keep their relative order: the removed one is
      cut out at its position `at`. */
  lemma RemoveChildOrder(n: DeviceTreeNode, name: seq<u8>) returns (at: nat)
    requires RemoveChild(n, name).1.Some?
    ensures at < |Children(n)| && Children(n)[at] == RemoveChild(n, name).1.value
    ensures Children(RemoveChild(n, name).0) == Children(n)[..at] + Children(n)[at + 1..]
  {
    at := RemovedAt(n.children, name);
  }


  /** `DeviceTreeNodeBuilder`: a node under construction. */
  datatype DeviceTreeNodeBuilder = DeviceTreeNodeBuilder(node: DeviceTreeNode)

  /** `DeviceTreeNode::builder`. */
  function Builder(name: seq<u8>): (r: DeviceTreeNodeBuilder)
    ensures r.node == New(name)
  {
    DeviceTreeNodeBuilder(New(name))
  }

  /** `DeviceTreeNodeBuilder::property` is `add_property`. */
  function WithProperty(b: DeviceTreeNodeBuilder, p: DeviceTreeProperty): (r: DeviceTreeNodeBuilder)
    ensures r.node == AddProperty(b.node, p)
  {
    DeviceTreeNodeBuilder(AddProperty(b.node, p))
  }

  /** `DeviceTreeNodeBuilder::child` is `add_child`. */
  function WithChild(b: DeviceTreeNodeBuilder, c: DeviceTreeNode): (r: DeviceTreeNodeBuilder)
    ensures r.node == AddChild(b.node, c)
  {
    DeviceTreeNodeBuilder(AddChild(b.node, c))
  }

  /** `DeviceTreeNodeBuilder::build`. */
  function Build(b: DeviceTreeNodeBuilder): DeviceTreeNode
  {
    b.node
  }

  /** A node built from a name, properties and children holds them in
      the order given, each reachable by its name. */
  lemma BuildOrder(name: seq<u8>, p: DeviceTreeProperty, q: DeviceTreeProperty, c: DeviceTreeNode)
    requires p.name != q.name
    ensures Properties(Build(WithChild(WithProperty(WithProperty(Builder(name), p), q), c))) == [p, q]
    ensures Children(Build(WithChild(WithProperty(WithProperty(Builder(name), p), q), c))) == [c]
    ensures WellFormed(c) ==> WellFormed(Build(WithChild(WithProperty(WithProperty(Builder(name), p), q), c)))
  {
    var n1 := AddProperty(New(name), p);
    assert !HasKey(n1.properties, q.name);
  }


}
