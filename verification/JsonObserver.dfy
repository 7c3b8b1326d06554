/** The mutating observer of core/metadata/json_structure.py: `_ObservedNode` objects updated in
    place under a shared `_InferenceState`, computing `JsonObservation.Observe`. */
module JsonObserver {
  import opened JsonObservation
  import opened JsonPath
  import opened JsonSchema
  import JsonTruncation
  import opened Options

  class InferenceState {
    const limits: Limits
    var nodesCreated: int
    var truncated: bool

    constructor (limits: Limits, nodesCreated: int)
      ensures this.limits == limits && Current() == Budget(nodesCreated, false)
    {
      this.limits := limits;
      this.nodesCreated := nodesCreated;
      this.truncated := false;
    }

    function Current(): Budget
      reads this
    {
      Budget(nodesCreated, truncated)
    }

    method MarkTruncated()
      modifies this
      ensures Current() == Mark(old(Current()))
    {
      truncated := true;
    }
  }

  class ObservedNode {
    const name: string
    const tokens: seq<string>
    var occurrences: nat
    var nullOccurrences: nat
    var observedKinds: set<Kind>
    var examples: seq<Json>
    var children: map<string, ObservedNode>
    var objectObservations: nat
    var arrayObservations: nat
    var arrayMinItems: Option<nat>
    var arrayMaxItems: Option<nat>
    var sampledItems: nat

    /** The tree this node stands for, and the nodes it is made of. */
    ghost var model: Observed
    ghost var repr: set<ObservedNode>

    constructor (name: string, tokens: seq<string>)
      ensures Valid() && fresh(repr) && repr == {this} && model == Fresh(name, tokens)
    {
      this.name, this.tokens := name, tokens;
      occurrences, nullOccurrences, observedKinds, examples := 0, 0, {}, [];
      children := map[];
      objectObservations, arrayObservations := 0, 0;
      arrayMinItems, arrayMaxItems, sampledItems := None, None, 0;
      model := Fresh(name, tokens);
      repr := {this};
    }

    /** The fields of this node are the fields of the model. */
    ghost predicate Matches()
      reads this
    {
      && name == model.name && tokens == model.tokens
      && occurrences == model.occurrences && nullOccurrences == model.nulls
      && observedKinds == model.kinds && examples == model.examples
      && objectObservations == model.objects && arrayObservations == model.arrays
      && arrayMinItems == model.minItems && arrayMaxItems == model.maxItems
      && sampledItems == model.sampled
      && children.Keys == model.children.Keys
    }

    ghost predicate Valid()
      reads this, repr
      ensures Valid() ==> this in repr
      decreases repr, 0
    {
      this in repr && Matches() && Forest(children, model.children, repr - {this})
    }

    /** The bookkeeping done for every value. */
    method Record(v: Json, limits: Limits)
      requires Valid()
      modifies this
      ensures Valid() && repr == old(repr) && model == Note(v, old(model), limits)
    {
      hide Forest;
      occurrences := occurrences + 1;
      observedKinds := observedKinds + {KindOf(v)};
      if v.Null? {
        nullOccurrences := nullOccurrences + 1;
      }
      if !IsContainer(v) {
        examples := AddExample(examples, v, limits.maxExamples);
      }
      model := Note(v, model, limits);
    }

    method RecordObject(v: Json)
      requires Valid() && v.Obj?
      modifies this
      ensures Valid() && repr == old(repr) && model == NoteObject(v, old(model))
    {
      objectObservations := objectObservations + 1;
      model := NoteObject(v, model);
    }

    method RecordArray(v: Json, sample: nat)
      requires Valid() && v.Arr?
      modifies this
      ensures Valid() && repr == old(repr) && model == NoteArray(v, old(model), sample)
    {
      var size := |v.items|;
      arrayObservations := arrayObservations + 1;
      arrayMinItems := Some(LeastItems(arrayMinItems, size));
      arrayMaxItems := Some(MostItems(arrayMaxItems, size));
      sampledItems := sampledItems + sample;
      model := NoteArray(v, model, sample);
    }
  }

  /** Disjoint valid trees made of `nodes`, one per token, standing for `models`. */
  ghost predicate Forest(children: map<string, ObservedNode>, models: map<string, Observed>, nodes: set<ObservedNode>)
    reads nodes
    decreases nodes, 1
  {
    && children.Keys == models.Keys
    && (forall k :: k in children ==>
          && children[k] in nodes && children[k].repr <= nodes
          && children[k].model == models[k]
          && children[k].Valid())
    && forall j, k :: j in children && k in children && j != k ==> children[j].repr !! children[k].repr
  }

  /** Taking out one tree leaves a forest that does not touch it. */
  lemma ForestWithout(children: map<string, ObservedNode>, models: map<string, Observed>,
                      nodes: set<ObservedNode>, token: string)
    requires Forest(children, models, nodes) && token in children
    ensures Forest(children - {token}, models - {token}, nodes - children[token].repr)
  {
    forall k | k in children && k != token ensures children[k].repr <= nodes - children[token].repr {
    }
  }

  /** Putting in a tree that the forest does not touch. */
  lemma ForestWith(children: map<string, ObservedNode>, models: map<string, Observed>,
                   nodes: set<ObservedNode>, token: string, child: ObservedNode)
    requires Forest(children, models, nodes) && token !in children
    requires child.Valid() && child.repr !! nodes
    ensures Forest(children[token := child], models[token := child.model], nodes + child.repr)
  {
  }

  method AddChild(parent: ObservedNode, token: string) returns (child: ObservedNode)
    requires parent.Valid() && token !in parent.children
    modifies parent
    ensures parent.Valid() && fresh(parent.repr - old(parent.repr))
    ensures Created(parent, child, token, old(parent.model), Some(Fresh(token, parent.tokens + [token])))
  {
    hide Forest;
    child := new ObservedNode(token, parent.tokens + [token]);
    ForestWith(parent.children, parent.model.children, parent.repr - {parent}, token, child);
    assert parent.repr + child.repr - {parent} == parent.repr - {parent} + child.repr;
    parent.children := parent.children[token := child];
    parent.model := parent.model.(children := parent.model.children[token := child.model]);
    parent.repr := parent.repr + child.repr;
  }

  /** `create_child`: finds or adds a child, unless the node budget is spent. */
  method CreateChild(parent: ObservedNode, token: string, state: InferenceState)
    returns (child: ObservedNode?)
    requires parent.Valid()
    modifies parent, state
    ensures parent.Valid() && fresh(parent.repr - old(parent.repr))
    ensures Created(parent, child, token, old(parent.model),
                    Child(old(parent.model), token, state.limits, old(state.Current())).0)
    ensures state.Current() == Child(old(parent.model), token, state.limits, old(state.Current())).1
  {
    hide Forest;
    if token in parent.children {
      child := parent.children[token];
      Detach(parent, token);
      MapFacts(parent.model.children, token, child.model, child.model);
    } else if state.nodesCreated >= state.limits.maxTotalNodes {
      state.MarkTruncated();
      child := null;
    } else {
      child := AddChild(parent, token);
      state.nodesCreated := state.nodesCreated + 1;
    }
  }

  ghost predicate Created(parent: ObservedNode, child: ObservedNode?, token: string, was: Observed, c: Option<Observed>)
    reads parent, child
  {
    if c.None? then child == null && parent.model == was
    else
      && child != null
      && token in parent.children && parent.children[token] == child
      && child.model == c.value
      && parent.model == was.(children := was.children[token := c.value])
  }

  /** All of `parent` is in order except possibly the tree under `token`; the rest is `nodes`. */
  ghost predicate Detached(parent: ObservedNode, token: string, nodes: set<ObservedNode>)
    reads parent, nodes
  {
    && parent.Matches() && parent !in nodes && token in parent.children
    && Forest(parent.children - {token}, parent.model.children - {token}, nodes)
  }

  lemma Detach(parent: ObservedNode, token: string)
    requires parent.Valid() && token in parent.children
    ensures var child := parent.children[token];
      && child.Valid() && child.repr <= parent.repr - {parent}
      && token in parent.model.children && child.model == parent.model.children[token]
      && Detached(parent, token, parent.repr - {parent} - child.repr)
  {
    ForestWithout(parent.children, parent.model.children, parent.repr - {parent}, token);
  }

  lemma MapFacts<V>(m: map<string, V>, k: string, a: V, b: V)
    ensures (m - {k})[k := b] == m[k := b]
    ensures m[k := a][k := b] == m[k := b]
    ensures k in m ==> m[k := m[k]] == m
  {
  }

  /** Brings the ghost summary of a parent up to date with one child whose tree has changed. */
  ghost method Absorb(parent: ObservedNode, token: string, nodes: set<ObservedNode>, was: Observed, c: Observed)
    requires Detached(parent, token, nodes)
    requires var child := parent.children[token];
      child.Valid() && child.repr !! nodes && parent !in child.repr
    requires parent.model == was.(children := was.children[token := c])
    modifies parent`model, parent`repr
    ensures parent.Valid() && parent.repr == {parent} + nodes + parent.children[token].repr
    ensures parent.model == was.(children := was.children[token := parent.children[token].model])
  {
    hide Forest;
    var child := parent.children[token];
    ForestWith(parent.children - {token}, parent.model.children - {token}, nodes, token, child);
    MapFacts(parent.children, token, child, child);
    MapFacts(parent.model.children, token, child.model, child.model);
    MapFacts(was.children, token, c, child.model);
    parent.model := parent.model.(children := parent.model.children[token := child.model]);
    parent.repr := {parent} + nodes + child.repr;
    assert parent.repr - {parent} == nodes + child.repr;
  }

  /** `_observe_value`. */
  method ObserveValue(v: Json, node: ObservedNode, depth: int, state: InferenceState)
    requires node.Valid()
    modifies node.repr, state
    ensures node.Valid() && fresh(node.repr - old(node.repr))
    ensures node.model == Observe(v, old(node.model), depth, state.limits, old(state.Current())).0
    ensures state.Current() == Observe(v, old(node.model), depth, state.limits, old(state.Current())).1
    decreases v, 1, 0
  {
    hide Forest;
    node.Record(v, state.limits);
    if !IsContainer(v) {
      return;
    }
    if depth >= state.limits.maxDepth {
      state.MarkTruncated();
      return;
    }
    if v.Obj? {
      ObserveKeys(v, node, depth, state);
    } else {
      ObserveArrayItems(v, node, depth, state);
    }
  }

  method ObserveKeys(v: Json, node: ObservedNode, depth: int, state: InferenceState)
    requires node.Valid() && v.Obj?
    modifies node.repr, state
    ensures node.Valid() && fresh(node.repr - old(node.repr))
    ensures node.model == ObserveObject(v, old(node.model), depth, state.limits, old(state.Current())).0
    ensures state.Current() == ObserveObject(v, old(node.model), depth, state.limits, old(state.Current())).1
    decreases v, 0, 1
  {
    hide Forest;
    node.RecordObject(v);
    var keep := Kept(|v.fields|, state.limits.maxObjectChildren);
    if |v.fields| > state.limits.maxObjectChildren {
      state.MarkTruncated();
    }
    ghost var t0, b0 := node.model, state.Current();
    var i := 0;
    while i < keep
      invariant 0 <= i <= keep
      invariant node.Valid() && fresh(node.repr - old(node.repr))
      invariant (node.model, state.Current()) == ObserveFields(v, i, t0, depth, state.limits, b0)
    {
      ObserveKey(v, i, node, depth, state);
      i := i + 1;
    }
  }

  method ObserveKey(v: Json, i: nat, node: ObservedNode, depth: int, state: InferenceState)
    requires node.Valid() && v.Obj? && i < |v.fields|
    modifies node.repr, state
    ensures node.Valid() && fresh(node.repr - old(node.repr))
    ensures node.model == ObserveField(v, i, old(node.model), depth, state.limits, old(state.Current())).0
    ensures state.Current() == ObserveField(v, i, old(node.model), depth, state.limits, old(state.Current())).1
    decreases v, 0, 0
  {
    hide Forest, ObservedNode.Matches;
    var key := v.fields[i].key;
    var child := CreateChild(node, key, state);
    if child == null {
      return;
    }
    Detach(node, key);
    ghost var nodes, c := node.repr - {node} - child.repr, child.model;
    ObserveValue(v.fields[i].value, child, depth + 1, state);
    Absorb(node, key, nodes, old(node.model), c);
  }

  method ObserveArrayItems(v: Json, node: ObservedNode, depth: int, state: InferenceState)
    requires node.Valid() && v.Arr?
    modifies node.repr, state
    ensures node.Valid() && fresh(node.repr - old(node.repr))
    ensures node.model == ObserveArray(v, old(node.model), depth, state.limits, old(state.Current())).0
    ensures state.Current() == ObserveArray(v, old(node.model), depth, state.limits, old(state.Current())).1
    decreases v, 0, |v.items| + 2
  {
    hide ObservedNode.Valid, NoteArray, Child, ObserveItems;
    var keep := Kept(|v.items|, state.limits.maxArrayItems);
    node.RecordArray(v, keep);
    if |v.items| > state.limits.maxArrayItems {
      state.MarkTruncated();
    }
    if keep > 0 {
      ObserveKept(v, keep, node, depth, state);
    }
  }

  /** The items that are sampled, below the one child of an array. */
  method ObserveKept(v: Json, keep: nat, node: ObservedNode, depth: int, state: InferenceState)
    requires node.Valid() && v.Arr? && keep <= |v.items|
    modifies node.repr, state
    ensures node.Valid() && fresh(node.repr - old(node.repr))
    ensures var t := old(node.model);
      var (c, b) := Child(t, ITEM, state.limits, old(state.Current()));
      if c.None? then node.model == t && state.Current() == b
      else
        var (c', b') := ObserveItems(v, keep, c.value, depth, state.limits, b);
        node.model == t.(children := t.children[ITEM := c']) && state.Current() == b'
    decreases v, 0, |v.items| + 1
  {
    hide Forest, ObservedNode.Matches, ObserveItems, Child;
    ghost var t2 := node.model;
    var child := CreateChild(node, ITEM, state);
    if child == null {
      return;
    }
    Detach(node, ITEM);
    ghost var nodes, c := node.repr - {node} - child.repr, child.model;
    ObserveSample(v, keep, child, depth, state);
    Absorb(node, ITEM, nodes, t2, c);
  }

  method ObserveSample(v: Json, keep: nat, child: ObservedNode, depth: int, state: InferenceState)
    requires child.Valid() && v.Arr? && keep <= |v.items|
    modifies child.repr, state
    ensures child.Valid() && fresh(child.repr - old(child.repr))
    ensures child.model == ObserveItems(v, keep, old(child.model), depth, state.limits, old(state.Current())).0
    ensures state.Current() == ObserveItems(v, keep, old(child.model), depth, state.limits, old(state.Current())).1
    decreases v, 0, keep
  {
    ghost var c0, b0 := child.model, state.Current();
    var i := 0;
    while i < keep
      invariant 0 <= i <= keep
      invariant child.Valid() && fresh(child.repr - old(child.repr))
      invariant (child.model, state.Current()) == ObserveItems(v, i, c0, depth, state.limits, b0)
    {
      ObserveValue(v.items[i], child, depth + 1, state);
      i := i + 1;
    }
  }

  /** `infer_json_structure`, up to the observed tree: anything but an object or a list is
      answered without a tree, and an untruncated tree gives a schema the input meets. */
  method InferJsonStructure(v: Json, limits: Limits) returns (root: ObservedNode?, truncated: bool)
    ensures root == null <==> !IsContainer(v)
    ensures root == null ==> !truncated
    ensures root != null ==>
      root.Valid() && (root.model, truncated) == (ObserveRoot(v, limits).0, ObserveRoot(v, limits).1.truncated)
    ensures root != null && !truncated && WellFormed(v) ==> Conforms(v, SchemaFor(root.model, true))
    ensures root != null ==> (truncated <==> JsonTruncation.Exceeds(v, limits))
  {
    if !IsContainer(v) {
      return null, false;
    }
    var state := new InferenceState(limits, 1);
    root := new ObservedNode("$", []);
    ObserveValue(v, root, 0, state);
    truncated := state.truncated;
    JsonTruncation.TruncatedExactly(v, limits);
    if WellFormed(v) {
      InferenceSound(v, limits);
    }
  }
}
