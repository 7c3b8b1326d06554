/** `_restore_union_models` on the unpickled payload itself: nested dictionary objects that are walked through
    and overwritten in place (core/dump_engine/_pydantic.py:110-154). */
module UnionPayload {
  import opened Options
  import opened UnionRestore

  /** What a key of a dictionary object holds: another dictionary object, or any other value. */
  datatype Slot = Atom(v: Value) | Sub(node: DictNode)

  class DictNode {
    var fields: map<string, Slot>
    ghost var repr: set<DictNode>

    /** A tree of dictionary objects: no object is held twice. */
    ghost predicate Valid()
      reads this, repr
      ensures Valid() ==> this in repr
      decreases repr, 0
    {
      this in repr && Held(fields, repr - {this})
    }

    /** What the slots hold are trees of their own, within `nodes`; other slots hold no dictionary. */
    static ghost predicate Held(fields: map<string, Slot>, nodes: set<DictNode>)
      reads nodes
      decreases nodes, 1
    {
      && (forall f :: f in fields && fields[f].Atom? ==> !fields[f].v.Dict?)
      && (forall f :: f in fields && fields[f].Sub? ==>
            fields[f].node in nodes && fields[f].node.repr <= nodes && fields[f].node.Valid())
      && forall f, g :: f in fields && g in fields && f != g && fields[f].Sub? && fields[g].Sub? ==>
           fields[f].node.repr !! fields[g].node.repr
    }

    /** The payload as a value. */
    function Tree(): (v: Value)
      requires Valid()
      reads this, repr
      ensures v.Dict? && v.fields.Keys == fields.Keys
      decreases repr, 0
    {
      Dict(Trees(fields, repr - {this}))
    }

    static function Trees(fields: map<string, Slot>, ghost nodes: set<DictNode>): map<string, Value>
      requires Held(fields, nodes)
      reads nodes
      decreases nodes, 1
    {
      map f | f in fields :: if fields[f].Atom? then fields[f].v else fields[f].node.Tree()
    }

    constructor ()
      ensures Valid() && fresh(repr) && Tree() == Dict(map[])
    {
      fields := map[];
      repr := {this};
    }
  }

  /** One round of the loop: the walk goes down the objects along the path, and the last one is overwritten. */
  method RestoreAt(env: Env, node: DictNode, path: Path, cls: Option<string>)
    requires node.Valid() && path != []
    modifies node.repr
    ensures node.Valid() && node.repr == old(node.repr)
    ensures node.Tree() == RestoredAt(env, old(node.Tree()), path, cls)
    decreases |path|
  {
    var f := path[0];
    if f !in node.fields {
      return;
    }
    match node.fields[f]
    case Atom(v) =>
      if |path| == 1 && !v.Null? {
        ReplaceAtom(env, node, f, cls);
      } else {
        assert node.Tree().fields[f := v] == node.Tree().fields;
      }
    case Sub(child) =>
      if |path| == 1 {
        ReplaceSub(env, node, f, cls);
      } else {
        RestoreBelow(env, node, path, cls);
      }
  }

  lemma HeldWith(fields: map<string, Slot>, nodes: set<DictNode>, f: string, v: Value)
    requires DictNode.Held(fields, nodes) && !v.Dict?
    ensures DictNode.Held(fields[f := Atom(v)], nodes)
    ensures DictNode.Trees(fields[f := Atom(v)], nodes) == DictNode.Trees(fields, nodes)[f := v]
  {
  }

  /** Taking one tree out leaves trees that it does not touch. */
  lemma HeldWithout(fields: map<string, Slot>, nodes: set<DictNode>, f: string)
    requires DictNode.Held(fields, nodes) && f in fields && fields[f].Sub?
    ensures DictNode.Held(fields - {f}, nodes - fields[f].node.repr)
    ensures DictNode.Trees(fields - {f}, nodes - fields[f].node.repr) == DictNode.Trees(fields, nodes) - {f}
  {
  }

  /** Putting it back, whatever became of it inside. */
  lemma HeldAgain(fields: map<string, Slot>, nodes: set<DictNode>, f: string)
    requires f in fields && fields[f].Sub? && fields[f].node.Valid() && fields[f].node.repr <= nodes
    requires DictNode.Held(fields - {f}, nodes - fields[f].node.repr)
    ensures DictNode.Held(fields, nodes)
    ensures DictNode.Trees(fields, nodes)
         == DictNode.Trees(fields - {f}, nodes - fields[f].node.repr)[f := fields[f].node.Tree()]
  {
    var rest := fields - {f};
    assert forall g :: g in fields && g != f ==> g in rest && rest[g] == fields[g];
  }

  /** `parent[last_key] = value`. */
  method Overwrite(node: DictNode, f: string, v: Value)
    requires node.Valid() && !v.Dict?
    modifies node
    ensures node.Valid() && node.repr == old(node.repr)
    ensures node.Tree() == Dict(old(node.Tree()).fields[f := v])
  {
    hide DictNode.Held, DictNode.Trees;
    HeldWith(node.fields, node.repr - {node}, f, v);
    node.fields := node.fields[f := Atom(v)];
  }

  /** A value that is no dictionary is replaced if it is an instance, from its dump. */
  method ReplaceAtom(env: Env, node: DictNode, f: string, cls: Option<string>)
    requires node.Valid() && f in node.fields && node.fields[f].Atom?
    modifies node
    ensures node.Valid() && node.repr == old(node.repr)
    ensures node.Tree() == Dict(old(node.Tree()).fields[f := Replacement(env, old(node.fields[f].v), cls)])
  {
    hide Construct;
    Overwrite(node, f, Replacement(env, node.fields[f].v, cls));
  }

  /** A dictionary object is replaced by the instance built from it. */
  method ReplaceSub(env: Env, node: DictNode, f: string, cls: Option<string>)
    requires node.Valid() && f in node.fields && node.fields[f].Sub?
    modifies node
    ensures node.Valid() && node.repr == old(node.repr)
    ensures node.Tree() == Dict(old(node.Tree()).fields[f := Replacement(env, old(node.Tree()).fields[f], cls)])
  {
    hide Construct, DictNode.Held, DictNode.Trees;
    SubFacts(node.fields, node.repr - {node}, f);
    if cls.None? {
      assert node.Tree().fields[f := node.Tree().fields[f]] == node.Tree().fields;
      return;
    }
    Overwrite(node, f, Construct(env, cls.value, node.fields[f].node.Tree()));
  }

  method RestoreBelow(env: Env, node: DictNode, path: Path, cls: Option<string>)
    requires node.Valid() && |path| > 1 && path[0] in node.fields && node.fields[path[0]].Sub?
    modifies node.repr
    ensures node.Valid() && node.repr == old(node.repr)
    ensures node.Tree() == Dict(old(node.Tree()).fields[path[0] := RestoredAt(env, old(node.Tree()).fields[path[0]], path[1..], cls)])
    decreases |path|, 0
  {
    hide RestoredAt, DictNode.Held, DictNode.Trees;
    var f, child := path[0], node.fields[path[0]].node;
    ghost var nodes := node.repr - {node};
    ghost var before := DictNode.Trees(node.fields, nodes);
    SubFacts(node.fields, nodes, f);
    HeldWithout(node.fields, nodes, f);
    RestoreAt(env, child, path[1..], cls);
    HeldAgain(node.fields, nodes, f);
    assert (before - {f})[f := child.Tree()] == before[f := child.Tree()];
  }

  lemma SubFacts(fields: map<string, Slot>, nodes: set<DictNode>, f: string)
    requires DictNode.Held(fields, nodes) && f in fields && fields[f].Sub?
    ensures fields[f].node in nodes && fields[f].node.repr <= nodes && fields[f].node.Valid()
    ensures DictNode.Trees(fields, nodes)[f] == fields[f].node.Tree()
  {
  }

  /** `_restore_union_models`, in place: the object that was handed in now holds the restored payload. */
  method RestoreUnionModels(env: Env, payload: DictNode, meta: seq<Entry>)
    requires payload.Valid()
    modifies payload.repr
    ensures payload.Valid() && payload.repr == old(payload.repr)
    ensures payload.Tree() == RestoredAll(env, old(payload.Tree()), LongestFirst(meta))
  {
    hide RestoredAt, LongestFirst;
    var sortedMeta := LongestFirst(meta);
    for i := 0 to |sortedMeta|
      invariant payload.Valid() && payload.repr == old(payload.repr)
      invariant payload.Tree() == RestoredAll(env, old(payload.Tree()), sortedMeta[..i])
    {
      assert sortedMeta[..i + 1][..i] == sortedMeta[..i];
      if sortedMeta[i].path == [] {
        EmptyPath(env, payload.Tree(), sortedMeta[i].cls);
        continue;
      }
      RestoreAt(env, payload, sortedMeta[i].path, sortedMeta[i].cls);
    }
    assert sortedMeta[..|sortedMeta|] == sortedMeta;
  }

  /** `load`: of the payload and the entries that `dump` wrote for a model, it gives back that model exactly when the
      model is faithful to its declarations. */
  method Load(env: Env, payload: DictNode, meta: seq<Entry>, cls: string) returns (v: Value)
    requires payload.Valid()
    modifies payload.repr
    ensures v == Construct(env, cls, RestoredAll(env, old(payload.Tree()), LongestFirst(meta)))
    ensures forall m :: WroteBy(env, m, old(payload.Tree()), meta, cls) ==> (v == m <==> Faithful(env, m))
  {
    hide Construct, RestoredAll, LongestFirst, Faithful;
    RestoreUnionModels(env, payload, meta);
    v := Construct(env, cls, payload.Tree());
    ghost var before := old(payload.Tree());
    forall m | WroteBy(env, m, before, meta, cls) ensures v == m <==> Faithful(env, m) {
      RoundTripExactly(env, m);
    }
  }

  /** What `dump` writes for a model. */
  ghost predicate WroteBy(env: Env, m: Value, payload: Value, meta: seq<Entry>, cls: string) {
    m.Model? && Typed(env, m) && payload == Dumped(m) && meta == Collect(env, m, []) && cls == m.cls
  }

  lemma EmptyPath(env: Env, payload: Value, cls: Option<string>)
    ensures RestoredAt(env, payload, [], cls) == payload
  {
  }
}
