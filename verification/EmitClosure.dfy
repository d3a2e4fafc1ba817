/** Which functions broadcast (`_build_graph` of `scripts/check-broadcast-deferral.py`). */
module EmitGraph {
  import opened Paths

  /** A function by its module and the names of the classes and functions around it and its own. */
  datatype Key = Key(rel: string, path: seq<string>)

  datatype Kind = Self | Free | Local

  datatype Call = Call(kind: Kind, tail: string)

  type Nodes = map<Key, seq<Call>>

  predicate Named(k: Key, name: string) {
    k.path != [] && k.path[|k.path| - 1] == name
  }

  predicate EmitsDirectly(calls: seq<Call>, emitters: set<string>) {
    exists i :: 0 <= i < |calls| && calls[i].kind != Local && calls[i].tail in emitters
  }

  /** What a call may reach: a `self` call the outermost class's method, a free one any function of
      that name in any module. */
  function Targets(nodes: Nodes, key: Key, call: Call): set<Key> {
    match call.kind
    case Local => {}
    case Self =>
      if key.path == [] then {}
      else
        var candidate := Key(key.rel, [key.path[0], call.tail]);
        if candidate in nodes then {candidate} else {}
    case Free => set k | k in nodes && Named(k, call.tail)
  }

  /** The call may be one of `t`: on `self` the method of that name in the outermost class around
      the caller, in its module, otherwise any function of that name. */
  ghost predicate MayMean(caller: Key, call: Call, t: Key) {
    match call.kind
    case Self => |caller.path| > 0 && t.rel == caller.rel && t.path == [caller.path[0], call.tail]
    case Free => |t.path| > 0 && t.path[|t.path| - 1] == call.tail
    case Local => false
  }

  /** The functions that a function may call. */
  ghost function Callees(nodes: Nodes): Key -> set<Key> {
    (key: Key) =>
      set t | t in nodes && key in nodes && exists i :: 0 <= i < |nodes[key]| && MayMean(key, nodes[key][i], t)
  }

  lemma TargetsExact(nodes: Nodes, key: Key, call: Call)
    ensures forall t :: t in Targets(nodes, key, call) <==> t in nodes && MayMean(key, call, t)
  {
    forall t ensures t in Targets(nodes, key, call) <==> t in nodes && MayMean(key, call, t) {
      assert t == Key(t.rel, t.path);
    }
  }

  /** It calls one of the emitters, on `self` or freely. */
  ghost predicate IsEmitter(calls: seq<Call>, emitters: set<string>) {
    exists call :: call in calls && call.kind in {Self, Free} && call.tail in emitters
  }

  lemma EmitterExact(calls: seq<Call>, emitters: set<string>)
    ensures EmitsDirectly(calls, emitters) <==> IsEmitter(calls, emitters)
  {
    if call :| call in calls && call.kind in {Self, Free} && call.tail in emitters {
      var i :| 0 <= i < |calls| && calls[i] == call;
      assert EmitsDirectly(calls, emitters);
    }
    if i :| 0 <= i < |calls| && calls[i].kind != Local && calls[i].tail in emitters {
      assert calls[i] in calls;
    }
  }

  /** The function, or one that its calls lead to, emits. */
  ghost predicate Emits(nodes: Nodes, emitters: set<string>, key: Key) {
    exists k :: k in nodes && Leads(Callees(nodes), key, k) && IsEmitter(nodes[k], emitters)
  }

  ghost predicate CallsInto(nodes: Nodes, key: Key, s: set<Key>)
    requires key in nodes
  {
    exists t :: t in Callees(nodes)(key) && t in s
  }

  method Emitting(nodes: Nodes, emitters: set<string>, order: seq<Key>) returns (emitting: set<Key>)
    requires forall k :: k in order <==> k in nodes
    ensures forall k :: k in emitting <==> k in nodes && Emits(nodes, emitters, k)
  {
    hide Emits, EmitsDirectly, IsEmitter, CallsInto;
    emitting := set k | k in nodes && EmitsDirectly(nodes[k], emitters);
    forall k | k in emitting ensures Emits(nodes, emitters, k) {
      DirectEmits(nodes, emitters, k);
    }
    var changed := true;
    while changed
      invariant emitting <= nodes.Keys
      invariant forall k | k in nodes && EmitsDirectly(nodes[k], emitters) :: k in emitting
      invariant forall k | k in emitting :: Emits(nodes, emitters, k)
      invariant !changed ==> forall k | k in nodes && k !in emitting :: !CallsInto(nodes, k, emitting)
      decreases nodes.Keys - emitting, changed
    {
      changed := false;
      ghost var before := emitting;
      for i := 0 to |order|
        invariant before <= emitting <= nodes.Keys && (changed <==> before != emitting)
        invariant forall k | k in emitting :: Emits(nodes, emitters, k)
        invariant !changed ==> forall j | 0 <= j < i && order[j] !in emitting :: !CallsInto(nodes, order[j], emitting)
      {
        var key := order[i];
        if key in emitting {
          continue;
        }
        var hit := CallsAny(nodes, key, emitting);
        if hit {
          EmitsThrough(nodes, emitters, key, emitting);
          emitting := emitting + {key};
          changed := true;
        }
      }
      if !changed {
        forall k | k in nodes && k !in emitting ensures !CallsInto(nodes, k, emitting) {
          var j :| 0 <= j < |order| && order[j] == k;
        }
      }
    }
    forall k | k in nodes && Emits(nodes, emitters, k) ensures k in emitting {
      EmittersAreIn(nodes, emitters, emitting, k);
    }
  }

  /** Whether some call of the function may reach the set. */
  method CallsAny(nodes: Nodes, key: Key, s: set<Key>) returns (hit: bool)
    requires key in nodes
    ensures hit <==> CallsInto(nodes, key, s)
  {
    var calls := nodes[key];
    for i := 0 to |calls|
      invariant forall j, t | 0 <= j < i && t in nodes && MayMean(key, calls[j], t) :: t !in s
    {
      TargetsExact(nodes, key, calls[i]);
      if !(Targets(nodes, key, calls[i]) !! s) {
        ghost var t :| t in Targets(nodes, key, calls[i]) && t in s;
        assert t in Callees(nodes)(key);
        return true;
      }
    }
    return false;
  }

  lemma DirectEmits(nodes: Nodes, emitters: set<string>, key: Key)
    requires key in nodes && EmitsDirectly(nodes[key], emitters)
    ensures Emits(nodes, emitters, key)
  {
    EmitterExact(nodes[key], emitters);
    assert Path(Callees(nodes), key, []) && End(key, []) == key;
  }

  lemma EmitsThrough(nodes: Nodes, emitters: set<string>, key: Key, s: set<Key>)
    requires key in nodes && CallsInto(nodes, key, s) && forall t | t in s :: Emits(nodes, emitters, t)
    ensures Emits(nodes, emitters, key)
  {
    var t :| t in Callees(nodes)(key) && t in s;
    var k :| k in nodes && Leads(Callees(nodes), t, k) && IsEmitter(nodes[k], emitters);
    LeadsBefore(Callees(nodes), key, t, k);
  }

  lemma EmittersAreIn(nodes: Nodes, emitters: set<string>, s: set<Key>, key: Key)
    requires key in nodes && Emits(nodes, emitters, key)
    requires forall k | k in nodes && EmitsDirectly(nodes[k], emitters) :: k in s
    requires forall k | k in nodes && k !in s :: !CallsInto(nodes, k, s)
    ensures key in s
  {
    var succ := Callees(nodes);
    var k :| k in nodes && Leads(succ, key, k) && IsEmitter(nodes[k], emitters);
    EmitterExact(nodes[k], emitters);
    var p :| Path(succ, key, p) && End(key, p) == k;
    forall x, y | y in s && y in succ(x) ensures x in s {
      assert CallsInto(nodes, x, s);
    }
    NeverEntered(succ, s, key, p);
  }
}

/** Which callables run after the commit (`_deferred_callables` of the same script). */
module Deferral {
  import opened Common
  import opened Paths

  /** A node of the syntax tree. */
  datatype Id = Id(number: nat)

  /** What `on_commit` is given. */
  datatype Registration = Missing | Inline(id: Id) | Reference(tail: string) | Other

  /** A module: its nodes in walking order, the names each one calls and the functions of each name. */
  datatype Tree = Tree(walk: seq<Id>, calls: map<Id, seq<string>>, defs: map<string, seq<Id>>) {
    /** Every function and every node with calls is in the tree. */
    ghost predicate Valid() {
      && (forall name, i | name in defs && 0 <= i < |defs[name]| :: defs[name][i] in walk)
      && (forall id | id in walk :: id in calls)
    }
  }

  function Defs(t: Tree, name: string): seq<Id> {
    if name in t.defs then t.defs[name] else []
  }

  /** The functions of the module that a callable calls by their names. */
  ghost function Called(t: Tree): Id -> set<Id> {
    (id: Id) => set name, d | id in t.calls && name in t.calls[id] && name in t.defs && d in t.defs[name] :: d
  }

  function Resolved(t: Tree, r: Registration): set<Id> {
    match r
    case Missing => {}
    case Inline(id) => {id}
    case Reference(tail) => set j | 0 <= j < |Defs(t, tail)| :: Defs(t, tail)[j]
    case Other => {}
  }

  predicate Unresolvable(t: Tree, r: Registration) {
    r.Missing? || r.Other? || (r.Reference? && r.tail !in t.defs)
  }

  /** The registration names the callable: the node itself, or a function of the module by its name. */
  ghost predicate Names(t: Tree, r: Registration, id: Id) {
    r == Inline(id) || (r.Reference? && r.tail in t.defs && id in t.defs[r.tail])
  }

  /** It gives nothing, or something without a name, or a name that the module does not define. */
  ghost predicate NamesNothing(t: Tree, r: Registration) {
    match r
    case Missing => true
    case Inline(_) => false
    case Reference(tail) => tail !in t.defs
    case Other => true
  }

  lemma ResolvedExact(t: Tree, r: Registration)
    ensures forall id :: id in Resolved(t, r) <==> Names(t, r, id)
    ensures Unresolvable(t, r) <==> NamesNothing(t, r)
  {
    forall id | Names(t, r, id) ensures id in Resolved(t, r) {
      if r.Reference? {
        var j :| 0 <= j < |t.defs[r.tail]| && t.defs[r.tail][j] == id;
        assert Defs(t, r.tail)[j] == id;
      }
    }
  }

  /** Registered itself, or reached from a callable that is. */
  ghost predicate IsDeferred(t: Tree, regs: seq<Registration>, id: Id) {
    exists r, seed :: r in regs && Names(t, r, seed) && Leads(Called(t), seed, id)
  }

  method DeferredCallables(t: Tree, regs: seq<Registration>) returns (deferred: set<Id>, unresolved: seq<Registration>)
    requires t.Valid() && forall i | 0 <= i < |regs| && regs[i].Inline? :: regs[i].id in t.walk
    ensures forall id :: id in deferred <==> IsDeferred(t, regs, id)
    ensures unresolved == Filter(regs, CannotResolve(t))
    ensures forall r :: r in unresolved <==> r in regs && NamesNothing(t, r)
  {
    hide IsDeferred, Called;
    deferred, unresolved := Register(t, regs);
    ghost var ids := set id | id in t.walk;
    var changed := true;
    while changed
      invariant deferred <= ids
      invariant forall id | Registered(t, regs, id) :: id in deferred
      invariant forall id | id in deferred :: id in t.walk && IsDeferred(t, regs, id)
      invariant !changed ==> forall id | id in deferred :: Called(t)(id) <= deferred
      decreases ids - deferred, changed
    {
      changed := false;
      ghost var before := deferred;
      for i := 0 to |t.walk|
        invariant before <= deferred <= ids && (changed <==> before != deferred)
        invariant forall id | id in deferred :: id in t.walk && IsDeferred(t, regs, id)
        invariant !changed ==> forall j | 0 <= j < i && t.walk[j] in deferred :: Called(t)(t.walk[j]) <= deferred
      {
        if t.walk[i] !in deferred {
          continue;
        }
        ghost var was := deferred;
        var more := AddCalled(t, t.walk[i], deferred);
        forall id | id in more && id !in was ensures IsDeferred(t, regs, id) && id in t.walk {
          DeferredAfter(t, regs, t.walk[i], id);
        }
        if more != deferred {
          deferred := more;
          changed := true;
        }
      }
      if !changed {
        forall id | id in deferred ensures Called(t)(id) <= deferred {
          var j :| 0 <= j < |t.walk| && t.walk[j] == id;
        }
      }
    }
    forall id | IsDeferred(t, regs, id) ensures id in deferred {
      DeferredAreIn(t, regs, deferred, id);
    }
    forall r ensures r in unresolved <==> r in regs && NamesNothing(t, r) {
      FilterMembers(regs, CannotResolve(t), r);
      ResolvedExact(t, r);
    }
  }

  function CannotResolve(t: Tree): Registration -> bool {
    (r: Registration) => Unresolvable(t, r)
  }

  /** One of the registrations names the callable. */
  predicate Registered(t: Tree, regs: seq<Registration>, id: Id) {
    exists i :: 0 <= i < |regs| && id in Resolved(t, regs[i])
  }

  lemma RegisteredNext(t: Tree, regs: seq<Registration>, i: nat)
    requires i < |regs|
    ensures forall id :: Registered(t, regs[..i + 1], id) <==>
      Registered(t, regs[..i], id) || id in Resolved(t, regs[i])
  {
    hide Resolved;
    var a, b := regs[..i], regs[..i + 1];
    assert b[i] == regs[i] && forall j | 0 <= j < i :: b[j] == a[j];
  }

  /** The callables that the registrations name, and the registrations that name none. */
  method Register(t: Tree, regs: seq<Registration>) returns (deferred: set<Id>, unresolved: seq<Registration>)
    requires t.Valid() && forall i | 0 <= i < |regs| && regs[i].Inline? :: regs[i].id in t.walk
    ensures forall id :: id in deferred <==> Registered(t, regs, id)
    ensures forall id | id in deferred :: id in t.walk && IsDeferred(t, regs, id)
    ensures unresolved == Filter(regs, CannotResolve(t))
  {
    hide Registered, IsDeferred, Called, Resolved, Unresolvable, Filter, CannotResolve;
    deferred, unresolved := {}, [];
    assert regs[0..] == regs;
    assert forall id :: !Registered(t, regs[..0], id) by { NoneRegistered(t, regs); }
    for i := 0 to |regs|
      invariant forall id :: id in deferred <==> Registered(t, regs[..i], id)
      invariant forall id | id in deferred :: id in t.walk
      invariant unresolved + Filter(regs[i..], CannotResolve(t)) == Filter(regs, CannotResolve(t))
    {
      UnresolvedNext(t, regs, i);
      RegisteredNext(t, regs, i);
      ResolvedInTree(t, regs[i]);
      if Unresolvable(t, regs[i]) {
        unresolved := unresolved + [regs[i]];
      } else {
        deferred := deferred + Resolved(t, regs[i]);
      }
    }
    assert regs[..|regs|] == regs && regs[|regs|..] == [];
    NothingUnresolved(t);
    forall id | id in deferred ensures IsDeferred(t, regs, id) {
      RegisteredIsDeferred(t, regs, id);
    }
  }

  lemma UnresolvedNext(t: Tree, regs: seq<Registration>, i: nat)
    requires i < |regs|
    ensures Filter(regs[i..], CannotResolve(t))
         == (if Unresolvable(t, regs[i]) then [regs[i]] else []) + Filter(regs[i + 1..], CannotResolve(t))
  {
    assert regs[i..][1..] == regs[i + 1..];
  }

  lemma NothingUnresolved(t: Tree)
    ensures Filter([], CannotResolve(t)) == []
  {}

  lemma ResolvedInTree(t: Tree, r: Registration)
    requires t.Valid() && (r.Inline? ==> r.id in t.walk)
    ensures forall id | id in Resolved(t, r) :: id in t.walk
    ensures Unresolvable(t, r) ==> Resolved(t, r) == {}
  {}

  lemma NoneRegistered(t: Tree, regs: seq<Registration>)
    ensures forall id :: !Registered(t, regs[..0], id)
  {}

  lemma RegisteredIsDeferred(t: Tree, regs: seq<Registration>, id: Id)
    requires Registered(t, regs, id)
    ensures IsDeferred(t, regs, id)
  {
    var i :| 0 <= i < |regs| && id in Resolved(t, regs[i]);
    ResolvedExact(t, regs[i]);
    assert regs[i] in regs;
    assert Path(Called(t), id, []) && End(id, []) == id;
    assert Leads(Called(t), id, id);
  }

  /** The set with everything that the node calls. */
  method AddCalled(t: Tree, id: Id, deferred: set<Id>) returns (more: set<Id>)
    requires t.Valid() && id in t.walk
    ensures more == deferred + Called(t)(id)
    ensures forall d | d in Called(t)(id) :: d in t.walk
  {
    more := deferred;
    var calls := t.calls[id];
    for i := 0 to |calls|
      invariant deferred <= more
      invariant forall k, j | 0 <= k < i && 0 <= j < |Defs(t, calls[k])| :: Defs(t, calls[k])[j] in more
      invariant forall d | d in more && d !in deferred :: d in Called(t)(id)
    {
      var defs := Defs(t, calls[i]);
      for j := 0 to |defs|
        invariant deferred <= more
        invariant forall k, l | 0 <= k < i && 0 <= l < |Defs(t, calls[k])| :: Defs(t, calls[k])[l] in more
        invariant forall l | 0 <= l < j :: defs[l] in more
        invariant forall d | d in more && d !in deferred :: d in Called(t)(id)
      {
        assert calls[i] in t.calls[id] && defs[j] in t.defs[calls[i]];
        if defs[j] !in more {
          more := more + {defs[j]};
        }
      }
    }
    forall d | d in Called(t)(id) ensures d in more && d in t.walk {
      var name :| name in calls && name in t.defs && d in t.defs[name];
      var k :| 0 <= k < |calls| && calls[k] == name;
      var j :| 0 <= j < |Defs(t, calls[k])| && Defs(t, calls[k])[j] == d;
    }
  }

  lemma DeferredAfter(t: Tree, regs: seq<Registration>, id: Id, callee: Id)
    requires IsDeferred(t, regs, id) && callee in Called(t)(id)
    ensures IsDeferred(t, regs, callee)
  {
    var r, seed :| r in regs && Names(t, r, seed) && Leads(Called(t), seed, id);
    LeadsAfter(Called(t), seed, id, callee);
  }

  lemma DeferredAreIn(t: Tree, regs: seq<Registration>, s: set<Id>, id: Id)
    requires IsDeferred(t, regs, id)
    requires forall seed | Registered(t, regs, seed) :: seed in s
    requires forall d | d in s :: Called(t)(d) <= s
    ensures id in s
  {
    var r, seed :| r in regs && Names(t, r, seed) && Leads(Called(t), seed, id);
    var i :| 0 <= i < |regs| && regs[i] == r;
    ResolvedExact(t, r);
    var p :| Path(Called(t), seed, p) && End(seed, p) == id;
    assert Registered(t, regs, seed);
    forall x, y | x in s && y in Called(t)(x) ensures y in s {
      assert Called(t)(x) <= s;
    }
    StaysIn(Called(t), s, seed, p);
  }
}
