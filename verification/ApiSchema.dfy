/** OpenAPI schema nodes: how `scripts/check-api-compat.py` resolves and flattens them, and
    what JSON values they admit.  The admission predicates follow the schema keywords one
    composed part at a time and never look at a flattened view; `FlattenMeaning` and
    `NullMeaning` connect the two readings. */
module ApiSchema {
  import opened Common

  datatype Json =
    | JNull
    | JBool(b: bool)
    | JNum(r: real)
    | JStr(s: string)
    | JArr(elems: seq<Json>)
    | JObj(fields: map<string, Json>)

  datatype TypeTag = TObject | TArray | TString | TNumber | TInteger | TBoolean | TNull

  /** The `type` key: absent, one name, or a list of names. */
  datatype TypeKey = NoType | OneType(t: TypeTag) | ListType(ts: seq<TypeTag>)

  /** The keys of one schema object. `limited` says that `pattern` or `maxLength` is present,
      `other` that some key not listed here is (which only makes the object non-empty). */
  datatype Keywords = Keywords(
    ty: TypeKey, nullable: Option<bool>, enum: Option<seq<Json>>, format: Option<string>,
    items: Option<Node>, props: map<string, Node>, required: set<string>,
    readOnly: bool, limited: bool, other: bool)

  datatype Node = Ref(name: string) | Schema(own: Keywords, allOf: seq<Node>)

  /** The part of a document that `$ref` can reach. */
  datatype Doc = Doc(comps: map<string, Node>)

  const NOTHING := Keywords(NoType, None, None, None, None, map[], {}, false, false, false)
  const MAX_HOPS := 20

  // ----- resolving and flattening

  function Lookup(doc: Doc, name: string): Node {
    if name in doc.comps then doc.comps[name] else Schema(NOTHING, [])
  }

  function Follow(doc: Doc, n: Node, hops: nat): Node
    decreases hops
  {
    if n.Ref? && hops > 0 then Follow(doc, Lookup(doc, n.name), hops - 1) else n
  }

  function Resolve(doc: Doc, n: Node): Node {
    Follow(doc, n, MAX_HOPS)
  }

  /** The components of the document lead from `start` through the references `names` to `end`. */
  ghost predicate RefChain(doc: Doc, start: Node, names: seq<string>, end: Node)
    decreases |names|
  {
    if names == [] then start == end
    else
      && start == Ref(names[0]) && names[0] in doc.comps
      && RefChain(doc, doc.comps[names[0]], names[1..], end)
  }

  /** A schema with no key at all. */
  ghost predicate Keyless(n: Node) {
    && n.Schema? && n.allOf == [] && n.own.ty.NoType? && n.own.nullable.None? && n.own.enum.None?
    && n.own.format.None? && n.own.items.None? && n.own.props == map[] && n.own.required == {}
    && !n.own.readOnly && !n.own.limited && !n.own.other
  }

  /** What `start` refers to: the schema that at most twenty references lead to, the empty
      schema where one of them names no component, and still a reference where twenty do not
      come to an end. */
  ghost predicate RefersTo(doc: Doc, start: Node, end: Node) {
    || (end.Schema? && exists names :: |names| <= 20 && RefChain(doc, start, names, end))
    || (Keyless(end) && exists names, missing ::
          |names| < 20 && RefChain(doc, start, names, Ref(missing)) && missing !in doc.comps)
    || (end.Ref? && exists names :: |names| == 20 && RefChain(doc, start, names, end))
  }

  lemma {:induction false} ChainForces(doc: Doc, start: Node, names: seq<string>, end: Node, hops: nat)
    requires RefChain(doc, start, names, end)
    ensures end.Schema? && |names| <= hops ==> Follow(doc, start, hops) == end
    ensures end.Ref? && |names| == hops ==> Follow(doc, start, hops) == end
    ensures end.Ref? && |names| < hops && end.name !in doc.comps ==> Keyless(Follow(doc, start, hops))
    decreases |names|
  {
    if names != [] && hops > 0 {
      ChainForces(doc, doc.comps[names[0]], names[1..], end, hops - 1);
    }
  }

  /** Following references ends in one of three ways. */
  lemma {:induction false} ChainExists(doc: Doc, start: Node, hops: nat) returns (names: seq<string>, end: Node)
    ensures |names| <= hops && RefChain(doc, start, names, end)
    ensures end.Schema? || |names| == hops || end.name !in doc.comps
    decreases hops
  {
    names, end := [], start;
    if start.Ref? && hops > 0 && start.name in doc.comps {
      var rest, last := ChainExists(doc, doc.comps[start.name], hops - 1);
      names, end := [start.name] + rest, last;
    }
  }

  lemma RefersForces(doc: Doc, start: Node, end: Node)
    requires RefersTo(doc, start, end)
    ensures Resolve(doc, start) == end
  {
    if names :| |names| <= 20 && RefChain(doc, start, names, end) && (end.Ref? ==> |names| == 20) {
      ChainForces(doc, start, names, end, 20);
    } else {
      var names, missing :| |names| < 20 && RefChain(doc, start, names, Ref(missing)) && missing !in doc.comps;
      ChainForces(doc, start, names, Ref(missing), 20);
    }
  }

  /** Resolving gives just what the node refers to. */
  lemma ResolveExact(doc: Doc, start: Node, end: Node)
    ensures Resolve(doc, start) == end <==> RefersTo(doc, start, end)
  {
    if RefersTo(doc, start, end) {
      RefersForces(doc, start, end);
    }
    var names, last := ChainExists(doc, start, 20);
    ChainForces(doc, start, names, last, 20);
    assert RefersTo(doc, start, Resolve(doc, start));
  }

  method Deref(doc: Doc, start: Node) returns (node: Node)
    ensures node == Resolve(doc, start)
    ensures RefersTo(doc, start, node)
  {
    node := start;
    var seen := 0;
    while node.Ref? && seen < MAX_HOPS
      invariant 0 <= seen <= MAX_HOPS
      invariant Follow(doc, node, MAX_HOPS - seen) == Resolve(doc, start)
    {
      node := Lookup(doc, node.name);
      seen := seen + 1;
    }
    ResolveExact(doc, start, node);
  }

  /** `rank` certifies that no chain of `allOf` parts comes back to itself, which is what the
      flattening recursion needs in order to end. */
  ghost predicate Acyclic(doc: Doc, rank: Node -> nat) {
    forall s: Node, i: nat | s.Schema? && i < |s.allOf| :: rank(Resolve(doc, s.allOf[i])) < rank(s)
  }

  /** One step of the merge: earlier `type`, `format`, `enum`, `items` and `nullable` keys stay,
      later properties replace earlier ones, and required names accumulate. */
  function Merge(a: Keywords, b: Keywords): Keywords {
    a.(ty := if a.ty.NoType? then b.ty else a.ty,
       format := if a.format.None? then b.format else a.format,
       enum := if a.enum.None? then b.enum else a.enum,
       items := if a.items.None? then b.items else a.items,
       nullable := if a.nullable.None? then b.nullable else a.nullable,
       props := a.props + b.props,
       required := a.required + b.required)
  }

  function Flatten(doc: Doc, n: Node, ghost rank: Node -> nat): Keywords
    requires Acyclic(doc, rank)
    decreases rank(Resolve(doc, n))
  {
    var d := Resolve(doc, n);
    if d.Ref? then NOTHING.(other := true) else MergeParts(doc, d.own, d.allOf, rank, rank(d))
  }

  function MergeParts(doc: Doc, acc: Keywords, parts: seq<Node>, ghost rank: Node -> nat, ghost bound: nat): Keywords
    requires Acyclic(doc, rank)
    requires forall p | p in parts :: rank(Resolve(doc, p)) < bound
    decreases bound, |parts|
  {
    if parts == [] then acc
    else MergeParts(doc, Merge(acc, Flatten(doc, parts[0], rank)), parts[1..], rank, bound)
  }

  method FlattenNode(doc: Doc, n: Node, ghost rank: Node -> nat) returns (merged: Keywords)
    requires Acyclic(doc, rank)
    ensures merged == Flatten(doc, n, rank)
    decreases rank(Resolve(doc, n))
  {
    var d := Deref(doc, n);
    if d.Ref? {
      return NOTHING.(other := true);
    }
    merged := d.own;
    var i := 0;
    while i < |d.allOf|
      invariant 0 <= i <= |d.allOf|
      invariant MergeParts(doc, merged, d.allOf[i..], rank, rank(d)) == Flatten(doc, n, rank)
    {
      var sub := FlattenNode(doc, d.allOf[i], rank);
      merged := Merge(merged, sub);
      i := i + 1;
    }
  }

  // ----- what a node admits

  datatype Side = Response | Request

  /** How a schema is read: what an old response promises, what a new response may send, or
      what a request body may be. Only request bodies are held to enums and declared names. */
  datatype Reading = Promised | Sent | Accepted

  /** The named types other than null, as `_type` reads them; empty when nothing is claimed. */
  function TypeNames(k: TypeKey): multiset<TypeTag> {
    match k
    case NoType => multiset{}
    case OneType(t) => multiset{t}
    case ListType(ts) => multiset(ts)[TNull := 0]
  }

  predicate Typed(k: TypeKey) {
    TypeNames(k) != multiset{}
  }

  predicate NullMarked(k: Keywords) {
    k.nullable == Some(true) || (k.ty.ListType? && TNull in k.ty.ts)
  }

  predicate HasTag(v: Json, t: TypeTag) {
    match t
    case TObject => v.JObj?
    case TArray => v.JArr?
    case TString => v.JStr?
    case TNumber => v.JNum?
    case TInteger => v.JNum? && v.r == v.r.Floor as real
    case TBoolean => v.JBool?
    case TNull => v.JNull?
  }

  /** drf-spectacular's fallback for an unhinted serializer method: a read-only string with no
      further key. As a baseline response it promises nothing. */
  predicate BareReadOnlyString(w: Keywords) {
    && w.readOnly && TypeNames(w.ty) == multiset{TString}
    && w.format.None? && w.enum.None? && w.nullable.None? && !w.limited
  }

  ghost predicate TypeFits(names: multiset<TypeTag>, v: Json) {
    names != multiset{} ==> exists t :: t in names && HasTag(v, t)
  }

  /** Null is decided by the node's own `nullable` key if it has one (the wrapper idiom), and
      otherwise by its own type and every composed part together. */
  ghost predicate NullOk(doc: Doc, n: Node, rank: Node -> nat)
    requires Acyclic(doc, rank)
    decreases rank(Resolve(doc, n))
  {
    var d := Resolve(doc, n);
    d.Schema? &&
    if d.own.nullable.Some? then NullMarked(d.own)
    else (!d.own.ty.NoType? ==> NullMarked(d.own)) &&
         forall i: nat | i < |d.allOf| :: NullOk(doc, d.allOf[i], rank)
  }

  /** `name` is declared as a property by the node or by one of its composed parts. */
  ghost predicate Declares(doc: Doc, n: Node, name: string, rank: Node -> nat)
    requires Acyclic(doc, rank)
    decreases rank(Resolve(doc, n))
  {
    var d := Resolve(doc, n);
    d.Schema? &&
    (name in d.own.props || exists i: nat | i < |d.allOf| :: Declares(doc, d.allOf[i], name, rank))
  }

  /** What one schema object's keywords ask of a value. */
  ghost predicate KeywordsOk(doc: Doc, use: Reading, k: Keywords, v: Json, rank: Node -> nat)
    requires Acyclic(doc, rank)
    decreases v, 0
  {
    && TypeFits(TypeNames(k.ty), v)
    && (use.Accepted? && k.enum.Some? ==> v in k.enum.value)
    && (v.JArr? && k.items.Some? ==>
          forall i: nat | i < |v.elems| :: Admits(doc, use, k.items.value, v.elems[i], rank))
    && (v.JObj? ==> k.required <= v.fields.Keys)
    && (v.JObj? ==> forall p | p in k.props && p in v.fields :: Admits(doc, use, k.props[p], v.fields[p], rank))
  }

  /** `v` meets the node's own keywords and every `allOf` part. */
  ghost predicate Conforms(doc: Doc, use: Reading, n: Node, v: Json, rank: Node -> nat)
    requires Acyclic(doc, rank)
    decreases v, 1, rank(Resolve(doc, n))
  {
    var d := Resolve(doc, n);
    && d.Schema?
    && KeywordsOk(doc, use, d.own, v, rank)
    && forall i: nat | i < |d.allOf| :: Conforms(doc, use, d.allOf[i], v, rank)
  }

  /** `v` is a value of the node. A response object may carry undeclared properties, a request
      object only declared ones. */
  ghost predicate Admits(doc: Doc, use: Reading, n: Node, v: Json, rank: Node -> nat)
    requires Acyclic(doc, rank)
    decreases v, 2
  {
    if use.Promised? && BareReadOnlyString(Flatten(doc, n, rank)) then true
    else if v.JNull? then NullOk(doc, n, rank)
    else
      && Conforms(doc, use, n, v, rank)
      && (use.Accepted? && v.JObj? ==> forall p | p in v.fields :: Declares(doc, n, p, rank))
  }

  /** The same question asked of a flattened view. */
  ghost predicate ViewAdmits(doc: Doc, use: Reading, w: Keywords, v: Json, rank: Node -> nat)
    requires Acyclic(doc, rank)
  {
    if v.JNull? then NullMarked(w)
    else
      && KeywordsOk(doc, use, w, v, rank)
      && (use.Accepted? && v.JObj? ==> v.fields.Keys <= w.props.Keys)
  }

  // ----- flattening keeps the meaning

  /** A composed part whose keys do not conflict with the merged view. */
  ghost predicate Agrees(p: Keywords, w: Keywords) {
    && (Typed(p.ty) ==> TypeNames(p.ty) == TypeNames(w.ty))
    && (p.enum.Some? ==> w.enum.Some? && forall v :: v in p.enum.value <==> v in w.enum.value)
    && (p.items.Some? ==> p.items == w.items)
    && (forall k | k in p.props :: k in w.props && p.props[k] == w.props[k])
  }

  /** No two parts of the composition conflict, and `$ref` chains end in a schema. */
  ghost predicate Coherent(doc: Doc, n: Node, rank: Node -> nat)
    requires Acyclic(doc, rank)
    decreases rank(Resolve(doc, n))
  {
    var d := Resolve(doc, n);
    var w := Flatten(doc, n, rank);
    && d.Schema?
    && Agrees(d.own, w)
    && (d.own.nullable.Some? || !d.own.ty.NoType? ==> NullMarked(d.own) == NullMarked(w))
    && forall i: nat | i < |d.allOf| ::
         && Coherent(doc, d.allOf[i], rank)
         && Agrees(Flatten(doc, d.allOf[i], rank), w)
         && (d.own.nullable.None? ==> NullMarked(Flatten(doc, d.allOf[i], rank)) == NullMarked(w))
  }

  /** Where the keys of a merge come from: the accumulator or one of the flattened parts. */
  lemma {:induction false} MergeOrigins(doc: Doc, acc: Keywords, parts: seq<Node>, rank: Node -> nat, bound: nat)
    requires Acyclic(doc, rank)
    requires forall p | p in parts :: rank(Resolve(doc, p)) < bound
    ensures var w := MergeParts(doc, acc, parts, rank, bound);
      && (w.ty == acc.ty || exists i: nat | i < |parts| :: w.ty == Flatten(doc, parts[i], rank).ty)
      && (w.enum == acc.enum || exists i: nat | i < |parts| :: w.enum == Flatten(doc, parts[i], rank).enum)
      && (w.items == acc.items || exists i: nat | i < |parts| :: w.items == Flatten(doc, parts[i], rank).items)
    ensures var w := MergeParts(doc, acc, parts, rank, bound);
      forall k :: k in w.props <==> k in acc.props || exists i: nat | i < |parts| ::
        k in Flatten(doc, parts[i], rank).props
    ensures var w := MergeParts(doc, acc, parts, rank, bound);
      forall k :: k in w.required <==> k in acc.required || exists i: nat | i < |parts| ::
        k in Flatten(doc, parts[i], rank).required
    decreases |parts|
  {
    if parts != [] {
      var rest := parts[1..];
      MergeOrigins(doc, Merge(acc, Flatten(doc, parts[0], rank)), rest, rank, bound);
      assert forall i: nat | i < |rest| :: rest[i] == parts[i + 1];
      assert forall i: nat | 0 < i < |parts| :: parts[i] == rest[i - 1];
    }
  }

  ghost function Views(doc: Doc, parts: seq<Node>, rank: Node -> nat): seq<Keywords>
    requires Acyclic(doc, rank)
  {
    seq(|parts|, i requires 0 <= i < |parts| => Flatten(doc, parts[i], rank))
  }

  /** `got` is the key of the first of `ks` that has it. */
  ghost predicate FirstOf<T>(key: Keywords -> T, absent: T, ks: seq<Keywords>, got: T) {
    || (got == absent && forall i: nat | i < |ks| :: key(ks[i]) == absent)
    || exists i: nat :: i < |ks| && got == key(ks[i]) != absent && forall j: nat | j < i :: key(ks[j]) == absent
  }

  ghost predicate LastAt(name: string, ks: seq<Keywords>, got: Option<Node>, i: nat) {
    && i < |ks| && name in ks[i].props && got == Some(ks[i].props[name])
    && forall j: nat | i < j < |ks| :: name !in ks[j].props
  }

  /** `got` is the property as the last of `ks` that declares it has it. */
  ghost predicate LastOf(name: string, ks: seq<Keywords>, got: Option<Node>) {
    || (got.None? && forall i: nat | i < |ks| :: name !in ks[i].props)
    || exists i: nat :: LastAt(name, ks, got, i)
  }

  ghost function PropOf(w: Keywords, name: string): Option<Node> {
    if name in w.props then Some(w.props[name]) else None
  }

  /** What each key of a flattened node is, given its own keys and the views of its parts in order. */
  ghost predicate IsView(ks: seq<Keywords>, w: Keywords)
    requires ks != []
  {
    && FirstOf((k: Keywords) => k.ty, NoType, ks, w.ty)
    && FirstOf((k: Keywords) => k.format, None, ks, w.format)
    && FirstOf((k: Keywords) => k.enum, None, ks, w.enum)
    && FirstOf((k: Keywords) => k.items, None, ks, w.items)
    && FirstOf((k: Keywords) => k.nullable, None, ks, w.nullable)
    && (forall p :: LastOf(p, ks, PropOf(w, p)))
    && (forall r :: r in w.required <==> exists i: nat :: i < |ks| && r in ks[i].required)
    && w.readOnly == ks[0].readOnly && w.limited == ks[0].limited && w.other == ks[0].other
  }

  lemma FirstStep<T>(key: Keywords -> T, absent: T, a: Keywords, b: Keywords, m: Keywords, rest: seq<Keywords>, got: T)
    requires key(m) == (if key(a) == absent then key(b) else key(a))
    requires FirstOf(key, absent, [m] + rest, got)
    ensures FirstOf(key, absent, [a, b] + rest, got)
  {
    var was, now := [m] + rest, [a, b] + rest;
    assert was[0] == m && now[0] == a && now[1] == b;
    if i: nat :| i < |was| && got == key(was[i]) != absent && forall j: nat | j < i :: key(was[j]) == absent {
      var k := if i > 0 then i + 1 else if key(a) != absent then 0 else 1;
      forall j: nat | j < k ensures key(now[j]) == absent {
        assert j > 1 ==> now[j] == was[j - 1];
      }
      assert i > 0 ==> now[k] == was[i];
      assert got == key(now[k]) && forall j: nat | j < k :: key(now[j]) == absent;
    } else {
      assert key(was[0]) == absent;
      forall j: nat | j < |now| ensures key(now[j]) == absent {
        assert j > 1 ==> now[j] == was[j - 1];
      }
    }
  }

  lemma LastStep(name: string, a: Keywords, b: Keywords, m: Keywords, rest: seq<Keywords>, got: Option<Node>)
    requires PropOf(m, name) == if name in b.props then PropOf(b, name) else PropOf(a, name)
    requires LastOf(name, [m] + rest, got)
    ensures LastOf(name, [a, b] + rest, got)
  {
    var was, now := [m] + rest, [a, b] + rest;
    assert was[0] == m && now[0] == a && now[1] == b;
    if i: nat :| LastAt(name, was, got, i) {
      var k := if i > 0 then i + 1 else if name in b.props then 1 else 0;
      assert i > 0 ==> now[k] == was[i];
      forall j: nat | k < j < |now| ensures name !in now[j].props {
        assert j > 1 ==> now[j] == was[j - 1];
      }
      assert LastAt(name, now, got, k);
    } else {
      assert got.None? && name !in was[0].props;
      forall j: nat | j < |now| ensures name !in now[j].props {
        assert j > 1 ==> now[j] == was[j - 1];
      }
    }
  }

  lemma RequiredStep(name: string, a: Keywords, b: Keywords, m: Keywords, rest: seq<Keywords>)
    requires m.required == a.required + b.required
    ensures (exists i: nat :: i < |[m] + rest| && name in ([m] + rest)[i].required)
      <==> exists i: nat :: i < |[a, b] + rest| && name in ([a, b] + rest)[i].required
  {
    var was, now := [m] + rest, [a, b] + rest;
    assert now[0] == a && now[1] == b && was[0] == m;
    assert forall i: nat | 0 < i < |was| :: was[i] == now[i + 1];
    assert forall i: nat | 1 < i < |now| :: now[i] == was[i - 1];
  }

  /** Merging one part into the view leaves the same reading of the parts in order. */
  lemma ViewStep(a: Keywords, b: Keywords, rest: seq<Keywords>, w: Keywords)
    requires IsView([Merge(a, b)] + rest, w)
    ensures IsView([a, b] + rest, w)
  {
    hide FirstOf, LastOf;
    var m := Merge(a, b);
    FirstStep((k: Keywords) => k.ty, NoType, a, b, m, rest, w.ty);
    FirstStep((k: Keywords) => k.format, None, a, b, m, rest, w.format);
    FirstStep((k: Keywords) => k.enum, None, a, b, m, rest, w.enum);
    FirstStep((k: Keywords) => k.items, None, a, b, m, rest, w.items);
    FirstStep((k: Keywords) => k.nullable, None, a, b, m, rest, w.nullable);
    forall p ensures LastOf(p, [a, b] + rest, PropOf(w, p)) {
      LastStep(p, a, b, m, rest, PropOf(w, p));
    }
    forall r ensures r in w.required <==> exists i: nat :: i < |[a, b] + rest| && r in ([a, b] + rest)[i].required {
      RequiredStep(r, a, b, m, rest);
    }
  }

  lemma FirstOfOne<T>(key: Keywords -> T, absent: T, acc: Keywords)
    ensures FirstOf(key, absent, [acc], key(acc))
  {
    assert key([acc][0]) == key(acc);
  }

  lemma ViewOfOne(acc: Keywords)
    ensures IsView([acc], acc)
  {
    hide FirstOf;
    FirstOfOne((k: Keywords) => k.ty, NoType, acc);
    FirstOfOne((k: Keywords) => k.format, None, acc);
    FirstOfOne((k: Keywords) => k.enum, None, acc);
    FirstOfOne((k: Keywords) => k.items, None, acc);
    FirstOfOne((k: Keywords) => k.nullable, None, acc);
    forall p ensures LastOf(p, [acc], PropOf(acc, p)) {
      if p in acc.props {
        assert LastAt(p, [acc], PropOf(acc, p), 0);
      }
    }
    assert [acc][0] == acc;
  }

  lemma {:induction false} MergeIsView(doc: Doc, acc: Keywords, parts: seq<Node>, rank: Node -> nat, bound: nat)
    requires Acyclic(doc, rank)
    requires forall p | p in parts :: rank(Resolve(doc, p)) < bound
    ensures IsView([acc] + Views(doc, parts, rank), MergeParts(doc, acc, parts, rank, bound))
    decreases |parts|
  {
    hide Merge, Flatten, IsView;
    if parts == [] {
      ViewOfOne(acc);
      assert [acc] + Views(doc, parts, rank) == [acc];
    } else {
      var view, rest := Flatten(doc, parts[0], rank), Views(doc, parts[1..], rank);
      MergeIsView(doc, Merge(acc, view), parts[1..], rank, bound);
      ViewStep(acc, view, rest, MergeParts(doc, acc, parts, rank, bound));
      assert [acc] + Views(doc, parts, rank) == [acc, view] + rest;
    }
  }

  /** Flattening a node: what it refers to, and where each key of the view comes from. An
      unfinished chain of references has a key, so it counts as a claim, but none that is read. */
  lemma FlattenExact(doc: Doc, n: Node, d: Node, rank: Node -> nat)
    requires Acyclic(doc, rank) && RefersTo(doc, n, d)
    ensures d.Schema? ==> IsView([d.own] + Views(doc, d.allOf, rank), Flatten(doc, n, rank))
    ensures d.Ref? ==> Flatten(doc, n, rank).other && Keyless(Schema(Flatten(doc, n, rank).(other := false), []))
  {
    RefersForces(doc, n, d);
    if d.Schema? {
      MergeIsView(doc, d.own, d.allOf, rank, rank(d));
    }
  }

  lemma {:induction false} DeclaresMeaning(doc: Doc, n: Node, name: string, rank: Node -> nat)
    requires Acyclic(doc, rank)
    ensures Declares(doc, n, name, rank) <==> name in Flatten(doc, n, rank).props
    decreases rank(Resolve(doc, n))
  {
    var d := Resolve(doc, n);
    if d.Schema? {
      MergeOrigins(doc, d.own, d.allOf, rank, rank(d));
      forall i: nat | i < |d.allOf|
        ensures Declares(doc, d.allOf[i], name, rank) <==> name in Flatten(doc, d.allOf[i], rank).props
      {
        DeclaresMeaning(doc, d.allOf[i], name, rank);
      }
    }
  }

  /** On a coherent node the flattened `nullable` marks exactly the nodes that admit null. */
  lemma {:induction false} NullMeaning(doc: Doc, n: Node, rank: Node -> nat)
    requires Acyclic(doc, rank) && Coherent(doc, n, rank)
    ensures var w := Flatten(doc, n, rank);
      && (NullMarked(w) ==> NullOk(doc, n, rank))
      && (NullOk(doc, n, rank) && Typed(w.ty) ==> NullMarked(w))
    decreases rank(Resolve(doc, n))
  {
    var d := Resolve(doc, n);
    MergeOrigins(doc, d.own, d.allOf, rank, rank(d));
    forall i: nat | i < |d.allOf|
      ensures NullMarked(Flatten(doc, d.allOf[i], rank)) ==> NullOk(doc, d.allOf[i], rank)
      ensures NullOk(doc, d.allOf[i], rank) && Typed(Flatten(doc, d.allOf[i], rank).ty) ==>
        NullMarked(Flatten(doc, d.allOf[i], rank))
    {
      NullMeaning(doc, d.allOf[i], rank);
    }
  }

  /** `w` takes each of its keys from one of `ks`. */
  ghost predicate ComposedOf(w: Keywords, ks: seq<Keywords>) {
    && (exists i: nat | i < |ks| :: w.ty == ks[i].ty)
    && (exists i: nat | i < |ks| :: w.enum == ks[i].enum)
    && (exists i: nat | i < |ks| :: w.items == ks[i].items)
    && (forall k | k in w.props :: exists i: nat | i < |ks| :: k in ks[i].props)
    && (forall k | k in w.required :: exists i: nat | i < |ks| :: k in ks[i].required)
  }

  lemma ViewOfParts(doc: Doc, use: Reading, w: Keywords, ks: seq<Keywords>, v: Json, rank: Node -> nat)
    requires Acyclic(doc, rank) && ComposedOf(w, ks)
    requires forall i: nat | i < |ks| :: Agrees(ks[i], w) && KeywordsOk(doc, use, ks[i], v, rank)
    ensures KeywordsOk(doc, use, w, v, rank)
  {
    if v.JObj? {
      forall p | p in w.props && p in v.fields ensures Admits(doc, use, w.props[p], v.fields[p], rank) {
        var i: nat :| i < |ks| && p in ks[i].props;
        assert Agrees(ks[i], w);
      }
    }
  }

  lemma Composes(w: Keywords, own: Keywords, views: seq<Keywords>)
    requires w.ty == own.ty || exists i: nat | i < |views| :: w.ty == views[i].ty
    requires w.enum == own.enum || exists i: nat | i < |views| :: w.enum == views[i].enum
    requires w.items == own.items || exists i: nat | i < |views| :: w.items == views[i].items
    requires forall k | k in w.props :: k in own.props || exists i: nat | i < |views| :: k in views[i].props
    requires forall k | k in w.required :: k in own.required || exists i: nat | i < |views| :: k in views[i].required
    ensures ComposedOf(w, [own] + views)
  {
    var ks := [own] + views;
    assert ks[0] == own;
    assert forall i: nat | i < |views| :: views[i] == ks[i + 1];
  }

  lemma PartsCompose(doc: Doc, n: Node, rank: Node -> nat)
    requires Acyclic(doc, rank) && Resolve(doc, n).Schema?
    ensures var d := Resolve(doc, n);
      ComposedOf(Flatten(doc, n, rank), [d.own] + Views(doc, d.allOf, rank))
    ensures var d := Resolve(doc, n);
      d.own.required <= Flatten(doc, n, rank).required &&
      forall i: nat | i < |d.allOf| :: Flatten(doc, d.allOf[i], rank).required <= Flatten(doc, n, rank).required
  {
    hide MergeParts, Merge, Follow, ComposedOf;
    var d := Resolve(doc, n);
    var views := Views(doc, d.allOf, rank);
    MergeOrigins(doc, d.own, d.allOf, rank, rank(d));
    assert forall i: nat | i < |d.allOf| :: Flatten(doc, d.allOf[i], rank) == views[i];
    Composes(Flatten(doc, n, rank), d.own, views);
  }

  /** On a coherent node, meeting every composed part is meeting the flattened view. */
  lemma {:induction false} FlattenMeaning(doc: Doc, use: Reading, n: Node, v: Json, rank: Node -> nat)
    requires Acyclic(doc, rank) && Coherent(doc, n, rank)
    ensures Conforms(doc, use, n, v, rank) <==> KeywordsOk(doc, use, Flatten(doc, n, rank), v, rank)
    decreases rank(Resolve(doc, n))
  {
    hide KeywordsOk, MergeParts, ComposedOf, NullMarked, Agrees, Flatten;
    var d := Resolve(doc, n);
    var w := Flatten(doc, n, rank);
    PartsCompose(doc, n, rank);
    forall i: nat | i < |d.allOf|
      ensures Conforms(doc, use, d.allOf[i], v, rank) <==> KeywordsOk(doc, use, Flatten(doc, d.allOf[i], rank), v, rank)
    {
      FlattenMeaning(doc, use, d.allOf[i], v, rank);
    }
    if KeywordsOk(doc, use, w, v, rank) {
      PartOfView(doc, use, d.own, w, v, rank);
      forall i: nat | i < |d.allOf| ensures KeywordsOk(doc, use, Flatten(doc, d.allOf[i], rank), v, rank) {
        PartOfView(doc, use, Flatten(doc, d.allOf[i], rank), w, v, rank);
      }
    }
    if Conforms(doc, use, n, v, rank) {
      ViewOfParts(doc, use, w, [d.own] + Views(doc, d.allOf, rank), v, rank);
    }
  }

  lemma PartOfView(doc: Doc, use: Reading, p: Keywords, w: Keywords, v: Json, rank: Node -> nat)
    requires Acyclic(doc, rank) && Agrees(p, w) && p.required <= w.required
    requires KeywordsOk(doc, use, w, v, rank)
    ensures KeywordsOk(doc, use, p, v, rank)
  {
  }

  /** On a coherent typed node, being a value of the node is being a value of its flattened view. */
  lemma AdmitsMeaning(doc: Doc, use: Reading, n: Node, v: Json, rank: Node -> nat)
    requires Acyclic(doc, rank) && Coherent(doc, n, rank)
    requires use.Promised? ==> !BareReadOnlyString(Flatten(doc, n, rank))
    ensures ViewAdmits(doc, use, Flatten(doc, n, rank), v, rank) ==> Admits(doc, use, n, v, rank)
    ensures Typed(Flatten(doc, n, rank).ty) && Admits(doc, use, n, v, rank) ==>
      ViewAdmits(doc, use, Flatten(doc, n, rank), v, rank)
  {
    NullMeaning(doc, n, rank);
    FlattenMeaning(doc, use, n, v, rank);
    forall p ensures Declares(doc, n, p, rank) <==> p in Flatten(doc, n, rank).props {
      DeclaresMeaning(doc, n, p, rank);
    }
  }
}
