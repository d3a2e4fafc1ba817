/** What silence of the compatibility diff means for clients. */
module ApiContract {
  import opened Common
  import opened ApiSchema
  import opened ApiCompat
  import NameOrder
  import Paths

  /** The pairs that the comparison of two views goes on to compare. */
  ghost function ViewPairs(side: Side, a: Keywords, b: Keywords): Pairs {
    if NoClaim(side, a) || Retyped(a, b) then {} else
      (if a.items.Some? && b.items.Some? then {(a.items.value, b.items.value)} else {})
      + set p | p in a.props && p in b.props :: (a.props[p], b.props[p])
  }

  ghost function Children(docs: Docs, side: Side, o: Node, n: Node, cert: Cert): Pairs
    requires Certified(docs, cert) && o in cert.baseNodes && n in cert.headNodes
    ensures forall p | p in Children(docs, side, o, n, cert) :: p.0 in cert.baseNodes && p.1 in cert.headNodes
  {
    ViewPairs(side, Flatten(docs.base, o, cert.baseRank), Flatten(docs.head, n, cert.headRank))
  }

  /** Every pair of schemas that the walk from `(o, n)` looks at. */
  ghost function Compared(docs: Docs, side: Side, o: Node, n: Node, seen: Pairs, cert: Cert): Pairs
    requires Certified(docs, cert) && o in cert.baseNodes && n in cert.headNodes
    ensures forall p | p in Compared(docs, side, o, n, seen, cert) :: p.0 in cert.baseNodes && p.1 in cert.headNodes
    decreases |AllPairs(cert) - seen|
  {
    if (o, n) in seen then {} else
      Shrinks(cert, seen, o, n);
      {(o, n)} + set c, p | c in Children(docs, side, o, n, cert)
        && p in Compared(docs, side, c.0, c.1, seen + {(o, n)}, cert) :: p
  }

  /** What the findings of one comparison rule out between two views. */
  ghost predicate LocallyOk(side: Side, a: Keywords, b: Keywords) {
    NoClaim(side, a) ||
    (&& !Retyped(a, b)
     && a.props.Keys <= b.props.Keys
     && (side.Response? ==> (NullMarked(b) ==> NullMarked(a)) && a.required * a.props.Keys <= b.required)
     && (side.Request? ==>
           && (NullMarked(a) ==> NullMarked(b))
           && (a.enum.Some? && b.enum.Some? ==> forall v | v in a.enum.value :: v in b.enum.value)
           && b.required <= a.required * a.props.Keys))
  }

  lemma {:induction false} SilentEnum(dropped: seq<Json>, kept: seq<Json>, loc: string)
    requires EnumFindings(dropped, kept, loc) == []
    ensures forall v | v in dropped :: v in kept
  {
    if dropped != [] {
      SilentEnum(dropped[1..], kept, loc);
      assert dropped == [dropped[0]] + dropped[1..];
    }
  }

  lemma {:induction false} SilentProps(docs: Docs, a: Keywords, b: Keywords, names: seq<string>, loc: string,
        side: Side, seen: Pairs, cert: Cert)
    requires Certified(docs, cert) && Known(a, cert.baseNodes) && Known(b, cert.headNodes)
    requires forall p | p in names :: p in a.props
    requires PropsDiff(docs, a, b, names, loc, side, seen, cert) == []
    ensures forall p | p in names ::
      && p in b.props
      && FieldFindings(side, a, b, p, loc + " ." + p) == []
      && SchemaDiff(docs, a.props[p], b.props[p], loc + " ." + p, side, seen, cert) == []
  {
    hide SchemaDiff, Certified;
    if names != [] {
      var name := names[0];
      assert FieldDiff(docs, a, b, name, loc + " ." + name, side, seen, cert) == [];
      SilentProps(docs, a, b, names[1..], loc, side, seen, cert);
      assert names == [name] + names[1..];
    }
  }

  lemma SilentViewsOf(docs: Docs, o: Node, n: Node, loc: string, side: Side, seen: Pairs, cert: Cert)
    requires Certified(docs, cert) && o in cert.baseNodes && n in cert.headNodes && (o, n) !in seen
    requires SchemaDiff(docs, o, n, loc, side, seen, cert) == []
    ensures var a, b := Flatten(docs.base, o, cert.baseRank), Flatten(docs.head, n, cert.headRank);
      && Known(a, cert.baseNodes) && Known(b, cert.headNodes)
      && (NoClaim(side, a) || (!Retyped(a, b) && ViewDiff(docs, a, b, loc, side, seen + {(o, n)}, cert) == []))
  {
    hide ViewDiff, Flatten, AllPairs, NoClaim, Retyped, Known;
  }

  /** A silent comparison is locally fine and silent on everything it goes on to compare. */
  lemma SilentStep(docs: Docs, o: Node, n: Node, loc: string, side: Side, seen: Pairs, cert: Cert)
    requires Certified(docs, cert) && o in cert.baseNodes && n in cert.headNodes && (o, n) !in seen
    requires SchemaDiff(docs, o, n, loc, side, seen, cert) == []
    ensures LocallyOk(side, Flatten(docs.base, o, cert.baseRank), Flatten(docs.head, n, cert.headRank))
    ensures forall c | c in Children(docs, side, o, n, cert) :: Quiet(docs, c, side, seen + {(o, n)}, cert)
  {
    SilentViewsOf(docs, o, n, loc, side, seen, cert);
    hide SchemaDiff, ViewDiff, Flatten, AllPairs, LocallyOk, ViewPairs, Quiet, Known, NoClaim, Retyped;
    var a, b := Flatten(docs.base, o, cert.baseRank), Flatten(docs.head, n, cert.headRank);
    SilentPairs(docs, a, b, loc, side, seen + {(o, n)}, cert);
  }

  lemma SilentPairs(docs: Docs, a: Keywords, b: Keywords, loc: string, side: Side, seen: Pairs, cert: Cert)
    requires Certified(docs, cert) && Known(a, cert.baseNodes) && Known(b, cert.headNodes)
    requires NoClaim(side, a) || (!Retyped(a, b) && ViewDiff(docs, a, b, loc, side, seen, cert) == [])
    ensures LocallyOk(side, a, b)
    ensures forall c | c in ViewPairs(side, a, b) ::
      c.0 in cert.baseNodes && c.1 in cert.headNodes && Quiet(docs, c, side, seen, cert)
  {
    hide SchemaDiff, ViewDiff, Certified, AllPairs;
    if !NoClaim(side, a) {
      SilentViews(docs, a, b, loc, side, seen, cert);
      forall c | c in ViewPairs(side, a, b)
        ensures c.0 in cert.baseNodes && c.1 in cert.headNodes && Quiet(docs, c, side, seen, cert)
      {
        if a.items.Some? && b.items.Some? && c == (a.items.value, b.items.value) {
          assert SchemaDiff(docs, c.0, c.1, loc + "[]", side, seen, cert) == [];
        } else {
          var p :| p in a.props && p in b.props && c == (a.props[p], b.props[p]);
          assert SchemaDiff(docs, c.0, c.1, loc + " ." + p, side, seen, cert) == [];
        }
      }
    }
  }

  /** The diff of a pair makes no finding, wherever it is placed. */
  ghost predicate Quiet(docs: Docs, c: (Node, Node), side: Side, seen: Pairs, cert: Cert)
    requires Certified(docs, cert) && c.0 in cert.baseNodes && c.1 in cert.headNodes
  {
    exists loc :: SchemaDiff(docs, c.0, c.1, loc, side, seen, cert) == []
  }

  /** The required names of a silent request comparison. */
  lemma SilentRequired(a: Keywords, b: Keywords, loc: string)
    requires NewRequired(Request, a, b, loc) == []
    requires forall p | p in a.props :: FieldFindings(Request, a, b, p, loc + " ." + p) == []
    ensures b.required <= a.required * a.props.Keys
  {
    var extra := NameOrder.Sorted(b.required - a.props.Keys);
    assert extra == [];
    forall p | p in b.required ensures p in a.required && p in a.props {
      assert p !in a.props ==> p in extra;
      assert FieldFindings(Request, a, b, p, loc + " ." + p) == [];
    }
  }

  lemma SilentViews(docs: Docs, a: Keywords, b: Keywords, loc: string, side: Side, seen: Pairs, cert: Cert)
    requires Certified(docs, cert) && Known(a, cert.baseNodes) && Known(b, cert.headNodes)
    requires !Retyped(a, b)
    requires ViewDiff(docs, a, b, loc, side, seen, cert) == []
    ensures LocallyOk(side, a, b)
    ensures a.items.Some? && b.items.Some? ==>
      SchemaDiff(docs, a.items.value, b.items.value, loc + "[]", side, seen, cert) == []
    ensures forall p | p in a.props && p in b.props ::
      SchemaDiff(docs, a.props[p], b.props[p], loc + " ." + p, side, seen, cert) == []
  {
    hide SchemaDiff, Certified, TypeNames, NewRequired, NameOrder.Sorted, PropsDiff, NullMarked;
    var names := NameOrder.Sorted(a.props.Keys);
    assert NullFindings(side, a, b, loc) == [] && RequestEnumFindings(side, a, b, loc) == []
      && NewRequired(side, a, b, loc) == [];
    assert ItemsDiff(docs, a, b, loc, side, seen, cert) == []
      && PropsDiff(docs, a, b, names, loc, side, seen, cert) == [];
    SilentProps(docs, a, b, names, loc, side, seen, cert);
    assert forall p | p in a.props :: p in names;
    if side.Request? {
      SilentRequired(a, b, loc);
      if a.enum.Some? && b.enum.Some? {
        SilentEnum(a.enum.value, b.enum.value, loc);
      }
    } else {
      forall p | p in a.required && p in a.props ensures p in b.required {
        assert FieldFindings(side, a, b, p, loc + " ." + p) == [];
      }
    }
  }

  ghost predicate Simulates(docs: Docs, side: Side, p: (Node, Node), r: Pairs, cert: Cert)
    requires Certified(docs, cert) && p.0 in cert.baseNodes && p.1 in cert.headNodes
  {
    && LocallyOk(side, Flatten(docs.base, p.0, cert.baseRank), Flatten(docs.head, p.1, cert.headRank))
    && Children(docs, side, p.0, p.1, cert) <= r
  }

  /** The compared pairs of a silent diff form a simulation, up to the pairs already under way. */
  lemma {:induction false} SilentSimulation(docs: Docs, o: Node, n: Node, side: Side, seen: Pairs, cert: Cert)
    requires Certified(docs, cert) && o in cert.baseNodes && n in cert.headNodes
    requires Quiet(docs, (o, n), side, seen, cert)
    ensures forall p | p in Compared(docs, side, o, n, seen, cert) ::
      Simulates(docs, side, p, Compared(docs, side, o, n, seen, cert) + seen, cert)
    decreases |AllPairs(cert) - seen|
  {
    hide SchemaDiff, Children, LocallyOk, Flatten, Certified;
    if (o, n) !in seen {
      var here := Compared(docs, side, o, n, seen, cert);
      var inner := seen + {(o, n)};
      var loc :| SchemaDiff(docs, o, n, loc, side, seen, cert) == [];
      Shrinks(cert, seen, o, n);
      SilentStep(docs, o, n, loc, side, seen, cert);
      forall c | c in Children(docs, side, o, n, cert)
        ensures Compared(docs, side, c.0, c.1, inner, cert) <= here && c in here + seen
        ensures forall p | p in Compared(docs, side, c.0, c.1, inner, cert) ::
          Simulates(docs, side, p, here + seen, cert)
      {
        SilentSimulation(docs, c.0, c.1, side, inner, cert);
        assert c in inner || c in Compared(docs, side, c.0, c.1, inner, cert);
        assert Compared(docs, side, c.0, c.1, inner, cert) + inner <= here + seen;
      }
    }
  }

  // ----- soundness of a silent diff

  /** The schemas the claim is about: typed, coherently composed, arrays exactly where there are
      item schemas, and, for a response, required properties that are declared. A request may
      not gain an enum where the old schema had none. An old response schema may also be `{}`
      or a bare read-only string, which promise nothing. */
  ghost predicate InFragment(docs: Docs, side: Side, o: Node, n: Node, cert: Cert)
    requires Certified(docs, cert)
  {
    var a, b := Flatten(docs.base, o, cert.baseRank), Flatten(docs.head, n, cert.headRank);
    if side.Response? && NoClaim(side, a) then IsEmpty(a) ==> Resolve(docs.base, o) == Schema(NOTHING, [])
    else
      && Coherent(docs.base, o, cert.baseRank) && Coherent(docs.head, n, cert.headRank) && Typed(a.ty)
      && (side.Response? ==> Typed(b.ty) && a.required <= a.props.Keys && (a.items.Some? ==> b.items.Some?))
      && (side.Request? ==> (b.items.Some? ==> a.items.Some?) && (b.enum.Some? ==> a.enum.Some?))
  }

  /** A value that the side's source schema admits, its destination schema admits: new to old for
      a response, old to new for a request. */
  ghost predicate Carries(docs: Docs, side: Side, o: Node, n: Node, v: Json, cert: Cert)
    requires Certified(docs, cert)
  {
    match side
    case Response => Admits(docs.head, Sent, n, v, cert.headRank) ==> Admits(docs.base, Promised, o, v, cert.baseRank)
    case Request => Admits(docs.base, Accepted, o, v, cert.baseRank) ==>
      Admits(docs.head, Accepted, n, v, cert.headRank)
  }

  /** Every value carried by the pairs the views go on to compare, below `v`. */
  ghost predicate CarriesBelow(docs: Docs, side: Side, a: Keywords, b: Keywords, v: Json, cert: Cert)
    requires Certified(docs, cert)
  {
    && (v.JArr? && a.items.Some? && b.items.Some? ==>
          forall i: nat | i < |v.elems| :: Carries(docs, side, a.items.value, b.items.value, v.elems[i], cert))
    && (v.JObj? ==>
          forall p | p in a.props && p in b.props && p in v.fields ::
            Carries(docs, side, a.props[p], b.props[p], v.fields[p], cert))
  }

  lemma ResponseStep(docs: Docs, a: Keywords, b: Keywords, v: Json, cert: Cert)
    requires Certified(docs, cert) && CarriesBelow(docs, Response, a, b, v, cert)
    requires LocallyOk(Response, a, b) && !NoClaim(Response, a) && Typed(a.ty) && Typed(b.ty)
    requires a.required <= a.props.Keys && (a.items.Some? ==> b.items.Some?)
    requires ViewAdmits(docs.head, Sent, b, v, cert.headRank)
    ensures ViewAdmits(docs.base, Promised, a, v, cert.baseRank)
  {
    hide Admits, Acyclic, ClosedUnder, TypeFits;
    if v.JObj? {
      forall p | p in a.required ensures p in v.fields {
        assert p in b.required;
      }
    }
  }

  lemma RequestStep(docs: Docs, a: Keywords, b: Keywords, v: Json, cert: Cert)
    requires Certified(docs, cert) && CarriesBelow(docs, Request, a, b, v, cert)
    requires LocallyOk(Request, a, b) && !NoClaim(Request, a) && Typed(a.ty)
    requires (b.items.Some? ==> a.items.Some?) && (b.enum.Some? ==> a.enum.Some?)
    requires ViewAdmits(docs.base, Accepted, a, v, cert.baseRank)
    ensures ViewAdmits(docs.head, Accepted, b, v, cert.headRank)
  {
    hide Admits, Acyclic, ClosedUnder;
  }

  lemma {:induction false} SimulationCarries(docs: Docs, side: Side, r: Pairs, o: Node, n: Node, v: Json, cert: Cert)
    requires Certified(docs, cert)
    requires forall p | p in r :: p.0 in cert.baseNodes && p.1 in cert.headNodes
    requires forall p | p in r :: Simulates(docs, side, p, r, cert) && InFragment(docs, side, p.0, p.1, cert)
    requires (o, n) in r
    ensures Carries(docs, side, o, n, v, cert)
    decreases v
  {
    var a, b := Flatten(docs.base, o, cert.baseRank), Flatten(docs.head, n, cert.headRank);
    assert Simulates(docs, side, (o, n), r, cert) && InFragment(docs, side, o, n, cert);
    if side.Response? && NoClaim(side, a) {
      EmptyAdmits(docs.base, o, v, cert.baseRank);
      return;
    }
    if v.JArr? && a.items.Some? && b.items.Some? {
      forall i: nat | i < |v.elems| ensures Carries(docs, side, a.items.value, b.items.value, v.elems[i], cert) {
        SimulationCarries(docs, side, r, a.items.value, b.items.value, v.elems[i], cert);
      }
    }
    if v.JObj? {
      forall p | p in a.props && p in b.props && p in v.fields
        ensures Carries(docs, side, a.props[p], b.props[p], v.fields[p], cert)
      {
        assert (a.props[p], b.props[p]) in r;
        SimulationCarries(docs, side, r, a.props[p], b.props[p], v.fields[p], cert);
      }
    }
    match side {
      case Response =>
        AdmitsMeaning(docs.head, Sent, n, v, cert.headRank);
        AdmitsMeaning(docs.base, Promised, o, v, cert.baseRank);
        if ViewAdmits(docs.head, Sent, b, v, cert.headRank) {
          ResponseStep(docs, a, b, v, cert);
        }
      case Request =>
        AdmitsMeaning(docs.base, Accepted, o, v, cert.baseRank);
        AdmitsMeaning(docs.head, Accepted, n, v, cert.headRank);
        if ViewAdmits(docs.base, Accepted, a, v, cert.baseRank) {
          RequestStep(docs, a, b, v, cert);
        }
    }
  }

  lemma EmptyAdmits(doc: Doc, n: Node, v: Json, rank: Node -> nat)
    requires Acyclic(doc, rank)
    requires BareReadOnlyString(Flatten(doc, n, rank)) || Resolve(doc, n) == Schema(NOTHING, [])
    ensures Admits(doc, Promised, n, v, rank)
  {
  }

  /** The diff is sound on its fragment: if comparing two schemas reports nothing, every value
      the new response schema sends is one the old schema promised, and every closed value the
      old request schema accepts is accepted by the new one.  Recursive components are covered:
      the compared pairs are a simulation although the walk cuts itself off at repeated pairs. */
  lemma DiffSound(docs: Docs, side: Side, o: Node, n: Node, loc: string, v: Json, cert: Cert)
    requires Certified(docs, cert) && o in cert.baseNodes && n in cert.headNodes
    requires SchemaDiff(docs, o, n, loc, side, {}, cert) == []
    requires forall p | p in Compared(docs, side, o, n, {}, cert) :: InFragment(docs, side, p.0, p.1, cert)
    ensures side.Response? && Admits(docs.head, Sent, n, v, cert.headRank) ==>
      Admits(docs.base, Promised, o, v, cert.baseRank)
    ensures side.Request? && Admits(docs.base, Accepted, o, v, cert.baseRank) ==>
      Admits(docs.head, Accepted, n, v, cert.headRank)
  {
    var r := Compared(docs, side, o, n, {}, cert);
    assert Quiet(docs, (o, n), side, {}, cert);
    SilentSimulation(docs, o, n, side, {}, cert);
    assert r + {} == r;
    SimulationCarries(docs, side, r, o, n, v, cert);
  }

  // ----- the walk always ends, and a document is compatible with itself

  /** The node and every schema nested in it. */
  ghost function Nested(n: Node): set<Node> {
    match n
    case Ref(_) => {n}
    case Schema(own, allOf) =>
      {n}
      + (if own.items.Some? then Nested(own.items.value) else {})
      + (set p, x | p in own.props && x in Nested(own.props[p]) :: x)
      + (set i: nat, x | i < |allOf| && x in Nested(allOf[i]) :: x)
  }

  lemma {:induction false} NestedClosed(n: Node, m: Node)
    requires m in Nested(n)
    ensures Nested(m) <= Nested(n)
  {
    if m != n && n.Schema? {
      if n.own.items.Some? && m in Nested(n.own.items.value) {
        NestedClosed(n.own.items.value, m);
      } else if p :| p in n.own.props && m in Nested(n.own.props[p]) {
        NestedClosed(n.own.props[p], m);
      } else {
        var i: nat :| i < |n.allOf| && m in Nested(n.allOf[i]);
        NestedClosed(n.allOf[i], m);
      }
    }
  }

  /** All the schemas of a finite document and of one root. */
  ghost function Universe(doc: Doc, root: Node): set<Node> {
    Nested(root) + {Schema(NOTHING, [])} + set c, x | c in doc.comps && x in Nested(doc.comps[c]) :: x
  }

  lemma NestedInUniverse(doc: Doc, root: Node, m: Node)
    requires m in Universe(doc, root)
    ensures Nested(m) <= Universe(doc, root)
  {
    if m in Nested(root) {
      NestedClosed(root, m);
    } else if m != Schema(NOTHING, []) {
      var c :| c in doc.comps && m in Nested(doc.comps[c]);
      NestedClosed(doc.comps[c], m);
    }
  }

  lemma {:induction false} FollowInUniverse(doc: Doc, root: Node, n: Node, hops: nat)
    requires n in Universe(doc, root)
    ensures Follow(doc, n, hops) in Universe(doc, root)
    decreases hops
  {
    if n.Ref? && hops > 0 {
      var next := Lookup(doc, n.name);
      assert next in Nested(next);
      FollowInUniverse(doc, root, next, hops - 1);
    }
  }

  lemma {:induction false} FlattenKnown(doc: Doc, root: Node, n: Node, rank: Node -> nat)
    requires Acyclic(doc, rank) && n in Universe(doc, root)
    ensures Known(Flatten(doc, n, rank), Universe(doc, root))
    decreases rank(Resolve(doc, n))
  {
    var d := Resolve(doc, n);
    FollowInUniverse(doc, root, n, MAX_HOPS);
    NestedInUniverse(doc, root, d);
    if d.Schema? {
      forall p | p in d.own.props ensures d.own.props[p] in Nested(d) {
        assert d.own.props[p] in Nested(d.own.props[p]);
      }
      forall p | p in d.allOf ensures p in Nested(d) {
        var i: nat :| i < |d.allOf| && d.allOf[i] == p;
        assert p in Nested(d.allOf[i]);
      }
      if d.own.items.Some? {
        assert d.own.items.value in Nested(d.own.items.value);
      }
      MergeKnown(doc, root, d.own, d.allOf, rank, rank(d));
    }
  }

  lemma {:induction false} MergeKnown(doc: Doc, root: Node, acc: Keywords, parts: seq<Node>, rank: Node -> nat,
        bound: nat)
    requires Acyclic(doc, rank) && Known(acc, Universe(doc, root))
    requires forall p | p in parts :: rank(Resolve(doc, p)) < bound && p in Universe(doc, root)
    ensures Known(MergeParts(doc, acc, parts, rank, bound), Universe(doc, root))
    decreases bound, |parts|
  {
    if parts != [] {
      FlattenKnown(doc, root, parts[0], rank);
      MergeKnown(doc, root, Merge(acc, Flatten(doc, parts[0], rank)), parts[1..], rank, bound);
    }
  }

  /** Every finite document without `allOf` cycles has the closed set of schemas that bounds the
      walk, so the comparison ends on all of them. */
  lemma UniverseCertifies(docs: Docs, o: Node, n: Node, baseRank: Node -> nat, headRank: Node -> nat)
    requires Acyclic(docs.base, baseRank) && Acyclic(docs.head, headRank)
    ensures var cert := Cert(baseRank, headRank, Universe(docs.base, o), Universe(docs.head, n));
      Certified(docs, cert) && o in cert.baseNodes && n in cert.headNodes
  {
    forall x | x in Universe(docs.base, o) ensures Known(Flatten(docs.base, x, baseRank), Universe(docs.base, o)) {
      FlattenKnown(docs.base, o, x, baseRank);
    }
    forall x | x in Universe(docs.head, n) ensures Known(Flatten(docs.head, x, headRank), Universe(docs.head, n)) {
      FlattenKnown(docs.head, n, x, headRank);
    }
    assert o in Nested(o) && n in Nested(n);
  }

  ghost predicate SameOnBothSides(docs: Docs, cert: Cert) {
    docs.base == docs.head && cert.baseRank == cert.headRank && cert.baseNodes == cert.headNodes
  }

  ghost predicate QuietAnywhere(docs: Docs, c: (Node, Node), side: Side, seen: Pairs, cert: Cert)
    requires Certified(docs, cert) && c.0 in cert.baseNodes && c.1 in cert.headNodes
  {
    forall loc :: SchemaDiff(docs, c.0, c.1, loc, side, seen, cert) == []
  }

  /** A schema whose required properties are all declared, where that matters to the diff. */
  ghost predicate DeclaresRequired(side: Side, a: Keywords) {
    NoClaim(side, a) || side.Response? || a.required <= a.props.Keys
  }

  /** Every schema that comparing `o` with itself looks at declares what it requires. */
  ghost predicate DeclaresAll(docs: Docs, side: Side, o: Node, seen: Pairs, cert: Cert)
    requires Certified(docs, cert) && SameOnBothSides(docs, cert) && o in cert.baseNodes
  {
    forall x | (x, x) in Compared(docs, side, o, o, seen, cert) ::
      DeclaresRequired(side, Flatten(docs.base, x, cert.baseRank))
  }

  lemma {:induction false} SameEnum(dropped: seq<Json>, kept: seq<Json>, loc: string)
    requires forall v | v in dropped :: v in kept
    ensures EnumFindings(dropped, kept, loc) == []
  {
    if dropped != [] {
      SameEnum(dropped[1..], kept, loc);
    }
  }

  lemma {:induction false} SelfProps(docs: Docs, a: Keywords, names: seq<string>, loc: string, side: Side,
        seen: Pairs, cert: Cert)
    requires Certified(docs, cert) && SameOnBothSides(docs, cert) && Known(a, cert.baseNodes)
    requires forall p | p in names :: p in a.props && QuietAnywhere(docs, (a.props[p], a.props[p]), side, seen, cert)
    ensures PropsDiff(docs, a, a, names, loc, side, seen, cert) == []
  {
    hide SchemaDiff, Certified;
    if names != [] {
      var p := names[0];
      assert QuietAnywhere(docs, (a.props[p], a.props[p]), side, seen, cert);
      assert FieldDiff(docs, a, a, p, loc + " ." + p, side, seen, cert) == [];
      SelfProps(docs, a, names[1..], loc, side, seen, cert);
    }
  }

  lemma SelfViews(docs: Docs, a: Keywords, loc: string, side: Side, seen: Pairs, cert: Cert)
    requires Certified(docs, cert) && SameOnBothSides(docs, cert) && Known(a, cert.baseNodes)
    requires !NoClaim(side, a) && DeclaresRequired(side, a)
    requires forall c | c in ViewPairs(side, a, a) ::
      c.0 in cert.baseNodes && c.1 in cert.baseNodes && (c.0 == c.1 ==> QuietAnywhere(docs, c, side, seen, cert))
    ensures ViewDiff(docs, a, a, loc, side, seen, cert) == []
  {
    hide SchemaDiff, Certified, TypeNames, NullMarked;
    var names := NameOrder.Sorted(a.props.Keys);
    forall p | p in names ensures p in a.props && QuietAnywhere(docs, (a.props[p], a.props[p]), side, seen, cert) {
      assert (a.props[p], a.props[p]) in ViewPairs(side, a, a);
    }
    SelfProps(docs, a, names, loc, side, seen, cert);
    if a.items.Some? {
      assert QuietAnywhere(docs, (a.items.value, a.items.value), side, seen, cert);
      assert ItemsDiff(docs, a, a, loc, side, seen, cert) == [];
    }
    if a.enum.Some? {
      SameEnum(a.enum.value, a.enum.value, loc);
    }
    assert a.required - a.props.Keys == {} || side.Response?;
    assert NewRequired(side, a, a, loc) == [];
  }

  lemma {:induction false} SelfQuiet(docs: Docs, o: Node, side: Side, seen: Pairs, cert: Cert)
    requires Certified(docs, cert) && SameOnBothSides(docs, cert) && o in cert.baseNodes
    requires DeclaresAll(docs, side, o, seen, cert)
    ensures QuietAnywhere(docs, (o, o), side, seen, cert)
    decreases |AllPairs(cert) - seen|
  {
    if (o, o) !in seen {
      var a, inner := Flatten(docs.base, o, cert.baseRank), seen + {(o, o)};
      Shrinks(cert, seen, o, o);
      forall c | c in Children(docs, side, o, o, cert) && c.0 == c.1 ensures QuietAnywhere(docs, c, side, inner, cert) {
        assert Compared(docs, side, c.0, c.1, inner, cert) <= Compared(docs, side, o, o, seen, cert);
        SelfQuiet(docs, c.0, side, inner, cert);
      }
      assert (o, o) in Compared(docs, side, o, o, seen, cert);
      if !NoClaim(side, a) {
        forall loc ensures SchemaDiff(docs, o, o, loc, side, seen, cert) == [] {
          SelfViews(docs, a, loc, side, inner, cert);
        }
      }
    }
  }

  /** Diffing a schema against itself is silent exactly when every claiming request schema it
      compares declares the properties it requires; for a response it is always silent. */
  lemma SelfDiffExact(docs: Docs, o: Node, loc: string, side: Side, cert: Cert)
    requires Certified(docs, cert) && SameOnBothSides(docs, cert) && o in cert.baseNodes
    ensures SchemaDiff(docs, o, o, loc, side, {}, cert) == [] <==> DeclaresAll(docs, side, o, {}, cert)
    ensures side.Response? ==> SchemaDiff(docs, o, o, loc, side, {}, cert) == []
  {
    if SchemaDiff(docs, o, o, loc, side, {}, cert) == [] {
      assert Quiet(docs, (o, o), side, {}, cert);
      SilentSimulation(docs, o, o, side, {}, cert);
      forall x | (x, x) in Compared(docs, side, o, o, {}, cert)
        ensures DeclaresRequired(side, Flatten(docs.base, x, cert.baseRank))
      {
        assert Simulates(docs, side, (x, x), Compared(docs, side, o, o, {}, cert) + {}, cert);
      }
    }
    if DeclaresAll(docs, side, o, {}, cert) {
      SelfQuiet(docs, o, side, {}, cert);
      assert QuietAnywhere(docs, (o, o), side, {}, cert);
    }
  }

  // ----- every document without `allOf` cycles has a rank

  /** What the composed parts of a node resolve to. */
  ghost function Parts(doc: Doc): Node -> set<Node> {
    (n: Node) => if n.Schema? then set p | p in n.allOf :: Resolve(doc, p) else {}
  }

  /** No chain of composed parts comes back to where it started. */
  ghost predicate NoCycle(doc: Doc) {
    forall n, m | m in Parts(doc)(n) :: !Paths.Leads(Parts(doc), m, n)
  }

  /** The nodes that chains of composed parts lead to. */
  ghost function Composed(doc: Doc, n: Node): set<Node> {
    set x | x in Universe(doc, n) && Paths.Leads(Parts(doc), n, x)
  }

  lemma PartUniverse(doc: Doc, n: Node, m: Node)
    requires m in Parts(doc)(n)
    ensures Universe(doc, m) <= Universe(doc, n)
  {
    var p :| p in n.allOf && m == Resolve(doc, p);
    var i: nat :| i < |n.allOf| && n.allOf[i] == p;
    assert p in Nested(n.allOf[i]);
    assert p in Nested(n);
    FollowInUniverse(doc, n, p, MAX_HOPS);
    NestedInUniverse(doc, n, m);
  }

  lemma ComposedShrinks(doc: Doc, n: Node, m: Node)
    requires NoCycle(doc) && m in Parts(doc)(n)
    ensures |Composed(doc, m)| < |Composed(doc, n)|
  {
    PartUniverse(doc, n, m);
    forall x | x in Composed(doc, m) ensures x in Composed(doc, n) {
      Paths.LeadsBefore(Parts(doc), n, m, x);
    }
    assert Paths.Path(Parts(doc), n, []) && Paths.End(n, []) == n;
    assert n in Nested(n);
    assert n in Composed(doc, n) && n !in Composed(doc, m);
    SubsetSize(Composed(doc, m), Composed(doc, n));
  }

  lemma {:induction false} RankFallsAlong(doc: Doc, rank: Node -> nat, n: Node, p: seq<Node>)
    requires Acyclic(doc, rank) && Paths.Path(Parts(doc), n, p)
    ensures rank(Paths.End(n, p)) <= rank(n)
    decreases |p|
  {
    if p != [] {
      var q :| q in n.allOf && p[0] == Resolve(doc, q);
      RankFallsAlong(doc, rank, p[0], p[1..]);
    }
  }

  /** A document has a rank, and so all that is proved about the comparison applies to it,
      exactly when no chain of its composed parts comes back to where it started. */
  lemma RankExists(doc: Doc)
    ensures (exists rank :: Acyclic(doc, rank)) <==> NoCycle(doc)
  {
    if rank :| Acyclic(doc, rank) {
      forall n, m | m in Parts(doc)(n) ensures !Paths.Leads(Parts(doc), m, n) {
        var q :| q in n.allOf && m == Resolve(doc, q);
        if p :| Paths.Path(Parts(doc), m, p) && Paths.End(m, p) == n {
          RankFallsAlong(doc, rank, m, p);
          assert false;
        }
      }
    }
    if NoCycle(doc) {
      var rank: Node -> nat := n => |Composed(doc, n)|;
      forall s: Node, i: nat | s.Schema? && i < |s.allOf| ensures rank(Resolve(doc, s.allOf[i])) < rank(s) {
        assert s.allOf[i] in s.allOf;
        ComposedShrinks(doc, s, Resolve(doc, s.allOf[i]));
      }
      assert Acyclic(doc, rank);
    }
  }

  // ----- what lies outside the fragment

  const TEXT := Schema(NOTHING.(ty := OneType(TString)), [])
  const UNTYPED := Schema(NOTHING.(other := true), [])
  const NEEDS_X := Schema(NOTHING.(ty := OneType(TObject), required := {"x"}), [])
  const NO_COMPONENTS := Docs(Doc(map[]), Doc(map[]))

  /** How deep composed parts are nested. */
  ghost function Depth(n: Node): nat {
    match n
    case Ref(_) => 1
    case Schema(_, allOf) => 1 + DepthAmong(allOf)
  }

  ghost function DepthAmong(parts: seq<Node>): nat
    ensures forall p | p in parts :: Depth(p) <= DepthAmong(parts)
  {
    if parts == [] then 0 else Max(Depth(parts[0]), DepthAmong(parts[1..]))
  }

  /** The certificate of a comparison without components whose schemas have no inner schemas. */
  ghost function FlatCert(o: Node, n: Node): Cert {
    Cert(Depth, Depth, {o}, {n})
  }

  /** Components without composed parts: how deep parts are nested is a rank. */
  lemma DepthRanks(doc: Doc)
    requires forall c | c in doc.comps :: doc.comps[c].Schema? && doc.comps[c].allOf == []
    ensures Acyclic(doc, Depth)
  {
    forall s: Node, i: nat | s.Schema? && i < |s.allOf| ensures Depth(Resolve(doc, s.allOf[i])) < Depth(s) {
      assert s.allOf[i] in s.allOf;
      var p := s.allOf[i];
      if p.Ref? {
        assert Resolve(doc, p) == Follow(doc, Lookup(doc, p.name), MAX_HOPS - 1);
      }
    }
  }

  lemma FlatCertified(o: Keywords, n: Keywords)
    requires o.items.None? && o.props == map[] && n.items.None? && n.props == map[]
    ensures Certified(NO_COMPONENTS, FlatCert(Schema(o, []), Schema(n, [])))
  {
    DepthRanks(NO_COMPONENTS.base);
  }

  /** A response schema that loses its `type` is not reported, although it now sends numbers
      where text was promised. */
  lemma LostTypeIsMissed()
    ensures var cert := FlatCert(TEXT, UNTYPED);
      && Certified(NO_COMPONENTS, cert)
      && SchemaDiff(NO_COMPONENTS, TEXT, UNTYPED, "", Response, {}, cert) == []
      && Admits(NO_COMPONENTS.head, Sent, UNTYPED, JNum(1.0), cert.headRank)
      && !Admits(NO_COMPONENTS.base, Promised, TEXT, JNum(1.0), cert.baseRank)
  {
    var a, b, cert := TEXT.own, UNTYPED.own, FlatCert(TEXT, UNTYPED);
    FlatCertified(a, b);
    assert Flatten(NO_COMPONENTS.base, TEXT, cert.baseRank) == a;
    assert Flatten(NO_COMPONENTS.head, UNTYPED, cert.headRank) == b;
    assert ViewDiff(NO_COMPONENTS, a, b, "", Response, {(TEXT, UNTYPED)}, cert) == [];
    assert TypeNames(a.ty) == multiset{TString};
    assert !Conforms(NO_COMPONENTS.base, Promised, TEXT, JNum(1.0), cert.baseRank);
  }

  /** A request schema that requires a property it does not declare is reported against itself. */
  lemma SelfDiffCanReport()
    ensures var cert := FlatCert(NEEDS_X, NEEDS_X);
      && Certified(NO_COMPONENTS, cert)
      && SchemaDiff(NO_COMPONENTS, NEEDS_X, NEEDS_X, "", Request, {}, cert) != []
  {
    var cert := FlatCert(NEEDS_X, NEEDS_X);
    FlatCertified(NEEDS_X.own, NEEDS_X.own);
    assert (NEEDS_X, NEEDS_X) in Compared(NO_COMPONENTS, Request, NEEDS_X, NEEDS_X, {}, cert);
    assert "x" in NEEDS_X.own.required && "x" !in NEEDS_X.own.props;
    assert Flatten(NO_COMPONENTS.base, NEEDS_X, cert.baseRank) == NEEDS_X.own;
    SelfDiffExact(NO_COMPONENTS, NEEDS_X, "", Request, cert);
  }
}
