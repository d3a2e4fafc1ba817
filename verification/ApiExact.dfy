/** Which findings the comparison of two schemas makes, told from the keys of the schemas alone:
    a finding is reported exactly where a pair of schemas that the comparison reaches shows its
    cause. */
module ApiExact {
  import opened Common
  import opened ApiSchema
  import opened ApiCompat
  import opened ApiContract
  import NameOrder

  // ----- causes

  /** How often a `type` key names a type; a list's null is not one of its types. */
  ghost function Named(k: TypeKey, t: TypeTag): nat {
    match k
    case NoType => 0
    case OneType(u) => if t == u then 1 else 0
    case ListType(ts) => if t == TNull then 0 else multiset(ts)[t]
  }

  ghost predicate NamesSome(k: TypeKey) {
    exists t :: Named(k, t) > 0
  }

  /** A response or request schema may be null: `nullable: true`, or null is one of its types. */
  ghost predicate MayBeNull(w: Keywords) {
    (w.nullable.Some? && w.nullable.value) || (w.ty.ListType? && exists i: nat :: i < |w.ty.ts| && w.ty.ts[i] == TNull)
  }

  /** The baseline schema has no key, or is a response's bare read-only string. */
  ghost predicate PromisesNothing(side: Side, w: Keywords) {
    || Keyless(Schema(w, []))
    || (&& side.Response? && w.readOnly && !w.limited && w.format.None? && w.enum.None? && w.nullable.None?
        && forall t :: Named(w.ty, t) == if t == TString then 1 else 0)
  }

  /** Both schemas name types, and not the same ones. */
  ghost predicate TypesDiffer(a: Keywords, b: Keywords) {
    NamesSome(a.ty) && NamesSome(b.ty) && exists t :: Named(a.ty, t) != Named(b.ty, t)
  }

  /** `ts` is just the types that the key names. */
  ghost predicate AreTypes(ts: multiset<TypeTag>, k: TypeKey) {
    forall t :: ts[t] == Named(k, t)
  }

  /** A finding about the pair itself. */
  ghost predicate OwnCause(side: Side, a: Keywords, b: Keywords, kind: Kind) {
    match kind
    case TypeChanged(was, now) => TypesDiffer(a, b) && AreTypes(was, a.ty) && AreTypes(now, b.ty)
    case ResponseBecameNullable => side.Response? && !TypesDiffer(a, b) && !MayBeNull(a) && MayBeNull(b)
    case RequestStoppedAcceptingNull => side.Request? && !TypesDiffer(a, b) && MayBeNull(a) && !MayBeNull(b)
    case RequestEnumValueRemoved(v) =>
      && side.Request? && !TypesDiffer(a, b)
      && a.enum.Some? && b.enum.Some? && v in a.enum.value && v !in b.enum.value
    case _ => false
  }

  /** A finding about one property of the pair. */
  ghost predicate FieldCause(side: Side, a: Keywords, b: Keywords, name: string, kind: Kind) {
    !TypesDiffer(a, b) &&
    match kind
    case RemovedResponseField => side.Response? && name in a.props && name !in b.props
    case RemovedRequestField => side.Request? && name in a.props && name !in b.props
    case ResponseFieldBecameOptional =>
      side.Response? && name in a.props && name in b.props && name in a.required && name !in b.required
    case RequestFieldBecameRequired =>
      side.Request? && name in a.props && name in b.props && name in b.required && name !in a.required
    case NewRequiredRequestField => side.Request? && name in b.required && name !in a.props
    case _ => false
  }

  /** The pair of schemas at `loc` is the cause of the finding. */
  ghost predicate Cause(side: Side, a: Keywords, b: Keywords, loc: string, f: Finding) {
    !PromisesNothing(side, a) &&
    ((f.loc == loc && OwnCause(side, a, b, f.kind))
     || exists name :: f.loc == loc + " ." + name && FieldCause(side, a, b, name, f.kind))
  }

  // ----- the pairs that are reached

  datatype Step = Elements | Field(name: string)

  ghost function Mark(step: Step): string {
    match step
    case Elements => "[]"
    case Field(name) => " ." + name
  }

  ghost function Trail(steps: seq<Step>): string {
    if steps == [] then "" else Mark(steps[0]) + Trail(steps[1..])
  }

  /** The schemas below a pair that one step leads to, where both sides have it. */
  ghost function Below(a: Keywords, b: Keywords, step: Step): Option<(Node, Node)> {
    match step
    case Elements => if a.items.Some? && b.items.Some? then Some((a.items.value, b.items.value)) else None
    case Field(name) => if name in a.props && name in b.props then Some((a.props[name], b.props[name])) else None
  }

  /** The steps lead from the pair `at` to the pair `to`, each from a pair whose baseline promises
      something and whose types agree, and never to a pair that is under way. */
  ghost predicate Reached(docs: Docs, side: Side, at: (Node, Node), under: Pairs, steps: seq<Step>,
        to: (Node, Node), cert: Cert)
    requires Certified(docs, cert)
    decreases |steps|
  {
    at !in under &&
    if steps == [] then at == to
    else
      var a, b := Flatten(docs.base, at.0, cert.baseRank), Flatten(docs.head, at.1, cert.headRank);
      && !PromisesNothing(side, a) && !TypesDiffer(a, b) && Below(a, b, steps[0]).Some?
      && Reached(docs, side, Below(a, b, steps[0]).value, under + {at}, steps[1..], to, cert)
  }

  /** Some reached pair is the cause of the finding. */
  ghost predicate Found(docs: Docs, side: Side, at: (Node, Node), under: Pairs, loc: string, f: Finding, cert: Cert)
    requires Certified(docs, cert)
  {
    exists steps, to ::
      && Reached(docs, side, at, under, steps, to, cert)
      && Cause(side, Flatten(docs.base, to.0, cert.baseRank), Flatten(docs.head, to.1, cert.headRank),
               loc + Trail(steps), f)
  }

  // ----- the code's own tests are these

  lemma TypeNamesExact(k: TypeKey)
    ensures AreTypes(TypeNames(k), k)
    ensures Typed(k) <==> NamesSome(k)
  {
    if NamesSome(k) {
      var t :| Named(k, t) > 0;
      assert TypeNames(k)[t] > 0;
    }
    if Typed(k) {
      var t :| t in TypeNames(k);
      assert Named(k, t) > 0;
    }
  }

  lemma TestsExact(side: Side, a: Keywords, b: Keywords)
    ensures Retyped(a, b) <==> TypesDiffer(a, b)
    ensures NoClaim(side, a) <==> PromisesNothing(side, a)
    ensures NullMarked(a) <==> MayBeNull(a)
    ensures NullMarked(b) <==> MayBeNull(b)
  {
    TypeNamesExact(a.ty);
    TypeNamesExact(b.ty);
    if TypeNames(a.ty) != TypeNames(b.ty) {
      assert exists t :: TypeNames(a.ty)[t] != TypeNames(b.ty)[t];
    }
    if PromisesNothing(side, a) && !Keyless(Schema(a, [])) {
      assert TypeNames(a.ty) == multiset{TString};
    }
  }

  // ----- the findings of one pair

  lemma {:induction false} EnumExact(dropped: seq<Json>, kept: seq<Json>, loc: string, f: Finding)
    ensures f in EnumFindings(dropped, kept, loc) <==>
      f.loc == loc && f.kind.RequestEnumValueRemoved? && f.kind.value in dropped && f.kind.value !in kept
  {
    if dropped != [] {
      EnumExact(dropped[1..], kept, loc, f);
      assert dropped == [dropped[0]] + dropped[1..];
    }
  }

  lemma {:induction false} RequiredExact(names: seq<string>, loc: string, f: Finding)
    ensures f in RequiredFindings(names, loc) <==>
      f.kind == NewRequiredRequestField && exists p :: p in names && f.loc == loc + " ." + p
  {
    if names != [] {
      RequiredExact(names[1..], loc, f);
      assert names == [names[0]] + names[1..];
    }
  }

  /** A finding of the pair of properties called `name`. */
  ghost predicate InField(docs: Docs, a: Keywords, b: Keywords, name: string, loc: string, side: Side, seen: Pairs,
        f: Finding, cert: Cert)
    requires Certified(docs, cert) && Known(a, cert.baseNodes) && Known(b, cert.headNodes)
  {
    name in a.props && f in FieldDiff(docs, a, b, name, loc + " ." + name, side, seen, cert)
  }

  lemma {:induction false} PropsMember(docs: Docs, a: Keywords, b: Keywords, names: seq<string>, loc: string,
        side: Side, seen: Pairs, f: Finding, cert: Cert)
    requires Certified(docs, cert) && Known(a, cert.baseNodes) && Known(b, cert.headNodes)
    requires forall p | p in names :: p in a.props
    ensures f in PropsDiff(docs, a, b, names, loc, side, seen, cert) <==>
      exists p :: p in names && InField(docs, a, b, p, loc, side, seen, f, cert)
  {
    hide FieldDiff, Certified;
    if names != [] {
      PropsMember(docs, a, b, names[1..], loc, side, seen, f, cert);
      assert names == [names[0]] + names[1..];
      assert f in FieldDiff(docs, a, b, names[0], loc + " ." + names[0], side, seen, cert) <==>
        InField(docs, a, b, names[0], loc, side, seen, f, cert);
    }
  }

  /** A finding of a pair of schemas below. */
  ghost predicate InStep(docs: Docs, a: Keywords, b: Keywords, step: Step, loc: string, side: Side, seen: Pairs,
        f: Finding, cert: Cert)
    requires Certified(docs, cert) && Known(a, cert.baseNodes) && Known(b, cert.headNodes)
  {
    var c := Below(a, b, step);
    c.Some? && f in SchemaDiff(docs, c.value.0, c.value.1, loc + Mark(step), side, seen, cert)
  }

  lemma FieldExact(docs: Docs, a: Keywords, b: Keywords, name: string, loc: string, side: Side, seen: Pairs,
        f: Finding, cert: Cert)
    requires Certified(docs, cert) && Known(a, cert.baseNodes) && Known(b, cert.headNodes)
    requires !TypesDiffer(a, b) && name in a.props
    ensures InField(docs, a, b, name, loc, side, seen, f, cert) <==>
      || (f.loc == loc + " ." + name && FieldCause(side, a, b, name, f.kind))
      || InStep(docs, a, b, Field(name), loc, side, seen, f, cert)
  {
    hide SchemaDiff, Certified, TypesDiffer;
    assert loc + Mark(Field(name)) == loc + " ." + name;
    if name in b.props {
      assert Below(a, b, Field(name)) == Some((a.props[name], b.props[name]));
      assert FieldDiff(docs, a, b, name, loc + " ." + name, side, seen, cert)
        == FieldFindings(side, a, b, name, loc + " ." + name)
           + SchemaDiff(docs, a.props[name], b.props[name], loc + Mark(Field(name)), side, seen, cert);
    } else {
      assert Below(a, b, Field(name)).None?;
    }
  }

  lemma NewRequiredExact(side: Side, a: Keywords, b: Keywords, loc: string, f: Finding)
    ensures f in NewRequired(side, a, b, loc) <==>
      side.Request? && f.kind == NewRequiredRequestField
      && exists p :: p in b.required && p !in a.props && f.loc == loc + " ." + p
  {
    hide NameOrder.Sorted;
    if side.Request? {
      RequiredExact(NameOrder.Sorted(b.required - a.props.Keys), loc, f);
      assert forall p :: p in NameOrder.Sorted(b.required - a.props.Keys) <==> p in b.required && p !in a.props;
    }
  }

  lemma OwnExact(side: Side, a: Keywords, b: Keywords, loc: string, f: Finding)
    requires !TypesDiffer(a, b)
    ensures f in NullFindings(side, a, b, loc) + RequestEnumFindings(side, a, b, loc) <==>
      f.loc == loc && OwnCause(side, a, b, f.kind)
  {
    hide TypesDiffer, MayBeNull, NullMarked;
    TestsExact(side, a, b);
    if side.Request? && a.enum.Some? && b.enum.Some? {
      EnumExact(a.enum.value, b.enum.value, loc, f);
    }
  }

  /** The findings of a pair of views are those it is itself the cause of and those below it. */
  lemma ViewExact(docs: Docs, a: Keywords, b: Keywords, loc: string, side: Side, seen: Pairs, f: Finding, cert: Cert)
    requires Certified(docs, cert) && Known(a, cert.baseNodes) && Known(b, cert.headNodes)
    requires !TypesDiffer(a, b) && !PromisesNothing(side, a)
    ensures f in ViewDiff(docs, a, b, loc, side, seen, cert) <==>
      Cause(side, a, b, loc, f) || exists step :: InStep(docs, a, b, step, loc, side, seen, f, cert)
  {
    hide SchemaDiff, Certified, TypesDiffer, PromisesNothing, NameOrder.Sorted, OwnCause, PropsDiff, NewRequired;
    hide NullFindings, RequestEnumFindings, InField;
    var names := NameOrder.Sorted(a.props.Keys);
    OwnExact(side, a, b, loc, f);
    NewRequiredExact(side, a, b, loc, f);
    PropsMember(docs, a, b, names, loc, side, seen, f, cert);
    assert forall p :: p in names <==> p in a.props;
    assert f in ItemsDiff(docs, a, b, loc, side, seen, cert) <==>
      InStep(docs, a, b, Elements, loc, side, seen, f, cert) by {
      assert Mark(Elements) == "[]";
    }
    forall p | p in a.props
      ensures InField(docs, a, b, p, loc, side, seen, f, cert) <==>
        || (f.loc == loc + " ." + p && FieldCause(side, a, b, p, f.kind))
        || InStep(docs, a, b, Field(p), loc, side, seen, f, cert)
    {
      FieldExact(docs, a, b, p, loc, side, seen, f, cert);
    }
    if exists step :: InStep(docs, a, b, step, loc, side, seen, f, cert) {
      var step :| InStep(docs, a, b, step, loc, side, seen, f, cert);
      assert step.Field? ==> step.name in a.props;
    }
  }

  /** Where the types differ, that is the one finding. */
  lemma ChangeExact(side: Side, a: Keywords, b: Keywords, loc: string, f: Finding)
    requires TypesDiffer(a, b) && !PromisesNothing(side, a)
    ensures Cause(side, a, b, loc, f) <==> f == Finding(TypeChanged(TypeNames(a.ty), TypeNames(b.ty)), loc)
  {
    hide PromisesNothing, TypeNames, Named;
    TypeNamesExact(a.ty);
    TypeNamesExact(b.ty);
    if f.kind.TypeChanged? && AreTypes(f.kind.oldType, a.ty) && AreTypes(f.kind.newType, b.ty) {
      SameTypes(f.kind.oldType, TypeNames(a.ty), a.ty);
      SameTypes(f.kind.newType, TypeNames(b.ty), b.ty);
    }
  }

  lemma SameTypes(was: multiset<TypeTag>, now: multiset<TypeTag>, k: TypeKey)
    requires AreTypes(was, k) && AreTypes(now, k)
    ensures was == now
  {
    assert forall t :: was[t] == now[t];
  }

  // ----- all findings

  lemma FoundBefore(docs: Docs, side: Side, at: (Node, Node), under: Pairs, step: Step, loc: string, f: Finding,
        cert: Cert)
    requires Certified(docs, cert) && at !in under
    requires var a, b := Flatten(docs.base, at.0, cert.baseRank), Flatten(docs.head, at.1, cert.headRank);
      && !PromisesNothing(side, a) && !TypesDiffer(a, b) && Below(a, b, step).Some?
      && Found(docs, side, Below(a, b, step).value, under + {at}, loc + Mark(step), f, cert)
    ensures Found(docs, side, at, under, loc, f, cert)
  {
    hide Flatten, PromisesNothing, TypesDiffer, Cause, Below;
    var a, b := Flatten(docs.base, at.0, cert.baseRank), Flatten(docs.head, at.1, cert.headRank);
    var steps, to :| Reached(docs, side, Below(a, b, step).value, under + {at}, steps, to, cert)
      && Cause(side, Flatten(docs.base, to.0, cert.baseRank), Flatten(docs.head, to.1, cert.headRank),
               loc + Mark(step) + Trail(steps), f);
    assert ([step] + steps)[1..] == steps;
    assert loc + Trail([step] + steps) == loc + Mark(step) + Trail(steps);
    assert Reached(docs, side, at, under, [step] + steps, to, cert);
  }

  lemma {:induction false} FindingHasCause(docs: Docs, o: Node, n: Node, loc: string, side: Side, seen: Pairs,
        f: Finding, cert: Cert)
    requires Certified(docs, cert) && o in cert.baseNodes && n in cert.headNodes
    requires f in SchemaDiff(docs, o, n, loc, side, seen, cert)
    ensures Found(docs, side, (o, n), seen, loc, f, cert)
    decreases |AllPairs(cert) - seen|
  {
    hide ViewDiff, AllPairs, Flatten, TypesDiffer, PromisesNothing, Retyped, NoClaim, Cause, TypeNames, NullMarked;
    hide MayBeNull;
    var a, b := Flatten(docs.base, o, cert.baseRank), Flatten(docs.head, n, cert.headRank);
    TestsExact(side, a, b);
    assert loc + Trail([]) == loc;
    assert Reached(docs, side, (o, n), seen, [], (o, n), cert);
    if TypesDiffer(a, b) {
      ChangeExact(side, a, b, loc, f);
    } else {
      ViewExact(docs, a, b, loc, side, seen + {(o, n)}, f, cert);
      if !Cause(side, a, b, loc, f) {
        var step :| InStep(docs, a, b, step, loc, side, seen + {(o, n)}, f, cert);
        var c := Below(a, b, step).value;
        Shrinks(cert, seen, o, n);
        FindingHasCause(docs, c.0, c.1, loc + Mark(step), side, seen + {(o, n)}, f, cert);
        FoundBefore(docs, side, (o, n), seen, step, loc, f, cert);
      }
    }
  }

  lemma {:induction false} CauseIsFound(docs: Docs, o: Node, n: Node, loc: string, side: Side, seen: Pairs,
        steps: seq<Step>, to: (Node, Node), f: Finding, cert: Cert)
    requires Certified(docs, cert) && o in cert.baseNodes && n in cert.headNodes
    requires Reached(docs, side, (o, n), seen, steps, to, cert)
    requires Cause(side, Flatten(docs.base, to.0, cert.baseRank), Flatten(docs.head, to.1, cert.headRank),
                   loc + Trail(steps), f)
    ensures f in SchemaDiff(docs, o, n, loc, side, seen, cert)
    decreases |steps|
  {
    hide ViewDiff, AllPairs, Flatten, TypesDiffer, PromisesNothing, Retyped, NoClaim, TypeNames, NullMarked;
    hide MayBeNull, OwnCause, FieldCause;
    var a, b := Flatten(docs.base, o, cert.baseRank), Flatten(docs.head, n, cert.headRank);
    TestsExact(side, a, b);
    if steps == [] {
      assert loc + Trail([]) == loc;
      if TypesDiffer(a, b) {
        ChangeExact(side, a, b, loc, f);
      } else {
        ViewExact(docs, a, b, loc, side, seen + {(o, n)}, f, cert);
      }
    } else {
      var c := Below(a, b, steps[0]).value;
      assert loc + Trail(steps) == loc + Mark(steps[0]) + Trail(steps[1..]);
      CauseIsFound(docs, c.0, c.1, loc + Mark(steps[0]), side, seen + {(o, n)}, steps[1..], to, f, cert);
      ViewExact(docs, a, b, loc, side, seen + {(o, n)}, f, cert);
      assert InStep(docs, a, b, steps[0], loc, side, seen + {(o, n)}, f, cert);
    }
  }

  /** The comparison of two schemas makes a finding exactly if a pair of schemas that it reaches,
      at the place that the finding names, is its cause. */
  lemma FindingsExact(docs: Docs, o: Node, n: Node, loc: string, side: Side, seen: Pairs, f: Finding, cert: Cert)
    requires Certified(docs, cert) && o in cert.baseNodes && n in cert.headNodes
    ensures f in SchemaDiff(docs, o, n, loc, side, seen, cert) <==> Found(docs, side, (o, n), seen, loc, f, cert)
  {
    hide SchemaDiff, Cause, Reached;
    if f in SchemaDiff(docs, o, n, loc, side, seen, cert) {
      FindingHasCause(docs, o, n, loc, side, seen, f, cert);
    }
    if Found(docs, side, (o, n), seen, loc, f, cert) {
      var steps, to :| Reached(docs, side, (o, n), seen, steps, to, cert)
        && Cause(side, Flatten(docs.base, to.0, cert.baseRank), Flatten(docs.head, to.1, cert.headRank),
                 loc + Trail(steps), f);
      CauseIsFound(docs, o, n, loc, side, seen, steps, to, f, cert);
    }
  }

  /** Two schemas compare without a finding exactly if no pair that is reached is a cause of one. */
  lemma SilentExact(docs: Docs, o: Node, n: Node, loc: string, side: Side, cert: Cert)
    requires Certified(docs, cert) && o in cert.baseNodes && n in cert.headNodes
    ensures SchemaDiff(docs, o, n, loc, side, {}, cert) == [] <==>
      forall f :: !Found(docs, side, (o, n), {}, loc, f, cert)
  {
    hide SchemaDiff, Found;
    var fs := SchemaDiff(docs, o, n, loc, side, {}, cert);
    forall f ensures f in fs <==> Found(docs, side, (o, n), {}, loc, f, cert) {
      FindingsExact(docs, o, n, loc, side, {}, f, cert);
    }
    if fs != [] {
      assert fs[0] in fs;
    }
  }

  const WHOLE := Schema(NOTHING.(ty := OneType(TInteger)), [])
  const ORDERS := Docs(Doc(map["Order" := TEXT]), Doc(map["Order" := WHOLE]))

  /** A reference to a component without parts has just the component's keys. */
  lemma ReferenceFlattens(doc: Doc, name: string, k: Keywords, rank: Node -> nat)
    requires Acyclic(doc, rank) && name in doc.comps && doc.comps[name] == Schema(k, [])
    ensures Flatten(doc, Ref(name), rank) == k
  {
    assert RefChain(doc, Ref(name), [name], Schema(k, []));
    ResolveExact(doc, Ref(name), Schema(k, []));
  }

  lemma OneChange(docs: Docs, o: Node, n: Node, a: Keywords, b: Keywords, side: Side, cert: Cert)
    requires Certified(docs, cert) && o in cert.baseNodes && n in cert.headNodes
    requires Flatten(docs.base, o, cert.baseRank) == a && Flatten(docs.head, n, cert.headRank) == b
    requires !PromisesNothing(side, a) && TypesDiffer(a, b)
    ensures SchemaDiff(docs, o, n, "", side, {}, cert)
      == [Finding(TypeChanged(TypeNames(a.ty), TypeNames(b.ty)), "")]
  {
    hide ViewDiff, Flatten, TypeNames, PromisesNothing, TypesDiffer, Retyped, NoClaim;
    TestsExact(side, a, b);
  }

  /** A component that turns from text into whole numbers is reported where a response refers to it. */
  lemma ChangedComponentIsReported()
    ensures var order := Ref("Order");
      && Certified(ORDERS, FlatCert(order, order))
      && SchemaDiff(ORDERS, order, order, "", Response, {}, FlatCert(order, order))
           == [Finding(TypeChanged(multiset{TString}, multiset{TInteger}), "")]
  {
    hide SchemaDiff, Flatten, Depth;
    var order := Ref("Order");
    DepthRanks(ORDERS.base);
    DepthRanks(ORDERS.head);
    ReferenceFlattens(ORDERS.base, "Order", TEXT.own, Depth);
    ReferenceFlattens(ORDERS.head, "Order", WHOLE.own, Depth);
    assert Named(TEXT.own.ty, TString) == 1 && Named(WHOLE.own.ty, TString) == 0 && Named(WHOLE.own.ty, TInteger) == 1;
    OneChange(ORDERS, order, order, TEXT.own, WHOLE.own, Response, FlatCert(order, order));
  }
}
