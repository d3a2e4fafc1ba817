/** The compatibility diff of `scripts/check-api-compat.py`.  `Comparer` is the script's own
    walk; `SchemaDiff` is the list of findings it makes.  The main results say that a silent
    diff is behavioural subtyping: old clients keep understanding new responses, and new
    servers keep accepting old requests, also where the walk is cut off at a recursive pair. */
module ApiCompat {
  import opened Common
  import opened ApiSchema
  import NameOrder

  datatype Kind =
    | TypeChanged(oldType: multiset<TypeTag>, newType: multiset<TypeTag>)
    | ResponseBecameNullable
    | RequestStoppedAcceptingNull
    | RequestEnumValueRemoved(value: Json)
    | RemovedResponseField
    | RemovedRequestField
    | ResponseFieldBecameOptional
    | RequestFieldBecameRequired
    | NewRequiredRequestField

  datatype Finding = Finding(kind: Kind, loc: string)

  datatype Docs = Docs(base: Doc, head: Doc)

  type Pairs = set<(Node, Node)>

  /** Why the walk ends: `allOf` ranks for both documents, and for each a finite set of nodes
      that holds every item and property schema of its members. */
  datatype Cert = Cert(baseRank: Node -> nat, headRank: Node -> nat, baseNodes: set<Node>, headNodes: set<Node>)

  ghost predicate ClosedUnder(doc: Doc, nodes: set<Node>, rank: Node -> nat)
    requires Acyclic(doc, rank)
  {
    forall n | n in nodes :: Known(Flatten(doc, n, rank), nodes)
  }

  ghost predicate Known(w: Keywords, nodes: set<Node>) {
    (w.items.Some? ==> w.items.value in nodes) && forall p | p in w.props :: w.props[p] in nodes
  }

  ghost predicate Certified(docs: Docs, cert: Cert) {
    && Acyclic(docs.base, cert.baseRank) && Acyclic(docs.head, cert.headRank)
    && ClosedUnder(docs.base, cert.baseNodes, cert.baseRank)
    && ClosedUnder(docs.head, cert.headNodes, cert.headRank)
  }

  ghost function AllPairs(cert: Cert): Pairs {
    set a, b | a in cert.baseNodes && b in cert.headNodes :: (a, b)
  }

  predicate IsEmpty(w: Keywords) {
    w == NOTHING
  }

  predicate NoClaim(side: Side, w: Keywords) {
    IsEmpty(w) || (side.Response? && BareReadOnlyString(w))
  }

  predicate Retyped(a: Keywords, b: Keywords) {
    Typed(a.ty) && Typed(b.ty) && TypeNames(a.ty) != TypeNames(b.ty)
  }

  // ----- the findings of one comparison

  function NullFindings(side: Side, a: Keywords, b: Keywords, loc: string): seq<Finding> {
    if side.Response? && !NullMarked(a) && NullMarked(b) then [Finding(ResponseBecameNullable, loc)]
    else if side.Request? && NullMarked(a) && !NullMarked(b) then [Finding(RequestStoppedAcceptingNull, loc)]
    else []
  }

  function EnumFindings(dropped: seq<Json>, kept: seq<Json>, loc: string): seq<Finding> {
    if dropped == [] then []
    else (if dropped[0] !in kept then [Finding(RequestEnumValueRemoved(dropped[0]), loc)] else [])
         + EnumFindings(dropped[1..], kept, loc)
  }

  function RequestEnumFindings(side: Side, a: Keywords, b: Keywords, loc: string): seq<Finding> {
    if side.Request? && a.enum.Some? && b.enum.Some? then EnumFindings(a.enum.value, b.enum.value, loc) else []
  }

  function FieldFindings(side: Side, a: Keywords, b: Keywords, name: string, loc: string): seq<Finding> {
    (if side.Response? && name in a.required && name !in b.required
     then [Finding(ResponseFieldBecameOptional, loc)] else [])
    + (if side.Request? && name in b.required && name !in a.required
       then [Finding(RequestFieldBecameRequired, loc)] else [])
  }

  function RequiredFindings(names: seq<string>, loc: string): seq<Finding> {
    if names == [] then []
    else [Finding(NewRequiredRequestField, loc + " ." + names[0])] + RequiredFindings(names[1..], loc)
  }

  function NewRequired(side: Side, a: Keywords, b: Keywords, loc: string): seq<Finding> {
    if side.Request? then RequiredFindings(NameOrder.Sorted(b.required - a.props.Keys), loc) else []
  }

  function SchemaDiff(docs: Docs, o: Node, n: Node, loc: string, side: Side, seen: Pairs,
        ghost cert: Cert): seq<Finding>
    requires Certified(docs, cert) && o in cert.baseNodes && n in cert.headNodes
    decreases |AllPairs(cert) - seen|, 0
  {
    if (o, n) in seen then [] else
      var a, b := Flatten(docs.base, o, cert.baseRank), Flatten(docs.head, n, cert.headRank);
      if NoClaim(side, a) then []
      else if Retyped(a, b) then [Finding(TypeChanged(TypeNames(a.ty), TypeNames(b.ty)), loc)]
      else
        Shrinks(cert, seen, o, n);
        ViewDiff(docs, a, b, loc, side, seen + {(o, n)}, cert)
  }

  function ViewDiff(docs: Docs, a: Keywords, b: Keywords, loc: string, side: Side, seen: Pairs,
        ghost cert: Cert): seq<Finding>
    requires Certified(docs, cert) && Known(a, cert.baseNodes) && Known(b, cert.headNodes)
    decreases |AllPairs(cert) - seen|, 3 + |a.props|
  {
    NullFindings(side, a, b, loc)
    + RequestEnumFindings(side, a, b, loc)
    + ItemsDiff(docs, a, b, loc, side, seen, cert)
    + PropsDiff(docs, a, b, NameOrder.Sorted(a.props.Keys), loc, side, seen, cert)
    + NewRequired(side, a, b, loc)
  }

  function ItemsDiff(docs: Docs, a: Keywords, b: Keywords, loc: string, side: Side, seen: Pairs,
        ghost cert: Cert): seq<Finding>
    requires Certified(docs, cert)
    requires a.items.Some? ==> a.items.value in cert.baseNodes
    requires b.items.Some? ==> b.items.value in cert.headNodes
    decreases |AllPairs(cert) - seen|, 1
  {
    if a.items.Some? && b.items.Some?
    then SchemaDiff(docs, a.items.value, b.items.value, loc + "[]", side, seen, cert) else []
  }

  function FieldDiff(docs: Docs, a: Keywords, b: Keywords, name: string, loc: string, side: Side, seen: Pairs,
        ghost cert: Cert): seq<Finding>
    requires Certified(docs, cert)
    requires name in a.props && a.props[name] in cert.baseNodes
    requires name in b.props ==> b.props[name] in cert.headNodes
    decreases |AllPairs(cert) - seen|, 1
  {
    if name !in b.props then [Finding(if side.Response? then RemovedResponseField else RemovedRequestField, loc)]
    else FieldFindings(side, a, b, name, loc)
         + SchemaDiff(docs, a.props[name], b.props[name], loc, side, seen, cert)
  }

  function PropsDiff(docs: Docs, a: Keywords, b: Keywords, names: seq<string>, loc: string, side: Side, seen: Pairs,
        ghost cert: Cert): seq<Finding>
    requires Certified(docs, cert)
    requires forall p | p in names :: p in a.props && a.props[p] in cert.baseNodes
    requires forall p | p in names && p in b.props :: b.props[p] in cert.headNodes
    decreases |AllPairs(cert) - seen|, 2 + |names|
  {
    if names == [] then [] else
      FieldDiff(docs, a, b, names[0], loc + " ." + names[0], side, seen, cert)
      + PropsDiff(docs, a, b, names[1..], loc, side, seen, cert)
  }

  lemma Shrinks(cert: Cert, seen: Pairs, o: Node, n: Node)
    requires o in cert.baseNodes && n in cert.headNodes && (o, n) !in seen
    ensures |AllPairs(cert) - (seen + {(o, n)})| < |AllPairs(cert) - seen|
  {
    var before, after := AllPairs(cert) - seen, AllPairs(cert) - (seen + {(o, n)});
    assert (o, n) in before;
    assert after == before - {(o, n)};
  }

  /** The comparer object: it carries the two documents and appends to its list of findings. */
  class Comparer {
    const docs: Docs
    var findings: seq<Finding>

    constructor (docs: Docs)
      ensures this.docs == docs && findings == []
    {
      this.docs := docs;
      findings := [];
    }

    method Add(kind: Kind, loc: string)
      modifies this`findings
      ensures findings == old(findings) + [Finding(kind, loc)]
    {
      findings := findings + [Finding(kind, loc)];
    }

    method CompareSchema(o: Node, n: Node, loc: string, side: Side, seen: Pairs, ghost cert: Cert)
      requires Certified(docs, cert) && o in cert.baseNodes && n in cert.headNodes
      modifies this`findings
      ensures findings == old(findings) + SchemaDiff(docs, o, n, loc, side, seen, cert)
      decreases |AllPairs(cert) - seen|, 0
    {
      hide ViewDiff, MergeParts, AllPairs, Known, TypeNames;
      if (o, n) in seen {
        return;
      }
      var a := FlattenNode(docs.base, o, cert.baseRank);
      var b := FlattenNode(docs.head, n, cert.headRank);
      if NoClaim(side, a) {
        return;
      }
      if Retyped(a, b) {
        Add(TypeChanged(TypeNames(a.ty), TypeNames(b.ty)), loc);
        return;
      }
      Shrinks(cert, seen, o, n);
      CompareViews(a, b, loc, side, seen + {(o, n)}, cert);
    }

    method CompareViews(a: Keywords, b: Keywords, loc: string, side: Side, seen: Pairs, ghost cert: Cert)
      requires Certified(docs, cert) && Known(a, cert.baseNodes) && Known(b, cert.headNodes)
      modifies this`findings
      ensures findings == old(findings) + ViewDiff(docs, a, b, loc, side, seen, cert)
      decreases |AllPairs(cert) - seen|, 3 + |a.props|
    {
      hide Certified, AllPairs, ItemsDiff, PropsDiff, NullFindings, RequestEnumFindings, NewRequired, NameOrder.Sorted;
      findings := findings + NullFindings(side, a, b, loc) + RequestEnumFindings(side, a, b, loc);
      CompareItems(a, b, loc, side, seen, cert);
      CompareProps(a, b, loc, side, seen, cert);
      findings := findings + NewRequired(side, a, b, loc);
    }

    method CompareItems(a: Keywords, b: Keywords, loc: string, side: Side, seen: Pairs, ghost cert: Cert)
      requires Certified(docs, cert)
      requires a.items.Some? ==> a.items.value in cert.baseNodes
      requires b.items.Some? ==> b.items.value in cert.headNodes
      modifies this`findings
      ensures findings == old(findings) + ItemsDiff(docs, a, b, loc, side, seen, cert)
      decreases |AllPairs(cert) - seen|, 1
    {
      if a.items.Some? && b.items.Some? {
        CompareSchema(a.items.value, b.items.value, loc + "[]", side, seen, cert);
      }
    }

    method CompareField(a: Keywords, b: Keywords, name: string, loc: string, side: Side, seen: Pairs, ghost cert: Cert)
      requires Certified(docs, cert)
      requires name in a.props && a.props[name] in cert.baseNodes
      requires name in b.props ==> b.props[name] in cert.headNodes
      modifies this`findings
      ensures findings == old(findings) + FieldDiff(docs, a, b, name, loc, side, seen, cert)
      decreases |AllPairs(cert) - seen|, 1
    {
      hide SchemaDiff, Certified;
      if name !in b.props {
        Add(if side.Response? then RemovedResponseField else RemovedRequestField, loc);
      } else {
        findings := findings + FieldFindings(side, a, b, name, loc);
        CompareSchema(a.props[name], b.props[name], loc, side, seen, cert);
      }
    }

    method CompareProps(a: Keywords, b: Keywords, loc: string, side: Side, seen: Pairs, ghost cert: Cert)
      requires Certified(docs, cert)
      requires Known(a, cert.baseNodes) && Known(b, cert.headNodes)
      modifies this`findings
      ensures findings == old(findings) + PropsDiff(docs, a, b, NameOrder.Sorted(a.props.Keys), loc, side, seen, cert)
      decreases |AllPairs(cert) - seen|, 2
    {
      hide SchemaDiff, FieldDiff, Certified, AllPairs, NameOrder.Sorted;
      var names := NameOrder.Sorted(a.props.Keys);
      ghost var all := findings + PropsDiff(docs, a, b, names, loc, side, seen, cert);
      var i := 0;
      while i < |names|
        invariant 0 <= i <= |names|
        invariant findings + PropsDiff(docs, a, b, names[i..], loc, side, seen, cert) == all
      {
        var name := names[i];
        ghost var before, rest := findings, PropsDiff(docs, a, b, names[i + 1..], loc, side, seen, cert);
        assert name in names && names[i..][1..] == names[i + 1..];
        CompareField(a, b, name, loc + " ." + name, side, seen, cert);
        assert findings + rest == before + (FieldDiff(docs, a, b, name, loc + " ." + name, side, seen, cert) + rest);
        i := i + 1;
      }
    }
  }
}
