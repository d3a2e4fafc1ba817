/** The diff over a whole document: operations, parameters, request bodies and responses, and
    the experimental paths that are left out of it. */
module ApiPaths {
  import opened Common
  import opened ApiSchema
  import opened ApiCompat
  import opened ApiContract
  import NameOrder

  datatype Param = Param(required: bool, schema: Node)

  datatype Body = Body(required: bool, content: map<string, Node>)

  /** Parameters are keyed by `in:name`, responses by status code and media type. */
  datatype Operation = Operation(
    params: map<string, Param>, body: Option<Body>, responses: map<string, map<string, Node>>)

  /** `paths` maps a path and a lower-case method to an operation. */
  datatype Spec = Spec(paths: map<string, map<string, Operation>>, doc: Doc)

  const HTTP_METHODS := ["get", "put", "post", "patch", "delete", "head", "options", "trace"]

  datatype Problem =
    | RemovedOperation
    | RemovedParameter(name: string)
    | ParameterBecameRequired(name: string)
    | ParameterTypeChanged(name: string)
    | NewRequiredParameter(name: string)
    | NewRequiredRequestBody
    | RequestBodyBecameRequired
    | RemovedRequestMediaType(media: string)
    | RemovedResponseStatus(code: string)
    | RemovedResponseMediaType(code: string, media: string)
    | InSchema(finding: ApiCompat.Finding)

  datatype Report = Report(path: string, verb: string, problem: Problem)

  function InSchemas(fs: seq<ApiCompat.Finding>): seq<Problem> {
    if fs == [] then [] else [InSchema(fs[0])] + InSchemas(fs[1..])
  }

  // ----- one operation

  ghost predicate KnownContent(content: map<string, Node>, nodes: set<Node>) {
    forall m | m in content :: content[m] in nodes
  }

  ghost predicate KnownOp(op: Operation, nodes: set<Node>) {
    && (op.body.Some? ==> KnownContent(op.body.value.content, nodes))
    && forall c | c in op.responses :: KnownContent(op.responses[c], nodes)
  }

  function ParamProblems(docs: Docs, p: Param, q: Param, name: string, ghost cert: Cert): seq<Problem>
    requires Certified(docs, cert)
  {
    (if q.required && !p.required then [ParameterBecameRequired(name)] else [])
    + (if Retyped(Flatten(docs.base, p.schema, cert.baseRank), Flatten(docs.head, q.schema, cert.headRank))
       then [ParameterTypeChanged(name)] else [])
  }

  function OldParamsDiff(docs: Docs, o: Operation, n: Operation, names: seq<string>, ghost cert: Cert): seq<Problem>
    requires Certified(docs, cert)
    requires forall p | p in names :: p in o.params
  {
    if names == [] then [] else
      (if names[0] in n.params then ParamProblems(docs, o.params[names[0]], n.params[names[0]], names[0], cert)
       else [RemovedParameter(names[0])])
      + OldParamsDiff(docs, o, n, names[1..], cert)
  }

  function NewParamsDiff(o: Operation, n: Operation, names: seq<string>): seq<Problem>
    requires forall p | p in names :: p in n.params
  {
    if names == [] then [] else
      (if names[0] !in o.params && n.params[names[0]].required then [NewRequiredParameter(names[0])] else [])
      + NewParamsDiff(o, n, names[1..])
  }

  function ContentDiff(docs: Docs, was: map<string, Node>, now: map<string, Node>, medias: seq<string>,
        gone: string -> Problem,
                       loc: string, side: Side, ghost cert: Cert): seq<Problem>
    requires Certified(docs, cert) && KnownContent(was, cert.baseNodes) && KnownContent(now, cert.headNodes)
    requires forall m | m in medias :: m in was
  {
    if medias == [] then [] else
      var m := medias[0];
      (if m in now then InSchemas(SchemaDiff(docs, was[m], now[m], loc + m, side, {}, cert)) else [gone(m)])
      + ContentDiff(docs, was, now, medias[1..], gone, loc, side, cert)
  }

  function BodyDiff(docs: Docs, o: Operation, n: Operation, ghost cert: Cert): seq<Problem>
    requires Certified(docs, cert) && KnownOp(o, cert.baseNodes) && KnownOp(n, cert.headNodes)
  {
    var needed := n.body.Some? && n.body.value.required;
    if o.body.None? then (if needed then [NewRequiredRequestBody] else [])
    else
      var content := if n.body.Some? then n.body.value.content else map[];
      (if needed && !o.body.value.required then [RequestBodyBecameRequired] else [])
      + ContentDiff(docs, o.body.value.content, content, NameOrder.Sorted(o.body.value.content.Keys),
                    m => RemovedRequestMediaType(m), "request ", Request, cert)
  }

  predicate IsSuccess(code: string) {
    code != "" && code[0] == '2'
  }

  function ResponsesDiff(docs: Docs, o: Operation, n: Operation, codes: seq<string>, ghost cert: Cert): seq<Problem>
    requires Certified(docs, cert) && KnownOp(o, cert.baseNodes) && KnownOp(n, cert.headNodes)
    requires forall c | c in codes :: c in o.responses
  {
    if codes == [] then [] else
      var c := codes[0];
      (if !IsSuccess(c) then []
       else if c !in n.responses then [RemovedResponseStatus(c)]
       else ContentDiff(docs, o.responses[c], n.responses[c], NameOrder.Sorted(o.responses[c].Keys),
                        m => RemovedResponseMediaType(c, m), "response " + c + " ", Response, cert))
      + ResponsesDiff(docs, o, n, codes[1..], cert)
  }

  function OpDiff(docs: Docs, o: Operation, n: Operation, ghost cert: Cert): seq<Problem>
    requires Certified(docs, cert) && KnownOp(o, cert.baseNodes) && KnownOp(n, cert.headNodes)
  {
    OldParamsDiff(docs, o, n, NameOrder.Sorted(o.params.Keys), cert)
    + NewParamsDiff(o, n, NameOrder.Sorted(n.params.Keys))
    + BodyDiff(docs, o, n, cert)
    + ResponsesDiff(docs, o, n, NameOrder.Sorted(o.responses.Keys), cert)
  }

  // ----- the whole document

  ghost predicate KnownSpec(s: Spec, nodes: set<Node>) {
    forall p, m | p in s.paths && m in s.paths[p] :: KnownOp(s.paths[p][m], nodes)
  }

  ghost predicate Ready(base: Spec, head: Spec, cert: Cert) {
    && Certified(Docs(base.doc, head.doc), cert)
    && KnownSpec(base, cert.baseNodes) && KnownSpec(head, cert.headNodes)
  }

  function Tagged(path: string, verb: string, ps: seq<Problem>): seq<Report> {
    if ps == [] then [] else [Report(path, verb, ps[0])] + Tagged(path, verb, ps[1..])
  }

  function VerbDiff(base: Spec, head: Spec, path: string, verb: string, ghost cert: Cert): seq<Report>
    requires Ready(base, head, cert) && path in base.paths
  {
    if verb !in base.paths[path] then []
    else if path !in head.paths || verb !in head.paths[path] then [Report(path, verb, RemovedOperation)]
    else Tagged(path, verb, OpDiff(Docs(base.doc, head.doc), base.paths[path][verb], head.paths[path][verb], cert))
  }

  function PathDiff(base: Spec, head: Spec, path: string, verbs: seq<string>, ghost cert: Cert): seq<Report>
    requires Ready(base, head, cert) && path in base.paths
  {
    if verbs == [] then []
    else VerbDiff(base, head, path, verbs[0], cert) + PathDiff(base, head, path, verbs[1..], cert)
  }

  function PathsDiff(base: Spec, head: Spec, paths: seq<string>, ghost cert: Cert): seq<Report>
    requires Ready(base, head, cert)
    requires forall p | p in paths :: p in base.paths
  {
    if paths == [] then []
    else PathDiff(base, head, paths[0], HTTP_METHODS, cert) + PathsDiff(base, head, paths[1..], cert)
  }

  function SpecDiff(base: Spec, head: Spec, ghost cert: Cert): seq<Report>
    requires Ready(base, head, cert)
  {
    PathsDiff(base, head, NameOrder.Sorted(base.paths.Keys), cert)
  }

  method RunPath(base: Spec, head: Spec, path: string, ghost cert: Cert) returns (findings: seq<Report>)
    requires Ready(base, head, cert) && path in base.paths
    ensures findings == PathDiff(base, head, path, HTTP_METHODS, cert)
  {
    hide VerbDiff, Ready;
    findings := [];
    var j := 0;
    while j < |HTTP_METHODS|
      invariant 0 <= j <= |HTTP_METHODS|
      invariant findings + PathDiff(base, head, path, HTTP_METHODS[j..], cert)
        == PathDiff(base, head, path, HTTP_METHODS, cert)
    {
      ghost var before, rest := findings, PathDiff(base, head, path, HTTP_METHODS[j + 1..], cert);
      assert HTTP_METHODS[j..][1..] == HTTP_METHODS[j + 1..];
      findings := findings + VerbDiff(base, head, path, HTTP_METHODS[j], cert);
      assert findings + rest == before + PathDiff(base, head, path, HTTP_METHODS[j..], cert);
      j := j + 1;
    }
  }

  method Run(base: Spec, head: Spec, ghost cert: Cert) returns (findings: seq<Report>)
    requires Ready(base, head, cert)
    ensures findings == SpecDiff(base, head, cert)
  {
    hide PathDiff, Ready, NameOrder.Sorted;
    findings := [];
    var paths := NameOrder.Sorted(base.paths.Keys);
    var i := 0;
    while i < |paths|
      invariant 0 <= i <= |paths|
      invariant findings + PathsDiff(base, head, paths[i..], cert) == SpecDiff(base, head, cert)
    {
      assert paths[i] in paths && paths[i..][1..] == paths[i + 1..];
      ghost var before, rest := findings, PathsDiff(base, head, paths[i + 1..], cert);
      var here := RunPath(base, head, paths[i], cert);
      findings := findings + here;
      assert findings + rest == before + PathsDiff(base, head, paths[i..], cert);
      i := i + 1;
    }
  }

  // ----- a silent diff keeps every client working

  ghost predicate CarriesAll(docs: Docs, side: Side, o: Node, n: Node, cert: Cert)
    requires Certified(docs, cert)
  {
    forall v :: Carries(docs, side, o, n, v, cert)
  }

  ghost predicate AllInFragment(docs: Docs, side: Side, o: Node, n: Node, cert: Cert)
    requires Certified(docs, cert) && o in cert.baseNodes && n in cert.headNodes
  {
    forall p | p in Compared(docs, side, o, n, {}, cert) :: InFragment(docs, side, p.0, p.1, cert)
  }

  ghost predicate ContentInFragment(docs: Docs, side: Side, was: map<string, Node>, now: map<string, Node>, cert: Cert)
    requires Certified(docs, cert) && KnownContent(was, cert.baseNodes) && KnownContent(now, cert.headNodes)
  {
    forall m | m in was && m in now :: AllInFragment(docs, side, was[m], now[m], cert)
  }

  ghost predicate OpInFragment(docs: Docs, o: Operation, n: Operation, cert: Cert)
    requires Certified(docs, cert) && KnownOp(o, cert.baseNodes) && KnownOp(n, cert.headNodes)
  {
    && (o.body.Some? && n.body.Some? ==>
      ContentInFragment(docs, Request, o.body.value.content, n.body.value.content, cert))
    && forall c | c in o.responses && c in n.responses ::
         ContentInFragment(docs, Response, o.responses[c], n.responses[c], cert)
  }

  ghost predicate ContentCarries(docs: Docs, side: Side, was: map<string, Node>, now: map<string, Node>, cert: Cert)
    requires Certified(docs, cert)
  {
    forall m | m in was :: m in now && CarriesAll(docs, side, was[m], now[m], cert)
  }

  /** A client written for `o` can call `n`: every parameter is still there and none is newly
      demanded, every body it may send is accepted, and every success it may get was promised. */
  ghost predicate Serves(docs: Docs, o: Operation, n: Operation, cert: Cert)
    requires Certified(docs, cert)
  {
    && (forall p | p in o.params :: p in n.params &&
          !Retyped(Flatten(docs.base, o.params[p].schema, cert.baseRank),
            Flatten(docs.head, n.params[p].schema, cert.headRank)))
    && (forall p | p in n.params && n.params[p].required :: p in o.params && o.params[p].required)
    && (n.body.Some? && n.body.value.required ==> o.body.Some? && o.body.value.required)
    && (o.body.Some? ==>
          ContentCarries(docs, Request, o.body.value.content,
                         if n.body.Some? then n.body.value.content else map[], cert))
    && (forall c | c in o.responses && IsSuccess(c) ::
          c in n.responses && ContentCarries(docs, Response, o.responses[c], n.responses[c], cert))
  }

  lemma {:induction false} SilentOldParams(docs: Docs, o: Operation, n: Operation, names: seq<string>, cert: Cert)
    requires Certified(docs, cert) && forall p | p in names :: p in o.params
    requires OldParamsDiff(docs, o, n, names, cert) == []
    ensures forall p | p in names :: p in n.params && ParamProblems(docs, o.params[p], n.params[p], p, cert) == []
  {
    hide ParamProblems, Certified;
    if names != [] {
      SilentOldParams(docs, o, n, names[1..], cert);
      assert names == [names[0]] + names[1..];
    }
  }

  lemma {:induction false} SilentNewParams(o: Operation, n: Operation, names: seq<string>)
    requires forall p | p in names :: p in n.params
    requires NewParamsDiff(o, n, names) == []
    ensures forall p | p in names && n.params[p].required :: p in o.params
  {
    if names != [] {
      SilentNewParams(o, n, names[1..]);
      assert names == [names[0]] + names[1..];
    }
  }

  lemma {:induction false} SilentContent(docs: Docs, was: map<string, Node>, now: map<string, Node>,
        medias: seq<string>,
                                         gone: string -> Problem, loc: string, side: Side, cert: Cert)
    requires Certified(docs, cert) && KnownContent(was, cert.baseNodes) && KnownContent(now, cert.headNodes)
    requires ContentInFragment(docs, side, was, now, cert)
    requires forall m | m in medias :: m in was
    requires ContentDiff(docs, was, now, medias, gone, loc, side, cert) == []
    ensures forall m | m in medias :: m in now && CarriesAll(docs, side, was[m], now[m], cert)
  {
    hide SchemaDiff, Certified, CarriesAll, AllInFragment;
    if medias != [] {
      var m := medias[0];
      assert m in now && SchemaDiff(docs, was[m], now[m], loc + m, side, {}, cert) == [];
      SilentPair(docs, was[m], now[m], loc + m, side, cert);
      SilentContent(docs, was, now, medias[1..], gone, loc, side, cert);
      assert medias == [m] + medias[1..];
    }
  }

  lemma SilentPair(docs: Docs, o: Node, n: Node, loc: string, side: Side, cert: Cert)
    requires Certified(docs, cert) && o in cert.baseNodes && n in cert.headNodes
    requires AllInFragment(docs, side, o, n, cert)
    requires SchemaDiff(docs, o, n, loc, side, {}, cert) == []
    ensures CarriesAll(docs, side, o, n, cert)
  {
    hide SchemaDiff, Admits, Compared, InFragment;
    forall v ensures Carries(docs, side, o, n, v, cert) {
      DiffSound(docs, side, o, n, loc, v, cert);
    }
  }

  lemma {:induction false} SilentResponses(docs: Docs, o: Operation, n: Operation, codes: seq<string>, cert: Cert)
    requires Certified(docs, cert) && KnownOp(o, cert.baseNodes) && KnownOp(n, cert.headNodes)
    requires OpInFragment(docs, o, n, cert)
    requires forall c | c in codes :: c in o.responses
    requires ResponsesDiff(docs, o, n, codes, cert) == []
    ensures forall c | c in codes && IsSuccess(c) ::
      c in n.responses && ContentCarries(docs, Response, o.responses[c], n.responses[c], cert)
  {
    hide Certified, ContentDiff, CarriesAll, ContentInFragment;
    if codes != [] {
      var c := codes[0];
      if IsSuccess(c) {
        assert c in n.responses;
        SilentContent(docs, o.responses[c], n.responses[c], NameOrder.Sorted(o.responses[c].Keys),
                      m => RemovedResponseMediaType(c, m), "response " + c + " ", Response, cert);
      }
      SilentResponses(docs, o, n, codes[1..], cert);
      assert codes == [c] + codes[1..];
    }
  }

  lemma SilentBody(docs: Docs, o: Operation, n: Operation, cert: Cert)
    requires Certified(docs, cert) && KnownOp(o, cert.baseNodes) && KnownOp(n, cert.headNodes)
    requires OpInFragment(docs, o, n, cert) && BodyDiff(docs, o, n, cert) == []
    ensures n.body.Some? && n.body.value.required ==> o.body.Some? && o.body.value.required
    ensures o.body.Some? ==>
      ContentCarries(docs, Request, o.body.value.content,
                     if n.body.Some? then n.body.value.content else map[], cert)
  {
    hide Certified, ContentDiff, CarriesAll, AllInFragment;
    if o.body.Some? {
      var content := if n.body.Some? then n.body.value.content else map[];
      SilentContent(docs, o.body.value.content, content, NameOrder.Sorted(o.body.value.content.Keys),
                    m => RemovedRequestMediaType(m), "request ", Request, cert);
    }
  }

  lemma SilentParams(docs: Docs, o: Operation, n: Operation, cert: Cert)
    requires Certified(docs, cert)
    requires OldParamsDiff(docs, o, n, NameOrder.Sorted(o.params.Keys), cert) == []
    requires NewParamsDiff(o, n, NameOrder.Sorted(n.params.Keys)) == []
    ensures forall p | p in o.params ::
      && p in n.params
      && !Retyped(Flatten(docs.base, o.params[p].schema, cert.baseRank),
        Flatten(docs.head, n.params[p].schema, cert.headRank))
    ensures forall p | p in n.params && n.params[p].required :: p in o.params && o.params[p].required
  {
    hide Retyped, Flatten, Acyclic, ClosedUnder, OldParamsDiff, NewParamsDiff;
    SilentOldParams(docs, o, n, NameOrder.Sorted(o.params.Keys), cert);
    SilentNewParams(o, n, NameOrder.Sorted(n.params.Keys));
    assert forall p | p in o.params :: p in NameOrder.Sorted(o.params.Keys);
    assert forall p | p in n.params :: p in NameOrder.Sorted(n.params.Keys);
  }

  /** A silent operation serves every client of the old one. */
  lemma SilentOp(docs: Docs, o: Operation, n: Operation, cert: Cert)
    requires Certified(docs, cert) && KnownOp(o, cert.baseNodes) && KnownOp(n, cert.headNodes)
    requires OpInFragment(docs, o, n, cert) && OpDiff(docs, o, n, cert) == []
    ensures Serves(docs, o, n, cert)
  {
    hide Acyclic, ClosedUnder, BodyDiff, ResponsesDiff, OldParamsDiff, NewParamsDiff, ContentCarries, Retyped,
      Flatten, KnownContent, ContentInFragment, KnownOp, OpInFragment, IsSuccess, NameOrder.Sorted;
    SilentParams(docs, o, n, cert);
    SilentBody(docs, o, n, cert);
    SilentResponses(docs, o, n, NameOrder.Sorted(o.responses.Keys), cert);
    assert forall c | c in o.responses :: c in NameOrder.Sorted(o.responses.Keys);
  }

  lemma {:induction false} SilentVerbs(base: Spec, head: Spec, path: string, verbs: seq<string>, cert: Cert)
    requires Ready(base, head, cert) && path in base.paths
    ensures PathDiff(base, head, path, verbs, cert) == [] <==>
      forall v | v in verbs :: VerbDiff(base, head, path, v, cert) == []
  {
    hide VerbDiff, Ready;
    if verbs != [] {
      SilentVerbs(base, head, path, verbs[1..], cert);
      assert verbs == [verbs[0]] + verbs[1..];
    }
  }

  lemma {:induction false} SilentPaths(base: Spec, head: Spec, paths: seq<string>, cert: Cert)
    requires Ready(base, head, cert)
    requires forall p | p in paths :: p in base.paths
    ensures PathsDiff(base, head, paths, cert) == [] <==>
      forall p | p in paths :: PathDiff(base, head, p, HTTP_METHODS, cert) == []
  {
    hide PathDiff, Ready;
    if paths != [] {
      var here, rest := PathDiff(base, head, paths[0], HTTP_METHODS, cert), PathsDiff(base, head, paths[1..], cert);
      SilentPaths(base, head, paths[1..], cert);
      assert paths == [paths[0]] + paths[1..];
      assert here + rest == [] <==> here == [] && rest == [];
    }
  }

  /** The diff of two documents is silent exactly if that of every operation is. */
  lemma SilentSpec(base: Spec, head: Spec, cert: Cert)
    requires Ready(base, head, cert)
    ensures SpecDiff(base, head, cert) == [] <==>
      forall p, v | p in base.paths && v in HTTP_METHODS :: VerbDiff(base, head, p, v, cert) == []
  {
    hide VerbDiff, PathDiff, PathsDiff, Ready;
    var paths := NameOrder.Sorted(base.paths.Keys);
    SilentPaths(base, head, paths, cert);
    forall p | p in base.paths
      ensures PathDiff(base, head, p, HTTP_METHODS, cert) == [] <==>
        forall v | v in HTTP_METHODS :: VerbDiff(base, head, p, v, cert) == []
    {
      SilentVerbs(base, head, p, HTTP_METHODS, cert);
    }
    assert forall p | p in base.paths :: p in paths;
  }

  /** If the diff of two documents is silent, every baseline operation is still there and serves
      every client of the baseline, provided its schemas are in the fragment. */
  lemma SilentSpecServes(base: Spec, head: Spec, path: string, verb: string, cert: Cert)
    requires Ready(base, head, cert) && SpecDiff(base, head, cert) == []
    requires path in base.paths && verb in HTTP_METHODS && verb in base.paths[path]
    requires path in head.paths && verb in head.paths[path] ==>
      OpInFragment(Docs(base.doc, head.doc), base.paths[path][verb], head.paths[path][verb], cert)
    ensures path in head.paths && verb in head.paths[path]
    ensures Serves(Docs(base.doc, head.doc), base.paths[path][verb], head.paths[path][verb], cert)
  {
    hide OpDiff, Serves, OpInFragment, PathDiff, PathsDiff, Certified;
    SilentSpec(base, head, cert);
    assert VerbDiff(base, head, path, verb, cert) == [];
    SilentOp(Docs(base.doc, head.doc), base.paths[path][verb], head.paths[path][verb], cert);
  }

  // ----- a document against itself

  /** Every request body of the operation declares what it requires. */
  ghost predicate BodyDeclares(docs: Docs, o: Operation, cert: Cert)
    requires Certified(docs, cert) && SameOnBothSides(docs, cert) && KnownOp(o, cert.baseNodes)
  {
    o.body.Some? ==>
      forall m | m in o.body.value.content :: DeclaresAll(docs, Request, o.body.value.content[m], {}, cert)
  }

  ghost predicate BodiesDeclare(s: Spec, cert: Cert)
    requires Ready(s, s, cert) && SameOnBothSides(Docs(s.doc, s.doc), cert)
  {
    forall p, v | p in s.paths && v in HTTP_METHODS && v in s.paths[p] ::
      BodyDeclares(Docs(s.doc, s.doc), s.paths[p][v], cert)
  }

  lemma {:induction false} SelfOldParams(docs: Docs, o: Operation, names: seq<string>, cert: Cert)
    requires Certified(docs, cert) && SameOnBothSides(docs, cert)
    requires forall p | p in names :: p in o.params
    ensures OldParamsDiff(docs, o, o, names, cert) == []
  {
    hide Certified, Flatten, TypeNames;
    if names != [] {
      SelfOldParams(docs, o, names[1..], cert);
    }
  }

  lemma {:induction false} SelfNewParams(o: Operation, names: seq<string>)
    requires forall p | p in names :: p in o.params
    ensures NewParamsDiff(o, o, names) == []
  {
    if names != [] {
      SelfNewParams(o, names[1..]);
    }
  }

  lemma {:induction false} SelfContent(docs: Docs, content: map<string, Node>, medias: seq<string>,
        gone: string -> Problem, loc: string, side: Side, cert: Cert)
    requires Certified(docs, cert) && SameOnBothSides(docs, cert) && KnownContent(content, cert.baseNodes)
    requires forall m | m in medias :: m in content
    ensures ContentDiff(docs, content, content, medias, gone, loc, side, cert) == [] <==>
      forall m | m in medias :: DeclaresAll(docs, side, content[m], {}, cert)
    ensures side.Response? ==> ContentDiff(docs, content, content, medias, gone, loc, side, cert) == []
  {
    hide Certified, SchemaDiff, DeclaresAll;
    if medias != [] {
      var m := medias[0];
      SelfDiffExact(docs, content[m], loc + m, side, cert);
      SelfContent(docs, content, medias[1..], gone, loc, side, cert);
      assert medias == [m] + medias[1..];
    }
  }

  lemma {:induction false} SelfResponses(docs: Docs, o: Operation, codes: seq<string>, cert: Cert)
    requires Certified(docs, cert) && SameOnBothSides(docs, cert) && KnownOp(o, cert.baseNodes)
    requires forall c | c in codes :: c in o.responses
    ensures ResponsesDiff(docs, o, o, codes, cert) == []
  {
    hide Certified, ContentDiff, IsSuccess;
    if codes != [] {
      var c := codes[0];
      SelfContent(docs, o.responses[c], NameOrder.Sorted(o.responses[c].Keys),
                  m => RemovedResponseMediaType(c, m), "response " + c + " ", Response, cert);
      SelfResponses(docs, o, codes[1..], cert);
    }
  }

  lemma SelfOp(docs: Docs, o: Operation, cert: Cert)
    requires Certified(docs, cert) && SameOnBothSides(docs, cert) && KnownOp(o, cert.baseNodes)
    ensures OpDiff(docs, o, o, cert) == [] <==> BodyDeclares(docs, o, cert)
  {
    hide Certified, OldParamsDiff, NewParamsDiff, ContentDiff, ResponsesDiff, DeclaresAll;
    SelfOldParams(docs, o, NameOrder.Sorted(o.params.Keys), cert);
    SelfNewParams(o, NameOrder.Sorted(o.params.Keys));
    SelfResponses(docs, o, NameOrder.Sorted(o.responses.Keys), cert);
    if o.body.Some? {
      var content := o.body.value.content;
      SelfContent(docs, content, NameOrder.Sorted(content.Keys), m => RemovedRequestMediaType(m), "request ", Request,
        cert);
      assert forall m :: m in content <==> m in NameOrder.Sorted(content.Keys);
    }
  }

  lemma SelfVerb(s: Spec, path: string, verb: string, cert: Cert)
    requires Ready(s, s, cert) && SameOnBothSides(Docs(s.doc, s.doc), cert)
    requires path in s.paths && verb in s.paths[path]
    ensures VerbDiff(s, s, path, verb, cert) == [] <==> BodyDeclares(Docs(s.doc, s.doc), s.paths[path][verb], cert)
  {
    hide OpDiff, BodyDeclares, Certified, KnownOp, SameOnBothSides;
    SelfOp(Docs(s.doc, s.doc), s.paths[path][verb], cert);
  }

  /** Diffing a document against itself is silent exactly if every schema that its request
      bodies lead to declares the properties it requires. */
  lemma SelfSpecExact(s: Spec, cert: Cert)
    requires Ready(s, s, cert) && SameOnBothSides(Docs(s.doc, s.doc), cert)
    ensures SpecDiff(s, s, cert) == [] <==> BodiesDeclare(s, cert)
  {
    hide SpecDiff, OpDiff, Tagged, BodyDeclares, Certified, KnownOp, SameOnBothSides;
    SilentSpec(s, s, cert);
    forall p, v | p in s.paths && v in HTTP_METHODS
      ensures VerbDiff(s, s, p, v, cert) == [] <==>
        (v in s.paths[p] ==> BodyDeclares(Docs(s.doc, s.doc), s.paths[p][v], cert))
    {
      if v in s.paths[p] {
        SelfVerb(s, p, v, cert);
      }
    }
  }

  // ----- every pair of documents without `allOf` cycles can be compared

  /** The schemas that the comparison of a document starts from. */
  ghost function Roots(s: Spec): set<Node> {
    (set p, v, m | p in s.paths && v in s.paths[p] && s.paths[p][v].body.Some?
      && m in s.paths[p][v].body.value.content ::
       s.paths[p][v].body.value.content[m])
    + set p, v, c, m | p in s.paths && v in s.paths[p] && c in s.paths[p][v].responses
      && m in s.paths[p][v].responses[c] ::
        s.paths[p][v].responses[c][m]
  }

  ghost function SpecNodes(s: Spec): set<Node> {
    set r, x | r in Roots(s) && x in Universe(s.doc, r) :: x
  }

  lemma SpecNodesClosed(s: Spec, rank: Node -> nat)
    requires Acyclic(s.doc, rank)
    ensures KnownSpec(s, SpecNodes(s)) && ClosedUnder(s.doc, SpecNodes(s), rank)
  {
    forall r | r in Roots(s) ensures r in SpecNodes(s) {
      assert r in Nested(r) && r in Universe(s.doc, r);
    }
    forall x | x in SpecNodes(s) ensures Known(Flatten(s.doc, x, rank), SpecNodes(s)) {
      var r :| r in Roots(s) && x in Universe(s.doc, r);
      FlattenKnown(s.doc, r, x, rank);
    }
  }

  /** Two documents can be compared, and the comparison ends, exactly if no chain of composed
      parts in one of them comes back to where it started. */
  lemma ReadyExactly(base: Spec, head: Spec)
    ensures (exists cert :: Ready(base, head, cert)) <==> NoCycle(base.doc) && NoCycle(head.doc)
    ensures NoCycle(base.doc) && base == head ==>
      exists cert :: Ready(base, head, cert) && SameOnBothSides(Docs(base.doc, head.doc), cert)
  {
    RankExists(base.doc);
    RankExists(head.doc);
    if NoCycle(base.doc) && NoCycle(head.doc) {
      var baseRank :| Acyclic(base.doc, baseRank);
      var headRank :| Acyclic(head.doc, headRank);
      headRank := if base == head then baseRank else headRank;
      SpecNodesClosed(base, baseRank);
      SpecNodesClosed(head, headRank);
      assert Ready(base, head, Cert(baseRank, headRank, SpecNodes(base), SpecNodes(head)));
    }
  }

  // ----- experimental paths

  function Strip(s: Spec, experimental: string -> bool): Spec {
    s.(paths := map p | p in s.paths && !experimental(p) :: s.paths[p])
  }

  lemma {:induction false} StripPath(base: Spec, head: Spec, path: string, verbs: seq<string>,
        experimental: string -> bool, cert: Cert)
    requires Ready(base, head, cert) && Ready(Strip(base, experimental), Strip(head, experimental), cert)
    requires path in base.paths && !experimental(path)
    ensures PathDiff(Strip(base, experimental), Strip(head, experimental), path, verbs, cert)
      == PathDiff(base, head, path, verbs, cert)
  {
    hide OpDiff, Certified, KnownSpec;
    if verbs != [] {
      StripPath(base, head, path, verbs[1..], experimental, cert);
    }
  }

  lemma {:induction false} TaggedPath(path: string, verb: string, ps: seq<Problem>)
    ensures forall r | r in Tagged(path, verb, ps) :: r.path == path
  {
    if ps != [] {
      TaggedPath(path, verb, ps[1..]);
    }
  }

  lemma {:induction false} PathDiffPath(base: Spec, head: Spec, path: string, verbs: seq<string>, cert: Cert)
    requires Ready(base, head, cert) && path in base.paths
    ensures forall r | r in PathDiff(base, head, path, verbs, cert) :: r.path == path
  {
    hide OpDiff, Certified, KnownOp;
    if verbs != [] {
      var verb := verbs[0];
      if verb in base.paths[path] && path in head.paths && verb in head.paths[path] {
        TaggedPath(path, verb, OpDiff(Docs(base.doc, head.doc), base.paths[path][verb], head.paths[path][verb], cert));
      }
      PathDiffPath(base, head, path, verbs[1..], cert);
    }
  }

  lemma {:induction false} FilterAll<T>(s: seq<T>, keep: T -> bool, all: bool)
    requires forall x | x in s :: keep(x) == all
    ensures Filter(s, keep) == if all then s else []
  {
    if s != [] {
      assert s == [s[0]] + s[1..];
      FilterAll(s[1..], keep, all);
    }
  }

  lemma {:induction false} StripPaths(base: Spec, head: Spec, paths: seq<string>, experimental: string -> bool,
        cert: Cert)
    requires Ready(base, head, cert) && Ready(Strip(base, experimental), Strip(head, experimental), cert)
    requires forall p | p in paths :: p in base.paths
    ensures forall p | p in Filter(paths, p => !experimental(p)) :: p in Strip(base, experimental).paths
    ensures PathsDiff(Strip(base, experimental), Strip(head, experimental), Filter(paths, p => !experimental(p)), cert)
         == Filter(PathsDiff(base, head, paths, cert), (r: Report) => !experimental(r.path))
  {
    hide PathDiff, Ready;
    var keepPath, keep := p => !experimental(p), (r: Report) => !experimental(r.path);
    if paths != [] {
      var path, here := paths[0], PathDiff(base, head, paths[0], HTTP_METHODS, cert);
      StripPaths(base, head, paths[1..], experimental, cert);
      PathDiffPath(base, head, path, HTTP_METHODS, cert);
      FilterAll(here, keep, !experimental(path));
      FilterConcat(here, PathsDiff(base, head, paths[1..], cert), keep);
      if !experimental(path) {
        StripPath(base, head, path, HTTP_METHODS, experimental, cert);
        assert Filter(paths, keepPath) == [path] + Filter(paths[1..], keepPath);
      } else {
        assert Filter(paths, keepPath) == Filter(paths[1..], keepPath);
      }
    }
  }

  /** Dropping the experimental paths from both documents gives exactly the findings of the full
      diff that are on the other paths, in the same order. */
  lemma StripExact(base: Spec, head: Spec, experimental: string -> bool, cert: Cert)
    requires Ready(base, head, cert)
    ensures Ready(Strip(base, experimental), Strip(head, experimental), cert)
    ensures SpecDiff(Strip(base, experimental), Strip(head, experimental), cert)
         == Filter(SpecDiff(base, head, cert), (r: Report) => !experimental(r.path))
  {
    hide PathsDiff, OpDiff, Certified, KnownOp;
    var keep := p => !experimental(p);
    assert Ready(Strip(base, experimental), Strip(head, experimental), cert);
    NameOrder.SortedSelection(base.paths.Keys, Strip(base, experimental).paths.Keys, keep);
    StripPaths(base, head, NameOrder.Sorted(base.paths.Keys), experimental, cert);
    assert Filter(NameOrder.Sorted(base.paths.Keys), keep)
      == Filter(NameOrder.Sorted(base.paths.Keys), p => !experimental(p));
  }
}
