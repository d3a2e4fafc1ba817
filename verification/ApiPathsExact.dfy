/** Which problems the comparison of two documents reports, told from the documents alone. */
module ApiPathsExact {
  import opened Common
  import opened ApiSchema
  import opened ApiCompat
  import opened ApiExact
  import opened ApiPaths
  import NameOrder

  /** The schemas under a media type, which both sides have, show the finding. */
  ghost predicate InMedia(docs: Docs, was: map<string, Node>, now: map<string, Node>, media: string, loc: string,
        side: Side, f: ApiCompat.Finding, cert: Cert)
    requires Certified(docs, cert)
  {
    media in was && media in now && Found(docs, side, (was[media], now[media]), {}, loc + media, f, cert)
  }

  ghost predicate InContent(docs: Docs, was: map<string, Node>, now: map<string, Node>, loc: string, side: Side,
        f: ApiCompat.Finding, cert: Cert)
    requires Certified(docs, cert)
  {
    exists m :: InMedia(docs, was, now, m, loc, side, f, cert)
  }

  ghost predicate Success(code: string) {
    exists rest :: code == "2" + rest
  }

  /** What makes each problem one of the operation that was `o` and is `n`. */
  ghost predicate ProblemCause(docs: Docs, o: Operation, n: Operation, problem: Problem, cert: Cert)
    requires Certified(docs, cert)
  {
    match problem
    case RemovedOperation => false
    case RemovedParameter(p) => p in o.params && p !in n.params
    case ParameterBecameRequired(p) => p in o.params && p in n.params && !o.params[p].required && n.params[p].required
    case ParameterTypeChanged(p) =>
      && p in o.params && p in n.params
      && TypesDiffer(Flatten(docs.base, o.params[p].schema, cert.baseRank),
                     Flatten(docs.head, n.params[p].schema, cert.headRank))
    case NewRequiredParameter(p) => p !in o.params && p in n.params && n.params[p].required
    case NewRequiredRequestBody => o.body.None? && n.body.Some? && n.body.value.required
    case RequestBodyBecameRequired => o.body.Some? && !o.body.value.required && n.body.Some? && n.body.value.required
    case RemovedRequestMediaType(m) =>
      o.body.Some? && m in o.body.value.content && (n.body.Some? ==> m !in n.body.value.content)
    case RemovedResponseStatus(c) => Success(c) && c in o.responses && c !in n.responses
    case RemovedResponseMediaType(c, m) =>
      Success(c) && c in o.responses && c in n.responses && m in o.responses[c] && m !in n.responses[c]
    case InSchema(f) =>
      || (o.body.Some? && n.body.Some?
          && InContent(docs, o.body.value.content, n.body.value.content, "request ", Request, f, cert))
      || exists c :: Success(c) && c in o.responses && c in n.responses
           && InContent(docs, o.responses[c], n.responses[c], "response " + c + " ", Response, f, cert)
  }

  // ----- the lists of problems

  lemma {:induction false} InSchemasExact(fs: seq<ApiCompat.Finding>, problem: Problem)
    ensures problem in InSchemas(fs) <==> problem.InSchema? && problem.finding in fs
  {
    if fs != [] {
      InSchemasExact(fs[1..], problem);
      assert fs == [fs[0]] + fs[1..];
    }
  }

  lemma RetypedExact(docs: Docs, p: Param, q: Param, cert: Cert)
    requires Certified(docs, cert)
    ensures var a, b := Flatten(docs.base, p.schema, cert.baseRank), Flatten(docs.head, q.schema, cert.headRank);
      Retyped(a, b) <==> TypesDiffer(a, b)
  {
    hide Flatten, Retyped, TypesDiffer;
    TestsExact(Request, Flatten(docs.base, p.schema, cert.baseRank), Flatten(docs.head, q.schema, cert.headRank));
  }

  lemma {:induction false} OldParamsExact(docs: Docs, o: Operation, n: Operation, names: seq<string>,
        problem: Problem, cert: Cert)
    requires Certified(docs, cert) && forall p | p in names :: p in o.params
    ensures problem in OldParamsDiff(docs, o, n, names, cert) <==>
      && (problem.RemovedParameter? || problem.ParameterBecameRequired? || problem.ParameterTypeChanged?)
      && problem.name in names && ProblemCause(docs, o, n, problem, cert)
  {
    hide Certified, TypesDiffer, Retyped, Flatten, InContent, Success;
    if names != [] {
      var p := names[0];
      OldParamsExact(docs, o, n, names[1..], problem, cert);
      assert names == [p] + names[1..];
      if p in n.params {
        RetypedExact(docs, o.params[p], n.params[p], cert);
      }
    }
  }

  lemma {:induction false} NewParamsExact(o: Operation, n: Operation, names: seq<string>, problem: Problem)
    requires forall p | p in names :: p in n.params
    ensures problem in NewParamsDiff(o, n, names) <==>
      && problem.NewRequiredParameter? && problem.name in names
      && problem.name !in o.params && n.params[problem.name].required
  {
    if names != [] {
      NewParamsExact(o, n, names[1..], problem);
      assert names == [names[0]] + names[1..];
    }
  }

  /** A problem of one media type that the old side has. */
  ghost predicate MediaCause(docs: Docs, was: map<string, Node>, now: map<string, Node>, m: string,
        gone: string -> Problem, loc: string, side: Side, problem: Problem, cert: Cert)
    requires Certified(docs, cert)
  {
    if m !in now then problem == gone(m)
    else problem.InSchema? && InMedia(docs, was, now, m, loc, side, problem.finding, cert)
  }

  lemma {:induction false} ContentExact(docs: Docs, was: map<string, Node>, now: map<string, Node>,
        medias: seq<string>, gone: string -> Problem, loc: string, side: Side, problem: Problem, cert: Cert)
    requires Certified(docs, cert) && KnownContent(was, cert.baseNodes) && KnownContent(now, cert.headNodes)
    requires forall m | m in medias :: m in was
    requires forall m :: !gone(m).InSchema?
    ensures problem in ContentDiff(docs, was, now, medias, gone, loc, side, cert) <==>
      exists m :: m in medias && MediaCause(docs, was, now, m, gone, loc, side, problem, cert)
  {
    hide Certified, Found, SchemaDiff;
    if medias != [] {
      var m := medias[0];
      ContentExact(docs, was, now, medias[1..], gone, loc, side, problem, cert);
      assert medias == [m] + medias[1..];
      var first := if m in now then InSchemas(SchemaDiff(docs, was[m], now[m], loc + m, side, {}, cert)) else [gone(m)];
      assert problem in first <==> MediaCause(docs, was, now, m, gone, loc, side, problem, cert) by {
        if m in now {
          InSchemasExact(SchemaDiff(docs, was[m], now[m], loc + m, side, {}, cert), problem);
          if problem.InSchema? {
            FindingsExact(docs, was[m], now[m], loc + m, side, {}, problem.finding, cert);
          }
        }
      }
    }
  }

  /** The problems of all media types of a body or a response. */
  lemma AllContentExact(docs: Docs, was: map<string, Node>, now: map<string, Node>, gone: string -> Problem,
        loc: string, side: Side, problem: Problem, cert: Cert)
    requires Certified(docs, cert) && KnownContent(was, cert.baseNodes) && KnownContent(now, cert.headNodes)
    requires forall m :: !gone(m).InSchema?
    ensures problem in ContentDiff(docs, was, now, NameOrder.Sorted(was.Keys), gone, loc, side, cert) <==>
      || (exists m :: m in was && m !in now && problem == gone(m))
      || (problem.InSchema? && InContent(docs, was, now, loc, side, problem.finding, cert))
  {
    hide Certified, Found, ContentDiff, NameOrder.Sorted;
    var medias := NameOrder.Sorted(was.Keys);
    assert forall m :: m in medias <==> m in was;
    ContentExact(docs, was, now, medias, gone, loc, side, problem, cert);
    if m :| m in was && MediaCause(docs, was, now, m, gone, loc, side, problem, cert) {
      assert m in now ==> InMedia(docs, was, now, m, loc, side, problem.finding, cert);
    }
    if m :| m in was && m !in now && problem == gone(m) {
      assert MediaCause(docs, was, now, m, gone, loc, side, problem, cert);
    }
    if problem.InSchema? {
      if m :| InMedia(docs, was, now, m, loc, side, problem.finding, cert) {
        assert MediaCause(docs, was, now, m, gone, loc, side, problem, cert);
      }
    }
  }

  lemma BodyExact(docs: Docs, o: Operation, n: Operation, problem: Problem, cert: Cert)
    requires Certified(docs, cert) && KnownOp(o, cert.baseNodes) && KnownOp(n, cert.headNodes)
    ensures problem in BodyDiff(docs, o, n, cert) <==>
      || ((problem.NewRequiredRequestBody? || problem.RequestBodyBecameRequired? || problem.RemovedRequestMediaType?)
          && ProblemCause(docs, o, n, problem, cert))
      || (problem.InSchema? && o.body.Some? && n.body.Some? && InContent(docs, o.body.value.content,
            n.body.value.content, "request ", Request, problem.finding, cert))
  {
    hide Certified, Found, ContentDiff, NameOrder.Sorted, Success, TypesDiffer, Flatten;
    if o.body.Some? {
      var content := if n.body.Some? then n.body.value.content else map[];
      AllContentExact(docs, o.body.value.content, content, m => RemovedRequestMediaType(m), "request ", Request,
                      problem, cert);
    }
  }

  lemma SuccessExact(code: string)
    ensures IsSuccess(code) <==> Success(code)
  {
    if IsSuccess(code) {
      assert code == "2" + code[1..];
    }
  }

  /** A problem of the responses with one status code. */
  ghost predicate CodeCause(docs: Docs, o: Operation, n: Operation, c: string, problem: Problem, cert: Cert)
    requires Certified(docs, cert)
  {
    Success(c) && c in o.responses &&
    if c !in n.responses then problem == RemovedResponseStatus(c)
    else
      || (exists m :: m in o.responses[c] && m !in n.responses[c] && problem == RemovedResponseMediaType(c, m))
      || (problem.InSchema?
          && InContent(docs, o.responses[c], n.responses[c], "response " + c + " ", Response, problem.finding, cert))
  }

  lemma {:induction false} ResponsesExact(docs: Docs, o: Operation, n: Operation, codes: seq<string>,
        problem: Problem, cert: Cert)
    requires Certified(docs, cert) && KnownOp(o, cert.baseNodes) && KnownOp(n, cert.headNodes)
    requires forall c | c in codes :: c in o.responses
    ensures problem in ResponsesDiff(docs, o, n, codes, cert) <==>
      exists c :: c in codes && CodeCause(docs, o, n, c, problem, cert)
  {
    hide Certified, InContent, ContentDiff, NameOrder.Sorted, Success, IsSuccess;
    if codes != [] {
      var c := codes[0];
      ResponsesExact(docs, o, n, codes[1..], problem, cert);
      assert codes == [c] + codes[1..];
      SuccessExact(c);
      var first :=
        if !IsSuccess(c) then []
        else if c !in n.responses then [RemovedResponseStatus(c)]
        else ContentDiff(docs, o.responses[c], n.responses[c], NameOrder.Sorted(o.responses[c].Keys),
                         m => RemovedResponseMediaType(c, m), "response " + c + " ", Response, cert);
      assert problem in first <==> CodeCause(docs, o, n, c, problem, cert) by {
        if c in n.responses {
          AllContentExact(docs, o.responses[c], n.responses[c], m => RemovedResponseMediaType(c, m),
                          "response " + c + " ", Response, problem, cert);
        }
      }
    }
  }

  /** Comparing two operations reports just the problems that have their cause in them. */
  lemma OpExact(docs: Docs, o: Operation, n: Operation, problem: Problem, cert: Cert)
    requires Certified(docs, cert) && KnownOp(o, cert.baseNodes) && KnownOp(n, cert.headNodes)
    ensures problem in OpDiff(docs, o, n, cert) <==> ProblemCause(docs, o, n, problem, cert)
  {
    hide Certified, InContent, NameOrder.Sorted, Success, TypesDiffer, Flatten;
    hide OldParamsDiff, NewParamsDiff, BodyDiff, ResponsesDiff;
    var was := NameOrder.Sorted(o.params.Keys);
    var now := NameOrder.Sorted(n.params.Keys);
    var codes := NameOrder.Sorted(o.responses.Keys);
    assert forall p :: p in was <==> p in o.params;
    assert forall p :: p in now <==> p in n.params;
    assert forall c :: c in codes <==> c in o.responses;
    OldParamsExact(docs, o, n, was, problem, cert);
    NewParamsExact(o, n, now, problem);
    BodyExact(docs, o, n, problem, cert);
    ResponsesExact(docs, o, n, codes, problem, cert);
    if c :| c in codes && CodeCause(docs, o, n, c, problem, cert) {
      assert ProblemCause(docs, o, n, problem, cert);
    }
    if problem.RemovedResponseStatus? || problem.RemovedResponseMediaType? {
      assert ProblemCause(docs, o, n, problem, cert) ==> CodeCause(docs, o, n, problem.code, problem, cert);
    }
    if problem.InSchema? {
      forall c | c in o.responses && c in n.responses
        ensures CodeCause(docs, o, n, c, problem, cert) <==>
          Success(c)
          && InContent(docs, o.responses[c], n.responses[c], "response " + c + " ", Response, problem.finding, cert)
      {}
    }
  }

  // ----- the whole document

  lemma {:induction false} TaggedExact(path: string, verb: string, ps: seq<Problem>, r: Report)
    ensures r in Tagged(path, verb, ps) <==> r.path == path && r.verb == verb && r.problem in ps
  {
    if ps != [] {
      TaggedExact(path, verb, ps[1..], r);
      assert ps == [ps[0]] + ps[1..];
    }
  }

  /** The reported operation was in the baseline, and either it is gone or it has the problem. */
  ghost predicate ReportCause(base: Spec, head: Spec, r: Report, cert: Cert)
    requires Certified(Docs(base.doc, head.doc), cert)
  {
    && r.path in base.paths && r.verb in base.paths[r.path]
    && if r.path in head.paths && r.verb in head.paths[r.path]
       then ProblemCause(Docs(base.doc, head.doc), base.paths[r.path][r.verb], head.paths[r.path][r.verb],
                         r.problem, cert)
       else r.problem == RemovedOperation
  }

  lemma VerbExact(base: Spec, head: Spec, path: string, verb: string, r: Report, cert: Cert)
    requires Ready(base, head, cert) && path in base.paths
    ensures r in VerbDiff(base, head, path, verb, cert) <==>
      r.path == path && r.verb == verb && ReportCause(base, head, r, cert)
  {
    hide Certified, KnownOp, OpDiff, ProblemCause;
    if verb in base.paths[path] && path in head.paths && verb in head.paths[path] {
      var docs, o, n := Docs(base.doc, head.doc), base.paths[path][verb], head.paths[path][verb];
      TaggedExact(path, verb, OpDiff(docs, o, n, cert), r);
      OpExact(docs, o, n, r.problem, cert);
    }
  }

  lemma {:induction false} PathExact(base: Spec, head: Spec, path: string, verbs: seq<string>, r: Report, cert: Cert)
    requires Ready(base, head, cert) && path in base.paths
    ensures r in PathDiff(base, head, path, verbs, cert) <==>
      r.path == path && r.verb in verbs && ReportCause(base, head, r, cert)
  {
    hide Ready, VerbDiff, ReportCause;
    if verbs != [] {
      VerbExact(base, head, path, verbs[0], r, cert);
      PathExact(base, head, path, verbs[1..], r, cert);
      assert verbs == [verbs[0]] + verbs[1..];
    }
  }

  lemma {:induction false} PathsExact(base: Spec, head: Spec, paths: seq<string>, r: Report, cert: Cert)
    requires Ready(base, head, cert) && forall p | p in paths :: p in base.paths
    ensures r in PathsDiff(base, head, paths, cert) <==>
      r.path in paths && r.verb in HTTP_METHODS && ReportCause(base, head, r, cert)
  {
    hide Ready, PathDiff, ReportCause;
    if paths != [] {
      PathExact(base, head, paths[0], HTTP_METHODS, r, cert);
      PathsExact(base, head, paths[1..], r, cert);
      assert paths == [paths[0]] + paths[1..];
    }
  }

  /** Comparing two documents reports just what has its cause in an operation of the baseline
      under one of the eight HTTP methods. */
  lemma SpecExact(base: Spec, head: Spec, r: Report, cert: Cert)
    requires Ready(base, head, cert)
    ensures r in SpecDiff(base, head, cert) <==>
      && r.verb in {"get", "put", "post", "patch", "delete", "head", "options", "trace"}
      && ReportCause(base, head, r, cert)
  {
    hide PathsDiff, ProblemCause, Certified, KnownOp, NameOrder.Sorted;
    var paths := NameOrder.Sorted(base.paths.Keys);
    assert forall p :: p in paths <==> p in base.paths;
    PathsExact(base, head, paths, r, cert);
  }
}
