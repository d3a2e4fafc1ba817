/** The search for role gates behind a write handler (`scripts/check-rbac-coverage.py`). */
module GateScan {
  import opened Common

  const MAX_DEPTH: nat := 4

  /** A readable callee: a method of the handler's class or a function of its module. */
  datatype Ref = Method(name: string) | Function(name: string)

  /** A call, with what its text says: what it looks up, resolves or hands over, the callee if its
      body can be read, and why it could or could not hide a gate if it cannot. */
  datatype Call = Call(
    dotted: string, raw: bool, resolver: bool, gateName: bool, delegation: bool, target: Option<Ref>,
    own: bool, onLocal: bool, knownSafe: bool, subject: bool)
  {
    predicate Recognized() { resolver || (gateName && target.None?) || delegation }

    /** The call cannot be read, and a gate may be behind it. */
    predicate Unreadable() { target.None? && !Recognized() && !own && !onLocal && !knownSafe && subject }
  }

  datatype Fn = Fn(comparesRole: bool, calls: seq<Call>)

  type Source = map<Ref, Fn>

  datatype Evidence = Evidence(resolver: bool, gate: bool, raw: bool, unresolved: seq<string>) {
    function Or(e: Evidence): Evidence {
      Evidence(resolver || e.resolver, gate || e.gate, raw || e.raw, unresolved + e.unresolved)
    }
  }

  predicate Targeting(calls: seq<Call>, r: Ref) {
    exists i :: 0 <= i < |calls| && calls[i].target == Some(r)
  }

  /** Every callee that a call resolves to is there to read. */
  ghost predicate Closed(src: Source, calls: seq<Call>) {
    forall i | 0 <= i < |calls| && calls[i].target.Some? :: calls[i].target.value in src
  }

  ghost predicate Readable(src: Source) {
    forall r | r in src :: Closed(src, src[r].calls)
  }

  // ----- the search

  /** What one call adds before its callee is read. */
  function Here(c: Call): Evidence {
    Evidence(c.resolver, c.delegation || (c.gateName && c.target.None?), c.raw,
             if c.Unreadable() then [c.dotted] else [])
  }

  /** The evidence of a function that compares a role or not, from its first calls. */
  function ScanCalls(src: Source, compares: bool, calls: seq<Call>, depth: nat, seen: set<string>): Evidence
    requires Readable(src) && Closed(src, calls) && depth <= MAX_DEPTH
    decreases MAX_DEPTH + 1 - depth, 0, calls
  {
    if calls == [] then Evidence(false, compares, false, [])
    else
      var c := calls[|calls| - 1];
      var before := ScanCalls(src, compares, calls[..|calls| - 1], depth, seen).Or(Here(c));
      if c.target.Some? && c.target.value.name !in seen
      then before.Or(Scan(src, src[c.target.value], depth + 1, seen + {c.target.value.name}))
      else before
  }

  const CAPPED := "recursion depth cap"

  /** The evidence found from `fn` on, with the names of the functions already followed. */
  function Scan(src: Source, fn: Fn, depth: nat, seen: set<string>): Evidence
    requires Readable(src) && Closed(src, fn.calls) && depth <= MAX_DEPTH + 1
    decreases MAX_DEPTH + 1 - depth, 1
  {
    if depth > MAX_DEPTH then Evidence(false, false, false, [CAPPED])
    else ScanCalls(src, fn.comparesRole, fn.calls, depth, seen)
  }

  lemma ScanStep(src: Source, fn: Fn, i: nat, depth: nat, seen: set<string>)
    requires Readable(src) && Closed(src, fn.calls) && depth <= MAX_DEPTH && i < |fn.calls|
    ensures Closed(src, fn.calls[..i]) && Closed(src, fn.calls[..i + 1])
    ensures var c := fn.calls[i];
      var before := ScanCalls(src, fn.comparesRole, fn.calls[..i], depth, seen).Or(Here(c));
      ScanCalls(src, fn.comparesRole, fn.calls[..i + 1], depth, seen) ==
        if c.target.Some? && c.target.value.name !in seen
        then before.Or(Scan(src, src[c.target.value], depth + 1, seen + {c.target.value.name}))
        else before
  {
    hide Scan, Evidence.Or, Here;
    assert fn.calls[..i + 1][..i] == fn.calls[..i];
    assert fn.calls[..i + 1][i] == fn.calls[i];
  }

  /** Marks what the text of a call shows, and whether the call is understood. */
  method NoteCall(ev: Evidence, c: Call) returns (noted: Evidence, recognized: bool)
    ensures noted == ev.Or(Here(c)).(unresolved := ev.unresolved)
    ensures recognized == c.Recognized()
  {
    noted, recognized := ev, false;
    if c.raw {
      noted := noted.(raw := true);
    }
    if c.resolver {
      noted := noted.(resolver := true);
      recognized := true;
    }
    if c.gateName && c.target.None? {
      noted := noted.(gate := true);
      recognized := true;
    }
    if c.delegation {
      noted := noted.(gate := true);
      recognized := true;
    }
  }

  method ScanGates(src: Source, fn: Fn, depth: nat, seen: set<string>) returns (ev: Evidence)
    requires Readable(src) && Closed(src, fn.calls) && depth <= MAX_DEPTH + 1
    ensures ev == Scan(src, fn, depth, seen)
    decreases MAX_DEPTH + 1 - depth
  {
    hide ScanCalls;
    ev := Evidence(false, false, false, []);
    if depth > MAX_DEPTH {
      ev := ev.(unresolved := ev.unresolved + [CAPPED]);
      return;
    }
    if fn.comparesRole {
      ev := ev.(gate := true);
    }
    var i := 0;
    NoCalls(src, fn.comparesRole, depth, seen);
    assert fn.calls[..0] == [];
    while i < |fn.calls|
      invariant 0 <= i <= |fn.calls| && Closed(src, fn.calls[..i])
      invariant ev == ScanCalls(src, fn.comparesRole, fn.calls[..i], depth, seen)
    {
      var c := fn.calls[i];
      ScanStep(src, fn, i, depth, seen);
      i := i + 1;
      var recognized: bool;
      ev, recognized := NoteCall(ev, c);
      if c.target.Some? {
        var key := c.target.value.name;
        if key !in seen {
          var inner := ScanGates(src, src[c.target.value], depth + 1, seen + {key});
          ev := Evidence(ev.resolver || inner.resolver, ev.gate || inner.gate, ev.raw || inner.raw,
                         ev.unresolved + inner.unresolved);
        }
        continue;
      }
      if recognized || c.own || c.onLocal || c.knownSafe || !c.subject {
        continue;
      }
      ev := ev.(unresolved := ev.unresolved + [c.dotted]);
    }
    assert fn.calls[..i] == fn.calls;
  }

  lemma NoCalls(src: Source, compares: bool, depth: nat, seen: set<string>)
    requires Readable(src) && depth <= MAX_DEPTH
    ensures Closed(src, []) && ScanCalls(src, compares, [], depth, seen) == Evidence(false, compares, false, [])
  {}

  // ----- what there is to find

  /** What a search can report: three kinds of evidence, something it could not read, and where. */
  datatype Kind = Resolver | Gate | Raw | Unread | UnreadAt(place: string)

  ghost predicate Has(e: Evidence, k: Kind) {
    match k
    case Resolver => e.resolver
    case Gate => e.gate
    case Raw => e.raw
    case Unread => e.unresolved != []
    case UnreadAt(place) => place in e.unresolved
  }

  /** The call may hide a gate: its callee cannot be read, its text says neither that it resolves or
      gates nor that it cannot, and it is handed the subject of a decision. */
  ghost predicate MayHide(c: Call) {
    && c.target == None && c.subject
    && c.resolver == c.gateName == c.delegation == c.own == c.onLocal == c.knownSafe == false
  }

  /** What the text of a call shows. A gate's name only counts where the callee cannot be read. */
  ghost predicate Shows(c: Call, k: Kind) {
    match k
    case Resolver => c.resolver
    case Gate => c.delegation || (c.gateName && c.target == None)
    case Raw => c.raw
    case Unread => MayHide(c)
    case UnreadAt(place) => MayHide(c) && place == c.dotted
  }

  ghost predicate Calls(calls: seq<Call>, k: Kind) {
    exists i :: 0 <= i < |calls| && Shows(calls[i], k)
  }

  /** The function's own body shows it. */
  ghost predicate Local(fn: Fn, k: Kind) { (k.Gate? && fn.comparesRole) || Calls(fn.calls, k) }

  lemma HereShows(c: Call, k: Kind)
    ensures Has(Here(c), k) <==> Shows(c, k)
  {}

  /** A chain of followed calls that starts at `fn`. */
  ghost predicate Chain(src: Source, fn: Fn, p: seq<Ref>)
    decreases p
  {
    p == [] || (p[0] in src && Targeting(fn.calls, p[0]) && Chain(src, src[p[0]], p[1..]))
  }

  /** The function where the chain ends. */
  function End(src: Source, fn: Fn, p: seq<Ref>): Fn
    decreases p
  {
    if p == [] || p[0] !in src then fn else End(src, src[p[0]], p[1..])
  }

  /** Some function on a chain from `fn` shows it. */
  ghost predicate Reaches(src: Source, fn: Fn, k: Kind) {
    exists p :: Chain(src, fn, p) && Local(End(src, fn, p), k)
  }

  /** No method has the name of a function; the search takes equal names for one function. */
  ghost predicate DistinctNames(src: Source) {
    forall r, q | r in src && q in src && r.name == q.name :: r == q
  }

  /** A chain that meets no name twice and none of `seen`. */
  predicate Simple(p: seq<Ref>, seen: set<string>)
    decreases p
  {
    p == [] || (p[0].name !in seen && Simple(p[1..], seen + {p[0].name}))
  }

  /** Everything reached can be read, in chains as short as the search follows. */
  ghost predicate AllRead(src: Source, fn: Fn) {
    && !Reaches(src, fn, Unread)
    && forall p | Chain(src, fn, p) && Simple(p, {}) :: |p| <= MAX_DEPTH
  }

  // ----- the search is exact

  ghost predicate Follows(src: Source, calls: seq<Call>, depth: nat, seen: set<string>, k: Kind, r: Ref)
    requires Readable(src) && depth <= MAX_DEPTH
  {
    Targeting(calls, r) && r in src && r.name !in seen && Has(Scan(src, src[r], depth + 1, seen + {r.name}), k)
  }

  lemma OrHas(a: Evidence, b: Evidence, k: Kind)
    ensures Has(a.Or(b), k) <==> Has(a, k) || Has(b, k)
  {}

  lemma {:induction false} ScanCallsHas(src: Source, compares: bool, calls: seq<Call>, depth: nat, seen: set<string>,
        k: Kind)
    requires Readable(src) && Closed(src, calls) && depth <= MAX_DEPTH
    ensures Has(ScanCalls(src, compares, calls, depth, seen), k)
       <==> (k.Gate? && compares) || Calls(calls, k) || exists r :: Follows(src, calls, depth, seen, k, r)
    decreases calls
  {
    hide Scan, Evidence.Or, Has, Here, Shows;
    if calls == [] {
      NoEvidence(compares, k);
    } else {
      var init, c := calls[..|calls| - 1], calls[|calls| - 1];
      HereShows(c, k);
      ScanCallsHas(src, compares, init, depth, seen, k);
      var before := ScanCalls(src, compares, init, depth, seen);
      OrHas(before, Here(c), k);
      assert Calls(calls, k) <==> Calls(init, k) || Shows(c, k) by {
        SnocCalls(init, c, k);
        assert calls == init + [c];
      }
      forall r ensures Targeting(calls, r) <==> Targeting(init, r) || c.target == Some(r) {
        SnocTargets(init, c, r);
        assert calls == init + [c];
      }
      if c.target.Some? && c.target.value.name !in seen {
        var r := c.target.value;
        OrHas(before.Or(Here(c)), Scan(src, src[r], depth + 1, seen + {r.name}), k);
        if Has(Scan(src, src[r], depth + 1, seen + {r.name}), k) {
          assert Follows(src, calls, depth, seen, k, r);
        }
      }
      if r :| Follows(src, init, depth, seen, k, r) {
        assert Follows(src, calls, depth, seen, k, r);
      }
      if r :| Follows(src, calls, depth, seen, k, r) {
        assert Follows(src, init, depth, seen, k, r) || c.target == Some(r);
      }
    }
  }

  lemma NoEvidence(compares: bool, k: Kind)
    ensures Has(Evidence(false, compares, false, []), k) <==> k.Gate? && compares
  {}

  lemma SnocCalls(init: seq<Call>, c: Call, k: Kind)
    ensures Calls(init + [c], k) <==> Calls(init, k) || Shows(c, k)
  {
    hide Shows;
    var calls := init + [c];
    assert calls[|init|] == c && forall i | 0 <= i < |init| :: calls[i] == init[i];
  }

  lemma SnocTargets(init: seq<Call>, c: Call, r: Ref)
    ensures Targeting(init + [c], r) <==> Targeting(init, r) || c.target == Some(r)
  {
    var calls := init + [c];
    assert calls[|init|] == c && forall i | 0 <= i < |init| :: calls[i] == init[i];
  }

  /** A search shows whatever a chain shows that repeats no name and is within the depth cap. */
  lemma {:induction false} Sees(src: Source, fn: Fn, depth: nat, seen: set<string>, k: Kind, p: seq<Ref>)
    requires Readable(src) && Closed(src, fn.calls)
    requires Chain(src, fn, p) && Simple(p, seen) && depth + |p| <= MAX_DEPTH
    requires Local(End(src, fn, p), k)
    ensures Has(Scan(src, fn, depth, seen), k)
    decreases p
  {
    hide Local, Calls, ScanCalls, Here, Has;
    ScanCallsHas(src, fn.comparesRole, fn.calls, depth, seen, k);
    if p == [] {
      LocalIs(fn, k);
    } else {
      var r := p[0];
      Sees(src, src[r], depth + 1, seen + {r.name}, k, p[1..]);
      assert Follows(src, fn.calls, depth, seen, k, r);
    }
  }

  /** What is reported when a chain goes beyond the depth cap. */
  ghost predicate SaysCapped(k: Kind) {
    k.Unread? || k == UnreadAt(CAPPED)
  }

  lemma {:induction false} SeesCap(src: Source, fn: Fn, depth: nat, seen: set<string>, k: Kind, p: seq<Ref>)
    requires Readable(src) && Closed(src, fn.calls)
    requires Chain(src, fn, p) && Simple(p, seen) && depth + |p| == MAX_DEPTH + 1 && SaysCapped(k)
    ensures Has(Scan(src, fn, depth, seen), k)
    decreases p
  {
    if p != [] {
      hide Calls, ScanCalls, Here, Has;
      var r := p[0];
      ScanCallsHas(src, fn.comparesRole, fn.calls, depth, seen, k);
      SeesCap(src, src[r], depth + 1, seen + {r.name}, k, p[1..]);
      assert Follows(src, fn.calls, depth, seen, k, r);
    }
  }

  /** A search that read everything shows what any chain it could follow shows. */
  lemma Complete(src: Source, fn: Fn, depth: nat, seen: set<string>, k: Kind, p: seq<Ref>)
    requires Readable(src) && Closed(src, fn.calls) && depth <= MAX_DEPTH + 1
    requires Scan(src, fn, depth, seen).unresolved == []
    requires Chain(src, fn, p) && Simple(p, seen)
    ensures depth + |p| <= MAX_DEPTH
    ensures Local(End(src, fn, p), k) ==> Has(Scan(src, fn, depth, seen), k)
  {
    hide Local, Scan;
    if depth + |p| > MAX_DEPTH {
      Prefix(src, fn, p, seen, MAX_DEPTH + 1 - depth);
      SeesCap(src, fn, depth, seen, Unread, p[..MAX_DEPTH + 1 - depth]);
    } else if Local(End(src, fn, p), k) {
      Sees(src, fn, depth, seen, k, p);
    }
  }

  lemma {:induction false} Prefix(src: Source, fn: Fn, p: seq<Ref>, seen: set<string>, n: nat)
    requires Chain(src, fn, p) && Simple(p, seen) && n <= |p|
    ensures Chain(src, fn, p[..n]) && Simple(p[..n], seen)
    decreases n
  {
    if n > 0 {
      Prefix(src, src[p[0]], p[1..], seen + {p[0].name}, n - 1);
      assert p[..n][1..] == p[1..][..n - 1];
    }
  }

  lemma LocalIs(fn: Fn, k: Kind)
    ensures Local(fn, k) <==> (k.Gate? && fn.comparesRole) || Calls(fn.calls, k)
  {}

  /** What a search shows, a chain it followed shows; or that chain was cut off. */
  lemma {:induction false} Sound(src: Source, fn: Fn, depth: nat, seen: set<string>, k: Kind) returns (p: seq<Ref>)
    requires Readable(src) && Closed(src, fn.calls) && depth <= MAX_DEPTH + 1
    requires Has(Scan(src, fn, depth, seen), k)
    ensures Chain(src, fn, p) && Simple(p, seen)
    ensures depth + |p| <= MAX_DEPTH + 1
    ensures (Local(End(src, fn, p), k) && depth + |p| <= MAX_DEPTH) || (SaysCapped(k) && depth + |p| == MAX_DEPTH + 1)
    decreases MAX_DEPTH + 1 - depth
  {
    hide Local, Calls, ScanCalls, Here;
    if depth > MAX_DEPTH {
      return [];
    }
    ScanCallsHas(src, fn.comparesRole, fn.calls, depth, seen, k);
    LocalIs(fn, k);
    if Local(fn, k) {
      return [];
    }
    var r :| Follows(src, fn.calls, depth, seen, k, r);
    var tail := Sound(src, src[r], depth + 1, seen + {r.name}, k);
    p := [r] + tail;
    assert p[1..] == tail;
  }

  // ----- chains with repetitions

  lemma {:induction false} ChainFrom(src: Source, fn: Fn, p: seq<Ref>, i: nat)
    requires Chain(src, fn, p) && i < |p|
    ensures p[i] in src && Chain(src, src[p[i]], p[i + 1..]) && End(src, src[p[i]], p[i + 1..]) == End(src, fn, p)
    decreases i
  {
    if i > 0 {
      ChainFrom(src, src[p[0]], p[1..], i - 1);
      assert p[1..][i..] == p[i + 1..];
    }
  }

  predicate NoRepeats(p: seq<Ref>) {
    forall i, j | 0 <= i < j < |p| :: p[i].name != p[j].name
  }

  lemma {:induction false} SimpleIs(p: seq<Ref>, seen: set<string>)
    requires NoRepeats(p) && forall i | 0 <= i < |p| :: p[i].name !in seen
    ensures Simple(p, seen)
  {
    if p != [] {
      SimpleIs(p[1..], seen + {p[0].name});
    }
  }

  /** Any chain can be cut to one without repetitions that ends in the same place. */
  lemma {:induction false} Shorten(src: Source, fn: Fn, p: seq<Ref>) returns (q: seq<Ref>)
    requires DistinctNames(src) && Chain(src, fn, p)
    ensures Chain(src, fn, q) && NoRepeats(q) && End(src, fn, q) == End(src, fn, p)
    ensures forall i | 0 <= i < |q| :: q[i] in src
    decreases p
  {
    if p == [] {
      return [];
    }
    var r := p[0];
    var tail := Shorten(src, src[r], p[1..]);
    if i :| 0 <= i < |tail| && tail[i].name == r.name {
      assert tail[i] == r;
      ChainFrom(src, src[r], tail, i);
      q := tail[i..];
      assert q[1..] == tail[i + 1..];
    } else {
      q := [r] + tail;
      assert q[1..] == tail;
    }
  }

  /** Some function at the end of a chain without repeated names shows it. */
  ghost predicate ReachesSimply(src: Source, fn: Fn, k: Kind) {
    exists p :: Chain(src, fn, p) && Simple(p, {}) && Local(End(src, fn, p), k)
  }

  /** Everything reached without repeated names can be read, in chains as short as the search follows. */
  ghost predicate ReadSimply(src: Source, fn: Fn) {
    && !ReachesSimply(src, fn, Unread)
    && forall p | Chain(src, fn, p) && Simple(p, {}) :: |p| <= MAX_DEPTH
  }

  /** A chain within the depth cap that repeats no name leads to a function that shows it. */
  ghost predicate Within(src: Source, fn: Fn, k: Kind) {
    exists p :: Chain(src, fn, p) && Simple(p, {}) && |p| <= 4 && Local(End(src, fn, p), k)
  }

  /** A chain that repeats no name goes beyond the depth cap. */
  ghost predicate TooDeep(src: Source, fn: Fn) {
    exists p :: Chain(src, fn, p) && Simple(p, {}) && |p| == 5
  }

  /** What a search shows, whatever it could not read: exactly what the functions show that chains
      of at most four calls lead to without repeating a name, and that a longer chain was cut off. */
  lemma ScanSees(src: Source, fn: Fn, k: Kind)
    requires Readable(src) && Closed(src, fn.calls)
    ensures Has(Scan(src, fn, 0, {}), k) <==> Within(src, fn, k) || (SaysCapped(k) && TooDeep(src, fn))
  {
    hide Scan, Local, Simple, Has;
    if Has(Scan(src, fn, 0, {}), k) {
      var p := Sound(src, fn, 0, {}, k);
    }
    if p :| Chain(src, fn, p) && Simple(p, {}) && |p| <= 4 && Local(End(src, fn, p), k) {
      Sees(src, fn, 0, {}, k, p);
    }
    if SaysCapped(k) {
      if p :| Chain(src, fn, p) && Simple(p, {}) && |p| == 5 {
        SeesCap(src, fn, 0, {}, k, p);
      }
    }
  }

  /** Whatever the names, the search is exact about the chains that repeat none: nothing is left
      unresolved exactly if all those can be read, and its evidence is then exactly what they reach. */
  lemma ScanFollows(src: Source, fn: Fn)
    requires Readable(src) && Closed(src, fn.calls)
    ensures Scan(src, fn, 0, {}).unresolved == [] <==> ReadSimply(src, fn)
    ensures ReadSimply(src, fn) ==> forall k :: Has(Scan(src, fn, 0, {}), k) <==> ReachesSimply(src, fn, k)
    ensures forall k | Has(Scan(src, fn, 0, {}), k) && !SaysCapped(k) :: ReachesSimply(src, fn, k)
  {
    hide Scan, Local, Simple;
    var ev := Scan(src, fn, 0, {});
    forall k | Has(ev, k) && !SaysCapped(k) ensures ReachesSimply(src, fn, k) {
      var p := Sound(src, fn, 0, {}, k);
    }
    if ev.unresolved == [] {
      forall k, p | Chain(src, fn, p) && Simple(p, {})
        ensures |p| <= MAX_DEPTH && (Local(End(src, fn, p), k) ==> Has(ev, k))
      {
        Complete(src, fn, 0, {}, k, p);
      }
      assert !Has(ev, Unread);
      assert forall p | Chain(src, fn, p) && Simple(p, {}) ::
        |p| <= MAX_DEPTH && (Local(End(src, fn, p), Unread) ==> Has(ev, Unread));
    } else {
      var p := Sound(src, fn, 0, {}, Unread);
    }
  }

  lemma SimplyIsEnough(src: Source, fn: Fn, k: Kind)
    requires DistinctNames(src)
    ensures Reaches(src, fn, k) <==> ReachesSimply(src, fn, k)
  {
    hide Local;
    if Reaches(src, fn, k) {
      var p :| Chain(src, fn, p) && Local(End(src, fn, p), k);
      var q := Shorten(src, fn, p);
      SimpleIs(q, {});
    }
  }

  /** When no method shares a name with a function, the search leaves nothing unresolved exactly if
      everything reached can be read in chains of at most four calls; its evidence is then exactly
      what the functions reached show. What it shows is always there. */
  lemma ScanExact(src: Source, fn: Fn)
    requires Readable(src) && Closed(src, fn.calls)
    ensures DistinctNames(src) ==> (Scan(src, fn, 0, {}).unresolved == [] <==> AllRead(src, fn))
    ensures DistinctNames(src) && AllRead(src, fn) ==> forall k :: Has(Scan(src, fn, 0, {}), k) <==> Reaches(src, fn, k)
    ensures forall k | Has(Scan(src, fn, 0, {}), k) && !SaysCapped(k) :: Reaches(src, fn, k)
  {
    hide Scan, Local, Simple, Has;
    ScanFollows(src, fn);
    if DistinctNames(src) {
      forall k ensures Reaches(src, fn, k) <==> ReachesSimply(src, fn, k) {
        SimplyIsEnough(src, fn, k);
      }
    }
  }

  // ----- shared names

  /** The search from the handler leaves nothing unresolved. */
  ghost predicate SaysNothing(src: Source, fn: Fn) {
    Readable(src) && Closed(src, fn.calls) && Scan(src, fn, 0, {}).unresolved == []
  }

  /** Whether a search that reports nothing unresolved has seen everything, whatever the bodies of
      the functions and of the handler: so no gate is missed unannounced. */
  ghost predicate NegativesComplete(refs: set<Ref>) {
    forall src: Source, fn: Fn, k | src.Keys == refs && SaysNothing(src, fn) && Reaches(src, fn, k) ::
      Has(Scan(src, fn, 0, {}), k)
  }

  /** A call of `r` that is nothing else. */
  function CallOf(r: Ref): Call { Call(r.name, false, false, false, false, Some(r), false, false, false, true) }

  /** A module in which `r` only calls `q`, and only `q` has a gate. */
  function HidesBehind(refs: set<Ref>, r: Ref, q: Ref): Source {
    map x | x in refs :: if x == q then Fn(true, []) else if x == r then Fn(false, [CallOf(q)]) else Fn(false, [])
  }

  /** With two functions of one name the search can miss a gate and still report nothing unresolved:
      the one that only calls the other hides what that one checks. */
  lemma SharedNameHidesGate(refs: set<Ref>, r: Ref, q: Ref)
    requires r in refs && q in refs && r != q && r.name == q.name
    ensures var src, fn := HidesBehind(refs, r, q), Fn(false, [CallOf(r)]);
      && src.Keys == refs && Readable(src) && Closed(src, fn.calls) && Reaches(src, fn, Gate)
      && Scan(src, fn, 0, {}) == Evidence(false, false, false, [])
  {
    hide Scan, ScanCalls, Simple;
    var src, fn := HidesBehind(refs, r, q), Fn(false, [CallOf(r)]);
    assert src[r] == Fn(false, [CallOf(q)]) && src[q] == Fn(true, []);
    NamesakeScan(src, fn, r, q);
    assert Targeting(src[r].calls, q) by { assert src[r].calls[0].target == Some(q); }
    assert Targeting(fn.calls, r) by { assert fn.calls[0].target == Some(r); }
    assert [q][1..] == [] && [r, q][1..] == [q];
    assert Chain(src, src[q], []) && Chain(src, src[r], [q]) && Chain(src, fn, [r, q]);
    assert End(src, src[q], []) == src[q] && End(src, src[r], [q]) == End(src, src[q], [q][1..]);
    assert End(src, fn, [r, q]) == src[q];
    assert Local(src[q], Gate);
  }

  lemma NamesakeScan(src: Source, fn: Fn, r: Ref, q: Ref)
    requires Readable(src) && Closed(src, fn.calls) && fn == Fn(false, [CallOf(r)])
    requires r in src && src[r] == Fn(false, [CallOf(q)]) && r.name == q.name
    ensures Scan(src, fn, 0, {}) == Evidence(false, false, false, [])
  {
    var seen := {} + {r.name};
    var none := Evidence(false, false, false, []);
    assert [CallOf(r)][..0] == [] && [CallOf(q)][..0] == [];
    assert Here(CallOf(r)) == none && Here(CallOf(q)) == none;
    assert ScanCalls(src, false, [CallOf(q)], 1, seen) == none;
    assert Scan(src, src[r], 1, seen) == none;
    assert ScanCalls(src, false, [CallOf(r)], 0, {}) == none;
  }

  /** No two functions that the search can follow have one name. */
  predicate NoNamesakes(refs: set<Ref>) {
    forall r, q | r in refs && q in refs && r.name == q.name :: r == q
  }

  /** The search is complete about what is missing exactly if no method of the class has the name of
      a function of the module. */
  lemma NegativesExact(refs: set<Ref>)
    ensures NegativesComplete(refs) <==> NoNamesakes(refs)
  {
    hide Scan, Reaches, Readable, AllRead;
    if NoNamesakes(refs) {
      forall src: Source, fn: Fn, k | src.Keys == refs && SaysNothing(src, fn) && Reaches(src, fn, k)
        ensures Has(Scan(src, fn, 0, {}), k)
      {
        ScanExact(src, fn);
      }
    } else {
      var r, q :| r in refs && q in refs && r.name == q.name && r != q;
      SharedNameHidesGate(refs, r, q);
      var src, fn := HidesBehind(refs, r, q), Fn(false, [CallOf(r)]);
      assert !Has(Scan(src, fn, 0, {}), Gate);
    }
  }

  // ----- the verdict on a write

  datatype Membership = Resolves | RawLookup | MayResolveIn(place: string) | NeverResolves

  datatype RoleCheck = Gated | StaleEntry | ViewerAllowed | MayGateIn(place: string) | Ungated

  /** The evidence of all the functions that handle one write. */
  function Merged(src: Source, handlers: seq<Fn>): Evidence
    requires Readable(src) && forall i | 0 <= i < |handlers| :: Closed(src, handlers[i].calls)
  {
    if handlers == [] then Evidence(false, false, false, [])
    else Merged(src, handlers[..|handlers| - 1]).Or(Scan(src, handlers[|handlers| - 1], 0, {}))
  }

  function MembershipOf(ev: Evidence): Membership {
    if ev.resolver then Resolves
    else if ev.raw then RawLookup
    else if ev.unresolved != [] then MayResolveIn(ev.unresolved[0])
    else NeverResolves
  }

  function RoleCheckOf(ev: Evidence, viewerEntry: bool): RoleCheck {
    if viewerEntry then (if ev.gate then StaleEntry else ViewerAllowed)
    else if ev.gate then Gated
    else if ev.unresolved != [] then MayGateIn(ev.unresolved[0])
    else Ungated
  }

  method CheckWrite(src: Source, handlers: seq<Fn>, viewerEntry: bool) returns (membership: Membership, role: RoleCheck)
    requires Readable(src) && forall i | 0 <= i < |handlers| :: Closed(src, handlers[i].calls)
    ensures membership == MembershipOf(Merged(src, handlers))
    ensures role == RoleCheckOf(Merged(src, handlers), viewerEntry)
  {
    hide Scan;
    var merged := Evidence(false, false, false, []);
    for i := 0 to |handlers|
      invariant merged == Merged(src, handlers[..i])
    {
      assert handlers[..i + 1][..i] == handlers[..i];
      var ev := ScanGates(src, handlers[i], 0, {});
      merged := Evidence(merged.resolver || ev.resolver, merged.gate || ev.gate, merged.raw || ev.raw,
                         merged.unresolved + ev.unresolved);
    }
    assert handlers[..|handlers|] == handlers;
    if merged.resolver {
      membership := Resolves;
    } else if merged.raw {
      membership := RawLookup;
    } else if merged.unresolved != [] {
      membership := MayResolveIn(merged.unresolved[0]);
    } else {
      membership := NeverResolves;
    }
    if viewerEntry {
      role := if merged.gate then StaleEntry else ViewerAllowed;
    } else if merged.gate {
      role := Gated;
    } else if merged.unresolved != [] {
      role := MayGateIn(merged.unresolved[0]);
    } else {
      role := Ungated;
    }
  }

  lemma {:induction false} MergedHas(src: Source, handlers: seq<Fn>, k: Kind)
    requires Readable(src) && forall i | 0 <= i < |handlers| :: Closed(src, handlers[i].calls)
    ensures Has(Merged(src, handlers), k) <==> exists i :: 0 <= i < |handlers| && Has(Scan(src, handlers[i], 0, {}), k)
  {
    hide Scan, Evidence.Or;
    if handlers == [] {
    } else {
      var init, last := handlers[..|handlers| - 1], handlers[|handlers| - 1];
      MergedHas(src, init, k);
      OrHas(Merged(src, init), Scan(src, last, 0, {}), k);
      assert handlers[|handlers| - 1] == last && forall i | 0 <= i < |init| :: handlers[i] == init[i];
    }
  }

  ghost predicate AnyWithin(src: Source, handlers: seq<Fn>, k: Kind) {
    exists i :: 0 <= i < |handlers| && Within(src, handlers[i], k)
  }

  /** Something that a handler leads to could not be read, or lies beyond the depth cap. */
  ghost predicate AnyUnseen(src: Source, handlers: seq<Fn>) {
    AnyWithin(src, handlers, Unread) || exists i :: 0 <= i < |handlers| && TooDeep(src, handlers[i])
  }

  /** `place` is a call that could not be read, or says that the depth cap was met. */
  ghost predicate Unseen(src: Source, handlers: seq<Fn>, place: string) {
    || AnyWithin(src, handlers, UnreadAt(place))
    || (place == CAPPED && exists i :: 0 <= i < |handlers| && TooDeep(src, handlers[i]))
  }

  lemma MergedSees(src: Source, handlers: seq<Fn>, k: Kind)
    requires Readable(src) && forall i | 0 <= i < |handlers| :: Closed(src, handlers[i].calls)
    ensures Has(Merged(src, handlers), k) <==>
      || AnyWithin(src, handlers, k)
      || (SaysCapped(k) && exists i :: 0 <= i < |handlers| && TooDeep(src, handlers[i]))
  {
    hide Scan, Merged, Within, TooDeep, Has;
    MergedHas(src, handlers, k);
    forall i | 0 <= i < |handlers|
      ensures Has(Scan(src, handlers[i], 0, {}), k) <==>
        Within(src, handlers[i], k) || (SaysCapped(k) && TooDeep(src, handlers[i]))
    {
      ScanSees(src, handlers[i], k);
    }
  }

  /** The whole verdict on a write, from the bodies that its handlers lead to within the cap: a
      membership counts as resolved if one of them resolves it, else as a raw lookup if one looks it
      up, else as open if something was not seen, and as never resolved otherwise; the role check
      likewise, and an entry that allows viewers is stale exactly if one of them has a gate. */
  lemma WriteExact(src: Source, handlers: seq<Fn>, viewerEntry: bool)
    requires Readable(src) && forall i | 0 <= i < |handlers| :: Closed(src, handlers[i].calls)
    ensures var resolves, raw, unseen := AnyWithin(src, handlers, Resolver), AnyWithin(src, handlers, Raw),
      AnyUnseen(src, handlers);
      match MembershipOf(Merged(src, handlers))
      case Resolves => resolves
      case RawLookup => !resolves && raw
      case MayResolveIn(place) => !resolves && !raw && unseen && Unseen(src, handlers, place)
      case NeverResolves => !resolves && !raw && !unseen
    ensures var gates, unseen := AnyWithin(src, handlers, Gate), AnyUnseen(src, handlers);
      match RoleCheckOf(Merged(src, handlers), viewerEntry)
      case Gated => !viewerEntry && gates
      case StaleEntry => viewerEntry && gates
      case ViewerAllowed => viewerEntry && !gates
      case MayGateIn(place) => !viewerEntry && !gates && unseen && Unseen(src, handlers, place)
      case Ungated => !viewerEntry && !gates && !unseen
  {
    hide Scan, Merged, Within, TooDeep;
    var ev := Merged(src, handlers);
    MergedSees(src, handlers, Resolver);
    MergedSees(src, handlers, Raw);
    MergedSees(src, handlers, Gate);
    MergedSees(src, handlers, Unread);
    if ev.unresolved != [] {
      MergedSees(src, handlers, UnreadAt(ev.unresolved[0]));
      assert Has(ev, UnreadAt(ev.unresolved[0]));
    }
  }

  ghost predicate AnyReaches(src: Source, handlers: seq<Fn>, k: Kind) {
    exists i :: 0 <= i < |handlers| && Reaches(src, handlers[i], k)
  }

  ghost predicate EveryRead(src: Source, handlers: seq<Fn>) {
    forall i | 0 <= i < |handlers| :: AllRead(src, handlers[i])
  }

  ghost predicate AnyReachesSimply(src: Source, handlers: seq<Fn>, k: Kind) {
    exists i :: 0 <= i < |handlers| && ReachesSimply(src, handlers[i], k)
  }

  ghost predicate EveryReadSimply(src: Source, handlers: seq<Fn>) {
    forall i | 0 <= i < |handlers| :: ReadSimply(src, handlers[i])
  }

  /** Whatever the names, a write is reported as ungated, or as never resolving a membership, exactly
      if all that its handlers reach without repeating a name was read and none of it has a role
      gate, or resolves or looks up a membership. */
  lemma VerdictFollows(src: Source, handlers: seq<Fn>)
    requires Readable(src) && forall i | 0 <= i < |handlers| :: Closed(src, handlers[i].calls)
    ensures RoleCheckOf(Merged(src, handlers), false).Ungated? <==>
      EveryReadSimply(src, handlers) && !AnyReachesSimply(src, handlers, Gate)
    ensures MembershipOf(Merged(src, handlers)).NeverResolves? <==>
      && EveryReadSimply(src, handlers)
      && !AnyReachesSimply(src, handlers, Resolver) && !AnyReachesSimply(src, handlers, Raw)
  {
    hide Scan, Merged, ReachesSimply, ReadSimply;
    var ev := Merged(src, handlers);
    forall k ensures Has(ev, k) <==> exists i :: 0 <= i < |handlers| && Has(Scan(src, handlers[i], 0, {}), k) {
      MergedHas(src, handlers, k);
    }
    forall i | 0 <= i < |handlers|
      ensures Has(Scan(src, handlers[i], 0, {}), Unread) <==> !ReadSimply(src, handlers[i])
      ensures ReadSimply(src, handlers[i]) ==> forall k :: Has(Scan(src, handlers[i], 0, {}), k) <==>
        ReachesSimply(src, handlers[i], k)
    {
      ScanFollows(src, handlers[i]);
    }
    KindBits(ev);
    if EveryReadSimply(src, handlers) {
      forall k ensures Has(ev, k) <==> AnyReachesSimply(src, handlers, k) {
      }
    }
  }

  /** With distinct names a write is reported as ungated, or as never resolving a membership, exactly
      if all that its handlers reach was read and none of it has a role gate, or resolves or looks up
      a membership. A positive verdict always rests on something that is reached. */
  lemma VerdictExact(src: Source, handlers: seq<Fn>)
    requires Readable(src) && forall i | 0 <= i < |handlers| :: Closed(src, handlers[i].calls)
    ensures var ev := Merged(src, handlers);
      && (DistinctNames(src) ==>
            && (RoleCheckOf(ev, false).Ungated? <==> EveryRead(src, handlers) && !AnyReaches(src, handlers, Gate))
            && (MembershipOf(ev).NeverResolves? <==>
                  EveryRead(src, handlers) && !AnyReaches(src, handlers, Resolver) && !AnyReaches(src, handlers, Raw)))
      && (RoleCheckOf(ev, false).Gated? || RoleCheckOf(ev, true).StaleEntry? ==> AnyReaches(src, handlers, Gate))
      && (MembershipOf(ev).Resolves? ==> AnyReaches(src, handlers, Resolver))
      && (MembershipOf(ev).RawLookup? ==> AnyReaches(src, handlers, Raw))
  {
    hide Scan, Merged, Reaches, ReachesSimply;
    var ev := Merged(src, handlers);
    forall k | Has(ev, k) && !SaysCapped(k) ensures AnyReaches(src, handlers, k) {
      MergedHas(src, handlers, k);
      var i :| 0 <= i < |handlers| && Has(Scan(src, handlers[i], 0, {}), k);
      ScanExact(src, handlers[i]);
    }
    KindBits(ev);
    VerdictFollows(src, handlers);
    if DistinctNames(src) {
      forall i, k | 0 <= i < |handlers| ensures Reaches(src, handlers[i], k) <==> ReachesSimply(src, handlers[i], k) {
        SimplyIsEnough(src, handlers[i], k);
      }
    }
  }

  lemma KindBits(ev: Evidence)
    ensures Has(ev, Resolver) == ev.resolver && Has(ev, Gate) == ev.gate && Has(ev, Raw) == ev.raw
    ensures Has(ev, Unread) == (ev.unresolved != [])
  {}
}
