/** Resolving TypeScript string-union aliases (`scripts/check-serializer-ts-parity.py`). */
module AliasResolver {
  import opened Common
  import opened Paths

  /** A part of an alias body between pipes. */
  datatype Part = Blank | Literal(text: string) | Name(name: string)

  type Aliases = map<string, seq<Part>>

  // ----- what an alias means

  /** The meaning of all parts but the blank ones, with `fuel` for the names. */
  function Members(raw: Aliases, parts: seq<Part>, fuel: nat): Option<set<string>>
    decreases fuel, |parts|
  {
    if parts == [] then Some({})
    else
      var before := Members(raw, parts[..|parts| - 1], fuel);
      var here := match parts[|parts| - 1]
        case Blank => Some({})
        case Literal(text) => Some({text})
        case Name(name) => Meaning(raw, name, fuel);
      if before.None? || here.None? then None else Some(before.value + here.value)
  }

  /** The literals of an alias, if it unfolds to literals, and to at least one, within `fuel` steps. */
  function Meaning(raw: Aliases, name: string, fuel: nat): Option<set<string>>
    decreases fuel, -1
  {
    if fuel == 0 || name !in raw then None
    else
      var members := Members(raw, raw[name], fuel - 1);
      if members == Some({}) then None else members
  }

  lemma {:induction false} MembersGrow(raw: Aliases, parts: seq<Part>, fuel: nat, more: nat)
    requires fuel <= more && Members(raw, parts, fuel).Some?
    ensures Members(raw, parts, more) == Members(raw, parts, fuel)
    decreases fuel, |parts|
  {
    if parts != [] {
      MembersGrow(raw, parts[..|parts| - 1], fuel, more);
      if parts[|parts| - 1].Name? {
        MeaningGrows(raw, parts[|parts| - 1].name, fuel, more);
      }
    }
  }

  lemma {:induction false} MeaningGrows(raw: Aliases, name: string, fuel: nat, more: nat)
    requires fuel <= more && Meaning(raw, name, fuel).Some?
    ensures Meaning(raw, name, more) == Meaning(raw, name, fuel)
    decreases fuel, -1
  {
    MembersGrow(raw, raw[name], fuel - 1, more - 1);
  }

  ghost predicate Resolvable(raw: Aliases, name: string) {
    exists fuel: nat :: Meaning(raw, name, fuel).Some?
  }

  /** The fewest steps in which the alias unfolds. */
  ghost function Rank(raw: Aliases, name: string): (r: nat)
    requires Resolvable(raw, name)
    ensures Meaning(raw, name, r).Some? && r > 0
    ensures forall n: nat | Meaning(raw, name, n).Some? :: r <= n
  {
    var n: nat :| Meaning(raw, name, n).Some?;
    Least(raw, name, 0, n)
  }

  ghost function Least(raw: Aliases, name: string, k: nat, n: nat): (r: nat)
    requires k <= n && Meaning(raw, name, n).Some? && forall j: nat | j < k :: Meaning(raw, name, j).None?
    ensures Meaning(raw, name, r).Some? && forall j: nat | j < r :: Meaning(raw, name, j).None?
    decreases n - k
  {
    if Meaning(raw, name, k).Some? then k else Least(raw, name, k + 1, n)
  }

  /** The literals of the alias, or nothing if it is not a union of strings. */
  ghost function Union(raw: Aliases, name: string): Option<set<string>> {
    if Resolvable(raw, name) then Meaning(raw, name, Rank(raw, name)) else None
  }

  lemma UnionIs(raw: Aliases, name: string, fuel: nat)
    requires Meaning(raw, name, fuel).Some?
    ensures Union(raw, name) == Meaning(raw, name, fuel)
  {
    MeaningGrows(raw, name, Rank(raw, name), fuel);
  }

  /** The union of the first parts, by what each name means. */
  ghost function UnionOf(raw: Aliases, parts: seq<Part>): Option<set<string>> {
    if parts == [] then Some({})
    else
      var before := UnionOf(raw, parts[..|parts| - 1]);
      var here := match parts[|parts| - 1]
        case Blank => Some({})
        case Literal(text) => Some({text})
        case Name(name) => Union(raw, name);
      if before.None? || here.None? then None else Some(before.value + here.value)
  }

  lemma {:induction false} MembersUnion(raw: Aliases, parts: seq<Part>, fuel: nat)
    ensures Members(raw, parts, fuel).Some? ==> UnionOf(raw, parts) == Members(raw, parts, fuel)
    decreases |parts|
  {
    if parts != [] {
      MembersUnion(raw, parts[..|parts| - 1], fuel);
      if parts[|parts| - 1].Name? && Meaning(raw, parts[|parts| - 1].name, fuel).Some? {
        UnionIs(raw, parts[|parts| - 1].name, fuel);
      }
    }
  }

  lemma {:induction false} UnionMembers(raw: Aliases, parts: seq<Part>) returns (fuel: nat)
    requires UnionOf(raw, parts).Some?
    ensures Members(raw, parts, fuel).Some?
    decreases |parts|
  {
    if parts == [] {
      return 0;
    }
    var last := parts[|parts| - 1];
    fuel := UnionMembers(raw, parts[..|parts| - 1]);
    if last.Name? {
      var rank := Rank(raw, last.name);
      var both := if fuel < rank then rank else fuel;
      MembersGrow(raw, parts[..|parts| - 1], fuel, both);
      MeaningGrows(raw, last.name, rank, both);
      fuel := both;
    }
  }

  /** The defining equation: an alias means the union of its parts, if every name in it means
      something and there is a member. */
  lemma UnionStep(raw: Aliases, name: string)
    ensures Union(raw, name) ==
      if name in raw && UnionOf(raw, raw[name]).Some?
        && UnionOf(raw, raw[name]) != Some({}) then UnionOf(raw, raw[name]) else None
  {
    if Resolvable(raw, name) {
      var rank := Rank(raw, name);
      MembersUnion(raw, raw[name], rank - 1);
    }
    if name in raw && UnionOf(raw, raw[name]).Some? && UnionOf(raw, raw[name]) != Some({}) {
      var fuel := UnionMembers(raw, raw[name]);
      MembersUnion(raw, raw[name], fuel);
      assert Meaning(raw, name, fuel + 1).Some?;
      UnionIs(raw, name, fuel + 1);
    }
  }

  lemma {:induction false} NamesMean(raw: Aliases, parts: seq<Part>, fuel: nat, i: nat)
    requires Members(raw, parts, fuel).Some? && i < |parts| && parts[i].Name?
    ensures Meaning(raw, parts[i].name, fuel).Some?
    decreases |parts|
  {
    if i < |parts| - 1 {
      NamesMean(raw, parts[..|parts| - 1], fuel, i);
    }
  }

  /** The names in a resolvable alias are resolvable, in fewer steps. */
  lemma RankFalls(raw: Aliases, name: string, i: nat)
    requires Resolvable(raw, name) && name in raw && i < |raw[name]| && raw[name][i].Name?
    ensures Resolvable(raw, raw[name][i].name) && Rank(raw, raw[name][i].name) < Rank(raw, name)
  {
    NamesMean(raw, raw[name], Rank(raw, name) - 1, i);
  }

  // ----- the resolver

  /** Every alias on the way to `name` is unresolvable or takes more steps than `name`. */
  ghost predicate OnTheWay(raw: Aliases, name: string, seen: set<string>) {
    forall s | s in seen && Resolvable(raw, s) :: Resolvable(raw, name) && Rank(raw, name) < Rank(raw, s)
  }

  ghost predicate MemoRight(raw: Aliases, memo: map<string, set<string>>) {
    forall a | a in memo :: Union(raw, a) == Some(memo[a])
  }

  class Resolver {
    const raw: Aliases
    var resolved: map<string, set<string>>

    constructor (raw: Aliases)
      ensures this.raw == raw && resolved == map[]
    {
      this.raw, resolved := raw, map[];
    }

    /** The union of `name`, kept in the memo, although `seen` cuts cycles off. */
    method Resolve(name: string, seen: set<string>) returns (r: Option<set<string>>)
      requires MemoRight(raw, resolved) && OnTheWay(raw, name, seen)
      modifies this
      ensures MemoRight(raw, resolved) && forall a | a in old(resolved) :: a in resolved
      ensures r == Union(raw, name)
      ensures r.Some? ==> name in resolved
      decreases raw.Keys - seen
    {
      if name in resolved {
        return Some(resolved[name]);
      }
      UnionStep(raw, name);
      if name !in raw || name in seen {
        return None;
      }
      var members: set<string> := {};
      var parts := raw[name];
      for i := 0 to |parts|
        invariant MemoRight(raw, resolved) && forall a | a in old(resolved) :: a in resolved
        invariant UnionOf(raw, parts[..i]) == Some(members)
      {
        assert parts[..i + 1][..i] == parts[..i];
        match parts[i]
        case Blank =>
          assert members + {} == members;
        case Literal(text) =>
          members := members + {text};
        case Name(part) =>
          if Resolvable(raw, name) {
            RankFalls(raw, name, i);
          }
          var sub := Resolve(part, seen + {name});
          if sub.None? {
            NoUnion(raw, parts, i + 1);
            return None;
          }
          members := members + sub.value;
      }
      assert parts[..|parts|] == parts;
      if members == {} {
        return None;
      }
      resolved := resolved[name := members];
      return Some(members);
    }
  }

  lemma {:induction false} NoUnion(raw: Aliases, parts: seq<Part>, i: nat)
    requires i <= |parts| && UnionOf(raw, parts[..i]).None?
    ensures UnionOf(raw, parts).None?
    decreases |parts|
  {
    if i == |parts| {
      assert parts[..i] == parts;
    } else {
      assert parts[..|parts| - 1][..i] == parts[..i];
      NoUnion(raw, parts[..|parts| - 1], i);
    }
  }

  /** Resolving the aliases in any order yields exactly those that mean something, with what they mean. */
  method ParseUnions(raw: Aliases, order: seq<string>) returns (unions: map<string, set<string>>)
    requires forall a :: a in order <==> a in raw
    ensures forall a :: a in unions <==> Resolvable(raw, a)
    ensures forall a | a in unions :: Union(raw, a) == Some(unions[a])
  {
    var resolver := new Resolver(raw);
    for i := 0 to |order|
      invariant MemoRight(raw, resolver.resolved) && resolver.raw == raw
      invariant forall j | 0 <= j < i && Resolvable(raw, order[j]) :: order[j] in resolver.resolved
    {
      var union := resolver.Resolve(order[i], {});
    }
    unions := resolver.resolved;
    forall a | Resolvable(raw, a) ensures a in unions {
      assert a in order;
      var j :| 0 <= j < |order| && order[j] == a;
    }
  }

  // ----- chains of names

  /** The names in the body of an alias. */
  function Names(raw: Aliases): string -> set<string> {
    (name: string) =>
      if name in raw then set i | 0 <= i < |raw[name]| && raw[name][i].Name? :: raw[name][i].name else {}
  }

  /** Every chain from the name is shorter than `n` and ends in an alias with a part. */
  ghost predicate Bounded(raw: Aliases, name: string, n: nat) {
    forall p | Path(Names(raw), name, p) :: |p| < n && End(name, p) in raw && HasPart(raw[End(name, p)])
  }

  predicate HasPart(parts: seq<Part>) { exists i :: 0 <= i < |parts| && !parts[i].Blank? }

  /** A name spells the literals at the ends of its chains. */
  ghost predicate Spells(raw: Aliases, name: string, text: string) {
    exists p :: Path(Names(raw), name, p) && End(name, p) in raw && Literal(text) in raw[End(name, p)]
  }

  ghost predicate InMeaning(raw: Aliases, name: string, fuel: nat, text: string) {
    Meaning(raw, name, fuel).Some? && text in Meaning(raw, name, fuel).value
  }

  ghost predicate Contributes(raw: Aliases, parts: seq<Part>, fuel: nat, text: string, i: nat)
    requires i < |parts|
  {
    parts[i] == Literal(text) || (parts[i].Name? && InMeaning(raw, parts[i].name, fuel, text))
  }

  lemma {:induction false} MembersAre(raw: Aliases, parts: seq<Part>, fuel: nat)
    ensures Members(raw, parts, fuel).Some? <==>
      forall i | 0 <= i < |parts| && parts[i].Name? :: Meaning(raw, parts[i].name, fuel).Some?
    ensures Members(raw, parts, fuel).Some? ==>
      forall text :: text in Members(raw, parts, fuel).value <==>
        exists i: nat :: i < |parts| && Contributes(raw, parts, fuel, text, i)
    decreases |parts|
  {
    hide Meaning;
    if parts != [] {
      var init, last := parts[..|parts| - 1], parts[|parts| - 1];
      MembersAre(raw, init, fuel);
      assert forall i: nat | i < |init| :: init[i] == parts[i];
      assert forall i: nat, text | i < |init| ::
        Contributes(raw, init, fuel, text, i) == Contributes(raw, parts, fuel, text, i);
      if Members(raw, parts, fuel).Some? {
        forall text
          ensures text in Members(raw, parts, fuel).value <==>
            exists i: nat :: i < |parts| && Contributes(raw, parts, fuel, text, i)
        {
          if text in Members(raw, parts, fuel).value && text !in Members(raw, init, fuel).value {
            assert Contributes(raw, parts, fuel, text, |parts| - 1);
          }
        }
      }
    }
  }

  lemma MeaningNonEmpty(raw: Aliases, name: string, fuel: nat)
    requires Meaning(raw, name, fuel).Some?
    ensures exists text :: InMeaning(raw, name, fuel, text)
  {
    var v := Meaning(raw, name, fuel).value;
    assert v != {};
    var text :| text in v;
    assert InMeaning(raw, name, fuel, text);
  }

  lemma {:induction false} ChainsEnd(raw: Aliases, name: string, fuel: nat, p: seq<string>)
    requires Meaning(raw, name, fuel).Some? && Path(Names(raw), name, p)
    ensures |p| < fuel && End(name, p) in raw && HasPart(raw[End(name, p)])
    decreases |p|
  {
    MembersAre(raw, raw[name], fuel - 1);
    if p == [] {
      MeaningNonEmpty(raw, name, fuel);
      var text :| InMeaning(raw, name, fuel, text);
      var i: nat :| i < |raw[name]| && Contributes(raw, raw[name], fuel - 1, text, i);
    } else {
      var i :| 0 <= i < |raw[name]| && raw[name][i] == Name(p[0]);
      ChainsEnd(raw, p[0], fuel - 1, p[1..]);
    }
  }

  lemma {:induction false} BoundedMeans(raw: Aliases, name: string, n: nat)
    requires Bounded(raw, name, n)
    ensures Meaning(raw, name, n).Some?
    decreases n
  {
    hide Members;
    assert Path(Names(raw), name, []);
    var parts := raw[name];
    forall i | 0 <= i < |parts| && parts[i].Name? ensures Meaning(raw, parts[i].name, n - 1).Some? {
      var part := parts[i].name;
      assert part in Names(raw)(name);
      forall q | Path(Names(raw), part, q) ensures |q| < n - 1 && End(part, q) in raw && HasPart(raw[End(part, q)]) {
        assert ([part] + q)[1..] == q;
        assert Path(Names(raw), name, [part] + q);
        assert End(name, [part] + q) == End(part, q);
      }
      BoundedMeans(raw, part, n - 1);
    }
    MembersAre(raw, parts, n - 1);
    var i: nat :| i < |parts| && !parts[i].Blank?;
    if parts[i].Name? {
      MeaningNonEmpty(raw, parts[i].name, n - 1);
      var text :| InMeaning(raw, parts[i].name, n - 1, text);
      assert Contributes(raw, parts, n - 1, text, i);
      assert text in Members(raw, parts, n - 1).value;
    } else {
      assert Contributes(raw, parts, n - 1, parts[i].text, i);
      assert parts[i].text in Members(raw, parts, n - 1).value;
    }
  }

  lemma {:induction false} MeaningSpells(raw: Aliases, name: string, fuel: nat, text: string)
    requires InMeaning(raw, name, fuel, text)
    ensures Spells(raw, name, text)
    decreases fuel
  {
    MembersAre(raw, raw[name], fuel - 1);
    var i: nat :| i < |raw[name]| && Contributes(raw, raw[name], fuel - 1, text, i);
    if raw[name][i] == Literal(text) {
      assert Path(Names(raw), name, []) && End(name, []) == name;
    } else {
      var part := raw[name][i].name;
      MeaningSpells(raw, part, fuel - 1, text);
      var q :| Path(Names(raw), part, q) && End(part, q) in raw && Literal(text) in raw[End(part, q)];
      assert ([part] + q)[1..] == q;
      assert Path(Names(raw), name, [part] + q) && End(name, [part] + q) == End(part, q);
    }
  }

  lemma {:induction false} SpellsMeaning(raw: Aliases, name: string, fuel: nat, p: seq<string>, text: string)
    requires Meaning(raw, name, fuel).Some?
    requires Path(Names(raw), name, p) && End(name, p) in raw && Literal(text) in raw[End(name, p)]
    ensures InMeaning(raw, name, fuel, text)
    decreases |p|
  {
    MembersAre(raw, raw[name], fuel - 1);
    if p == [] {
      var i: nat :| i < |raw[name]| && raw[name][i] == Literal(text);
      assert Contributes(raw, raw[name], fuel - 1, text, i);
    } else {
      var i: nat :| i < |raw[name]| && raw[name][i] == Name(p[0]);
      assert End(p[0], p[1..]) == End(name, p);
      SpellsMeaning(raw, p[0], fuel - 1, p[1..], text);
      assert Contributes(raw, raw[name], fuel - 1, text, i);
    }
  }

  /** An alias is a union exactly if its chains of names are bounded, so there is no cycle, and each
      ends in an alias with a part; its members are then the literals it spells. */
  lemma UnionExact(raw: Aliases, name: string)
    ensures Resolvable(raw, name) <==> exists n: nat :: Bounded(raw, name, n)
    ensures Resolvable(raw, name) ==> forall text :: text in Union(raw, name).value <==> Spells(raw, name, text)
  {
    if Resolvable(raw, name) {
      var rank := Rank(raw, name);
      forall p | Path(Names(raw), name, p) ensures |p| < rank && End(name, p) in raw && HasPart(raw[End(name, p)]) {
        ChainsEnd(raw, name, rank, p);
      }
      assert Bounded(raw, name, rank);
      forall text ensures text in Union(raw, name).value <==> Spells(raw, name, text) {
        if text in Union(raw, name).value {
          assert InMeaning(raw, name, rank, text);
          MeaningSpells(raw, name, rank, text);
        }
        if Spells(raw, name, text) {
          var p :| Path(Names(raw), name, p) && End(name, p) in raw && Literal(text) in raw[End(name, p)];
          SpellsMeaning(raw, name, rank, p, text);
        }
      }
    }
    if n: nat :| Bounded(raw, name, n) {
      BoundedMeans(raw, name, n);
    }
  }
}
