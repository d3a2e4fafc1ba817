/** Where a job's keys come from: `_effective` looks one key up along `extends:` and `<<:`, and
    GitLab builds the job in two stages, the merges of YAML first and the templates after them. */
module CiInheritance {
  import opened Common

  /** A `<<:` merge: of an anchored block, or one that the reader cannot resolve. */
  datatype Merge = Anchor(name: string) | Unresolved(id: string)

  /** A job or template: its own keys without `extends:`, its merges, and the templates it extends
      if it has the key. */
  datatype Block = Block(own: map<string, string>, merges: seq<Merge>, extends_: Option<seq<string>>)

  type Blocks = map<string, Block>

  // ----- the reader

  function Templates(e: Option<seq<string>>): seq<string> {
    if e.Some? then e.value else []
  }

  /** Extended templates in lookup order, the last first. */
  function Anchors(names: seq<string>): seq<Merge> {
    if names == [] then [] else [Anchor(names[|names| - 1])] + Anchors(names[..|names| - 1])
  }

  /** What a block inherits from in lookup order: merges first, then extended templates. */
  function Parents(b: Block): seq<Merge> {
    b.merges + Anchors(Templates(b.extends_))
  }

  function Effective(blocks: Blocks, name: string, key: string, seen: set<string>): Option<string>
    decreases |blocks.Keys - seen|, 0
  {
    if name in seen || name !in blocks then None
    else if key in blocks[name].own then Some(blocks[name].own[key])
    else
      Smaller(blocks.Keys, seen, name);
      FirstEffective(blocks, Parents(blocks[name]), key, seen + {name})
  }

  /** The reader passes over the merges it cannot resolve. */
  function FirstEffective(blocks: Blocks, parents: seq<Merge>, key: string, seen: set<string>): Option<string>
    decreases |blocks.Keys - seen|, 1 + |parents|
  {
    if parents == [] then None
    else if parents[0].Unresolved? then FirstEffective(blocks, parents[1..], key, seen)
    else
      var found := Effective(blocks, parents[0].name, key, seen);
      if found.Some? then found else FirstEffective(blocks, parents[1..], key, seen)
  }

  lemma Smaller(all: set<string>, seen: set<string>, name: string)
    requires name in all && name !in seen
    ensures |all - (seen + {name})| < |all - seen|
  {
    assert all - (seen + {name}) == (all - seen) - {name};
  }

  method Lookup(blocks: Blocks, name: string, key: string, seen: set<string>) returns (found: Option<string>)
    ensures found == Effective(blocks, name, key, seen)
    decreases |blocks.Keys - seen|
  {
    if name in seen || name !in blocks {
      return None;
    }
    if key in blocks[name].own {
      return Some(blocks[name].own[key]);
    }
    Smaller(blocks.Keys, seen, name);
    var parents := Parents(blocks[name]);
    var i := 0;
    while i < |parents|
      invariant 0 <= i <= |parents|
      invariant FirstEffective(blocks, parents[i..], key, seen + {name}) == Effective(blocks, name, key, seen)
    {
      assert parents[i..][1..] == parents[i + 1..];
      if parents[i].Anchor? {
        found := Lookup(blocks, parents[i].name, key, seen + {name});
        if found.Some? {
          return;
        }
      }
      i := i + 1;
    }
    return None;
  }

  /** Does the block, or anything it inherits from, have a merge that cannot be resolved? */
  function HasMergeKey(blocks: Blocks, name: string, seen: set<string>): bool
    decreases |blocks.Keys - seen|, 0
  {
    if name in seen || name !in blocks then false
    else
      Smaller(blocks.Keys, seen, name);
      AnyMergeKey(blocks, Parents(blocks[name]), seen + {name})
  }

  function AnyMergeKey(blocks: Blocks, parents: seq<Merge>, seen: set<string>): bool
    decreases |blocks.Keys - seen|, 1 + |parents|
  {
    parents != [] &&
      (parents[0].Unresolved? || HasMergeKey(blocks, parents[0].name, seen) || AnyMergeKey(blocks, parents[1..], seen))
  }

  /** Does the lookup pass over an unresolved merge before it finds the key, or without finding it? */
  function Blind(blocks: Blocks, name: string, key: string, seen: set<string>): bool
    decreases |blocks.Keys - seen|, 0
  {
    if name in seen || name !in blocks || key in blocks[name].own then false
    else
      Smaller(blocks.Keys, seen, name);
      BlindAmong(blocks, Parents(blocks[name]), key, seen + {name})
  }

  function BlindAmong(blocks: Blocks, parents: seq<Merge>, key: string, seen: set<string>): bool
    decreases |blocks.Keys - seen|, 1 + |parents|
  {
    parents != [] &&
      (parents[0].Unresolved?
       || Blind(blocks, parents[0].name, key, seen)
       || (Effective(blocks, parents[0].name, key, seen).None? && BlindAmong(blocks, parents[1..], key, seen)))
  }

  /** Where nothing was found, looking for any unresolved merge is exactly what tells a blind
      lookup; where there is none at all, no lookup is blind. */
  lemma {:induction false} MergeKeyExact(blocks: Blocks, name: string, key: string, seen: set<string>)
    ensures Blind(blocks, name, key, seen) ==> HasMergeKey(blocks, name, seen)
    ensures Effective(blocks, name, key, seen).None? ==>
      (Blind(blocks, name, key, seen) <==> HasMergeKey(blocks, name, seen))
    decreases |blocks.Keys - seen|, 0
  {
    if name !in seen && name in blocks && key !in blocks[name].own {
      Smaller(blocks.Keys, seen, name);
      MergeKeyAmong(blocks, Parents(blocks[name]), key, seen + {name});
    }
  }

  lemma {:induction false} MergeKeyAmong(blocks: Blocks, parents: seq<Merge>, key: string, seen: set<string>)
    ensures BlindAmong(blocks, parents, key, seen) ==> AnyMergeKey(blocks, parents, seen)
    ensures FirstEffective(blocks, parents, key, seen).None? ==>
      (BlindAmong(blocks, parents, key, seen) <==> AnyMergeKey(blocks, parents, seen))
    decreases |blocks.Keys - seen|, 1 + |parents|
  {
    if parents != [] {
      if parents[0].Anchor? {
        MergeKeyExact(blocks, parents[0].name, key, seen);
      }
      MergeKeyAmong(blocks, parents[1..], key, seen);
    }
  }

  // ----- the job that GitLab builds

  /** A YAML mapping: its keys, and `extends:` if it has that key. */
  datatype Mapping = Mapping(keys: map<string, string>, extends_: Option<seq<string>>)

  /** What the unresolved merges bring along, an `extends:` of theirs included. */
  type Contents = map<string, Mapping>

  const NO_KEYS := Mapping(map[], None)

  function Brought(contents: Contents, id: string): Mapping {
    if id in contents then contents[id] else NO_KEYS
  }

  /** One mapping laid over another, key by key. */
  function Over(upper: Mapping, lower: Mapping): Mapping {
    Mapping(lower.keys + upper.keys, if upper.extends_.Some? then upper.extends_ else lower.extends_)
  }

  /** First stage: a block as YAML delivers it, laid over its merges, the first merge uppermost. */
  function Yaml(blocks: Blocks, contents: Contents, name: string, seen: set<string>): Mapping
    decreases |blocks.Keys - seen|, 0
  {
    if name in seen || name !in blocks then NO_KEYS
    else
      Smaller(blocks.Keys, seen, name);
      Over(Mapping(blocks[name].own, blocks[name].extends_),
           YamlMerges(blocks, contents, blocks[name].merges, seen + {name}))
  }

  function YamlMerges(blocks: Blocks, contents: Contents, merges: seq<Merge>, seen: set<string>): Mapping
    decreases |blocks.Keys - seen|, 1 + |merges|
  {
    if merges == [] then NO_KEYS
    else
      var first := match merges[0]
        case Unresolved(id) => Brought(contents, id)
        case Anchor(name) => Yaml(blocks, contents, name, seen);
      Over(first, YamlMerges(blocks, contents, merges[1..], seen))
  }

  /** Second stage: the mapping laid over the templates it extends, each built, the last uppermost. */
  function Built(blocks: Blocks, contents: Contents, name: string, seen: set<string>): map<string, string>
    decreases |blocks.Keys - seen|, 0
  {
    if name in seen || name !in blocks then map[]
    else
      Smaller(blocks.Keys, seen, name);
      var m := Yaml(blocks, contents, name, seen);
      BuiltTemplates(blocks, contents, Templates(m.extends_), seen + {name}) + m.keys
  }

  function BuiltTemplates(blocks: Blocks, contents: Contents, names: seq<string>,
        seen: set<string>): map<string, string>
    decreases |blocks.Keys - seen|, 1 + |names|
  {
    if names == [] then map[]
    else
      BuiltTemplates(blocks, contents, names[..|names| - 1], seen) + Built(blocks, contents, names[|names| - 1], seen)
  }

  function At(m: map<string, string>, key: string): Option<string> {
    if key in m then Some(m[key]) else None
  }

  // ----- what the file alone says about a key of the built job

  /** The text of the key; that there is none; or that it is up to an unresolved merge. */
  datatype Sight = Found(text: string) | Absent | Hidden

  function YamlSight(blocks: Blocks, name: string, key: string, seen: set<string>): Sight
    decreases |blocks.Keys - seen|, 0
  {
    if name in seen || name !in blocks then Absent
    else if key in blocks[name].own then Found(blocks[name].own[key])
    else
      Smaller(blocks.Keys, seen, name);
      MergeSight(blocks, blocks[name].merges, key, seen + {name})
  }

  function MergeSight(blocks: Blocks, merges: seq<Merge>, key: string, seen: set<string>): Sight
    decreases |blocks.Keys - seen|, 1 + |merges|
  {
    if merges == [] then Absent
    else if merges[0].Unresolved? then Hidden
    else
      var first := YamlSight(blocks, merges[0].name, key, seen);
      if first.Absent? then MergeSight(blocks, merges[1..], key, seen) else first
  }

  /** The `extends:` that a block has after the merges, apart from what unresolved ones bring. */
  function YamlExtends(blocks: Blocks, name: string, seen: set<string>): Option<seq<string>>
    decreases |blocks.Keys - seen|, 0
  {
    if name in seen || name !in blocks then None
    else if blocks[name].extends_.Some? then blocks[name].extends_
    else
      Smaller(blocks.Keys, seen, name);
      MergeExtends(blocks, blocks[name].merges, seen + {name})
  }

  function MergeExtends(blocks: Blocks, merges: seq<Merge>, seen: set<string>): Option<seq<string>>
    decreases |blocks.Keys - seen|, 1 + |merges|
  {
    if merges == [] then None
    else
      var first := if merges[0].Unresolved? then None else YamlExtends(blocks, merges[0].name, seen);
      if first.Some? then first else MergeExtends(blocks, merges[1..], seen)
  }

  function SightOf(blocks: Blocks, name: string, key: string, seen: set<string>): Sight
    decreases |blocks.Keys - seen|, 0
  {
    if name in seen || name !in blocks then Absent
    else
      var first := YamlSight(blocks, name, key, seen);
      Smaller(blocks.Keys, seen, name);
      if first.Absent?
      then TemplateSight(blocks, Templates(YamlExtends(blocks, name, seen)), key, seen + {name}) else first
  }

  function TemplateSight(blocks: Blocks, names: seq<string>, key: string, seen: set<string>): Sight
    decreases |blocks.Keys - seen|, 1 + |names|
  {
    if names == [] then Absent
    else
      var last := SightOf(blocks, names[|names| - 1], key, seen);
      if last.Absent? then TemplateSight(blocks, names[..|names| - 1], key, seen) else last
  }

  /** `value` is what the sight promises. */
  predicate Shows(s: Sight, value: Option<string>) {
    (s.Found? ==> value == Some(s.text)) && (s.Absent? ==> value == None)
  }

  lemma {:induction false} YamlShows(blocks: Blocks, contents: Contents, name: string, key: string, seen: set<string>)
    ensures var s, m := YamlSight(blocks, name, key, seen), Yaml(blocks, contents, name, seen);
      Shows(s, At(m.keys, key)) && (s.Absent? ==> m.extends_ == YamlExtends(blocks, name, seen))
    decreases |blocks.Keys - seen|, 0
  {
    if name !in seen && name in blocks {
      Smaller(blocks.Keys, seen, name);
      MergesShow(blocks, contents, blocks[name].merges, key, seen + {name});
    }
  }

  lemma {:induction false} MergesShow(blocks: Blocks, contents: Contents, merges: seq<Merge>, key: string,
        seen: set<string>)
    ensures var s, m := MergeSight(blocks, merges, key, seen), YamlMerges(blocks, contents, merges, seen);
      Shows(s, At(m.keys, key)) && (s.Absent? ==> m.extends_ == MergeExtends(blocks, merges, seen))
    decreases |blocks.Keys - seen|, 1 + |merges|
  {
    if merges != [] && merges[0].Anchor? {
      YamlShows(blocks, contents, merges[0].name, key, seen);
      MergesShow(blocks, contents, merges[1..], key, seen);
    }
  }

  /** Unless it is hidden, the sight is the built job's section whatever the unresolved merges bring. */
  lemma {:induction false} BuiltShows(blocks: Blocks, contents: Contents, name: string, key: string, seen: set<string>)
    ensures Shows(SightOf(blocks, name, key, seen), At(Built(blocks, contents, name, seen), key))
    decreases |blocks.Keys - seen|, 0
  {
    if name !in seen && name in blocks {
      Smaller(blocks.Keys, seen, name);
      YamlShows(blocks, contents, name, key, seen);
      if YamlSight(blocks, name, key, seen).Absent? {
        TemplatesShow(blocks, contents, Templates(YamlExtends(blocks, name, seen)), key, seen + {name});
      }
    }
  }

  lemma {:induction false} TemplatesShow(blocks: Blocks, contents: Contents, names: seq<string>, key: string,
        seen: set<string>)
    ensures Shows(TemplateSight(blocks, names, key, seen), At(BuiltTemplates(blocks, contents, names, seen), key))
    decreases |blocks.Keys - seen|, 1 + |names|
  {
    if names != [] {
      BuiltShows(blocks, contents, names[|names| - 1], key, seen);
      TemplatesShow(blocks, contents, names[..|names| - 1], key, seen);
    }
  }

  /** The unresolved merges of the file. */
  function Ids(blocks: Blocks): set<string> {
    set b, i | b in blocks && 0 <= i < |blocks[b].merges| && blocks[b].merges[i].Unresolved? :: blocks[b].merges[i].id
  }

  /** Contents in which every unresolved merge brings the key with one value. */
  function AllBring(blocks: Blocks, key: string, value: string): Contents {
    map id | id in Ids(blocks) :: Mapping(map[key := value], None)
  }

  ghost predicate Listed(blocks: Blocks, merges: seq<Merge>) {
    forall m | m in merges && m.Unresolved? :: m.id in Ids(blocks)
  }

  lemma UnresolvedIsListed(blocks: Blocks, name: string)
    requires name in blocks
    ensures Listed(blocks, blocks[name].merges)
  {
    forall m | m in blocks[name].merges && m.Unresolved? ensures m.id in Ids(blocks) {
      var i :| 0 <= i < |blocks[name].merges| && blocks[name].merges[i] == m;
    }
  }

  lemma {:induction false} YamlHides(blocks: Blocks, name: string, key: string, seen: set<string>, value: string)
    requires YamlSight(blocks, name, key, seen).Hidden?
    ensures At(Yaml(blocks, AllBring(blocks, key, value), name, seen).keys, key) == Some(value)
    decreases |blocks.Keys - seen|, 0
  {
    Smaller(blocks.Keys, seen, name);
    UnresolvedIsListed(blocks, name);
    MergesHide(blocks, blocks[name].merges, key, seen + {name}, value);
  }

  lemma {:induction false} MergesHide(blocks: Blocks, merges: seq<Merge>, key: string, seen: set<string>, value: string)
    requires MergeSight(blocks, merges, key, seen).Hidden? && Listed(blocks, merges)
    ensures At(YamlMerges(blocks, AllBring(blocks, key, value), merges, seen).keys, key) == Some(value)
    decreases |blocks.Keys - seen|, 1 + |merges|
  {
    if merges[0].Anchor? {
      if YamlSight(blocks, merges[0].name, key, seen).Hidden? {
        YamlHides(blocks, merges[0].name, key, seen, value);
      } else {
        YamlShows(blocks, AllBring(blocks, key, value), merges[0].name, key, seen);
        MergesHide(blocks, merges[1..], key, seen, value);
      }
    }
  }

  /** A hidden section can be anything: every text is brought by some contents. */
  lemma {:induction false} BuiltHides(blocks: Blocks, name: string, key: string, seen: set<string>, value: string)
    requires SightOf(blocks, name, key, seen).Hidden?
    ensures At(Built(blocks, AllBring(blocks, key, value), name, seen), key) == Some(value)
    decreases |blocks.Keys - seen|, 0
  {
    Smaller(blocks.Keys, seen, name);
    if YamlSight(blocks, name, key, seen).Hidden? {
      YamlHides(blocks, name, key, seen, value);
    } else {
      YamlShows(blocks, AllBring(blocks, key, value), name, key, seen);
      TemplatesHide(blocks, Templates(YamlExtends(blocks, name, seen)), key, seen + {name}, value);
    }
  }

  lemma {:induction false} TemplatesHide(blocks: Blocks, names: seq<string>, key: string, seen: set<string>,
        value: string)
    requires TemplateSight(blocks, names, key, seen).Hidden?
    ensures At(BuiltTemplates(blocks, AllBring(blocks, key, value), names, seen), key) == Some(value)
    decreases |blocks.Keys - seen|, 1 + |names|
  {
    var last := names[|names| - 1];
    if SightOf(blocks, last, key, seen).Hidden? {
      BuiltHides(blocks, last, key, seen, value);
    } else {
      BuiltShows(blocks, AllBring(blocks, key, value), last, key, seen);
      TemplatesHide(blocks, names[..|names| - 1], key, seen, value);
    }
  }

  function Read(found: Option<string>): Sight {
    if found.Some? then Found(found.value) else Absent
  }

  /** The reader finds what the job has for the key, whatever the unresolved merges bring. */
  ghost predicate ReadsRight(blocks: Blocks, name: string, key: string) {
    forall contents :: Effective(blocks, name, key, {}) == At(Built(blocks, contents, name, {}), key)
  }

  /** The section read is the built job's for every content of the unresolved merges exactly if it
      is the one that the file shows for the built job. */
  lemma SectionReadExact(blocks: Blocks, name: string, key: string)
    ensures ReadsRight(blocks, name, key) <==> SightOf(blocks, name, key, {}) == Read(Effective(blocks, name, key, {}))
  {
    hide Effective, SightOf, Built;
    var found, s := Effective(blocks, name, key, {}), SightOf(blocks, name, key, {});
    var other := if found.Some? then found.value + "+" else "";
    if s.Hidden? {
      BuiltHides(blocks, name, key, {}, other);
      assert found != At(Built(blocks, AllBring(blocks, key, other), name, {}), key);
    } else if s == Read(found) {
      forall contents ensures found == At(Built(blocks, contents, name, {}), key) {
        BuiltShows(blocks, contents, name, key, {});
      }
    } else {
      BuiltShows(blocks, AllBring(blocks, key, other), name, key, {});
      assert found != At(Built(blocks, AllBring(blocks, key, other), name, {}), key);
    }
  }

  // ----- two orders of visit

  /** The blocks in the order in which the reader asks them for a key. */
  function ReadOrder(blocks: Blocks, name: string, seen: set<string>): seq<Merge>
    decreases |blocks.Keys - seen|, 0
  {
    if name in seen || name !in blocks then []
    else
      Smaller(blocks.Keys, seen, name);
      [Anchor(name)] + ReadOrderAmong(blocks, Parents(blocks[name]), seen + {name})
  }

  function ReadOrderAmong(blocks: Blocks, parents: seq<Merge>, seen: set<string>): seq<Merge>
    decreases |blocks.Keys - seen|, 1 + |parents|
  {
    if parents == [] then []
    else
      (if parents[0].Unresolved? then [] else ReadOrder(blocks, parents[0].name, seen))
      + ReadOrderAmong(blocks, parents[1..], seen)
  }

  /** What is laid over each other in the built job, uppermost first: the block and its merges, and
      under them the templates. */
  function BuildOrder(blocks: Blocks, name: string, seen: set<string>): seq<Merge>
    decreases |blocks.Keys - seen|, 0
  {
    if name in seen || name !in blocks then []
    else
      Smaller(blocks.Keys, seen, name);
      YamlOrder(blocks, name, seen) + TemplateOrder(blocks, Templates(YamlExtends(blocks, name, seen)), seen + {name})
  }

  function TemplateOrder(blocks: Blocks, names: seq<string>, seen: set<string>): seq<Merge>
    decreases |blocks.Keys - seen|, 1 + |names|
  {
    if names == [] then []
    else BuildOrder(blocks, names[|names| - 1], seen) + TemplateOrder(blocks, names[..|names| - 1], seen)
  }

  function YamlOrder(blocks: Blocks, name: string, seen: set<string>): seq<Merge>
    decreases |blocks.Keys - seen|, 0
  {
    if name in seen || name !in blocks then []
    else
      Smaller(blocks.Keys, seen, name);
      [Anchor(name)] + MergeOrder(blocks, blocks[name].merges, seen + {name})
  }

  function MergeOrder(blocks: Blocks, merges: seq<Merge>, seen: set<string>): seq<Merge>
    decreases |blocks.Keys - seen|, 1 + |merges|
  {
    if merges == [] then []
    else
      (if merges[0].Unresolved? then [merges[0]] else YamlOrder(blocks, merges[0].name, seen))
      + MergeOrder(blocks, merges[1..], seen)
  }

  /** An order without its repetitions. */
  function Firsts(order: seq<Merge>, past: set<Merge>): seq<Merge> {
    if order == [] then []
    else if order[0] in past then Firsts(order[1..], past)
    else [order[0]] + Firsts(order[1..], past + {order[0]})
  }

  /** The keys that each block has of its own. */
  type Keys = map<string, map<string, string>>

  /** The same merges and `extends:` with other keys. */
  function With(blocks: Blocks, own: Keys): Blocks {
    map b | b in blocks :: blocks[b].(own := if b in own then own[b] else map[])
  }

  function SightAt(own: Keys, m: Merge, key: string): Sight {
    if m.Unresolved? then Hidden
    else if m.name in own && key in own[m.name] then Found(own[m.name][key]) else Absent
  }

  /** The first in the order that has the key. */
  function FirstOf(own: Keys, order: seq<Merge>, key: string): Sight {
    if order == [] then Absent
    else if SightAt(own, order[0], key).Absent? then FirstOf(own, order[1..], key)
    else SightAt(own, order[0], key)
  }

  lemma {:induction false} FirstOfConcat(own: Keys, a: seq<Merge>, b: seq<Merge>, key: string)
    ensures FirstOf(own, a + b, key) == if FirstOf(own, a, key).Absent? then FirstOf(own, b, key)
      else FirstOf(own, a, key)
  {
    if a == [] {
      assert a + b == b;
    } else {
      assert (a + b)[0] == a[0] && (a + b)[1..] == a[1..] + b;
      FirstOfConcat(own, a[1..], b, key);
    }
  }

  lemma FirstOfNext(own: Keys, m: Merge, rest: seq<Merge>, key: string)
    ensures FirstOf(own, [m] + rest, key) == if SightAt(own, m, key).Absent? then FirstOf(own, rest, key)
      else SightAt(own, m, key)
  {
    assert ([m] + rest)[1..] == rest;
  }

  lemma {:induction false} ReadFirst(blocks: Blocks, own: Keys, name: string, key: string, seen: set<string>)
    ensures Read(Effective(With(blocks, own), name, key, seen)) == FirstOf(own, ReadOrder(blocks, name, seen), key)
    decreases |blocks.Keys - seen|, 0
  {
    if name !in seen && name in blocks {
      Smaller(blocks.Keys, seen, name);
      ReadFirstAmong(blocks, own, Parents(blocks[name]), key, seen + {name});
      FirstOfNext(own, Anchor(name), ReadOrderAmong(blocks, Parents(blocks[name]), seen + {name}), key);
    }
  }

  lemma {:induction false} ReadFirstAmong(blocks: Blocks, own: Keys, parents: seq<Merge>, key: string,
        seen: set<string>)
    ensures Read(FirstEffective(With(blocks, own), parents, key, seen))
      == FirstOf(own, ReadOrderAmong(blocks, parents, seen), key)
    decreases |blocks.Keys - seen|, 1 + |parents|
  {
    if parents != [] {
      ReadFirstAmong(blocks, own, parents[1..], key, seen);
      var rest := ReadOrderAmong(blocks, parents[1..], seen);
      if parents[0].Anchor? {
        ReadFirst(blocks, own, parents[0].name, key, seen);
        FirstOfConcat(own, ReadOrder(blocks, parents[0].name, seen), rest, key);
      } else {
        assert [] + rest == rest;
      }
    }
  }

  lemma {:induction false} YamlFirst(blocks: Blocks, own: Keys, name: string, key: string, seen: set<string>)
    ensures YamlSight(With(blocks, own), name, key, seen) == FirstOf(own, YamlOrder(blocks, name, seen), key)
    ensures YamlExtends(With(blocks, own), name, seen) == YamlExtends(blocks, name, seen)
    decreases |blocks.Keys - seen|, 0
  {
    if name !in seen && name in blocks {
      Smaller(blocks.Keys, seen, name);
      MergesFirst(blocks, own, blocks[name].merges, key, seen + {name});
      FirstOfNext(own, Anchor(name), MergeOrder(blocks, blocks[name].merges, seen + {name}), key);
    }
  }

  lemma {:induction false} MergesFirst(blocks: Blocks, own: Keys, merges: seq<Merge>, key: string, seen: set<string>)
    ensures MergeSight(With(blocks, own), merges, key, seen) == FirstOf(own, MergeOrder(blocks, merges, seen), key)
    ensures MergeExtends(With(blocks, own), merges, seen) == MergeExtends(blocks, merges, seen)
    decreases |blocks.Keys - seen|, 1 + |merges|
  {
    if merges != [] {
      MergesFirst(blocks, own, merges[1..], key, seen);
      var rest := MergeOrder(blocks, merges[1..], seen);
      if merges[0].Anchor? {
        YamlFirst(blocks, own, merges[0].name, key, seen);
        FirstOfConcat(own, YamlOrder(blocks, merges[0].name, seen), rest, key);
      } else {
        FirstOfNext(own, merges[0], rest, key);
      }
    }
  }

  lemma {:induction false} BuildFirst(blocks: Blocks, own: Keys, name: string, key: string, seen: set<string>)
    ensures SightOf(With(blocks, own), name, key, seen) == FirstOf(own, BuildOrder(blocks, name, seen), key)
    decreases |blocks.Keys - seen|, 0
  {
    if name !in seen && name in blocks {
      Smaller(blocks.Keys, seen, name);
      var names := Templates(YamlExtends(blocks, name, seen));
      YamlFirst(blocks, own, name, key, seen);
      TemplatesFirst(blocks, own, names, key, seen + {name});
      FirstOfConcat(own, YamlOrder(blocks, name, seen), TemplateOrder(blocks, names, seen + {name}), key);
    }
  }

  lemma {:induction false} TemplatesFirst(blocks: Blocks, own: Keys, names: seq<string>, key: string, seen: set<string>)
    ensures TemplateSight(With(blocks, own), names, key, seen) == FirstOf(own, TemplateOrder(blocks, names, seen), key)
    decreases |blocks.Keys - seen|, 1 + |names|
  {
    if names != [] {
      var last, init := names[|names| - 1], names[..|names| - 1];
      BuildFirst(blocks, own, last, key, seen);
      TemplatesFirst(blocks, own, init, key, seen);
      FirstOfConcat(own, BuildOrder(blocks, last, seen), TemplateOrder(blocks, init, seen), key);
    }
  }

  /** Asking again does not help. */
  lemma {:induction false} FirstsFindTheSame(own: Keys, order: seq<Merge>, past: set<Merge>, key: string)
    requires forall m | m in past :: SightAt(own, m, key).Absent?
    ensures FirstOf(own, Firsts(order, past), key) == FirstOf(own, order, key)
  {
    if order != [] {
      if order[0] in past {
        FirstsFindTheSame(own, order[1..], past, key);
      } else {
        FirstOfNext(own, order[0], Firsts(order[1..], past + {order[0]}), key);
        if SightAt(own, order[0], key).Absent? {
          FirstsFindTheSame(own, order[1..], past + {order[0]}, key);
        }
      }
    }
  }

  ghost predicate NoRepeats(order: seq<Merge>) {
    forall i, j | 0 <= i < j < |order| :: order[i] != order[j]
  }

  lemma {:induction false} FirstsAreOnce(order: seq<Merge>, past: set<Merge>)
    ensures NoRepeats(Firsts(order, past))
    ensures forall m | m in Firsts(order, past) :: m !in past && m in order
  {
    if order != [] {
      FirstsAreOnce(order[1..], if order[0] in past then past else past + {order[0]});
    }
  }

  lemma {:induction false} ReadOrderResolved(blocks: Blocks, name: string, seen: set<string>)
    ensures forall m | m in ReadOrder(blocks, name, seen) :: m.Anchor?
    decreases |blocks.Keys - seen|, 0
  {
    if name !in seen && name in blocks {
      Smaller(blocks.Keys, seen, name);
      ReadOrderAmongResolved(blocks, Parents(blocks[name]), seen + {name});
    }
  }

  lemma {:induction false} ReadOrderAmongResolved(blocks: Blocks, parents: seq<Merge>, seen: set<string>)
    ensures forall m | m in ReadOrderAmong(blocks, parents, seen) :: m.Anchor?
    decreases |blocks.Keys - seen|, 1 + |parents|
  {
    if parents != [] {
      if parents[0].Anchor? {
        ReadOrderResolved(blocks, parents[0].name, seen);
      }
      ReadOrderAmongResolved(blocks, parents[1..], seen);
    }
  }

  lemma {:induction false} SilentStart(own: Keys, order: seq<Merge>, i: nat, key: string)
    requires i <= |order| && forall j | 0 <= j < i :: SightAt(own, order[j], key).Absent?
    ensures FirstOf(own, order, key) == FirstOf(own, order[i..], key)
  {
    if i > 0 {
      SilentStart(own, order[1..], i - 1, key);
      assert order[1..][i - 1..] == order[i..];
    } else {
      assert order[0..] == order;
    }
  }

  lemma {:induction false} FirstDifference(a: seq<Merge>, b: seq<Merge>) returns (i: nat)
    requires a != b
    ensures i <= |a| && i <= |b| && a[..i] == b[..i]
    ensures i < |a| || i < |b|
    ensures i < |a| && i < |b| ==> a[i] != b[i]
  {
    i := 0;
    if a != [] && b != [] && a[0] == b[0] {
      assert a == [a[0]] + a[1..] && b == [b[0]] + b[1..];
      var j := FirstDifference(a[1..], b[1..]);
      i := j + 1;
      assert a[..i] == [a[0]] + a[1..][..j] && b[..i] == [b[0]] + b[1..][..j];
    }
  }

  /** Each of the blocks has its own name as the text of the key. */
  function Labelled(order: seq<Merge>, key: string): Keys {
    map i | 0 <= i < |order| && order[i].Anchor? :: order[i].name := map[key := order[i].name]
  }

  lemma LabelledShows(order: seq<Merge>, m: Merge, key: string)
    ensures SightAt(Labelled(order, key), m, key)
         == if m.Unresolved? then Hidden else if m in order then Found(m.name) else Absent
  {
    if m.Anchor? && m in order {
      var i :| 0 <= i < |order| && order[i] == m;
      assert order[i].name in Labelled(order, key);
    }
  }

  lemma StartsAt(own: Keys, order: seq<Merge>, i: nat, key: string)
    requires i <= |order| && forall j | 0 <= j < i :: SightAt(own, order[j], key).Absent?
    requires i < |order| ==> !SightAt(own, order[i], key).Absent?
    ensures FirstOf(own, order, key) == if i < |order| then SightAt(own, order[i], key) else Absent
  {
    SilentStart(own, order, i, key);
    if i < |order| {
      assert order[i..] == [order[i]] + order[i + 1..];
    }
  }

  /** Two orders without repetitions that differ find different sections for some keys. */
  lemma OrdersDiffer(a: seq<Merge>, b: seq<Merge>, key: string) returns (own: Keys)
    requires NoRepeats(a) && NoRepeats(b) && a != b && forall m | m in a :: m.Anchor?
    ensures FirstOf(own, a, key) != FirstOf(own, b, key)
  {
    hide Labelled, FirstOf, SightAt;
    var i := FirstDifference(a, b);
    var rest := a[i..] + b[i..];
    own := Labelled(rest, key);
    assert a == a[..i] + a[i..] && b == b[..i] + b[i..];
    forall m: Merge
      ensures SightAt(own, m, key) == if m.Unresolved? then Hidden else if m in rest then Found(m.name) else Absent
    {
      LabelledShows(rest, m, key);
    }
    forall j | 0 <= j < i ensures SightAt(own, a[j], key).Absent? && a[j] == b[j] {
      assert a[..i][j] == b[..i][j] && a[j] in a;
      assert a[j] !in rest;
    }
    assert i < |a| ==> a[i] in rest && a[i] in a;
    assert i < |b| ==> b[i] in rest;
    StartsAt(own, a, i, key);
    StartsAt(own, b, i, key);
  }

  /** The reader asks in the order in which the built job is laid, repetitions apart. */
  predicate OrdersAgree(blocks: Blocks, name: string) {
    Firsts(ReadOrder(blocks, name, {}), {}) == Firsts(BuildOrder(blocks, name, {}), {})
  }

  /** With given merges and `extends:`, the reader finds the built job's section whatever keys the
      blocks have and whatever unresolved merges bring, exactly if the two orders agree. */
  lemma OrdersExact(blocks: Blocks, name: string, key: string)
    ensures (forall own :: ReadsRight(With(blocks, own), name, key)) <==> OrdersAgree(blocks, name)
  {
    hide ReadsRight, With, ReadOrder, BuildOrder, Firsts, FirstOf;
    var read, build := ReadOrder(blocks, name, {}), BuildOrder(blocks, name, {});
    forall own
      ensures ReadsRight(With(blocks, own), name, key) <==>
        FirstOf(own, Firsts(read, {}), key) == FirstOf(own, Firsts(build, {}), key)
    {
      SectionReadExact(With(blocks, own), name, key);
      ReadFirst(blocks, own, name, key, {});
      BuildFirst(blocks, own, name, key, {});
      FirstsFindTheSame(own, read, {}, key);
      FirstsFindTheSame(own, build, {}, key);
    }
    if !OrdersAgree(blocks, name) {
      FirstsAreOnce(read, {});
      FirstsAreOnce(build, {});
      ReadOrderResolved(blocks, name, {});
      var own := OrdersDiffer(Firsts(read, {}), Firsts(build, {}), key);
      assert !ReadsRight(With(blocks, own), name, key);
    }
  }

  // ----- where anchored blocks extend nothing

  /** No anchored block that a merge takes up has an `extends:`. */
  predicate PlainMerges(blocks: Blocks) {
    forall b, m | b in blocks && m in blocks[b].merges && m.Anchor? && m.name in blocks :: blocks[m.name].extends_.None?
  }

  lemma {:induction false} FirstEffectiveConcat(blocks: Blocks, a: seq<Merge>, b: seq<Merge>, key: string,
        seen: set<string>)
    ensures FirstEffective(blocks, a + b, key, seen)
         == if FirstEffective(blocks, a, key, seen).Some? then FirstEffective(blocks, a, key, seen)
           else FirstEffective(blocks, b, key, seen)
    ensures BlindAmong(blocks, a + b, key, seen)
         == (BlindAmong(blocks, a, key, seen)
           || (FirstEffective(blocks, a, key, seen).None? && BlindAmong(blocks, b, key, seen)))
  {
    if a == [] {
      assert a + b == b;
    } else {
      assert (a + b)[0] == a[0] && (a + b)[1..] == a[1..] + b;
      FirstEffectiveConcat(blocks, a[1..], b, key, seen);
    }
  }

  /** What the reader can say of a section: the text, unless it passed over an unresolved merge. */
  function Seen(blocks: Blocks, name: string, key: string, seen: set<string>): Sight {
    if Blind(blocks, name, key, seen) then Hidden else Read(Effective(blocks, name, key, seen))
  }

  function SeenAmong(blocks: Blocks, parents: seq<Merge>, key: string, seen: set<string>): Sight {
    if BlindAmong(blocks, parents, key, seen) then Hidden else Read(FirstEffective(blocks, parents, key, seen))
  }

  lemma {:induction false} PlainYaml(blocks: Blocks, name: string, key: string, seen: set<string>)
    requires PlainMerges(blocks) && (name in blocks ==> blocks[name].extends_.None?)
    ensures YamlSight(blocks, name, key, seen) == Seen(blocks, name, key, seen)
    ensures YamlExtends(blocks, name, seen) == None
    decreases |blocks.Keys - seen|, 0
  {
    if name !in seen && name in blocks {
      Smaller(blocks.Keys, seen, name);
      assert Parents(blocks[name]) == blocks[name].merges;
      PlainMergesSeen(blocks, name, blocks[name].merges, key, seen + {name});
    }
  }

  lemma {:induction false} PlainMergesSeen(blocks: Blocks, b: string, merges: seq<Merge>, key: string,
        seen: set<string>)
    requires PlainMerges(blocks) && b in blocks && forall m | m in merges :: m in blocks[b].merges
    ensures MergeSight(blocks, merges, key, seen) == SeenAmong(blocks, merges, key, seen)
    ensures MergeExtends(blocks, merges, seen) == None
    decreases |blocks.Keys - seen|, 1 + |merges|
  {
    if merges != [] {
      assert merges[0] in merges;
      if merges[0].Anchor? {
        PlainYaml(blocks, merges[0].name, key, seen);
      }
      PlainMergesSeen(blocks, b, merges[1..], key, seen);
    }
  }

  /** Where anchored blocks extend nothing, a section that the reader finds without passing over an
      unresolved merge is the built job's, and otherwise it is hidden. */
  lemma {:induction false} PlainSight(blocks: Blocks, name: string, key: string, seen: set<string>)
    requires PlainMerges(blocks)
    ensures SightOf(blocks, name, key, seen) == Seen(blocks, name, key, seen)
    decreases |blocks.Keys - seen|, 0
  {
    if name !in seen && name in blocks {
      Smaller(blocks.Keys, seen, name);
      var block, inner := blocks[name], seen + {name};
      PlainMergesSeen(blocks, name, block.merges, key, inner);
      assert YamlExtends(blocks, name, seen) == block.extends_;
      FirstEffectiveConcat(blocks, block.merges, Anchors(Templates(block.extends_)), key, inner);
      PlainTemplates(blocks, Templates(block.extends_), key, inner);
    }
  }

  lemma {:induction false} PlainTemplates(blocks: Blocks, names: seq<string>, key: string, seen: set<string>)
    requires PlainMerges(blocks)
    ensures TemplateSight(blocks, names, key, seen) == SeenAmong(blocks, Anchors(names), key, seen)
    decreases |blocks.Keys - seen|, 1 + |names|
  {
    if names != [] {
      PlainSight(blocks, names[|names| - 1], key, seen);
      PlainTemplates(blocks, names[..|names| - 1], key, seen);
    }
  }

  /** There the section read is right exactly if no unresolved merge outranks the place where it
      was found. */
  lemma PlainReadExact(blocks: Blocks, name: string, key: string)
    requires PlainMerges(blocks)
    ensures ReadsRight(blocks, name, key) <==> !Blind(blocks, name, key, {})
  {
    hide SightOf, Effective, Blind, ReadsRight;
    PlainSight(blocks, name, key, {});
    SectionReadExact(blocks, name, key);
  }

  /** With resolved merges only, the two orders agree. */
  lemma PlainOrdersAgree(blocks: Blocks, name: string)
    requires PlainMerges(blocks) && forall b, m | b in blocks && m in blocks[b].merges :: m.Anchor?
    ensures OrdersAgree(blocks, name)
  {
    hide ReadsRight, OrdersAgree, Blind, HasMergeKey;
    forall own ensures ReadsRight(With(blocks, own), name, "") {
      assert PlainMerges(With(blocks, own));
      NothingUnresolved(With(blocks, own), name, {});
      MergeKeyExact(With(blocks, own), name, "", {});
      PlainReadExact(With(blocks, own), name, "");
    }
    OrdersExact(blocks, name, "");
  }

  lemma {:induction false} NothingUnresolved(blocks: Blocks, name: string, seen: set<string>)
    requires forall b, m | b in blocks && m in blocks[b].merges :: m.Anchor?
    ensures !HasMergeKey(blocks, name, seen)
    decreases |blocks.Keys - seen|, 0
  {
    if name !in seen && name in blocks {
      Smaller(blocks.Keys, seen, name);
      AnchorsResolve(Templates(blocks[name].extends_));
      NothingUnresolvedAmong(blocks, Parents(blocks[name]), seen + {name});
    }
  }

  lemma {:induction false} AnchorsResolve(names: seq<string>)
    ensures forall m | m in Anchors(names) :: m.Anchor?
  {
    if names != [] {
      AnchorsResolve(names[..|names| - 1]);
    }
  }

  lemma {:induction false} NothingUnresolvedAmong(blocks: Blocks, parents: seq<Merge>, seen: set<string>)
    requires forall b, m | b in blocks && m in blocks[b].merges :: m.Anchor?
    requires forall m | m in parents :: m.Anchor?
    ensures !AnyMergeKey(blocks, parents, seen)
    decreases |blocks.Keys - seen|, 1 + |parents|
  {
    if parents != [] {
      NothingUnresolved(blocks, parents[0].name, seen);
      NothingUnresolvedAmong(blocks, parents[1..], seen);
    }
  }

  /** Where the orders agree, every section is read rightly. */
  lemma AgreeingOrdersRead(blocks: Blocks, name: string, key: string)
    requires OrdersAgree(blocks, name)
    ensures ReadsRight(blocks, name, key)
  {
    hide ReadsRight, OrdersAgree;
    var own: Keys := map b | b in blocks :: blocks[b].own;
    OrdersExact(blocks, name, key);
    assert With(blocks, own) == blocks;
  }
}
