/** Inheriting the fields of TypeScript interfaces (the `extends` loop of `parse_ts_interfaces` in
    `scripts/check-serializer-ts-parity.py`). */
module InterfaceBases {
  import opened Common

  /** A field's type text and whether it is optional. */
  datatype Field = Field(typeText: string, optional: bool)

  type Fields = map<string, Field>

  /** The fields that interfaces declare themselves, and the base that each names. */
  datatype Source = Source(own: map<string, Fields>, bases: map<string, string>) {
    ghost predicate Valid() { bases.Keys <= own.Keys }
  }

  // ----- what an interface has

  /** The field from the nearest declaration along the bases, at most `fuel - 1` of them up. */
  function Lookup(src: Source, name: string, field: string, fuel: nat): Option<Field>
    decreases fuel
  {
    if fuel == 0 || name !in src.own then None
    else if field in src.own[name] then Some(src.own[name][field])
    else if name in src.bases then Lookup(src, src.bases[name], field, fuel - 1)
    else None
  }

  /** The interface has the field, as its nearest declaration has it. */
  ghost predicate Has(src: Source, name: string, field: string, f: Field) {
    exists fuel: nat :: Lookup(src, name, field, fuel) == Some(f)
  }

  lemma {:induction false} LookupGrows(src: Source, name: string, field: string, fuel: nat, more: nat)
    requires fuel <= more && Lookup(src, name, field, fuel).Some?
    ensures Lookup(src, name, field, more) == Lookup(src, name, field, fuel)
    decreases fuel
  {
    if field !in src.own[name] {
      LookupGrows(src, src.bases[name], field, fuel - 1, more - 1);
    }
  }

  lemma HasOne(src: Source, name: string, field: string, f: Field, g: Field)
    requires Has(src, name, field, f) && Has(src, name, field, g)
    ensures f == g
  {
    var m: nat :| Lookup(src, name, field, m) == Some(f);
    var n: nat :| Lookup(src, name, field, n) == Some(g);
    LookupGrows(src, name, field, m, m + n);
    LookupGrows(src, name, field, n, m + n);
  }

  /** An interface that does not declare the field has what its base has. */
  lemma HasFromBase(src: Source, name: string, field: string, f: Field)
    requires name in src.own && field !in src.own[name]
    ensures Has(src, name, field, f) <==> name in src.bases && Has(src, src.bases[name], field, f)
  {
    if Has(src, name, field, f) {
      var n: nat :| Lookup(src, name, field, n) == Some(f);
      assert Lookup(src, src.bases[name], field, n - 1) == Some(f);
    }
    if name in src.bases && Has(src, src.bases[name], field, f) {
      var n: nat :| Lookup(src, src.bases[name], field, n) == Some(f);
      assert Lookup(src, name, field, n + 1) == Some(f);
    }
  }

  lemma HasOwn(src: Source, name: string, field: string)
    requires name in src.own && field in src.own[name]
    ensures Has(src, name, field, src.own[name][field])
  {
    assert Lookup(src, name, field, 1) == Some(src.own[name][field]);
  }

  lemma HasNothing(src: Source, name: string)
    requires name !in src.own
    ensures forall field, f :: !Has(src, name, field, f)
  {}

  /** Round a cycle that does not declare the field there is none. */
  lemma {:induction false} NotInCycle(src: Source, cycle: set<string>, name: string, field: string, fuel: nat)
    requires name in cycle
    requires forall w | w in cycle :: w in src.own && field !in src.own[w] && (w in src.bases ==> src.bases[w] in cycle)
    ensures Lookup(src, name, field, fuel) == None
    decreases fuel
  {
    if fuel > 0 && name in src.bases {
      NotInCycle(src, cycle, src.bases[name], field, fuel - 1);
    }
  }

  // ----- the loop

  /** The fields found so far are right and hold those declared. */
  ghost predicate Right(src: Source, result: map<string, Fields>) {
    && result.Keys == src.own.Keys
    && (forall n, field | n in result && field in result[n] :: Has(src, n, field, result[n][field]))
    && (forall n, field | n in src.own && field in src.own[n] :: field in result[n])
  }

  ghost predicate Complete(src: Source, n: string, fields: Fields) {
    forall field, f | Has(src, n, field, f) :: field in fields
  }

  /** Adds the fields that are not there yet. */
  function Defaults(fields: Fields, more: Fields): Fields {
    map field | field in fields.Keys + more.Keys :: if field in fields then fields[field] else more[field]
  }

  /** Gives every interface its bases' fields, updating the table in place in any order of the
      interfaces: what one of them has inherited already may be inherited further. */
  method Inherit(src: Source, order: seq<string>) returns (result: map<string, Fields>)
    requires src.Valid() && forall n :: n in order <==> n in src.bases
    ensures result.Keys == src.own.Keys
    ensures forall n, field, f | n in result :: Has(src, n, field, f) <==> field in result[n] && result[n][field] == f
  {
    hide Has;
    result := src.own;
    forall n, field | n in src.own && field in src.own[n] ensures Has(src, n, field, src.own[n][field]) {
      HasOwn(src, n, field);
    }
    for i := 0 to |order|
      invariant Right(src, result)
      invariant forall j | 0 <= j < i :: Complete(src, order[j], result[order[j]])
    {
      var fields := Walk(src, result, order[i]);
      result := result[order[i] := fields];
    }
    forall n | n in result ensures Complete(src, n, result[n]) {
      if n in src.bases {
        var j :| 0 <= j < |order| && order[j] == n;
      } else {
        forall field, f | Has(src, n, field, f) ensures field in result[n] {
          if field !in src.own[n] {
            HasFromBase(src, n, field, f);
          }
        }
      }
    }
    forall n, field, f | n in result ensures Has(src, n, field, f) <==> field in result[n] && result[n][field] == f {
      if Has(src, n, field, f) {
        HasOne(src, n, field, f, result[n][field]);
      }
    }
  }

  /** What is missing from `fields` is what `cur` has. */
  ghost predicate LeftTo(src: Source, name: string, fields: Fields, cur: string) {
    forall field, f | field !in fields :: Has(src, name, field, f) <==> Has(src, cur, field, f)
  }

  lemma RightHoldsOwn(src: Source, result: map<string, Fields>, name: string)
    requires src.Valid() && Right(src, result) && name in src.bases
    ensures result.Keys == src.own.Keys && name in result
    ensures forall field | field in src.own[name] :: field in result[name]
    ensures LeftTo(src, name, result[name], src.bases[name])
  {
    hide Has;
    forall field, f | field !in result[name] ensures Has(src, name, field, f) <==> Has(src, src.bases[name], field, f) {
      HasFromBase(src, name, field, f);
    }
  }

  /** All fields of one interface, walking up its bases. */
  method Walk(src: Source, result: map<string, Fields>, name: string) returns (fields: Fields)
    requires src.Valid() && Right(src, result) && name in src.bases
    ensures Right(src, result[name := fields]) && Complete(src, name, fields)
  {
    hide Has, Right, LeftTo, Complete;
    RightHoldsOwn(src, result, name);
    fields := result[name];
    var seen, chain := {name}, Some(src.bases[name]);
    assert result[name := fields] == result;
    while chain.Some?
      invariant Right(src, result[name := fields]) && name in seen && seen <= src.own.Keys
      invariant forall w, field | w in seen && field in src.own[w] :: field in fields
      invariant chain.Some? ==> LeftTo(src, name, fields, chain.value)
      invariant chain.Some? ==> forall w | w in seen && w in src.bases ::
        src.bases[w] in seen || src.bases[w] == chain.value
      invariant chain.None? ==> Complete(src, name, fields)
      decreases src.own.Keys - seen, chain.Some?
    {
      var cur := chain.value;
      if cur in seen || cur !in result {
        WalkEnds(src, name, fields, seen, cur);
        return;
      }
      seen := seen + {cur};
      fields := Inherited(src, result, name, fields, cur);
      chain := if cur in src.bases then Some(src.bases[cur]) else None;
    }
  }

  /** Takes over the fields that the table has for `cur`. */
  method Inherited(src: Source, result: map<string, Fields>, name: string, fields: Fields,
        cur: string) returns (more: Fields)
    requires src.Valid() && name in src.bases && cur in src.own && Right(src, result)
      && Right(src, result[name := fields])
    requires LeftTo(src, name, fields, cur)
    ensures more == Defaults(fields, result[cur])
    ensures Right(src, result[name := more])
    ensures forall field | field in fields || field in src.own[cur] :: field in more
    ensures cur in src.bases ==> LeftTo(src, name, more, src.bases[cur])
    ensures cur !in src.bases ==> Complete(src, name, more)
  {
    hide Has;
    more := Defaults(fields, result[cur]);
    forall field | field in more ensures Has(src, name, field, more[field]) {
      if field in fields {
        assert Has(src, name, field, result[name := fields][name][field]);
      } else {
        assert Has(src, cur, field, result[cur][field]);
      }
    }
    forall field, f | field !in more
      ensures Has(src, name, field, f) <==> cur in src.bases && Has(src, src.bases[cur], field, f)
    {
      HasFromBase(src, cur, field, f);
    }
  }

  lemma WalkEnds(src: Source, name: string, fields: Fields, seen: set<string>, cur: string)
    requires name in seen && seen <= src.own.Keys && (cur in seen || cur !in src.own)
    requires forall w, field | w in seen && field in src.own[w] :: field in fields
    requires forall w | w in seen && w in src.bases :: src.bases[w] in seen || src.bases[w] == cur
    requires LeftTo(src, name, fields, cur)
    ensures Complete(src, name, fields)
  {
    forall field, f | Has(src, name, field, f) ensures field in fields {
      if field !in fields {
        if cur in seen {
          var fuel: nat :| Lookup(src, name, field, fuel) == Some(f);
          NotInCycle(src, seen, name, field, fuel);
        } else {
          HasNothing(src, cur);
        }
      }
    }
  }
}
