/** Splitting a cell of the fast-path table and taking one gate out of it
    (`scripts/kaizen_fastpath_proposal.py`). */
module CellEditor {
  import opened Common

  // ----- text

  const ARROW := '\U{2192}'

  /** The characters Python counts as white space. */
  predicate IsSpace(c: char) {
    || '\t' <= c <= '\r' || '\U{1C}' <= c <= ' ' || c == '\U{85}' || c == '\U{A0}' || c == '\U{1680}'
    || '\U{2000}' <= c <= '\U{200A}' || '\U{2028}' <= c <= '\U{2029}' || c == '\U{202F}' || c == '\U{205F}'
      || c == '\U{3000}'
  }

  function SpaceRun(s: string): (n: nat)
    ensures n <= |s| && (n < |s| ==> !IsSpace(s[n])) && forall i | 0 <= i < n :: IsSpace(s[i])
  {
    if s != "" && IsSpace(s[0]) then 1 + SpaceRun(s[1..]) else 0
  }

  /** `SpaceRun` is the only number with its contract. */
  lemma {:induction false} SpaceRunIs(s: string, n: nat)
    requires n <= |s| && (n < |s| ==> !IsSpace(s[n])) && forall i | 0 <= i < n :: IsSpace(s[i])
    ensures SpaceRun(s) == n
  {}

  function StripEnd(s: string): string {
    if s != "" && IsSpace(s[|s| - 1]) then StripEnd(s[..|s| - 1]) else s
  }

  function Strip(s: string): string {
    StripEnd(s[SpaceRun(s)..])
  }

  predicate NonBlank(s: string) {
    exists i :: 0 <= i < |s| && !IsSpace(s[i])
  }

  // ----- separators

  /** The length of the step arrow or plus sign that `s` starts with. */
  function MarkLength(s: string): (n: nat)
    ensures n <= |s|
  {
    if s != "" && (s[0] == ARROW || s[0] == '+') then 1
    else if |s| >= 2 && s[0] == '-' && s[1] == '>' then 2
    else 0
  }

  /** The length of the separator that `s` starts with, white space on both sides included. */
  function SepLength(s: string): (n: nat)
    ensures n <= |s|
  {
    var w := SpaceRun(s);
    var k := MarkLength(s[w..]);
    if k == 0 then 0 else w + k + SpaceRun(s[w + k..])
  }

  predicate IsSep(s: string) {
    s != "" && SepLength(s) == |s|
  }

  predicate IsPlus(sep: string) {
    Strip(sep) == "+"
  }

  // ----- tokenize

  datatype Unsafe = Unbalanced | EmptyStep | Ambiguous | NotStandalone | NamedTwice | OnlyItem

  function Prefixed(c: string, tokens: Result<seq<string>, Unsafe>): Result<seq<string>, Unsafe> {
    if tokens.Ok? && tokens.value != [] then Ok([c + tokens.value[0]] + tokens.value[1..]) else tokens
  }

  function After(tokens: seq<string>, rest: Result<seq<string>, Unsafe>): Result<seq<string>, Unsafe> {
    if rest.Ok? then Ok(tokens + rest.value) else rest
  }

  lemma PrefixedNothing(tokens: Result<seq<string>, Unsafe>)
    ensures Prefixed("", tokens) == tokens && After([], tokens) == tokens
  {
    if tokens.Ok? {
      assert [] + tokens.value == tokens.value;
      if tokens.value != [] {
        assert "" + tokens.value[0] == tokens.value[0];
        assert [tokens.value[0]] + tokens.value[1..] == tokens.value;
      }
    }
  }

  lemma PrefixedTwice(b: string, c: string, tokens: Result<seq<string>, Unsafe>)
    ensures Prefixed(b, Prefixed(c, tokens)) == Prefixed(b + c, tokens)
  {
    if tokens.Ok? && tokens.value != [] {
      assert b + (c + tokens.value[0]) == (b + c) + tokens.value[0];
    }
  }

  lemma AfterTwice(tokens: seq<string>, b: string, sep: string, rest: Result<seq<string>, Unsafe>)
    ensures After(tokens, Prefixed(b, After(["", sep], rest))) == After(tokens + [b, sep], rest)
  {
    if rest.Ok? {
      var r := ["", sep] + rest.value;
      assert b + "" == b;
      assert [b + r[0]] + r[1..] == [b, sep] + rest.value;
      assert tokens + ([b, sep] + rest.value) == (tokens + [b, sep]) + rest.value;
    }
  }

  /** The tokens of `s`, read inside `depth` parentheses and, if `tick`, inside a backtick span. */
  function Split(s: string, depth: nat, tick: bool): (r: Result<seq<string>, Unsafe>)
    ensures r.Ok? ==> r.value != []
    decreases |s|
  {
    if s == "" then (if depth != 0 || tick then Err(Unbalanced) else Ok([""]))
    else if s[0] == '`' then Prefixed(s[..1], Split(s[1..], depth, !tick))
    else if !tick && s[0] == '(' then Prefixed(s[..1], Split(s[1..], depth + 1, tick))
    else if !tick && s[0] == ')' then
      (if depth == 0 then Err(Unbalanced) else Prefixed(s[..1], Split(s[1..], depth - 1, tick)))
    else if !tick && depth == 0 && SepLength(s) > 0 then
      After(["", s[..SepLength(s)]], Split(s[SepLength(s)..], 0, false))
    else Prefixed(s[..1], Split(s[1..], depth, tick))
  }

  predicate ItemsNonBlank(tokens: seq<string>) {
    forall i | 0 <= i < |tokens| && i % 2 == 0 :: NonBlank(tokens[i])
  }

  function Tokenize(cell: string): Result<seq<string>, Unsafe> {
    var tokens := Split(cell, 0, false);
    if tokens.Ok? && !ItemsNonBlank(tokens.value) then Err(EmptyStep) else tokens
  }

  method TokenizeCell(cell: string) returns (r: Result<seq<string>, Unsafe>)
    ensures r == Tokenize(cell)
  {
    hide SepLength, NonBlank, Prefixed, After;
    var tokens, buf, depth, tick, i := [], "", 0, false, 0;
    assert cell[0..] == cell;
    PrefixedNothing(Split(cell, 0, false));
    while i < |cell|
      invariant 0 <= i <= |cell| && depth >= 0
      invariant After(tokens, Prefixed(buf, Split(cell[i..], depth, tick))) == Split(cell, 0, false)
    {
      var c := cell[i];
      ghost var rest := Split(cell[i..], depth, tick);
      assert cell[i..][1..] == cell[i + 1..] && cell[i..][..1] == [c];
      if c == '`' {
        tick := !tick;
      } else if !tick && c == '(' {
        depth := depth + 1;
      } else if !tick && c == ')' {
        depth := depth - 1;
        if depth < 0 {
          FailsAfter(tokens, buf, Unbalanced);
          return Err(Unbalanced);
        }
      } else if !tick && depth == 0 {
        var n := SepLength(cell[i..]);
        if n > 0 {
          assert cell[i..][n..] == cell[i + n..];
          AfterTwice(tokens, buf, cell[i..][..n], Split(cell[i + n..], 0, false));
          PrefixedNothing(Split(cell[i + n..], 0, false));
          tokens := tokens + [buf, cell[i..][..n]];
          buf, i := "", i + n;
          continue;
        }
      }
      PrefixedTwice(buf, [c], Split(cell[i + 1..], depth, tick));
      buf, i := buf + [c], i + 1;
    }
    FailsAfter(tokens, buf, Unbalanced);
    if depth > 0 || tick {
      return Err(Unbalanced);
    }
    LastItem(tokens, buf);
    tokens := tokens + [buf];
    if exists k | 0 <= k < |tokens| :: k % 2 == 0 && !NonBlank(tokens[k]) {
      return Err(EmptyStep);
    }
    return Ok(tokens);
  }

  lemma FailsAfter(tokens: seq<string>, buf: string, e: Unsafe)
    ensures After(tokens, Prefixed(buf, Err(e))) == Err(e)
  {}

  lemma LastItem(tokens: seq<string>, buf: string)
    ensures After(tokens, Prefixed(buf, Ok([""]))) == Ok(tokens + [buf])
  {
    assert buf + "" == buf;
    assert [buf] + [""][1..] == [buf];
  }

  // ----- what tokenize returns

  /** The text reads from `depth` and `tick` to the top level, and no separator starts in it there. */
  predicate Scans(s: string, depth: nat, tick: bool)
    decreases |s|
  {
    if s == "" then depth == 0 && !tick
    else if s[0] == '`' then Scans(s[1..], depth, !tick)
    else if !tick && s[0] == '(' then Scans(s[1..], depth + 1, tick)
    else if !tick && s[0] == ')' then depth > 0 && Scans(s[1..], depth - 1, tick)
    else (!tick && depth == 0 ==> SepLength(s) == 0) && Scans(s[1..], depth, tick)
  }

  predicate NoTrail(s: string) { s != "" ==> !IsSpace(s[|s| - 1]) }

  predicate NoLead(s: string) { s != "" ==> !IsSpace(s[0]) }

  predicate Item(s: string) { NonBlank(s) && Scans(s, 0, false) }

  /** Token `i` is an item at an even place and a separator at an odd one; all white space around a
      separator belongs to it. */
  predicate RightToken(tokens: seq<string>, i: nat)
    requires |tokens| % 2 == 1 && i < |tokens|
  {
    if i % 2 == 0 then Item(tokens[i]) else IsSep(tokens[i]) && NoTrail(tokens[i - 1]) && NoLead(tokens[i + 1])
  }

  /** Items and separators alternate. */
  predicate WellFormed(tokens: seq<string>) {
    && |tokens| % 2 == 1
    && forall i: nat | i < |tokens| :: RightToken(tokens, i)
  }

  lemma SepFirst(s: string)
    requires SepLength(s) > 0
    ensures IsSpace(s[0]) || s[0] == ARROW || s[0] == '+' || s[0] == '-'
    ensures s[0] == '-' ==> |s| > 1 && s[1] == '>'
  {}

  lemma MarkExtends(a: string, y: string)
    requires MarkLength(a) > 0
    ensures MarkLength(a + y) == MarkLength(a)
  {}

  /** A separator starts a text whatever follows it there. */
  lemma SepExtends(x: string, y: string)
    requires SepLength(x) > 0
    ensures SepLength(x + y) >= SepLength(x)
  {
    hide IsSpace, SpaceRun, MarkLength;
    var w := SpaceRun(x);
    var k := MarkLength(x[w..]);
    assert w < |x| && k > 0;
    SpaceRunIs(x + y, w);
    assert (x + y)[w..] == x[w..] + y;
    MarkExtends(x[w..], y);
    var a, b := x[w + k..], (x + y)[w + k..];
    assert b == a + y;
    SpaceRunGrows(a, y);
  }

  lemma {:induction false} SpaceRunGrows(a: string, y: string)
    ensures SpaceRun(a + y) >= SpaceRun(a)
  {
    if a != "" && IsSpace(a[0]) {
      assert (a + y)[1..] == a[1..] + y;
      SpaceRunGrows(a[1..], y);
    }
  }

  /** Before text that starts with no white space, a separator is matched just to its end. */
  lemma SepEnds(x: string, y: string)
    requires IsSep(x) && NoLead(y)
    ensures SepLength(x + y) == |x|
  {
    hide IsSpace, SpaceRun, MarkLength;
    var w := SpaceRun(x);
    var k := MarkLength(x[w..]);
    assert w < |x| && k > 0;
    SpaceRunIs(x + y, w);
    assert (x + y)[w..] == x[w..] + y;
    MarkExtends(x[w..], y);
    assert (x + y)[w + k..] == x[w + k..] + y;
    SpaceRunIs(x[w + k..] + y, |x| - w - k);
  }

  /** White space before a separator is part of it. */
  lemma SepGrows(c: char, s: string)
    requires IsSpace(c) && SepLength(s) > 0
    ensures SepLength([c] + s) > 0
  {
    assert ([c] + s)[1..] == s;
    assert ([c] + s)[1 + SpaceRun(s)..] == s[SpaceRun(s)..];
  }

  lemma EndsUnspaced(x: string)
    requires x != "" && NoTrail(x)
    ensures SpaceRun(x) < |x|
  {}

  /** No separator starts inside an item because of what follows the item. */
  lemma NoSepAcross(x: string, y: string)
    requires x != "" && SepLength(x) == 0 && NoTrail(x)
    requires y == "" || SepLength(y) > 0
    ensures SepLength(x + y) == 0
  {
    var w := SpaceRun(x);
    EndsUnspaced(x);
    SpaceRunIs(x + y, w);
    assert (x + y)[w..] == x[w..] + y;
    if y != "" {
      SepFirst(y);
      assert y[0] != '>';
    }
  }

  lemma ConcatFirst(tokens: seq<string>)
    requires |tokens| >= 2
    ensures Concat(tokens) == tokens[0] + (tokens[1] + Concat(tokens[2..]))
  {
    assert tokens[1..][1..] == tokens[2..];
  }

  /** `WellFormed`, where the first token may be what is left of an item read so far. */
  predicate Fits(tokens: seq<string>, depth: nat, tick: bool) {
    && |tokens| % 2 == 1
    && Scans(tokens[0], depth, tick)
    && (|tokens| > 1 ==>
          NoTrail(tokens[0]) && IsSep(tokens[1]) && NoLead(tokens[2]) && NonBlank(tokens[2])
            && Fits(tokens[2..], 0, false))
  }

  lemma WellFormedStep(tokens: seq<string>)
    requires |tokens| >= 3
    ensures WellFormed(tokens) <==>
      Item(tokens[0]) && NoTrail(tokens[0]) && IsSep(tokens[1]) && NoLead(tokens[2]) && WellFormed(tokens[2..])
  {
    hide Item, NoTrail, NoLead, IsSep;
    var rest := tokens[2..];
    if |tokens| % 2 == 1 {
      forall i: nat | i < |rest| ensures RightToken(rest, i) == RightToken(tokens, i + 2) {}
      if WellFormed(tokens) {
        assert RightToken(tokens, 0) && RightToken(tokens, 1);
        assert forall i: nat | i < |rest| :: RightToken(rest, i);
      }
      if Item(tokens[0]) && NoTrail(tokens[0]) && IsSep(tokens[1]) && NoLead(tokens[2]) && WellFormed(rest) {
        forall i: nat | i < |tokens| ensures RightToken(tokens, i) {
          if i >= 2 {
            assert RightToken(rest, i - 2);
          }
        }
      }
    }
  }

  lemma {:induction false} FitsIsWellFormed(tokens: seq<string>)
    requires tokens != [] && NonBlank(tokens[0])
    ensures Fits(tokens, 0, false) <==> WellFormed(tokens)
  {
    hide NonBlank, Scans, IsSep, NoTrail, NoLead;
    if |tokens| >= 3 {
      WellFormedStep(tokens);
      assert WellFormed(tokens[2..]) ==> RightToken(tokens[2..], 0);
      if NonBlank(tokens[2]) {
        FitsIsWellFormed(tokens[2..]);
      }
    } else if |tokens| == 1 {
      assert WellFormed(tokens) <==> RightToken(tokens, 0);
    }
  }

  /** Text after an item: nothing or a separator. */
  lemma RestIsSep(tokens: seq<string>)
    requires |tokens| % 2 == 1 && (|tokens| > 1 ==> IsSep(tokens[1]))
    ensures Concat(tokens) == tokens[0] + Concat(tokens[1..])
    ensures Concat(tokens[1..]) == "" || SepLength(Concat(tokens[1..])) > 0
  {
    if |tokens| > 1 {
      SepExtends(tokens[1], Concat(tokens[1..][1..]));
    }
  }

  /** The state after reading `c`, which neither closes a parenthesis too many nor starts a separator. */
  function Next(c: char, depth: nat, tick: bool): (nat, bool)
    requires !tick && c == ')' ==> depth > 0
  {
    if c == '`' then (depth, !tick)
    else if !tick && c == '(' then (depth + 1, tick)
    else if !tick && c == ')' then (depth - 1, tick)
    else (depth, tick)
  }

  /** The tokens left when the first character of the first token has been read. */
  function Advance(tokens: seq<string>): seq<string>
    requires tokens != [] && tokens[0] != ""
  {
    [tokens[0][1..]] + tokens[1..]
  }

  lemma AdvanceShrinks(tokens: seq<string>)
    requires tokens != [] && tokens[0] != ""
    ensures |Advance(tokens)| == |tokens| && |Advance(tokens)[0]| < |tokens[0]|
  {}

  lemma AdvanceText(tokens: seq<string>)
    requires tokens != [] && tokens[0] != ""
    ensures var s := Concat(tokens);
      s != "" && s[0] == tokens[0][0] && s[..1] == tokens[0][..1] && s[1..] == Concat(Advance(tokens))
  {
    var rest, first, tail := Advance(tokens), tokens[0], tokens[1..];
    assert rest[1..] == tail;
    ConcatStep(tokens);
    ConcatStep(rest);
    TailOfSum(first, Concat(tail));
  }

  lemma ConcatStep(tokens: seq<string>)
    requires tokens != []
    ensures Concat(tokens) == tokens[0] + Concat(tokens[1..])
  {}

  lemma TailOfSum(a: string, b: string)
    requires a != ""
    ensures (a + b)[..1] == a[..1] && (a + b)[1..] == a[1..] + b
  {}

  lemma AdvanceBack(tokens: seq<string>)
    requires tokens != [] && tokens[0] != ""
    ensures Prefixed(tokens[0][..1], Ok(Advance(tokens))) == Ok(tokens)
  {
    var first, rest := tokens[0], Advance(tokens);
    assert first[..1] + first[1..] == first;
    assert rest[1..] == tokens[1..];
    assert [first] + tokens[1..] == tokens;
  }

  lemma AdvanceFits(tokens: seq<string>, depth: nat, tick: bool, depth': nat, tick': bool)
    requires Fits(tokens, depth, tick) && tokens[0] != "" && Scans(tokens[0][1..], depth', tick')
    ensures Fits(Advance(tokens), depth', tick')
  {
    hide Scans, IsSep, NonBlank;
    assert |tokens| > 1 ==> Advance(tokens)[2..] == tokens[2..];
  }

  lemma NoText()
    ensures Concat([""]) == ""
  {
    assert Concat([""][1..]) == "";
  }

  /** Reading a fitting list of tokens back gives those tokens. */
  lemma {:induction false} SplitConcat(tokens: seq<string>, depth: nat, tick: bool)
    requires Fits(tokens, depth, tick)
    ensures Split(Concat(tokens), depth, tick) == Ok(tokens)
    decreases |tokens|, |tokens[0]|
  {
    hide SepLength, IsSep, NonBlank, Concat, Prefixed, After, Advance;
    var first := tokens[0];
    if first == "" {
      if |tokens| == 1 {
        assert tokens == [""];
        NoText();
      } else {
        SplitConcat(tokens[2..], 0, false);
        SplitAtSep(tokens);
      }
    } else {
      AdvanceText(tokens);
      AdvanceBack(tokens);
      var (depth', tick') := Next(first[0], depth, tick);
      AdvanceFits(tokens, depth, tick, depth', tick');
      if !tick && depth == 0 && first[0] !in "`()" {
        NoSepAcrossTokens(tokens);
      }
      AdvanceShrinks(tokens);
      SplitConcat(Advance(tokens), depth', tick');
    }
  }

  lemma NoSepAcrossTokens(tokens: seq<string>)
    requires |tokens| % 2 == 1 && tokens[0] != "" && SepLength(tokens[0]) == 0
    requires |tokens| > 1 ==> NoTrail(tokens[0]) && IsSep(tokens[1])
    ensures SepLength(Concat(tokens)) == 0
  {
    RestIsSep(tokens);
    if |tokens| == 1 {
      assert tokens[0] + Concat(tokens[1..]) == tokens[0];
    } else {
      NoSepAcross(tokens[0], Concat(tokens[1..]));
    }
  }

  lemma StartsWithItem(tokens: seq<string>)
    requires tokens != [] && NonBlank(tokens[0]) && NoLead(tokens[0])
    ensures NoLead(Concat(tokens))
  {
    assert tokens[0] != "" && Concat(tokens)[0] == tokens[0][0];
  }

  lemma SepStarts(sep: string)
    requires IsSep(sep)
    ensures sep != "" && SepLength(sep) == |sep| && sep[0] !in "`()"
  {
    SepFirst(sep);
  }

  lemma SplitAtSep(tokens: seq<string>)
    requires |tokens| > 1 && tokens[0] == "" && Fits(tokens, 0, false)
    requires Split(Concat(tokens[2..]), 0, false) == Ok(tokens[2..])
    ensures Split(Concat(tokens), 0, false) == Ok(tokens)
  {
    hide SepLength, Scans, Concat, NonBlank, IsSpace;
    var sep, more := tokens[1], Concat(tokens[2..]);
    ConcatFirst(tokens);
    assert Concat(tokens) == sep + more;
    StartsWithItem(tokens[2..]);
    SepEnds(sep, more);
    SepStarts(sep);
    assert (sep + more)[0] == sep[0];
    assert (sep + more)[..|sep|] == sep && (sep + more)[|sep|..] == more;
    assert ["", sep] + tokens[2..] == tokens;
  }

  predicate LaterItemsNonBlank(tokens: seq<string>) {
    forall i | 2 <= i < |tokens| && i % 2 == 0 :: NonBlank(tokens[i])
  }

  lemma FirstOf(x: string, y: string)
    requires NonBlank(x) && NoLead(x + y)
    ensures NoLead(x)
  {}

  lemma MarkPrefix(a: string, n: nat)
    requires 0 < MarkLength(a) <= n <= |a|
    ensures MarkLength(a[..n]) == MarkLength(a)
  {}

  /** A separator is taken to the end of the white space after it. */
  lemma SepTaken(s: string)
    requires SepLength(s) > 0
    ensures IsSep(s[..SepLength(s)]) && NoLead(s[SepLength(s)..])
    ensures s[..SepLength(s)] + s[SepLength(s)..] == s
  {
    hide IsSpace, SpaceRun, MarkLength;
    var w, n := SpaceRun(s), SepLength(s);
    var k := MarkLength(s[w..]);
    assert k > 0 && n == w + k + SpaceRun(s[w + k..]);
    var x, tail := s[..n], s[w + k..];
    SpaceRunIs(x, w);
    assert x[w..] == s[w..][..n - w];
    MarkPrefix(s[w..], n - w);
    assert x[w + k..] == tail[..n - w - k];
    SpaceRunIs(x[w + k..], n - w - k);
    assert s[n..] == tail[n - w - k..];
  }

  lemma SepNonEmpty(s: string)
    requires IsSep(s)
    ensures s != ""
  {}

  /** A character read before a separator is no white space: it would have been part of it. */
  lemma CharTaken(c: char, rest: seq<string>, depth: nat, tick: bool)
    requires Fits(rest, depth, tick)
    requires c !in "`()" && !tick && depth == 0 ==> SepLength([c] + Concat(rest)) == 0
    ensures |rest| > 1 ==> NoTrail([c] + rest[0])
    ensures Concat([[c] + rest[0]] + rest[1..]) == [c] + Concat(rest)
  {
    hide SepLength, IsSep, NonBlank;
    var tokens := [[c] + rest[0]] + rest[1..];
    assert tokens[1..] == rest[1..];
    ConcatStep(tokens);
    ConcatStep(rest);
    assert ([c] + rest[0]) + Concat(rest[1..]) == [c] + (rest[0] + Concat(rest[1..]));
    if |rest| > 1 && rest[0] == "" && IsSpace(c) {
      RestIsSep(rest);
      ConcatStep(rest[1..]);
      SepNonEmpty(rest[1]);
      assert Concat(rest) == Concat(rest[1..]) != "";
      SepGrows(c, Concat(rest));
    }
  }

  lemma NoSepInside(c: char, rest: seq<string>)
    requires rest != [] && SepLength([c] + Concat(rest)) == 0
    ensures SepLength([c] + rest[0]) == 0
  {
    ConcatStep(rest);
    assert [c] + (rest[0] + Concat(rest[1..])) == ([c] + rest[0]) + Concat(rest[1..]);
    if SepLength([c] + rest[0]) > 0 {
      SepExtends([c] + rest[0], Concat(rest[1..]));
    }
  }

  lemma CharFits(c: char, rest: seq<string>, depth: nat, tick: bool)
    requires !tick && c == ')' ==> depth > 0
    requires Fits(rest, Next(c, depth, tick).0, Next(c, depth, tick).1)
    requires c !in "`()" && !tick && depth == 0 ==> SepLength([c] + Concat(rest)) == 0
    ensures Fits([[c] + rest[0]] + rest[1..], depth, tick)
    ensures Concat([[c] + rest[0]] + rest[1..]) == [c] + Concat(rest)
  {
    hide SepLength, IsSep, NonBlank, NoLead, Concat, NoTrail;
    var tokens := [[c] + rest[0]] + rest[1..];
    var (depth', tick') := Next(c, depth, tick);
    CharTaken(c, rest, depth', tick');
    if c !in "`()" && !tick && depth == 0 {
      NoSepInside(c, rest);
    }
    assert tokens[0][1..] == rest[0];
    assert |rest| > 1 ==> tokens[2..] == rest[2..];
  }

  lemma SepFits(s: string, rest: seq<string>)
    requires SepLength(s) > 0 && Fits(rest, 0, false) && NonBlank(rest[0]) && Concat(rest) == s[SepLength(s)..]
    ensures Fits(["", s[..SepLength(s)]] + rest, 0, false)
    ensures Concat(["", s[..SepLength(s)]] + rest) == s
  {
    hide SepLength, IsSep, NonBlank, Concat, NoLead;
    var tokens := ["", s[..SepLength(s)]] + rest;
    assert tokens[2..] == rest;
    SepTaken(s);
    ConcatFirst(tokens);
    ConcatStep(rest);
    FirstOf(rest[0], Concat(rest[1..]));
  }

  /** What splitting a text returns spells the text and fits. */
  lemma {:induction false} SplitFits(s: string, depth: nat, tick: bool)
    requires Split(s, depth, tick).Ok? && LaterItemsNonBlank(Split(s, depth, tick).value)
    ensures Fits(Split(s, depth, tick).value, depth, tick)
    ensures Concat(Split(s, depth, tick).value) == s
    decreases |s|
  {
    hide SepLength, NonBlank, Concat, Fits;
    var tokens := Split(s, depth, tick).value;
    if s == "" {
      NoText();
      assert Fits([""], 0, false) by { NothingFits(); }
    } else if !tick && depth == 0 && s[0] !in "`()" && SepLength(s) > 0 {
      var n := SepLength(s);
      var rest := Split(s[n..], 0, false).value;
      assert tokens == ["", s[..n]] + rest;
      assert forall i | 0 <= i < |rest| :: tokens[i + 2] == rest[i];
      assert NonBlank(tokens[2]);
      SplitFits(s[n..], 0, false);
      SepFits(s, rest);
    } else {
      var (depth', tick') := Next(s[0], depth, tick);
      var rest := Split(s[1..], depth', tick').value;
      assert s[..1] == [s[0]] && [s[0]] + s[1..] == s;
      assert tokens == [[s[0]] + rest[0]] + rest[1..];
      assert forall i | 1 <= i < |rest| :: tokens[i] == rest[i];
      SplitFits(s[1..], depth', tick');
      CharFits(s[0], rest, depth, tick);
    }
  }

  lemma NothingFits()
    ensures Fits([""], 0, false)
  {}

  /** `tokenize` returns the one way to write the cell as items and separators in turn, and fails
      exactly if there is none: no character is lost, and no cell that has a reading is refused. */
  lemma TokenizeExact(cell: string, tokens: seq<string>)
    ensures Tokenize(cell) == Ok(tokens) <==> WellFormed(tokens) && Concat(tokens) == cell
  {
    hide Split, Scans, NonBlank, IsSep, Fits, Concat, NoTrail, NoLead;
    if Tokenize(cell) == Ok(tokens) {
      assert NonBlank(tokens[0]);
      SplitFits(cell, 0, false);
      FitsIsWellFormed(tokens);
    }
    if WellFormed(tokens) && Concat(tokens) == cell {
      forall i | 0 <= i < |tokens| && i % 2 == 0 ensures NonBlank(tokens[i]) {
        assert RightToken(tokens, i);
      }
      FitsIsWellFormed(tokens);
      SplitConcat(tokens, 0, false);
    }
  }

  // ----- naming a gate

  function NameRun(s: string): (n: nat)
    ensures n <= |s| && (n < |s| ==> s[n] == '`')
  {
    if s != "" && s[0] != '`' then 1 + NameRun(s[1..]) else 0
  }

  /** The gate in backticks that the item starts with, and the text after it. */
  function Opening(item: string): Option<(string, string)> {
    var w := SpaceRun(item);
    if w == |item| || item[w] != '`' then None
    else
      var n := NameRun(item[w + 1..]);
      if n == 0 || w + 1 + n == |item| then None else Some((item[w + 1..][..n], item[w + 2 + n..]))
  }

  function Level(c: char): int {
    if c == '(' then 1 else if c == ')' then -1 else 0
  }

  /** Where the parentheses of `s`, read at `depth`, first balance. */
  function Closes(s: string, depth: int): (r: Option<nat>)
    ensures r.Some? ==> r.value < |s|
  {
    if s == "" then None
    else if depth + Level(s[0]) == 0 then Some(0)
    else
      var r := Closes(s[1..], depth + Level(s[0]));
      if r.None? then None else Some(r.value + 1)
  }

  /** Whether the item is the gate, alone or with one qualifier in parentheses. */
  function NamesItem(item: string, gate: string): Result<bool, Unsafe> {
    var opening := Opening(item);
    if opening.None? || opening.value.0 != gate then Ok(false)
    else
      var rest := Strip(opening.value.1);
      if rest == "" then Ok(true)
      else if rest[0] == '(' && Closes(rest, 0) == Some(|rest| - 1) then Ok(true)
      else Err(Ambiguous)
  }

  method Names(item: string, gate: string) returns (r: Result<bool, Unsafe>)
    ensures r == NamesItem(item, gate)
  {
    hide Opening, Strip;
    var opening := Opening(item);
    if opening.None? || opening.value.0 != gate {
      return Ok(false);
    }
    var rest := Strip(opening.value.1);
    if rest == "" {
      return Ok(true);
    }
    if rest[0] == '(' {
      var depth := 0;
      for pos := 0 to |rest|
        invariant Closes(rest, 0) == var c := Closes(rest[pos..], depth); if c.None? then None else Some(pos + c.value)
      {
        assert rest[pos..][1..] == rest[pos + 1..];
        depth := depth + Level(rest[pos]);
        if depth == 0 {
          if pos == |rest| - 1 {
            return Ok(true);
          }
          break;
        }
      }
    }
    return Err(Ambiguous);
  }

  predicate Blank(s: string) { forall i | 0 <= i < |s| :: IsSpace(s[i]) }

  /** The item opens with white space and the name in backticks. */
  ghost predicate OpensWith(item: string, name: string, rest: string) {
    name != "" && '`' !in name && exists pre :: Blank(pre) && item == pre + "`" + name + "`" + rest
  }

  lemma {:induction false} NameRunIs(s: string, n: nat)
    requires n < |s| && s[n] == '`' && forall i | 0 <= i < n :: s[i] != '`'
    ensures NameRun(s) == n
  {
    if n > 0 {
      NameRunIs(s[1..], n - 1);
    }
  }

  lemma {:induction false} NameRunLacks(s: string)
    ensures '`' !in s[..NameRun(s)]
  {
    if s != "" && s[0] != '`' {
      NameRunLacks(s[1..]);
      assert s[..NameRun(s)] == [s[0]] + s[1..][..NameRun(s) - 1];
    }
  }

  lemma OpeningOpens(item: string)
    requires Opening(item).Some?
    ensures OpensWith(item, Opening(item).value.0, Opening(item).value.1)
  {
    hide IsSpace, NameRun, SpaceRun;
    var w := SpaceRun(item);
    var tail := item[w + 1..];
    var n := NameRun(tail);
    NameRunLacks(tail);
    assert item[w + 2 + n..] == tail[n + 1..];
    Quoted(item, w, n);
    assert Blank(item[..w]);
  }

  /** Text with backticks at `w` and `n` places further on. */
  lemma Quoted(s: string, w: nat, n: nat)
    requires w + 1 + n < |s| && s[w] == s[w + 1 + n] == '`'
    ensures s == s[..w] + "`" + s[w + 1..][..n] + "`" + s[w + 1..][n + 1..]
  {
    assert s == s[..w] + ([s[w]] + s[w + 1..]);
    assert s[w + 1..] == s[w + 1..][..n] + ([s[w + 1 + n]] + s[w + 1..][n + 1..]);
  }

  lemma OpensIsOpening(item: string, pre: string, name: string, rest: string)
    requires name != "" && '`' !in name && Blank(pre) && item == pre + "`" + name + "`" + rest
    ensures Opening(item) == Some((name, rest))
  {
    hide IsSpace, NameRun, SpaceRun;
    var w, n, tail := |pre|, |name|, name + "`" + rest;
    assert item == pre + ("`" + tail);
    assert item[w] == '`';
    NotSpace();
    SpaceRunIs(item, w);
    assert item[w + 1..] == tail;
    NameRunIs(tail, n);
    assert tail[..n] == name && tail[n + 1..] == rest;
    assert item[w + 2 + n..] == tail[n + 1..];
  }

  lemma OpeningExact(item: string, name: string, rest: string)
    ensures Opening(item) == Some((name, rest)) <==> OpensWith(item, name, rest)
  {
    hide Opening;
    if Opening(item) == Some((name, rest)) {
      OpeningOpens(item);
    }
    if OpensWith(item, name, rest) {
      var pre :| Blank(pre) && item == pre + "`" + name + "`" + rest;
      OpensIsOpening(item, pre, name, rest);
    }
  }

  lemma NotSpace()
    ensures !IsSpace('`')
  {}

  function Depth(s: string): int {
    if s == "" then 0 else Level(s[0]) + Depth(s[1..])
  }

  /** One group of parentheses that balances at its end and not before. */
  predicate Qualifier(s: string) {
    s != "" && s[0] == '(' && Depth(s) == 0 && forall i | 0 < i < |s| :: Depth(s[..i]) != 0
  }

  lemma {:induction false} ClosesAtEnd(s: string, depth: int)
    requires s != ""
    ensures Closes(s, depth) == Some(|s| - 1) <==>
      depth + Depth(s) == 0 && forall i | 0 < i < |s| :: depth + Depth(s[..i]) != 0
  {
    var next := depth + Level(s[0]);
    forall i | 0 < i < |s| ensures Depth(s[..i]) == Level(s[0]) + Depth(s[1..][..i - 1]) {
      assert s[..i][1..] == s[1..][..i - 1];
    }
    assert |s| > 1 ==> Depth(s[..1]) == Level(s[0]) + Depth(s[1..][..0]);
    if s[1..] != "" {
      ClosesAtEnd(s[1..], next);
      forall j | 0 < j < |s| - 1 ensures next + Depth(s[1..][..j]) == depth + Depth(s[..j + 1]) {
      }
    }
  }

  /** An item names the gate exactly if it is the gate in backticks, alone or with one qualifier,
      and white space; it is ambiguous exactly if anything else follows the gate. */
  lemma NamesExact(item: string, gate: string)
    ensures NamesItem(item, gate) == Ok(true) <==>
      exists rest :: OpensWith(item, gate, rest) && (Strip(rest) == "" || Qualifier(Strip(rest)))
    ensures NamesItem(item, gate).Err? <==>
      exists rest :: OpensWith(item, gate, rest) && Strip(rest) != "" && !Qualifier(Strip(rest))
  {
    hide Opening, OpensWith, Strip, Depth;
    if Opening(item).Some? {
      OpeningExact(item, Opening(item).value.0, Opening(item).value.1);
      var rest := Strip(Opening(item).value.1);
      if rest != "" {
        ClosesAtEnd(rest, 0);
      }
    }
    forall rest | OpensWith(item, gate, rest) ensures Opening(item) == Some((gate, rest)) {
      OpeningExact(item, gate, rest);
    }
  }

  /** The places from `i` on whose item names the gate. */
  function Hits(tokens: seq<string>, gate: string, i: nat): (r: Result<seq<nat>, Unsafe>)
    requires i % 2 == 0
    ensures r.Ok? ==> forall n: nat | n < |r.value| :: i <= r.value[n] < |tokens| && r.value[n] % 2 == 0
    decreases |tokens| - i
  {
    if i >= |tokens| then Ok([])
    else
      var here, later := NamesItem(tokens[i], gate), Hits(tokens, gate, i + 2);
      if here.Err? then Err(here.error)
      else if later.Err? then later
      else if here.value then Ok([i] + later.value)
      else later
  }

  lemma {:induction false} HitsAre(tokens: seq<string>, gate: string, i: nat, k: nat)
    requires i % 2 == 0 && Hits(tokens, gate, i).Ok? && i <= k < |tokens| && k % 2 == 0
    ensures NamesItem(tokens[k], gate) == Ok(k in Hits(tokens, gate, i).value)
    decreases |tokens| - i
  {
    hide NamesItem;
    var hits, later := Hits(tokens, gate, i).value, Hits(tokens, gate, i + 2).value;
    if i == k {
      assert NamesItem(tokens[i], gate).value ==> hits[0] == i;
      assert i !in later;
    } else {
      HitsAre(tokens, gate, i + 2, k);
      assert NamesItem(tokens[i], gate).value ==> hits == [i] + later;
    }
  }

  // ----- taking a gate out

  predicate Contains(s: string, part: string)
    requires part != ""
  {
    |part| <= |s| && (s[..|part|] == part || Contains(s[1..], part))
  }

  /** The separator that goes with item `k`: a plus sign if one touches it, else the arrow before
      it, or after it for the first item. */
  function Companion(tokens: seq<string>, k: nat): (j: nat)
    requires k < |tokens| && |tokens| > 1
    ensures j < |tokens| && (j == k - 1 || j == k + 1)
  {
    if k > 0 && IsPlus(tokens[k - 1]) then k - 1
    else if k + 1 < |tokens| && IsPlus(tokens[k + 1]) then k + 1
    else if k > 0 then k - 1
    else k + 1
  }

  function Delete(tokens: seq<string>, k: nat, j: nat): seq<string>
    requires k < |tokens| && j < |tokens| && (j == k - 1 || j == k + 1)
  {
    if j < k then tokens[..j] + tokens[k + 1..] else tokens[..k] + tokens[j + 1..]
  }

  lemma TokenCount(cell: string)
    ensures Tokenize(cell).Ok? ==> |Tokenize(cell).value| % 2 == 1
  {
    if Tokenize(cell).Ok? {
      TokenizeExact(cell, Tokenize(cell).value);
    }
  }

  function Removal(cell: string, gate: string): Result<Option<string>, Unsafe> {
    var tokens := Tokenize(cell);
    if tokens.Err? then Err(tokens.error)
    else
      TokenCount(cell);
      var hits := Hits(tokens.value, gate, 0);
      if hits.Err? then Err(hits.error)
      else if hits.value == [] then (if Contains(cell, "`" + gate + "`") then Err(NotStandalone) else Ok(None))
      else if |hits.value| > 1 then Err(NamedTwice)
      else if |tokens.value| == 1 then Err(OnlyItem)
      else
        var k := hits.value[0];
        Ok(Some(Concat(Delete(tokens.value, k, Companion(tokens.value, k)))))
  }

  method RemoveGate(cell: string, gate: string) returns (r: Result<Option<string>, Unsafe>)
    ensures r == Removal(cell, gate)
  {
    hide NamesItem, Tokenize, WellFormed, Companion, IsPlus, Contains, Concat;
    var split := TokenizeCell(cell);
    TokenCount(cell);
    if split.Err? {
      return Err(split.error);
    }
    var tokens := split.value;
    var hits: seq<nat> := [];
    assert Hits(tokens, gate, 0).Ok? ==> hits + Hits(tokens, gate, 0).value == Hits(tokens, gate, 0).value;
    var k := 0;
    while k < |tokens|
      invariant k % 2 == 0 && 0 <= k <= |tokens| + 1
      invariant Hits(tokens, gate, 0)
             == var later := Hits(tokens, gate, k); if later.Err? then later else Ok(hits + later.value)
    {
      var named := Names(tokens[k], gate);
      if named.Err? {
        return Err(named.error);
      }
      if named.value {
        assert forall later: seq<nat> :: hits + ([k] + later) == (hits + [k]) + later;
        hits := hits + [k];
      }
      k := k + 2;
    }
    if hits == [] {
      if Contains(cell, "`" + gate + "`") {
        return Err(NotStandalone);
      }
      return Ok(None);
    }
    if |hits| > 1 {
      return Err(NamedTwice);
    }
    if |tokens| == 1 {
      return Err(OnlyItem);
    }
    assert hits + [] == hits;
    k := hits[0];
    var drop := Companion(tokens, k);
    var lo, hi := if drop < k then drop else k, if drop < k then k else drop;
    tokens := tokens[..lo] + tokens[hi + 1..];
    return Ok(Some(Concat(tokens)));
  }

  // ----- the cell as steps of gates

  /** The steps when `item` comes before `rest`, in its first step if a plus sign joins them. */
  function Join(item: string, plus: bool, rest: seq<seq<string>>): seq<seq<string>>
    requires rest != []
  {
    if plus then [[item] + rest[0]] + rest[1..] else [[item]] + rest
  }

  /** The items of each step; a step is a group of items joined by plus signs. */
  function Groups(tokens: seq<string>): (r: seq<seq<string>>)
    requires |tokens| % 2 == 1
    ensures r != [] && forall g | 0 <= g < |r| :: r[g] != []
  {
    if |tokens| == 1 then [tokens]
    else
      Join(tokens[0], IsPlus(tokens[1]), Groups(tokens[2..]))
  }

  /** The step of item `k` and its place there. */
  function Place(tokens: seq<string>, k: nat): (r: (nat, nat))
    requires |tokens| % 2 == 1 && k % 2 == 0 && k < |tokens|
    ensures r.0 < |Groups(tokens)| && r.1 < |Groups(tokens)[r.0]|
    ensures r == (0, 0) <==> k == 0
  {
    if k == 0 then (0, 0)
    else
      var (g, p) := Place(tokens[2..], k - 2);
      if !IsPlus(tokens[1]) then (g + 1, p) else if g == 0 then (0, p + 1) else (g, p)
  }

  lemma {:induction false} PlaceHolds(tokens: seq<string>, k: nat)
    requires |tokens| % 2 == 1 && k % 2 == 0 && k < |tokens|
    ensures Groups(tokens)[Place(tokens, k).0][Place(tokens, k).1] == tokens[k]
  {
    hide IsPlus;
    if k > 0 {
      PlaceHolds(tokens[2..], k - 2);
    }
  }

  /** The steps without one item; a step that was just that item goes too. */
  function TakeOut(groups: seq<seq<string>>, g: nat, p: nat): seq<seq<string>>
    requires g < |groups| && p < |groups[g]|
  {
    if |groups[g]| == 1 then groups[..g] + groups[g + 1..] else groups[g := groups[g][..p] + groups[g][p + 1..]]
  }

  /** A plus sign is taken if one touches the item. */
  predicate KeepsGroup(tokens: seq<string>, k: nat, j: nat)
    requires k < |tokens| && j < |tokens| && (j == k - 1 || j == k + 1)
  {
    IsPlus(tokens[j]) || ((k == 0 || !IsPlus(tokens[k - 1])) && (k + 1 >= |tokens| || !IsPlus(tokens[k + 1])))
  }

  lemma GroupsStep(tokens: seq<string>)
    requires |tokens| % 2 == 1 && |tokens| >= 3
    ensures Groups(tokens) == Join(tokens[0], IsPlus(tokens[1]), Groups(tokens[2..]))
  {}

  lemma TakeOutFirst(item: string, groups: seq<seq<string>>)
    requires groups != [] && groups[0] != []
    ensures TakeOut(Join(item, true, groups), 0, 0) == groups
    ensures TakeOut(Join(item, false, groups), 0, 0) == groups
  {
    assert ([item] + groups[0])[..0] + ([item] + groups[0])[1..] == groups[0];
    assert [groups[0]] + groups[1..] == groups;
  }

  lemma DeleteSecond(tokens: seq<string>)
    requires |tokens| % 2 == 1 && |tokens| >= 3 && KeepsGroup(tokens, 2, 1)
    ensures |Delete(tokens, 2, 1)| % 2 == 1
    ensures Groups(Delete(tokens, 2, 1)) == TakeOut(Groups(tokens), Place(tokens, 2).0, Place(tokens, 2).1)
  {
    hide IsPlus;
    var rest, short := tokens[2..], Delete(tokens, 2, 1);
    assert short == [tokens[0]] + tokens[3..];
    assert Place(rest, 0) == (0, 0);
    if |tokens| == 3 {
      var a, b := tokens[0], tokens[2];
      assert short == [a] && rest == [b];
      GroupsStep(tokens);
      if IsPlus(tokens[1]) {
        assert Groups(tokens) == [[a] + [b]];
        assert ([a] + [b])[..1] + ([a] + [b])[2..] == [a];
      } else {
        assert Groups(tokens) == [[a], [b]];
      }
    } else {
      assert short[2..] == tokens[4..] == rest[2..];
      var q, a, b := Groups(tokens[4..]), tokens[0], tokens[2];
      if IsPlus(tokens[1]) && IsPlus(tokens[3]) {
        assert Groups(tokens)[0] == [a] + ([b] + q[0]);
        assert ([a] + ([b] + q[0]))[..1] + ([a] + ([b] + q[0]))[2..] == [a] + q[0];
      } else if IsPlus(tokens[1]) {
        assert Groups(tokens)[0] == [a] + [b];
        assert ([a] + [b])[..1] + ([a] + [b])[2..] == [a];
      } else {
        assert Groups(tokens) == [[a]] + ([[b]] + q);
      }
    }
  }

  /** A change behind the first step's first item is the same change in the whole. */
  lemma GroupsAfterFirst(tokens: seq<string>, short: seq<string>, k: nat)
    requires |tokens| % 2 == 1 && |short| % 2 == 1 && |short| >= 3 && k % 2 == 0 && 2 <= k < |tokens|
    requires short[..2] == tokens[..2]
    requires Groups(short[2..]) == TakeOut(Groups(tokens[2..]), Place(tokens[2..], k - 2).0,
      Place(tokens[2..], k - 2).1)
    requires k == 2 && IsPlus(tokens[1]) ==> |tokens| > 3 && IsPlus(tokens[3])
    ensures Groups(short) == TakeOut(Groups(tokens), Place(tokens, k).0, Place(tokens, k).1)
  {
    hide IsPlus, Join, TakeOut;
    var (g, p) := Place(tokens[2..], k - 2);
    assert short[0] == tokens[0] && short[1] == tokens[1];
    if g == 0 {
      SingleItem(tokens[2..], k - 2);
    }
    if IsPlus(tokens[1]) {
      TakeOutJoined(tokens[0], Groups(tokens[2..]), g, p);
    } else {
      TakeOutAfter(tokens[0], Groups(tokens[2..]), g, p);
    }
  }

  lemma TakeOutAfter(item: string, groups: seq<seq<string>>, g: nat, p: nat)
    requires g < |groups| && p < |groups[g]| && TakeOut(groups, g, p) != []
    ensures TakeOut(Join(item, false, groups), g + 1, p) == Join(item, false, TakeOut(groups, g, p))
  {}

  lemma TakeOutJoined(item: string, groups: seq<seq<string>>, g: nat, p: nat)
    requires g < |groups| && p < |groups[g]| && (g == 0 ==> |groups[0]| > 1) && TakeOut(groups, g, p) != []
    ensures TakeOut(Join(item, true, groups), g, if g == 0 then p + 1 else p) == Join(item, true, TakeOut(groups, g, p))
  {
    if g == 0 {
      TakeOutOfFirst(item, groups, p);
    } else {
      assert TakeOut(groups, g, p)[0] == groups[0];
    }
  }

  lemma TakeOutOfFirst(item: string, groups: seq<seq<string>>, p: nat)
    requires groups != [] && p < |groups[0]| && |groups[0]| > 1
    ensures TakeOut(Join(item, true, groups), 0, p + 1) == Join(item, true, TakeOut(groups, 0, p))
  {
    var first, line := groups[0], [item] + groups[0];
    assert line[..p + 1] == [item] + first[..p] && line[p + 2..] == first[p + 1..];
    assert line[..p + 1] + line[p + 2..] == [item] + (first[..p] + first[p + 1..]);
  }

  /** A first step of one item is followed by an arrow or by nothing. */
  lemma SingleItem(tokens: seq<string>, k: nat)
    requires |tokens| % 2 == 1 && k % 2 == 0 && k < |tokens| && Place(tokens, k).0 == 0
    ensures |Groups(tokens)[0]| == 1 ==> k == 0 && (|tokens| > 1 ==> !IsPlus(tokens[1]))
  {
    hide IsPlus;
  }

  lemma DeleteLater(tokens: seq<string>, k: nat, j: nat)
    requires |tokens| % 2 == 1 && k % 2 == 0 && 2 <= j < |tokens| && 2 <= k < |tokens| && (j == k - 1 || j == k + 1)
    ensures KeepsGroup(tokens, k, j) ==> KeepsGroup(tokens[2..], k - 2, j - 2)
    ensures var short := Delete(tokens, k, j);
      |short| >= 3 && |short| % 2 == 1 && short[..2] == tokens[..2] && short[2..] == Delete(tokens[2..], k - 2, j - 2)
  {
    hide IsPlus;
    var rest, lo := tokens[2..], if j < k then j else k;
    assert tokens[..lo] == tokens[..2] + rest[..lo - 2];
    assert tokens[lo + 2..] == rest[lo..];
    assert Delete(tokens, k, j) == tokens[..2] + (rest[..lo - 2] + rest[lo..]);
    assert Delete(rest, k - 2, j - 2) == rest[..lo - 2] + rest[lo..];
  }

  /** Deleting the item and such a separator takes just that item out of its step. */
  lemma {:induction false} GroupsDelete(tokens: seq<string>, k: nat, j: nat)
    requires |tokens| % 2 == 1 && k % 2 == 0 && k < |tokens| && j < |tokens| && (j == k - 1 || j == k + 1)
    requires KeepsGroup(tokens, k, j)
    ensures |Delete(tokens, k, j)| % 2 == 1
    ensures Groups(Delete(tokens, k, j)) == TakeOut(Groups(tokens), Place(tokens, k).0, Place(tokens, k).1)
  {
    hide IsPlus, Join, TakeOut, Groups;
    var rest, short := tokens[2..], Delete(tokens, k, j);
    if k == 0 {
      assert short == rest;
      GroupsStep(tokens);
      TakeOutFirst(tokens[0], Groups(rest));
    } else if j == 1 && k == 2 {
      DeleteSecond(tokens);
    } else {
      DeleteLater(tokens, k, j);
      GroupsDelete(rest, k - 2, j - 2);
      GroupsAfterFirst(tokens, short, k);
    }
  }

  /** Deleting an item and a separator next to it leaves items and separators in turn. */
  lemma DeleteWellFormed(tokens: seq<string>, k: nat, j: nat)
    requires WellFormed(tokens) && k % 2 == 0 && k < |tokens| && j < |tokens| && (j == k - 1 || j == k + 1)
    ensures WellFormed(Delete(tokens, k, j))
  {
    hide Item, IsSep, NoTrail, NoLead;
    var lo, short := if j < k then j else k, Delete(tokens, k, j);
    assert short == tokens[..lo] + tokens[lo + 2..];
    forall i: nat | i < |short| ensures RightToken(short, i) {
      if i < lo {
        assert RightToken(tokens, i);
        if i == lo - 1 && i % 2 == 1 && i + 3 < |tokens| {
          assert RightToken(tokens, i + 2);
        }
      } else {
        assert RightToken(tokens, i + 2);
        if i == lo && i % 2 == 1 {
          assert RightToken(tokens, i);
        }
      }
    }
  }

  /** Item `k`, and no other, is the gate. */
  predicate IsTheHit(tokens: seq<string>, gate: string, k: nat) {
    && k % 2 == 0 && k < |tokens| && |tokens| > 1
    && forall i: nat | i < |tokens| && i % 2 == 0 :: NamesItem(tokens[i], gate) == Ok(i == k)
  }

  /** A removal finds the gate at one place and leaves a cell of the remaining tokens. */
  lemma RemovalTokens(cell: string, gate: string, narrowed: string) returns (tokens: seq<string>, k: nat)
    requires Removal(cell, gate) == Ok(Some(narrowed))
    ensures Tokenize(cell) == Ok(tokens) && |tokens| % 2 == 1 && IsTheHit(tokens, gate, k)
    ensures Tokenize(narrowed) == Ok(Delete(tokens, k, Companion(tokens, k)))
  {
    hide Tokenize, NamesItem, WellFormed, IsPlus, Delete, Companion;
    tokens := Tokenize(cell).value;
    k := Hits(tokens, gate, 0).value[0];
    TokenCount(cell);
    forall i: nat | i < |tokens| && i % 2 == 0 ensures NamesItem(tokens[i], gate) == Ok(i == k) {
      HitsAre(tokens, gate, 0, i);
    }
    TokenizeExact(cell, tokens);
    DeleteWellFormed(tokens, k, Companion(tokens, k));
    TokenizeExact(narrowed, Delete(tokens, k, Companion(tokens, k)));
  }

  /** `narrowed` is the remaining tokens and reads as the steps of `tokens` without item `k`. */
  predicate TakesOut(tokens: seq<string>, k: nat, narrowed: string) {
    && |tokens| % 2 == 1 && |tokens| > 1 && k % 2 == 0 && k < |tokens|
    && var short := Delete(tokens, k, Companion(tokens, k));
    && Tokenize(narrowed) == Ok(short)
    && |short| % 2 == 1
    && Groups(short) == TakeOut(Groups(tokens), Place(tokens, k).0, Place(tokens, k).1)
  }

  /** Taking out a gate's item leaves a cell that reads as before without that item: its step keeps
      its other gates, and goes only if there is none. */
  lemma RemovalTakesOneItem(cell: string, gate: string, narrowed: string)
    requires Removal(cell, gate) == Ok(Some(narrowed))
    ensures exists tokens, k: nat ::
      Tokenize(cell) == Ok(tokens) && IsTheHit(tokens, gate, k) && TakesOut(tokens, k, narrowed)
  {
    hide Tokenize, Removal, NamesItem, IsPlus, Groups, Delete, Place, TakeOut;
    var tokens, k := RemovalTokens(cell, gate, narrowed);
    GroupsDelete(tokens, k, Companion(tokens, k));
    assert TakesOut(tokens, k, narrowed);
  }

  /** A gate that was taken out is not taken out again. */
  lemma RemovedForGood(cell: string, gate: string, narrowed: string)
    requires Removal(cell, gate) == Ok(Some(narrowed))
    ensures Removal(narrowed, gate) == Ok(None) || Removal(narrowed, gate) == Err(NotStandalone)
  {
    hide Tokenize, NamesItem, Contains, Companion, Hits;
    var tokens, k := RemovalTokens(cell, gate, narrowed);
    var j := Companion(tokens, k);
    var short := Delete(tokens, k, j);
    forall i: nat | i < |short| && i % 2 == 0 ensures NamesItem(short[i], gate) == Ok(false) {
      var was := if i < (if j < k then j else k) then i else i + 2;
      assert short[i] == tokens[was];
    }
    NoHits(short, gate, 0);
  }

  lemma {:induction false} NoHits(tokens: seq<string>, gate: string, i: nat)
    requires i % 2 == 0 && forall k: nat | i <= k < |tokens| && k % 2 == 0 :: NamesItem(tokens[k], gate) == Ok(false)
    ensures Hits(tokens, gate, i) == Ok([])
    decreases |tokens| - i
  {
    if i < |tokens| {
      NoHits(tokens, gate, i + 2);
    }
  }
}
