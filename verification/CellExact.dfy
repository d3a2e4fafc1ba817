/** Splitting and editing a cell, told from its text alone: what white space, separators and items
    are, which cells can be split, and which removal or refusal a cell gives. */
module CellExact {
  import opened Common
  import opened CellEditor

  // ----- white space

  /** The code points of Python's white space. */
  const WHITE: set<int> := {9, 10, 11, 12, 13, 28, 29, 30, 31, 32, 133, 160, 5760, 8192, 8193, 8194, 8195, 8196,
    8197, 8198, 8199, 8200, 8201, 8202, 8232, 8233, 8239, 8287, 12288}

  ghost predicate White(s: string) {
    forall c | c in s :: c as int in WHITE
  }

  lemma SpaceExact(c: char)
    ensures IsSpace(c) <==> c as int in WHITE
  {}

  lemma WhiteExact(s: string)
    ensures Blank(s) <==> White(s)
    ensures NonBlank(s) <==> !White(s)
  {
    hide IsSpace;
    forall c ensures IsSpace(c) <==> c as int in WHITE {
      SpaceExact(c);
    }
    assert forall i | 0 <= i < |s| :: s[i] in s;
  }

  /** `t` is `s` without the white space around it. */
  ghost predicate Trimmed(s: string, t: string) {
    && (t != "" ==> t[0] as int !in WHITE && t[|t| - 1] as int !in WHITE)
    && exists pre, post :: White(pre) && White(post) && s == pre + t + post
  }

  lemma {:induction false} StripEndIs(t: string, post: string)
    requires White(post) && (t != "" ==> t[|t| - 1] as int !in WHITE)
    ensures StripEnd(t + post) == t
    decreases |post|
  {
    if post == "" {
      assert t + post == t;
      if t != "" {
        SpaceExact(t[|t| - 1]);
      }
    } else {
      var init, last := post[..|post| - 1], post[|post| - 1];
      assert post == init + [last] && last in post && forall c | c in init :: c in post;
      SpaceExact(last);
      assert (t + post)[|t + post| - 1] == last;
      assert (t + post)[..|t + post| - 1] == t + init;
      StripEndIs(t, init);
    }
  }

  lemma {:induction false} StripEndTrims(s: string) returns (post: string)
    ensures White(post) && s == StripEnd(s) + post
    ensures StripEnd(s) != "" ==> StripEnd(s)[|StripEnd(s)| - 1] as int !in WHITE
    ensures StripEnd(s) <= s
  {
    if s != "" && IsSpace(s[|s| - 1]) {
      SpaceExact(s[|s| - 1]);
      var rest := StripEndTrims(s[..|s| - 1]);
      post := rest + [s[|s| - 1]];
      assert s == s[..|s| - 1] + [s[|s| - 1]];
      assert StripEnd(s) + post == (StripEnd(s) + rest) + [s[|s| - 1]];
    } else {
      post := "";
      assert s + post == s;
      if s != "" {
        SpaceExact(s[|s| - 1]);
      }
    }
  }

  lemma StripIs(t: string, pre: string, post: string)
    requires White(pre) && White(post)
    requires t != "" ==> t[0] as int !in WHITE && t[|t| - 1] as int !in WHITE
    ensures Strip(pre + t + post) == t
  {
    hide IsSpace, SpaceRun;
    var s := pre + t + post;
    forall c ensures IsSpace(c) <==> c as int in WHITE {
      SpaceExact(c);
    }
    if t == "" {
      forall i | 0 <= i < |s| ensures IsSpace(s[i]) {
        assert s[i] in pre || s[i] in post;
      }
      SpaceRunIs(s, |s|);
      assert s[|s|..] == "" + "";
      StripEndIs("", "");
    } else {
      assert forall i | 0 <= i < |pre| :: pre[i] in pre && s[i] == pre[i];
      assert s[|pre|] == t[0];
      SpaceRunIs(s, |pre|);
      assert s[|pre|..] == t + post;
      StripEndIs(t, post);
    }
  }

  lemma StripExact(s: string, t: string)
    ensures Strip(s) == t <==> Trimmed(s, t)
  {
    hide Strip, StripEnd, IsSpace, SpaceRun;
    if Trimmed(s, t) {
      var pre, post :| White(pre) && White(post) && s == pre + t + post;
      StripIs(t, pre, post);
    }
    if Strip(s) == t {
      StripTrims(s);
    }
  }

  lemma StripTrims(s: string)
    ensures Trimmed(s, Strip(s))
  {
    hide IsSpace, SpaceRun, StripEnd;
    var n := SpaceRun(s);
    var post := StripEndTrims(s[n..]);
    var t := Strip(s);
    WhiteExact(s[..n]);
    assert s == s[..n] + s[n..];
    assert s == s[..n] + t + post;
    if t != "" {
      assert t <= s[n..];
      assert t[0] == s[n];
      SpaceExact(s[n]);
    }
  }

  // ----- separators

  /** A step arrow, of one character or two, or a plus sign, with white space around it. */
  ghost predicate Separator(s: string) {
    exists pre, mark, post ::
      White(pre) && White(post) && mark in {[ARROW], "->", "+"} && s == pre + mark + post
  }

  ghost predicate StartsSeparator(s: string) {
    exists n :: 0 <= n <= |s| && Separator(s[..n])
  }

  lemma SeparatorIs(pre: string, mark: string, post: string)
    requires White(pre) && White(post) && mark in {[ARROW], "->", "+"}
    ensures IsSep(pre + mark + post)
  {
    hide IsSpace, SpaceRun;
    var s := pre + mark + post;
    WhiteExact(pre);
    WhiteExact(post);
    SpaceExact(mark[0]);
    SpaceRunIs(s, |pre|);
    assert s[|pre|..] == mark + post;
    assert MarkLength(mark + post) == |mark|;
    assert s[|pre| + |mark|..] == post;
    SpaceRunIs(post, |post|);
  }

  lemma SepIsSeparator(s: string)
    requires IsSep(s)
    ensures Separator(s)
  {
    hide IsSpace, SpaceRun;
    var w := SpaceRun(s);
    var k := MarkLength(s[w..]);
    var pre, mark, post := s[..w], s[w..w + k], s[w + k..];
    WhiteExact(pre);
    WhiteExact(post);
    assert s == pre + mark + post;
    assert mark == [ARROW] || mark == "->" || mark == "+" by {
      if s[w] == ARROW {
        assert mark == [ARROW];
      } else if s[w] == '+' {
        assert mark == "+";
      } else {
        assert mark == "->";
      }
    }
  }

  lemma SeparatorExact(s: string)
    ensures IsSep(s) <==> Separator(s)
  {
    hide IsSep;
    if Separator(s) {
      var pre, mark, post :| White(pre) && White(post) && mark in {[ARROW], "->", "+"} && s == pre + mark + post;
      SeparatorIs(pre, mark, post);
    }
    if IsSep(s) {
      SepIsSeparator(s);
    }
  }

  lemma StartExact(s: string)
    ensures SepLength(s) > 0 <==> StartsSeparator(s)
  {
    hide SepLength;
    if SepLength(s) > 0 {
      SepTaken(s);
      SeparatorExact(s[..SepLength(s)]);
    }
    if n :| 0 <= n <= |s| && Separator(s[..n]) {
      SeparatorExact(s[..n]);
      SepExtends(s[..n], s[n..]);
      assert s[..n] + s[n..] == s;
    }
  }

  /** A plus sign with white space around it. */
  ghost predicate PlusSign(sep: string) {
    exists pre, post :: White(pre) && White(post) && sep == pre + "+" + post
  }

  lemma PlusExact(sep: string)
    ensures IsPlus(sep) <==> PlusSign(sep)
  {
    StripExact(sep, "+");
  }

  // ----- which cells can be split

  /** Read inside `depth` parentheses and, if `tick`, inside a backtick span, the text closes them all
      and no other; `whole` says that no separator starts outside them. */
  ghost predicate Balanced(s: string, depth: nat, tick: bool, whole: bool)
    decreases |s|
  {
    if s == "" then depth == 0 && !tick
    else if s[0] == '`' then Balanced(s[1..], depth, !tick, whole)
    else if !tick && s[0] == '(' then Balanced(s[1..], depth + 1, tick, whole)
    else if !tick && s[0] == ')' then depth > 0 && Balanced(s[1..], depth - 1, tick, whole)
    else (whole && !tick && depth == 0 ==> !StartsSeparator(s)) && Balanced(s[1..], depth, tick, whole)
  }

  /** An even token is an item: it has text, is balanced, and no separator starts at its top level. An
      odd one is a separator, with all the white space around it. */
  ghost predicate TokenReads(tokens: seq<string>, i: nat)
    requires |tokens| % 2 == 1 && i < |tokens|
  {
    if i % 2 == 0 then !White(tokens[i]) && Balanced(tokens[i], 0, false, true)
    else
      && Separator(tokens[i])
      && (tokens[i - 1] != "" ==> tokens[i - 1][|tokens[i - 1]| - 1] as int !in WHITE)
      && (tokens[i + 1] != "" ==> tokens[i + 1][0] as int !in WHITE)
  }

  /** The tokens are items and separators in turn and spell the cell. */
  ghost predicate Reading(cell: string, tokens: seq<string>) {
    |tokens| % 2 == 1 && Concat(tokens) == cell && forall i: nat | i < |tokens| :: TokenReads(tokens, i)
  }

  lemma {:induction false} ScansExact(s: string, depth: nat, tick: bool)
    ensures Scans(s, depth, tick) <==> Balanced(s, depth, tick, true)
    decreases |s|
  {
    hide SepLength, StartsSeparator;
    if s != "" {
      StartExact(s);
      if s[0] == '`' {
        ScansExact(s[1..], depth, !tick);
      } else if !tick && s[0] == '(' {
        ScansExact(s[1..], depth + 1, tick);
      } else if !tick && s[0] == ')' {
        if depth > 0 {
          ScansExact(s[1..], depth - 1, tick);
        }
      } else {
        ScansExact(s[1..], depth, tick);
      }
    }
  }

  lemma EdgesExact(s: string)
    ensures NoTrail(s) <==> (s != "" ==> s[|s| - 1] as int !in WHITE)
    ensures NoLead(s) <==> (s != "" ==> s[0] as int !in WHITE)
  {
    if s != "" {
      SpaceExact(s[|s| - 1]);
      SpaceExact(s[0]);
    }
  }

  lemma TokenExact(tokens: seq<string>, i: nat)
    requires |tokens| % 2 == 1 && i < |tokens|
    ensures RightToken(tokens, i) <==> TokenReads(tokens, i)
  {
    hide Scans, NonBlank, IsSep, NoTrail, NoLead, Balanced, White, Separator;
    if i % 2 == 0 {
      ScansExact(tokens[i], 0, false);
      WhiteExact(tokens[i]);
    } else {
      SeparatorExact(tokens[i]);
      EdgesExact(tokens[i - 1]);
      EdgesExact(tokens[i + 1]);
    }
  }

  /** Tokenizing a cell returns its one reading as items and separators, and fails if it has none. */
  lemma ReadingExact(cell: string, tokens: seq<string>)
    ensures Tokenize(cell) == Ok(tokens) <==> Reading(cell, tokens)
  {
    hide Tokenize, RightToken, TokenReads, Concat;
    TokenizeExact(cell, tokens);
    if |tokens| % 2 == 1 {
      forall i: nat | i < |tokens| ensures RightToken(tokens, i) <==> TokenReads(tokens, i) {
        TokenExact(tokens, i);
      }
    }
  }

  lemma SkipSeparator(s: string, n: nat, depth: nat, tick: bool)
    requires n <= |s| && !tick && forall i | 0 <= i < n :: s[i] !in "`()"
    ensures Balanced(s, depth, tick, false) <==> Balanced(s[n..], depth, tick, false)
    decreases n
  {
    if n > 0 {
      SkipSeparator(s[1..], n - 1, depth, tick);
      assert s[1..][n - 1..] == s[n..];
    }
  }

  lemma NoBracketInSeparator(s: string)
    requires Separator(s)
    ensures forall i | 0 <= i < |s| :: s[i] !in "`()"
  {
    var pre, mark, post :| White(pre) && White(post) && mark in {[ARROW], "->", "+"} && s == pre + mark + post;
    forall i | 0 <= i < |s| ensures s[i] !in "`()" {
      assert s[i] in pre || s[i] in mark || s[i] in post;
    }
  }

  lemma {:induction false} SplitErr(s: string, depth: nat, tick: bool)
    ensures Split(s, depth, tick).Err? ==> Split(s, depth, tick) == Err(Unbalanced)
    ensures Split(s, depth, tick).Ok? <==> Balanced(s, depth, tick, false)
    decreases |s|
  {
    hide SepLength, StartsSeparator;
    if s != "" {
      if s[0] == '`' {
        SplitErr(s[1..], depth, !tick);
      } else if !tick && s[0] == '(' {
        SplitErr(s[1..], depth + 1, tick);
      } else if !tick && s[0] == ')' {
        if depth > 0 {
          SplitErr(s[1..], depth - 1, tick);
        }
      } else if !tick && depth == 0 && SepLength(s) > 0 {
        var n := SepLength(s);
        SepTaken(s);
        SeparatorExact(s[..n]);
        NoBracketInSeparator(s[..n]);
        SplitErr(s[n..], 0, false);
        assert forall i | 0 <= i < n :: s[i] == s[..n][i];
        SkipSeparator(s, n, depth, tick);
      } else {
        SplitErr(s[1..], depth, tick);
      }
    }
  }

  /** A cell is refused as unbalanced exactly if a parenthesis or a backtick span is not closed, or a
      parenthesis closes none; a balanced one is refused for an empty step exactly if it has no
      reading; it is refused for nothing else. */
  lemma TokenizeFails(cell: string, e: Unsafe)
    ensures Tokenize(cell) == Err(e) <==>
      || (e == Unbalanced && !Balanced(cell, 0, false, false))
      || (e == EmptyStep && Balanced(cell, 0, false, false) && forall tokens :: !Reading(cell, tokens))
  {
    hide Split, Balanced, ItemsNonBlank, Reading;
    SplitErr(cell, 0, false);
    forall tokens ensures Tokenize(cell) == Ok(tokens) <==> Reading(cell, tokens) {
      ReadingExact(cell, tokens);
    }
  }

  // ----- which items name a gate

  ghost function Opened(s: string): int {
    multiset(s)['('] as int - multiset(s)[')'] as int
  }

  /** One group of parentheses: it opens one, closes as many as it opens, and is closed at no place
      before its end. */
  ghost predicate OneGroup(s: string) {
    s != "" && s[0] == '(' && Opened(s) == 0 && forall i | 0 < i < |s| :: Opened(s[..i]) != 0
  }

  lemma {:induction false} DepthExact(s: string)
    ensures Depth(s) == Opened(s)
  {
    if s != "" {
      DepthExact(s[1..]);
      assert s == [s[0]] + s[1..];
    }
  }

  lemma GroupExact(s: string)
    ensures Qualifier(s) <==> OneGroup(s)
  {
    hide Depth, Opened;
    DepthExact(s);
    forall i | 0 < i < |s| ensures Depth(s[..i]) == Opened(s[..i]) {
      DepthExact(s[..i]);
    }
  }

  /** The item is white space, the gate in backticks, and `tail`. */
  ghost predicate GateThen(item: string, gate: string, tail: string) {
    gate != "" && '`' !in gate && exists pre :: White(pre) && item == pre + "`" + gate + "`" + tail
  }

  /** Only white space follows the gate, or one group of parentheses with white space around it. */
  ghost predicate EndsWell(tail: string) {
    White(tail) || exists group :: Trimmed(tail, group) && OneGroup(group)
  }

  ghost predicate IsGate(item: string, gate: string) {
    exists tail :: GateThen(item, gate, tail) && EndsWell(tail)
  }

  /** Something else follows the gate. */
  ghost predicate IsDoubtful(item: string, gate: string) {
    exists tail :: GateThen(item, gate, tail) && !EndsWell(tail)
  }

  lemma OpensExact(item: string, gate: string, tail: string)
    ensures OpensWith(item, gate, tail) <==> GateThen(item, gate, tail)
  {
    hide Blank, White;
    forall s ensures Blank(s) <==> White(s) {
      WhiteExact(s);
    }
  }

  lemma EndsExact(tail: string)
    ensures Strip(tail) == "" || Qualifier(Strip(tail)) <==> EndsWell(tail)
  {
    hide Strip, Qualifier, OneGroup, Trimmed;
    StripExact(tail, Strip(tail));
    GroupExact(Strip(tail));
    StripExact(tail, "");
    assert Trimmed(tail, "") <==> White(tail) by { TrimmedToNothing(tail); }
    if group :| Trimmed(tail, group) && OneGroup(group) {
      StripExact(tail, group);
    }
  }

  lemma TrimmedToNothing(s: string)
    ensures Trimmed(s, "") <==> White(s)
  {
    if White(s) {
      assert White("") && s == s + "" + "";
    }
  }

  lemma ItemExact(item: string, gate: string)
    ensures NamesItem(item, gate) == Ok(true) <==> IsGate(item, gate)
    ensures NamesItem(item, gate).Err? <==> IsDoubtful(item, gate)
    ensures NamesItem(item, gate).Err? ==> NamesItem(item, gate).error == Ambiguous
  {
    hide OpensWith, GateThen, Strip, Qualifier, EndsWell;
    NamesExact(item, gate);
    forall tail
      ensures OpensWith(item, gate, tail) <==> GateThen(item, gate, tail)
      ensures Strip(tail) == "" || Qualifier(Strip(tail)) <==> EndsWell(tail)
    {
      OpensExact(item, gate, tail);
      EndsExact(tail);
    }
  }

  // ----- what a removal takes

  ghost predicate Occurs(s: string, part: string) {
    exists a, b :: s == a + part + b
  }

  lemma OccursAt(s: string, a: string, part: string, b: string)
    requires s == a + part + b
    ensures |part| <= |s|
    ensures a == "" ==> s[..|part|] == part
    ensures a != "" ==> s != "" && s[1..] == a[1..] + part + b
  {}

  lemma OccursLater(s: string, a: string, part: string, b: string)
    requires s != "" && s[1..] == a + part + b
    ensures s == ([s[0]] + a) + part + b
  {
    assert s == [s[0]] + s[1..];
  }

  lemma OccursFirst(s: string, part: string)
    requires |part| <= |s| && s[..|part|] == part
    ensures Occurs(s, part)
  {
    assert s == "" + part + s[|part|..];
  }

  lemma {:induction false} ContainsExact(s: string, part: string)
    requires part != ""
    ensures Contains(s, part) <==> Occurs(s, part)
  {
    if a, b :| s == a + part + b {
      OccursAt(s, a, part, b);
    }
    if |part| <= |s| {
      ContainsExact(s[1..], part);
      if s[..|part|] == part {
        OccursFirst(s, part);
      } else if a, b :| s[1..] == a + part + b {
        OccursLater(s, a, part, b);
      }
    }
  }

  /** The separator beside an item that goes with it: rather a plus sign than an arrow, and of two
      alike the one before it. */
  ghost predicate GoesWith(tokens: seq<string>, k: nat, j: nat) {
    && Beside(tokens, k, j)
    && forall other: nat | Beside(tokens, k, other) ::
         && (PlusSign(tokens[other]) ==> PlusSign(tokens[j]))
         && (PlusSign(tokens[other]) == PlusSign(tokens[j]) ==> j <= other)
  }

  ghost predicate Beside(tokens: seq<string>, k: nat, j: nat) {
    k < |tokens| && j < |tokens| && (j + 1 == k || j == k + 1)
  }

  lemma CompanionExact(tokens: seq<string>, k: nat, j: nat)
    requires k < |tokens| && |tokens| > 1
    ensures j == Companion(tokens, k) <==> GoesWith(tokens, k, j)
  {
    hide IsPlus, PlusSign;
    forall i | 0 <= i < |tokens| ensures IsPlus(tokens[i]) <==> PlusSign(tokens[i]) {
      PlusExact(tokens[i]);
    }
    assert k > 0 ==> Beside(tokens, k, k - 1);
    assert k + 1 < |tokens| ==> Beside(tokens, k, k + 1);
  }

  ghost predicate SomeDoubtful(tokens: seq<string>, gate: string) {
    exists i :: 0 <= i < |tokens| && i % 2 == 0 && IsDoubtful(tokens[i], gate)
  }

  /** Item `i` is the gate. */
  ghost predicate GateAt(tokens: seq<string>, gate: string, i: nat) {
    i < |tokens| && i % 2 == 0 && IsGate(tokens[i], gate)
  }

  /** The text without item `k` and the separator that goes with it. */
  ghost predicate Narrows(tokens: seq<string>, k: nat, narrowed: string) {
    exists j: nat :: GoesWith(tokens, k, j) && narrowed ==
      if j < k then Concat(tokens[..j] + tokens[k + 1..]) else Concat(tokens[..k] + tokens[j + 1..])
  }

  lemma {:induction false} HitsFail(tokens: seq<string>, gate: string, i: nat)
    requires i % 2 == 0
    ensures Hits(tokens, gate, i).Err? ==> Hits(tokens, gate, i).error == Ambiguous
    ensures Hits(tokens, gate, i).Err? <==>
      exists k: nat :: i <= k < |tokens| && k % 2 == 0 && IsDoubtful(tokens[k], gate)
    decreases |tokens| - i
  {
    hide NamesItem, IsDoubtful;
    if i < |tokens| {
      ItemExact(tokens[i], gate);
      HitsFail(tokens, gate, i + 2);
    }
  }

  lemma {:induction false} HitsOnce(tokens: seq<string>, gate: string, i: nat)
    requires i % 2 == 0 && Hits(tokens, gate, i).Ok?
    ensures var hits := Hits(tokens, gate, i).value;
      && (forall a, b | 0 <= a < b < |hits| :: hits[a] < hits[b])
      && forall k: nat :: k in hits <==> i <= k && GateAt(tokens, gate, k)
    decreases |tokens| - i
  {
    hide NamesItem, IsGate;
    if i < |tokens| {
      ItemExact(tokens[i], gate);
      HitsOnce(tokens, gate, i + 2);
    }
  }

  /** What taking a gate out of a cell comes to, for a cell with a reading: a refusal if something
      else follows the gate in an item, or the gate is in the text but no item, or several items are
      it, or the only one is; otherwise the text without its item and the separator that goes with
      it, or nothing to do if the gate is not there at all. */
  lemma RemovalExact(cell: string, gate: string, tokens: seq<string>)
    requires Reading(cell, tokens)
    ensures var named := exists i: nat :: GateAt(tokens, gate, i);
      match Removal(cell, gate)
      case Err(Ambiguous) => SomeDoubtful(tokens, gate)
      case Err(NotStandalone) => !SomeDoubtful(tokens, gate) && !named && Occurs(cell, "`" + gate + "`")
      case Ok(None) => !SomeDoubtful(tokens, gate) && !named && !Occurs(cell, "`" + gate + "`")
      case Err(NamedTwice) =>
        && !SomeDoubtful(tokens, gate)
        && exists i: nat, j: nat :: i < j && GateAt(tokens, gate, i) && GateAt(tokens, gate, j)
      case Err(OnlyItem) => !SomeDoubtful(tokens, gate) && |tokens| == 1 && GateAt(tokens, gate, 0)
      case Ok(Some(narrowed)) =>
        && !SomeDoubtful(tokens, gate) && |tokens| > 1
        && exists k: nat ::
             && GateAt(tokens, gate, k) && Narrows(tokens, k, narrowed)
             && forall i: nat | GateAt(tokens, gate, i) :: i == k
      case Err(Unbalanced) => false
      case Err(EmptyStep) => false
  {
    hide Tokenize, Hits, Contains, Companion, Concat, GateAt, IsDoubtful, GoesWith, Reading;
    ReadingExact(cell, tokens);
    HitsFail(tokens, gate, 0);
    ContainsExact(cell, "`" + gate + "`");
    TokenCount(cell);
    var hits := Hits(tokens, gate, 0);
    if hits.Ok? {
      HitsOnce(tokens, gate, 0);
      OneOrMore(tokens, gate, hits.value);
      if |hits.value| == 1 && |tokens| > 1 {
        var k := hits.value[0];
        CompanionExact(tokens, k, Companion(tokens, k));
        assert Narrows(tokens, k, Concat(Delete(tokens, k, Companion(tokens, k))));
      }
    }
  }

  lemma OneOrMore(tokens: seq<string>, gate: string, hits: seq<nat>)
    requires forall a, b | 0 <= a < b < |hits| :: hits[a] < hits[b]
    requires forall k: nat :: k in hits <==> GateAt(tokens, gate, k)
    ensures hits == [] <==> forall i: nat :: !GateAt(tokens, gate, i)
    ensures hits != [] ==> GateAt(tokens, gate, hits[0])
    ensures |hits| == 1 ==> forall i: nat | GateAt(tokens, gate, i) :: i == hits[0]
    ensures |hits| > 1 ==> exists i: nat, j: nat :: i < j && GateAt(tokens, gate, i) && GateAt(tokens, gate, j)
    ensures |tokens| == 1 && hits != [] ==> GateAt(tokens, gate, 0)
  {
    hide IsGate;
    if hits != [] {
      assert hits[0] in hits;
    }
    if |hits| > 1 {
      assert hits[0] < hits[1] && hits[1] in hits;
    }
  }

  /** A cell without a reading is refused for that. */
  lemma RemovalFails(cell: string, gate: string)
    requires forall tokens :: !Reading(cell, tokens)
    ensures Tokenize(cell).Err? && Removal(cell, gate) == Err(Tokenize(cell).error)
  {
    hide Tokenize, Reading;
    if Tokenize(cell).Ok? {
      ReadingExact(cell, Tokenize(cell).value);
    }
  }
}
