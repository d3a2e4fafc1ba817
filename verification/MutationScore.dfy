/** Exporting, checking and merging the counts of a sharded mutation run
    (`scripts/check_mutation_score.py`), and why the merged score is the unsharded one. */
module MutationScore {
  import opened Common
  import opened MutationPlan

  datatype Status = Killed | Timeout | Survived | Suspicious | Skipped | Untested | OtherStatus

  datatype Counts = Counts(killed: nat, timeout: nat, survived: nat, suspicious: nat, skipped: nat, untested: nat,
    other: nat) {
    function Of(s: Status): nat {
      match s
      case Killed => killed
      case Timeout => timeout
      case Survived => survived
      case Suspicious => suspicious
      case Skipped => skipped
      case Untested => untested
      case OtherStatus => other
    }

    function Bump(s: Status, n: nat): (c: Counts)
      ensures forall t :: c.Of(t) == Of(t) + if t == s then n else 0
      ensures c.Total() == Total() + n
    {
      match s
      case Killed => this.(killed := killed + n)
      case Timeout => this.(timeout := timeout + n)
      case Survived => this.(survived := survived + n)
      case Suspicious => this.(suspicious := suspicious + n)
      case Skipped => this.(skipped := skipped + n)
      case Untested => this.(untested := untested + n)
      case OtherStatus => this.(other := other + n)
    }

    function Plus(c: Counts): (r: Counts)
      ensures forall t :: r.Of(t) == Of(t) + c.Of(t)
    {
      Counts(killed + c.killed, timeout + c.timeout, survived + c.survived, suspicious + c.suspicious,
             skipped + c.skipped, untested + c.untested, other + c.other)
    }

    function Total(): nat {
      killed + timeout + survived + suspicious + skipped + untested + other
    }
  }

  const NO_COUNTS := Counts(0, 0, 0, 0, 0, 0, 0)

  // ----- exporting one cache

  datatype Row = Row(m: Mutant, status: Status)

  /** A cached source file: the mutants generated for it with its pragmas honoured and ignored,
      whether it mentions the pragma at all and in the exported lines, and its cache rows. */
  datatype File = File(generated: set<Mutant>, raw: set<Mutant>, mentionsPragma: bool, pragmaInScope: bool,
    rows: seq<Row>)

  datatype ExportError = PragmasIgnored | ForeignVerdict | NothingGenerated

  datatype Stats = Stats(counts: Counts, total: Option<int>, excluded: int, phantom: int)

  datatype Tally = Tally(counts: Counts, seen: set<Mutant>, phantom: nat)

  function ScanRow(t: Tally, row: Row, generated: set<Mutant>, scope: Scope): Result<Tally, ExportError> {
    if !InRange(row.m, scope) then Ok(t)
    else if row.m !in generated then
      (if row.status != Untested then Err(ForeignVerdict) else Ok(t.(phantom := t.phantom + 1)))
    else Ok(t.(seen := t.seen + {row.m}, counts := t.counts.Bump(row.status, 1)))
  }

  function ScanRows(rows: seq<Row>, generated: set<Mutant>, scope: Scope): Result<Tally, ExportError> {
    if rows == [] then Ok(Tally(NO_COUNTS, {}, 0))
    else
      var before := ScanRows(rows[..|rows| - 1], generated, scope);
      if before.Err? then before else ScanRow(before.value, rows[|rows| - 1], generated, scope)
  }

  /** Running sums over the files of one cache. */
  datatype Sums = Sums(counts: Counts, excluded: int, phantom: int, missing: nat)

  function AddFile(sums: Sums, f: File, scope: Scope): Result<Sums, ExportError> {
    var generated := Within(f.generated, scope);
    var diff := |Within(f.raw, scope)| - |generated|;
    if f.mentionsPragma && diff == 0 && f.pragmaInScope then Err(PragmasIgnored)
    else
      var tally := ScanRows(f.rows, generated, scope);
      if tally.Err? then Err(tally.error)
      else Ok(Sums(sums.counts.Plus(tally.value.counts), sums.excluded + (if f.mentionsPragma then diff else 0),
                   sums.phantom + tally.value.phantom, sums.missing + |generated - tally.value.seen|))
  }

  function AddFiles(sums: Sums, files: seq<File>, scope: Scope): Result<Sums, ExportError>
    decreases files
  {
    if files == [] then Ok(sums)
    else
      var next := AddFile(sums, files[0], scope);
      if next.Err? then next else AddFiles(next.value, files[1..], scope)
  }

  function StatsOf(sums: Sums): Result<Stats, ExportError> {
    var counts := sums.counts.Bump(Untested, sums.missing);
    if counts.Total() == 0 then Err(NothingGenerated)
      else Ok(Stats(counts, Some(counts.Total()), sums.excluded, sums.phantom))
  }

  const NO_SUMS := Sums(NO_COUNTS, 0, 0, 0)

  function Export(files: seq<File>, scope: Scope): Result<Stats, ExportError> {
    var sums := AddFiles(NO_SUMS, files, scope);
    if sums.Err? then Err(sums.error) else StatsOf(sums.value)
  }

  method ScanFile(rows: seq<Row>, generated: set<Mutant>, scope: Scope) returns (tally: Result<Tally, ExportError>)
    ensures tally == ScanRows(rows, generated, scope)
  {
    var t := Tally(NO_COUNTS, {}, 0);
    var i := 0;
    while i < |rows|
      invariant 0 <= i <= |rows|
      invariant ScanRows(rows[..i], generated, scope) == Ok(t)
    {
      assert rows[..i + 1][..i] == rows[..i];
      var next := ScanRow(t, rows[i], generated, scope);
      if next.Err? {
        ScanStops(rows, i + 1, generated, scope);
        return next;
      }
      t := next.value;
      i := i + 1;
    }
    assert rows[..i] == rows;
    return Ok(t);
  }

  lemma {:induction false} ScanStops(rows: seq<Row>, i: nat, generated: set<Mutant>, scope: Scope)
    requires i <= |rows| && ScanRows(rows[..i], generated, scope).Err?
    ensures ScanRows(rows, generated, scope) == ScanRows(rows[..i], generated, scope)
  {
    if i == |rows| {
      assert rows[..i] == rows;
    } else {
      assert rows[..|rows| - 1][..i] == rows[..i];
      ScanStops(rows[..|rows| - 1], i, generated, scope);
    }
  }

  method ExportCache(files: seq<File>, scope: Scope) returns (stats: Result<Stats, ExportError>)
    ensures stats == Export(files, scope)
  {
    hide Within, ScanRows, Counts.Plus, Counts.Bump, Counts.Total;
    var counts, excluded, phantom := NO_COUNTS, 0, 0;
    var missing: nat := 0;
    var i := 0;
    while i < |files|
      invariant 0 <= i <= |files|
      invariant AddFiles(Sums(counts, excluded, phantom, missing), files[i..], scope) == AddFiles(NO_SUMS, files, scope)
    {
      var f := files[i];
      assert files[i..][1..] == files[i + 1..];
      var generated := Within(f.generated, scope);
      var diff := |Within(f.raw, scope)| - |generated|;
      if f.mentionsPragma && diff == 0 && f.pragmaInScope {
        return Err(PragmasIgnored);
      }
      var tally := ScanFile(f.rows, generated, scope);
      if tally.Err? {
        return Err(tally.error);
      }
      counts := counts.Plus(tally.value.counts);
      excluded := excluded + (if f.mentionsPragma then diff else 0);
      phantom := phantom + tally.value.phantom;
      missing := missing + |generated - tally.value.seen|;
      i := i + 1;
    }
    return StatsOf(Sums(counts, excluded, phantom, missing));
  }

  /** Two groups of files count together what each counts alone. */
  ghost predicate AddUp(a: Sums, b: Sums, both: Sums) {
    && (forall s: Status :: both.counts.Of(s) == a.counts.Of(s) + b.counts.Of(s))
    && both.excluded == a.excluded + b.excluded && both.phantom == a.phantom + b.phantom
    && both.missing == a.missing + b.missing
  }

  lemma FileAddsUp(sums: Sums, f: File, scope: Scope)
    ensures AddFile(sums, f, scope).Err? <==> AddFile(NO_SUMS, f, scope).Err?
    ensures AddFile(sums, f, scope).Ok? ==>
      AddUp(sums, AddFile(NO_SUMS, f, scope).value, AddFile(sums, f, scope).value)
  {
    hide Within, ScanRows;
  }

  lemma AddUpTwice(a: Sums, b: Sums, c: Sums, ab: Sums, bc: Sums, abc: Sums)
    requires AddUp(a, b, ab) && AddUp(b, c, bc) && AddUp(ab, c, abc)
    ensures AddUp(a, bc, abc)
  {
  }

  /** What the files of a cache add to the sums does not depend on the sums. */
  lemma {:induction false} FilesAddUp(sums: Sums, files: seq<File>, scope: Scope)
    ensures AddFiles(sums, files, scope).Err? <==> AddFiles(NO_SUMS, files, scope).Err?
    ensures AddFiles(sums, files, scope).Ok? ==>
      AddUp(sums, AddFiles(NO_SUMS, files, scope).value, AddFiles(sums, files, scope).value)
    decreases files
  {
    hide AddFile, AddUp;
    if files == [] {
      NothingAdded(sums);
    } else {
      FileAddsUp(sums, files[0], scope);
      var one, next := AddFile(NO_SUMS, files[0], scope), AddFile(sums, files[0], scope);
      if next.Ok? {
        FilesAddUp(one.value, files[1..], scope);
        FilesAddUp(next.value, files[1..], scope);
        if AddFiles(sums, files, scope).Ok? {
          AddUpTwice(sums, one.value, AddFiles(NO_SUMS, files[1..], scope).value, next.value,
                     AddFiles(NO_SUMS, files, scope).value, AddFiles(sums, files, scope).value);
        }
      }
    }
  }

  lemma NothingAdded(sums: Sums)
    ensures AddUp(sums, NO_SUMS, sums)
  {}

  lemma {:induction false} FilesInParts(sums: Sums, a: seq<File>, b: seq<File>, scope: Scope)
    ensures AddFiles(sums, a + b, scope) ==
      if AddFiles(sums, a, scope).Err? then AddFiles(sums, a, scope)
      else AddFiles(AddFiles(sums, a, scope).value, b, scope)
    decreases a
  {
    hide AddFile;
    if a == [] {
      assert a + b == b;
    } else {
      assert (a + b)[0] == a[0] && (a + b)[1..] == a[1..] + b;
      if AddFile(sums, a[0], scope).Ok? {
        FilesInParts(AddFile(sums, a[0], scope).value, a[1..], b, scope);
      }
    }
  }

  /** A cache of more files counts what its parts count: the verdicts, the mutants without a row,
      those that the pragmas exclude and the phantoms. It is refused exactly if a part is. */
  lemma CacheAddsUp(a: seq<File>, b: seq<File>, scope: Scope)
    ensures AddFiles(NO_SUMS, a + b, scope).Err? <==>
      AddFiles(NO_SUMS, a, scope).Err? || AddFiles(NO_SUMS, b, scope).Err?
    ensures AddFiles(NO_SUMS, a + b, scope).Ok? ==> AddUp(AddFiles(NO_SUMS, a, scope).value,
      AddFiles(NO_SUMS, b, scope).value, AddFiles(NO_SUMS, a + b, scope).value)
  {
    hide AddFiles, AddUp;
    FilesInParts(NO_SUMS, a, b, scope);
    if AddFiles(NO_SUMS, a, scope).Ok? {
      FilesAddUp(AddFiles(NO_SUMS, a, scope).value, b, scope);
    }
  }

  // ----- checking and merging shards

  datatype Problem = NoTotal | TotalsDiffer | ExcludedDiffer | CoverageOff(covered: int, total: int)

  function Covered(shards: seq<Stats>): int {
    if shards == [] then 0
    else
      var last := shards[|shards| - 1];
      Covered(shards[..|shards| - 1]) + last.counts.Total() - last.counts.skipped
  }

  function Consistency(shards: seq<Stats>, expected: bool): Option<Problem> {
    if |shards| < 2 && !expected then None
    else if exists i | 0 <= i < |shards| :: shards[i].total.None? then Some(NoTotal)
    else if shards == [] || exists i | 0 <= i < |shards| :: shards[i].total != shards[0].total then Some(TotalsDiffer)
    else if exists i | 0 <= i < |shards| :: shards[i].excluded != shards[0].excluded then Some(ExcludedDiffer)
    else if Covered(shards) != shards[0].total.value then Some(CoverageOff(Covered(shards), shards[0].total.value))
    else None
  }

  function SumCounts(shards: seq<Stats>): Counts {
    if shards == [] then NO_COUNTS else SumCounts(shards[..|shards| - 1]).Plus(shards[|shards| - 1].counts)
  }

  function MaxExcluded(shards: seq<Stats>): int {
    if shards == [] then 0 else if |shards| == 1 then shards[0].excluded
    else Max(MaxExcluded(shards[..|shards| - 1]), shards[|shards| - 1].excluded)
  }

  function MaxPhantom(shards: seq<Stats>): int {
    if shards == [] then 0 else if |shards| == 1 then shards[0].phantom
    else Max(MaxPhantom(shards[..|shards| - 1]), shards[|shards| - 1].phantom)
  }

  /** The total that every shard stating one agrees on. */
  function CommonTotal(shards: seq<Stats>): Option<int> {
    var totals := set i | 0 <= i < |shards| && shards[i].total.Some? :: shards[i].total;
    if |totals| != 1 then None
    else
      Singleton(totals);
      var t :| t in totals;
      t
  }

  lemma Singleton<T>(s: set<T>)
    requires |s| == 1
    ensures exists x :: x in s
    ensures forall x, y | x in s && y in s :: x == y
  {
    var x :| x in s;
    forall y | y in s ensures y == x {
      if y != x {
        SubsetSize({x, y}, s);
      }
    }
  }

  function Merged(shards: seq<Stats>): Stats {
    Stats(SumCounts(shards), CommonTotal(shards), MaxExcluded(shards), MaxPhantom(shards))
  }

  method Merge(shards: seq<Stats>) returns (merged: Stats)
    ensures merged == Merged(shards)
  {
    var counts, excluded, phantom := NO_COUNTS, 0, 0;
    var i := 0;
    while i < |shards|
      invariant 0 <= i <= |shards|
      invariant counts == SumCounts(shards[..i]) && excluded == MaxExcluded(shards[..i])
        && phantom == MaxPhantom(shards[..i])
    {
      assert shards[..i + 1][..i] == shards[..i];
      counts := counts.Plus(shards[i].counts);
      excluded := if i == 0 then shards[0].excluded else Max(excluded, shards[i].excluded);
      phantom := if i == 0 then shards[0].phantom else Max(phantom, shards[i].phantom);
      i := i + 1;
    }
    assert shards[..i] == shards;
    return Stats(counts, CommonTotal(shards), excluded, phantom);
  }

  /** The highest of what the shards state. */
  ghost predicate Highest(shards: seq<Stats>, of: Stats -> int, n: int) {
    && (exists i :: 0 <= i < |shards| && of(shards[i]) == n)
    && forall i | 0 <= i < |shards| :: of(shards[i]) <= n
  }

  lemma {:induction false} MergedHighest(shards: seq<Stats>)
    requires shards != []
    ensures Highest(shards, (s: Stats) => s.excluded, MaxExcluded(shards))
    ensures Highest(shards, (s: Stats) => s.phantom, MaxPhantom(shards))
  {
    var n := |shards| - 1;
    if n > 0 {
      var init := shards[..n];
      MergedHighest(init);
      assert forall i | 0 <= i < n :: init[i] == shards[i];
      var e :| 0 <= e < n && init[e].excluded == MaxExcluded(init);
      var p :| 0 <= p < n && init[p].phantom == MaxPhantom(init);
      var x := if shards[n].excluded > init[e].excluded then n else e;
      var y := if shards[n].phantom > init[p].phantom then n else p;
      assert shards[x].excluded == MaxExcluded(shards) && shards[y].phantom == MaxPhantom(shards);
    }
  }

  // ----- scores

  function Detected(c: Counts): nat { c.killed + c.timeout }

  function Score(s: Stats): Option<real> {
    var considered := Detected(s.counts) + s.counts.survived + s.counts.suspicious;
    if considered == 0 then None else Some(Detected(s.counts) as real / considered as real)
  }

  function RawScore(s: Stats): Option<real> {
    var considered := Detected(s.counts) + s.counts.survived + s.counts.suspicious + s.excluded;
    if considered == 0 then None else Some(Detected(s.counts) as real / considered as real)
  }

  /** A score is a share: none without a scoreable mutant, 1 exactly if no scoreable mutant went
      undetected, 0 exactly if all did. The raw score is the score with the excluded as survivors. */
  lemma ScoreMeaning(s: Stats)
    ensures var missed := s.counts.survived + s.counts.suspicious;
      && (Score(s).None? <==> Detected(s.counts) + missed == 0)
      && (Score(s).Some? ==> 0.0 <= Score(s).value <= 1.0)
      && (Score(s) == Some(1.0) <==> missed == 0 && Detected(s.counts) > 0)
      && (Score(s) == Some(0.0) <==> missed > 0 && Detected(s.counts) == 0)
    ensures s.excluded >= 0 ==>
      RawScore(s) == Score(s.(counts := s.counts.(survived := s.counts.survived + s.excluded)))
  {
    var d, m := Detected(s.counts), s.counts.survived + s.counts.suspicious;
    if d + m > 0 {
      Share(d, m);
    }
  }

  lemma Share(d: nat, m: nat)
    requires d + m > 0
    ensures var x := d as real / (d + m) as real;
      0.0 <= x <= 1.0 && (x == 1.0 <==> m == 0) && (x == 0.0 <==> d == 0)
  {
    var x := d as real / (d + m) as real;
    assert x * (d + m) as real == d as real;
    assert (d + m) as real == d as real + m as real;
  }

  // ----- what an export counts

  /** A row in scope that is no generated mutant and yet was run. */
  predicate Foreign(row: Row, generated: set<Mutant>, scope: Scope) {
    InRange(row.m, scope) && row.m !in generated && row.status != Untested
  }

  /** A cache is refused exactly if it holds a foreign row. */
  lemma {:induction false} ScanRefuses(rows: seq<Row>, generated: set<Mutant>, scope: Scope)
    ensures ScanRows(rows, generated, scope).Err? <==> exists i :: 0 <= i < |rows| && Foreign(rows[i], generated, scope)
    ensures ScanRows(rows, generated, scope).Err? ==> ScanRows(rows, generated, scope).error == ForeignVerdict
  {
    hide InRange, Counts.Bump;
    if rows != [] {
      var n := |rows| - 1;
      ScanRefuses(rows[..n], generated, scope);
      assert forall i | 0 <= i < n :: rows[..n][i] == rows[i];
    }
  }

  /** No mutant of the scope has two rows, and rows that are no mutant were never run. */
  predicate CleanCache(rows: seq<Row>, generated: set<Mutant>, scope: Scope) {
    && (forall i, j | 0 <= i < j < |rows| && rows[i].m in generated :: rows[i].m != rows[j].m)
    && (forall i | 0 <= i < |rows| && InRange(rows[i].m, scope) && rows[i].m !in generated ::
      rows[i].status == Untested)
  }

  function WithStatus(rows: seq<Row>, generated: set<Mutant>, s: Status): set<Mutant> {
    set m | m in generated && Row(m, s) in rows
  }

  predicate HasRow(rows: seq<Row>, m: Mutant) {
    exists s :: Row(m, s) in rows
  }

  function WithRow(rows: seq<Row>, generated: set<Mutant>): set<Mutant> {
    set m | m in generated && HasRow(rows, m)
  }

  /** The tally of some rows counts each mutant with a row once, under the row's status. */
  predicate CountsOnce(t: Tally, rows: seq<Row>, generated: set<Mutant>) {
    && t.seen == WithRow(rows, generated)
    && t.counts.Total() == |t.seen|
    && forall s :: t.counts.Of(s) == |WithStatus(rows, generated, s)|
  }

  lemma HasRowAfter(rows: seq<Row>, row: Row, generated: set<Mutant>)
    ensures forall m :: HasRow(rows + [row], m) <==> HasRow(rows, m) || m == row.m
    ensures forall m, s | Row(m, s) in rows :: HasRow(rows, m)
  {
    forall m ensures HasRow(rows + [row], m) <==> HasRow(rows, m) || m == row.m {
      if m == row.m { assert Row(m, row.status) in rows + [row]; }
      if s :| Row(m, s) in rows { assert Row(m, s) in rows + [row]; }
      if s :| Row(m, s) in rows + [row] { assert Row(m, s) in rows || Row(m, s) == row; }
    }
  }

  lemma StatusAfter(rows: seq<Row>, row: Row, generated: set<Mutant>, s: Status)
    requires row.m in generated && row.m !in WithRow(rows, generated)
    ensures |WithStatus(rows + [row], generated, s)|
         == |WithStatus(rows, generated, s)| + if s == row.status then 1 else 0
  {
    var was := WithStatus(rows, generated, s);
    assert row.m !in was;
    assert forall m :: Row(m, s) in rows + [row] <==> Row(m, s) in rows || (m == row.m && s == row.status);
    assert WithStatus(rows + [row], generated, s) == if s == row.status then was + {row.m} else was;
  }

  lemma RowCounted(t: Tally, rows: seq<Row>, row: Row, generated: set<Mutant>)
    requires CountsOnce(t, rows, generated) && row.m in generated && row.m !in WithRow(rows, generated)
    ensures CountsOnce(t.(seen := t.seen + {row.m}, counts := t.counts.Bump(row.status, 1)), rows + [row], generated)
  {
    hide Counts.Of, Counts.Bump, Counts.Total, HasRow, WithStatus;
    HasRowAfter(rows, row, generated);
    assert WithRow(rows + [row], generated) == WithRow(rows, generated) + {row.m};
    forall s ensures t.counts.Bump(row.status, 1).Of(s) == |WithStatus(rows + [row], generated, s)| {
      StatusAfter(rows, row, generated, s);
    }
  }

  lemma RowIgnored(t: Tally, rows: seq<Row>, row: Row, generated: set<Mutant>)
    requires CountsOnce(t, rows, generated) && row.m !in generated
    ensures CountsOnce(t.(phantom := t.phantom + 1), rows + [row], generated)
    ensures CountsOnce(t, rows + [row], generated)
  {
    hide Counts.Of, Counts.Total, HasRow;
    HasRowAfter(rows, row, generated);
    assert WithRow(rows + [row], generated) == WithRow(rows, generated);
    forall s ensures WithStatus(rows + [row], generated, s) == WithStatus(rows, generated, s) {}
  }

  /** A clean cache tallies each mutant once, under its status. */
  lemma {:induction false} ScanCounts(rows: seq<Row>, generated: set<Mutant>, scope: Scope)
    requires CleanCache(rows, generated, scope) && forall m | m in generated :: InRange(m, scope)
    ensures ScanRows(rows, generated, scope).Ok?
    ensures CountsOnce(ScanRows(rows, generated, scope).value, rows, generated)
  {
    hide Counts.Bump, InRange, CountsOnce, CleanCache, WithRow;
    if rows == [] {
      NoRows(generated);
    } else {
      var init, row := rows[..|rows| - 1], rows[|rows| - 1];
      CleanPrefix(rows, generated, scope);
      ScanCounts(init, generated, scope);
      assert rows == init + [row];
      var t := ScanRows(init, generated, scope).value;
      if row.m in generated {
        RowCounted(t, init, row, generated);
      } else {
        RowIgnored(t, init, row, generated);
      }
    }
  }

  lemma NoRows(generated: set<Mutant>)
    ensures CountsOnce(Tally(NO_COUNTS, {}, 0), [], generated)
  {
    hide Counts.Bump, Counts.Plus, Counts.Of, HasRow, WithRow, WithStatus;
    NoHolders(generated);
    var t := Tally(NO_COUNTS, {}, 0);
    forall s ensures t.counts.Of(s) == |WithStatus([], generated, s)| {
      NoStatus(generated, s);
    }
  }

  lemma NoHolders(generated: set<Mutant>)
    ensures WithRow([], generated) == {}
  {}

  lemma NoStatus(generated: set<Mutant>, s: Status)
    ensures WithStatus([], generated, s) == {} && NO_COUNTS.Of(s) == 0
  {}

  lemma CleanPrefix(rows: seq<Row>, generated: set<Mutant>, scope: Scope)
    requires rows != [] && CleanCache(rows, generated, scope)
    ensures var init, row := rows[..|rows| - 1], rows[|rows| - 1];
      && CleanCache(init, generated, scope)
      && (row.m in generated ==> row.m !in WithRow(init, generated))
      && (row.m !in generated && InRange(row.m, scope) ==> row.status == Untested)
  {
    var init := rows[..|rows| - 1];
    assert forall i | 0 <= i < |init| :: init[i] == rows[i];
  }

  /** The export of one clean cache counts every generated mutant of the scope exactly once: its
      total is their number, and one without a row counts as untested. */
  lemma ExportCountsEveryMutant(f: File, scope: Scope)
    requires CleanCache(f.rows, Within(f.generated, scope), scope)
    requires !(f.mentionsPragma && |Within(f.raw, scope)| == |Within(f.generated, scope)| && f.pragmaInScope)
    requires Within(f.generated, scope) != {}
    ensures Export([f], scope).Ok?
    ensures var generated, stats := Within(f.generated, scope), Export([f], scope).value;
      && stats.total == Some(|generated|)
      && stats.counts.Total() == |generated|
      && (forall s | s != Untested :: stats.counts.Of(s) == |WithStatus(f.rows, generated, s)|)
      && stats.counts.untested == |WithStatus(f.rows, generated, Untested)| + |generated - WithRow(f.rows, generated)|
      && stats.excluded == (if f.mentionsPragma then |Within(f.raw, scope)| - |generated| else 0)
      && stats.phantom == ScanRows(f.rows, generated, scope).value.phantom
  {
    hide Within, WithRow, WithStatus, CleanCache, Counts.Of, Counts.Bump, Counts.Total, Counts.Plus, ScanRows,
      Export, InRange, StatsOf;
    var generated := Within(f.generated, scope);
    InScope(f.generated, scope);
    ScanCounts(f.rows, generated, scope);
    var tally := ScanRows(f.rows, generated, scope).value;
    ExportOfTally(f, scope, tally);
    RowsAreGenerated(f.rows, generated);
    assert tally.seen + (generated - tally.seen) == generated;
    assert tally.counts.Bump(Untested, |generated - tally.seen|).Total() == |generated|;
    OfUntested(tally.counts.Bump(Untested, |generated - tally.seen|));
  }

  lemma OfUntested(c: Counts)
    ensures c.Of(Untested) == c.untested && c.Of(Skipped) == c.skipped
  {}

  /** The export of one file whose rows give the tally. */
  lemma ExportOfTally(f: File, scope: Scope, tally: Tally)
    requires ScanRows(f.rows, Within(f.generated, scope), scope) == Ok(tally)
    requires !(f.mentionsPragma && |Within(f.raw, scope)| == |Within(f.generated, scope)| && f.pragmaInScope)
    ensures var generated := Within(f.generated, scope);
      var counts := tally.counts.Bump(Untested, |generated - tally.seen|);
      Export([f], scope) ==
        if counts.Total() == 0 then Err(NothingGenerated)
        else Ok(Stats(counts, Some(counts.Total()),
                      if f.mentionsPragma then |Within(f.raw, scope)| - |generated| else 0, tally.phantom))
  {
    hide Within, ScanRows, InRange, Counts.Bump, Counts.Total, Counts.Of;
    assert NO_COUNTS.Plus(tally.counts) == tally.counts;
    assert AddFiles(NO_SUMS, [f], scope) == AddFile(NO_SUMS, f, scope) by {
      assert [f][1..] == [];
    }
  }

  lemma InScope(ms: set<Mutant>, scope: Scope)
    ensures forall m | m in Within(ms, scope) :: InRange(m, scope)
  {}

  lemma RowsAreGenerated(rows: seq<Row>, generated: set<Mutant>)
    ensures WithRow(rows, generated) <= generated
  {}

  /** The pragmas of the file cannot be counted, or its cache describes other source. */
  predicate Untrusted(f: File, scope: Scope) {
    || !PragmasCounted(f, scope)
    || exists i :: 0 <= i < |f.rows| && Foreign(f.rows[i], Within(f.generated, scope), scope)
  }

  /** Why a file is refused: its pragmas are in the exported lines and exclude nothing there; or, where
      they can be counted, a row that was run is no generated mutant. */
  lemma RefusalExact(sums: Sums, f: File, scope: Scope)
    ensures AddFile(sums, f, scope) == Err(PragmasIgnored) <==>
      f.mentionsPragma && f.pragmaInScope && |Within(f.raw, scope)| == |Within(f.generated, scope)|
    ensures AddFile(sums, f, scope) == Err(ForeignVerdict) <==>
      && !(f.mentionsPragma && f.pragmaInScope && |Within(f.raw, scope)| == |Within(f.generated, scope)|)
      && exists row :: row in f.rows && Foreign(row, Within(f.generated, scope), scope)
    ensures AddFile(sums, f, scope) != Err(NothingGenerated)
  {
    hide Within, ScanRows, Foreign, Counts.Plus;
    var generated := Within(f.generated, scope);
    ScanRefuses(f.rows, generated, scope);
    assert forall i | 0 <= i < |f.rows| :: f.rows[i] in f.rows;
    if row :| row in f.rows && Foreign(row, generated, scope) {
      var i :| 0 <= i < |f.rows| && f.rows[i] == row;
    }
  }

  predicate NothingToCount(sums: Sums) { sums.counts.Total() == 0 && sums.missing == 0 }

  lemma {:induction false} ScanSees(rows: seq<Row>, generated: set<Mutant>, scope: Scope)
    requires ScanRows(rows, generated, scope).Ok?
    ensures var t := ScanRows(rows, generated, scope).value;
      t.seen <= generated && (t.counts.Total() == 0 <==> t.seen == {})
  {
    hide InRange, Counts.Total, Counts.Of;
    if rows == [] {
      NothingTotal();
    } else {
      ScanSees(rows[..|rows| - 1], generated, scope);
    }
  }

  lemma NothingTotal()
    ensures NO_COUNTS.Total() == 0
  {}

  lemma PlusTotal(a: Counts, b: Counts)
    ensures a.Plus(b).Total() == a.Total() + b.Total()
  {}

  lemma AddFileCounts(sums: Sums, f: File, scope: Scope)
    ensures AddFile(sums, f, scope).Err? <==> Untrusted(f, scope)
    ensures AddFile(sums, f, scope).Ok? ==>
      (NothingToCount(AddFile(sums, f, scope).value) <==> NothingToCount(sums) && Within(f.generated, scope) == {})
  {
    hide Within, ScanRows, Counts.Plus, Counts.Total, Foreign;
    var generated := Within(f.generated, scope);
    ScanRefuses(f.rows, generated, scope);
    var tally := ScanRows(f.rows, generated, scope);
    if tally.Ok? {
      ScanSees(f.rows, generated, scope);
      PlusTotal(sums.counts, tally.value.counts);
      assert |generated - tally.value.seen| == 0 <==> generated - tally.value.seen == {};
      assert generated == {} <==> tally.value.seen == {} && generated - tally.value.seen == {};
    }
  }

  lemma {:induction false} AddFilesCounts(sums: Sums, files: seq<File>, scope: Scope)
    ensures AddFiles(sums, files, scope).Err? <==> exists i :: 0 <= i < |files| && Untrusted(files[i], scope)
    ensures AddFiles(sums, files, scope).Ok? ==>
      (NothingToCount(AddFiles(sums, files, scope).value) <==>
        NothingToCount(sums) && forall i | 0 <= i < |files| :: Within(files[i].generated, scope) == {})
    decreases files
  {
    hide AddFile, Within, Untrusted, NothingToCount;
    if files != [] {
      AddFileCounts(sums, files[0], scope);
      assert forall i | 0 <= i < |files| - 1 :: files[1..][i] == files[i + 1];
      if AddFile(sums, files[0], scope).Ok? {
        AddFilesCounts(AddFile(sums, files[0], scope).value, files[1..], scope);
      }
      assert forall i | 1 <= i < |files| :: files[i] == files[1..][i - 1];
    }
  }

  /** An export is refused exactly if some file cannot be trusted or no mutant is in scope at all. */
  lemma ExportRefuses(files: seq<File>, scope: Scope)
    ensures Export(files, scope).Err? <==>
      || (exists i :: 0 <= i < |files| && Untrusted(files[i], scope))
      || (forall i | 0 <= i < |files| :: Within(files[i].generated, scope) == {})
  {
    hide Within, Untrusted, AddFiles, Counts.Total, Counts.Bump;
    AddFilesCounts(NO_SUMS, files, scope);
    NothingTotal();
  }

  /** Shards pass the check exactly if there is nothing to compare, or they state one total and one
      excluded count and the mutants they ran, without the skipped, make up that total. */
  lemma ConsistencyExact(shards: seq<Stats>, expected: bool)
    ensures Consistency(shards, expected) == None <==>
      || (|shards| < 2 && !expected)
      || (shards != [] && exists total, excluded :: Agree(shards, total, excluded) && Covered(shards) == total)
  {
    hide Covered;
    if shards != [] && shards[0].total.Some? && Consistency(shards, expected) == None && !(|shards| < 2 && !expected) {
      assert Agree(shards, shards[0].total.value, shards[0].excluded);
    }
    if total, excluded :| shards != [] && Agree(shards, total, excluded) && Covered(shards) == total {
      assert shards[0].total == Some(total) && shards[0].excluded == excluded;
    }
  }

  /** What is wrong with shards that are compared: one states no total, their totals differ (or
      there is no shard), their excluded counts differ, or they do not cover the total. */
  lemma ProblemExact(shards: seq<Stats>, expected: bool)
    requires |shards| >= 2 || expected
    ensures match Consistency(shards, expected)
      case None => true
      case Some(NoTotal) => exists s :: s in shards && s.total == None
      case Some(TotalsDiffer) =>
        && (forall s | s in shards :: s.total.Some?)
        && (shards == [] || exists s, r :: s in shards && r in shards && s.total != r.total)
      case Some(ExcludedDiffer) =>
        && (forall s, r | s in shards && r in shards :: s.total.Some? && s.total == r.total)
        && exists s, r :: s in shards && r in shards && s.excluded != r.excluded
      case Some(CoverageOff(covered, total)) =>
        shards != [] && Agree(shards, total, shards[0].excluded) && covered == Covered(shards) && covered != total
  {
    hide Covered;
    assert forall i | 0 <= i < |shards| :: shards[i] in shards;
  }

  predicate Agree(shards: seq<Stats>, total: int, excluded: int) {
    forall i | 0 <= i < |shards| :: shards[i].total == Some(total) && shards[i].excluded == excluded
  }

  // ----- the sharded run and the unsharded one

  /** The number of rows in scope that are no generated mutant. */
  function Phantoms(rows: seq<Row>, generated: set<Mutant>, scope: Scope): nat {
    if rows == [] then 0
    else
      var row := rows[|rows| - 1];
      Phantoms(rows[..|rows| - 1], generated, scope) + if InRange(row.m, scope) && row.m !in generated then 1 else 0
  }

  lemma {:induction false} ScanPhantoms(rows: seq<Row>, generated: set<Mutant>, scope: Scope)
    requires ScanRows(rows, generated, scope).Ok?
    ensures ScanRows(rows, generated, scope).value.phantom == Phantoms(rows, generated, scope)
  {
    if rows != [] {
      ScanPhantoms(rows[..|rows| - 1], generated, scope);
    }
  }

  /** What running a mutant gives; a run that never got to it leaves it untested. */
  function Verdict(truth: map<Mutant, Status>, m: Mutant): Status {
    if m in truth then truth[m] else Untested
  }

  /** A cache that a process with part `a` leaves behind: its own mutants have their verdict, or no
      row where there is none, and the others are marked skipped. */
  ghost predicate CacheOf(rows: seq<Row>, a: Active, truth: map<Mutant, Status>, generated: set<Mutant>, scope: Scope)
    requires a.assignment.None? ==> a.shard.Some?
  {
    && CleanCache(rows, generated, scope)
    && forall m, s | m in generated ::
        Row(m, s) in rows <==> if Skip(a, m) then s == Skipped else m in truth && s == truth[m]
  }

  /** The mutants that the process runs with verdict `s`. */
  function RunWith(a: Active, truth: map<Mutant, Status>, generated: set<Mutant>, s: Status): set<Mutant>
    requires a.assignment.None? ==> a.shard.Some?
  {
    set m | m in generated && !Skip(a, m) && Verdict(truth, m) == s
  }

  function Skips(a: Active, generated: set<Mutant>): set<Mutant>
    requires a.assignment.None? ==> a.shard.Some?
  {
    set m | m in generated && Skip(a, m)
  }

  predicate PragmasCounted(f: File, scope: Scope) {
    !(f.mentionsPragma && |Within(f.raw, scope)| == |Within(f.generated, scope)| && f.pragmaInScope)
  }

  function Excluded(f: File, scope: Scope): int {
    if f.mentionsPragma then |Within(f.raw, scope)| - |Within(f.generated, scope)| else 0
  }

  lemma CacheSets(rows: seq<Row>, a: Active, truth: map<Mutant, Status>, generated: set<Mutant>, scope: Scope,
        s: Status)
    requires a.assignment.None? ==> a.shard.Some?
    requires CacheOf(rows, a, truth, generated, scope) && Skipped !in truth.Values
    ensures s != Skipped && s != Untested ==> WithStatus(rows, generated, s) == RunWith(a, truth, generated, s)
    ensures WithStatus(rows, generated, Skipped) == Skips(a, generated)
    ensures |WithStatus(rows, generated, Untested)| + |generated - WithRow(rows, generated)|
      == |RunWith(a, truth, generated, Untested)|
  {
    hide Skip, CleanCache;
    assert forall m | m in truth :: truth[m] in truth.Values;
    var noRow := generated - WithRow(rows, generated);
    var untested := WithStatus(rows, generated, Untested);
    forall m | m in generated ensures m in noRow <==> !Skip(a, m) && m !in truth {
      if Skip(a, m) {
        assert Row(m, Skipped) in rows;
      } else if m in truth {
        assert Row(m, truth[m]) in rows;
      }
    }
    assert untested !! noRow;
    assert RunWith(a, truth, generated, Untested) == untested + noRow;
  }

  /** The export of such a cache: every count is the number of mutants run with that verdict. */
  lemma ExportOfRun(f: File, a: Active, truth: map<Mutant, Status>, scope: Scope)
    requires a.assignment.None? ==> a.shard.Some?
    requires CacheOf(f.rows, a, truth, Within(f.generated, scope), scope) && Skipped !in truth.Values
    requires PragmasCounted(f, scope) && Within(f.generated, scope) != {}
    ensures Export([f], scope).Ok?
    ensures var g, stats := Within(f.generated, scope), Export([f], scope).value;
      && stats.total == Some(|g|)
      && stats.counts.Total() == |g|
      && stats.counts.skipped == |Skips(a, g)|
      && (forall s | s != Skipped :: stats.counts.Of(s) == |RunWith(a, truth, g, s)|)
      && stats.excluded == Excluded(f, scope)
      && stats.phantom == Phantoms(f.rows, g, scope)
  {
    hide WithStatus, WithRow, RunWith, Skips, Export, ScanRows, Phantoms, Within, Counts.Total;
    var g := Within(f.generated, scope);
    ExportCountsEveryMutant(f, scope);
    InScope(f.generated, scope);
    ScanCounts(f.rows, g, scope);
    ScanPhantoms(f.rows, g, scope);
    forall s | s != Skipped ensures Export([f], scope).value.counts.Of(s) == |RunWith(a, truth, g, s)| {
      CacheSets(f.rows, a, truth, g, scope, s);
    }
    CacheSets(f.rows, a, truth, g, scope, Skipped);
    assert Export([f], scope).value.counts.Of(Skipped) == |WithStatus(f.rows, g, Skipped)|;
  }

  function Part(xs: set<Mutant>, deal: map<Mutant, nat>, k: nat): set<Mutant>
    requires xs <= deal.Keys
  {
    set m | m in xs && deal[m] == k
  }

  function Below(xs: set<Mutant>, deal: map<Mutant, nat>, n: nat): set<Mutant>
    requires xs <= deal.Keys
  {
    set m | m in xs && deal[m] < n
  }

  lemma BelowStep(xs: set<Mutant>, deal: map<Mutant, nat>, n: nat)
    requires xs <= deal.Keys
    ensures |Below(xs, deal, 0)| == 0
    ensures |Below(xs, deal, n + 1)| == |Below(xs, deal, n)| + |Part(xs, deal, n)|
  {
    assert Below(xs, deal, 0) == {};
    assert Below(xs, deal, n + 1) == Below(xs, deal, n) + Part(xs, deal, n);
    assert Below(xs, deal, n) !! Part(xs, deal, n);
  }

  /** Counts of disjoint parts add up to the count of the whole. */
  lemma {:induction false} SumOfParts(stats: seq<Stats>, s: Status, xs: set<Mutant>, deal: map<Mutant, nat>)
    requires xs <= deal.Keys
    requires forall k: nat | k < |stats| :: stats[k].counts.Of(s) == |Part(xs, deal, k)|
    ensures SumCounts(stats).Of(s) == |Below(xs, deal, |stats|)|
  {
    hide Part, Below, Counts.Of, Counts.Plus;
    if stats == [] {
      BelowStep(xs, deal, 0);
      assert NO_COUNTS.Of(s) == 0 by { NoStatus({}, s); }
    } else {
      SumOfParts(stats[..|stats| - 1], s, xs, deal);
      BelowStep(xs, deal, |stats| - 1);
    }
  }

  lemma {:induction false} CoveredParts(stats: seq<Stats>, xs: set<Mutant>, deal: map<Mutant, nat>)
    requires xs <= deal.Keys
    requires forall k: nat | k < |stats| :: stats[k].counts.Total() - stats[k].counts.skipped == |Part(xs, deal, k)|
    ensures Covered(stats) == |Below(xs, deal, |stats|)|
  {
    hide Part, Below, Counts.Total;
    if stats == [] {
      BelowStep(xs, deal, 0);
    } else {
      CoveredParts(stats[..|stats| - 1], xs, deal);
      BelowStep(xs, deal, |stats| - 1);
    }
  }

  lemma {:induction false} SameEverywhere(stats: seq<Stats>, total: Option<int>, excluded: int, phantom: int)
    requires stats != [] && total.Some?
    requires forall i | 0 <= i < |stats| ::
      stats[i].total == total && stats[i].excluded == excluded && stats[i].phantom == phantom
    ensures CommonTotal(stats) == total && MaxExcluded(stats) == excluded && MaxPhantom(stats) == phantom
  {
    var totals := set i | 0 <= i < |stats| && stats[i].total.Some? :: stats[i].total;
    assert stats[0].total in totals;
    assert totals == {total};
    if |stats| > 1 {
      SameEverywhere(stats[..|stats| - 1], total, excluded, phantom);
    }
  }

  /** The stats files of the shards of a target. */
  function Exports(f: File, caches: seq<seq<Row>>, scope: Scope): (r: seq<Stats>)
    requires forall k | 0 <= k < |caches| :: Export([f.(rows := caches[k])], scope).Ok?
    ensures |r| == |caches| && forall k | 0 <= k < |r| :: r[k] == Export([f.(rows := caches[k])], scope).value
  {
    if caches == [] then [] else [Export([f.(rows := caches[0])], scope).value] + Exports(f, caches[1..], scope)
  }

  /** One target's run, sharded and unsharded: the file and its verdicts, each shard's cache and the
      cache of one run of the whole target. */
  datatype Runs = Runs(t: Target, f: File, truth: map<Mutant, Status>, caches: seq<seq<Row>>, whole: seq<Row>,
    phantoms: nat) {
    function Generated(): set<Mutant> { Within(f.generated, t.scope) }

    function Process(shard: Option<nat>): Active
      requires t.shards > 0
    {
      Active(shard, t.shards, Some(Assignment(t, f.generated)))
    }

    /** The shards and the whole run meet the same mutants, verdicts and stray rows. */
    ghost predicate Valid() {
      && t.shards > 0
      && |caches| == t.shards
      && Skipped !in truth.Values
      && Generated() != {} && PragmasCounted(f, t.scope)
      && (forall k: nat | k < |caches| ::
            CacheOf(caches[k], Process(Some(k)), truth, Generated(), t.scope)
              && Phantoms(caches[k], Generated(), t.scope) == phantoms)
      && CacheOf(whole, Process(None), truth, Generated(), t.scope) && Phantoms(whole, Generated(), t.scope) == phantoms
    }
  }

  predicate SameScores(merged: Stats, unsharded: Stats) {
    && merged.total == unsharded.total
    && (forall s | s != Skipped :: merged.counts.Of(s) == unsharded.counts.Of(s))
    && merged.excluded == unsharded.excluded
    && merged.phantom == unsharded.phantom
    && Score(merged) == Score(unsharded)
    && RawScore(merged) == RawScore(unsharded)
  }

  lemma RowsDoNotMatter(f: File, rows: seq<Row>, scope: Scope)
    ensures PragmasCounted(f.(rows := rows), scope) == PragmasCounted(f, scope)
    ensures Excluded(f.(rows := rows), scope) == Excluded(f, scope)
  {}

  /** Shard `k` runs its part of what the whole run runs, and skips the rest. */
  lemma ShardRuns(r: Runs, k: nat)
    requires r.t.shards > 0 && k < r.t.shards
    ensures var deal, g, a := Assignment(r.t, r.f.generated), r.Generated(), r.Process(Some(k));
      && deal.Keys == g
      && |Part(g, deal, k)| + |Skips(a, g)| == |g|
      && forall s | s != Skipped ::
           RunWith(r.Process(None), r.truth, g, s) <= g &&
           RunWith(a, r.truth, g, s) == Part(RunWith(r.Process(None), r.truth, g, s), deal, k)
  {
    hide Within, Assignment, Verdict;
    var deal, g, a := Assignment(r.t, r.f.generated), r.Generated(), r.Process(Some(k));
    FairDeal(r.t, r.f.generated, 0, 0);
    assert Part(g, deal, k) + Skips(a, g) == g && Part(g, deal, k) !! Skips(a, g);
    forall s | s != Skipped
      ensures RunWith(a, r.truth, g, s) == Part(RunWith(r.Process(None), r.truth, g, s), deal, k) {}
  }

  /** A shard counts its own part of each verdict; all it counts beyond its part is skipped. */
  lemma ShardStats(r: Runs, k: nat)
    requires r.Valid() && k < r.t.shards
    ensures var deal, g, e := Assignment(r.t, r.f.generated), r.Generated(),
      Export([r.f.(rows := r.caches[k])], r.t.scope);
      && deal.Keys == g && e.Ok?
      && e.value.total == Some(|g|) && e.value.excluded == Excluded(r.f, r.t.scope) && e.value.phantom == r.phantoms
      && e.value.counts.Total() - e.value.counts.skipped == |Part(g, deal, k)|
      && forall s | s != Skipped ::
           RunWith(r.Process(None), r.truth, g, s) <= g &&
           e.value.counts.Of(s) == |Part(RunWith(r.Process(None), r.truth, g, s), deal, k)|
  {
    hide Within, Export, CacheOf, PragmasCounted, Excluded, Phantoms, Counts.Of, Counts.Total, Assignment,
      RunWith, Part, Skips, Skip;
    var own := r.f.(rows := r.caches[k]);
    ShardRuns(r, k);
    RowsDoNotMatter(r.f, own.rows, r.t.scope);
    ExportOfRun(own, r.Process(Some(k)), r.truth, r.t.scope);
  }

  lemma WholeStats(r: Runs)
    requires r.Valid()
    ensures var g, e := r.Generated(), Export([r.f.(rows := r.whole)], r.t.scope);
      && e.Ok?
      && e.value.total == Some(|g|) && e.value.excluded == Excluded(r.f, r.t.scope) && e.value.phantom == r.phantoms
      && e.value.counts.skipped == 0
      && forall s | s != Skipped :: e.value.counts.Of(s) == |RunWith(r.Process(None), r.truth, g, s)|
  {
    hide Within, Export, CacheOf, PragmasCounted, Excluded, Phantoms, Counts.Of, Counts.Total, Assignment;
    var a, g := r.Process(None), r.Generated();
    FairDeal(r.t, r.f.generated, 0, 0);
    var own := r.f.(rows := r.whole);
    RowsDoNotMatter(r.f, own.rows, r.t.scope);
    ExportOfRun(own, a, r.truth, r.t.scope);
    assert Skips(a, g) == {};
  }

  /** Equal counts have equal scores. */
  lemma ScoresFollow(a: Stats, b: Stats)
    requires forall s | s != Skipped :: a.counts.Of(s) == b.counts.Of(s)
    requires a.excluded == b.excluded
    ensures Score(a) == Score(b) && RawScore(a) == RawScore(b)
  {
    assert a.counts.Of(Killed) == b.counts.Of(Killed) && a.counts.Of(Timeout) == b.counts.Of(Timeout);
    assert a.counts.Of(Survived) == b.counts.Of(Survived) && a.counts.Of(Suspicious) == b.counts.Of(Suspicious);
  }

  /** The shards of one run export, agree, and merge into the counts and scores of one unsharded
      run of the target. */
  lemma ShardedEqualsUnsharded(r: Runs)
    requires r.Valid()
    ensures forall k | 0 <= k < |r.caches| :: Export([r.f.(rows := r.caches[k])], r.t.scope).Ok?
    ensures Export([r.f.(rows := r.whole)], r.t.scope).Ok?
    ensures Consistency(Exports(r.f, r.caches, r.t.scope), true) == None
    ensures SameScores(Merged(Exports(r.f, r.caches, r.t.scope)), Export([r.f.(rows := r.whole)], r.t.scope).value)
    ensures Export([r.f.(rows := r.whole)], r.t.scope).value.counts.skipped == 0
  {
    hide Export, CacheOf, Within, PragmasCounted, Phantoms, Excluded, RunWith, Part, Below, Counts.Of, Counts.Total,
      Assignment,
      Score, RawScore, SumCounts, Covered, CommonTotal, MaxExcluded, MaxPhantom;
    var deal, g, a := Assignment(r.t, r.f.generated), r.Generated(), r.Process(None);
    forall k: nat | k < |r.caches| ensures Export([r.f.(rows := r.caches[k])], r.t.scope).Ok? {
      ShardStats(r, k);
    }
    WholeStats(r);
    FairDeal(r.t, r.f.generated, 0, 0);
    var stats := Exports(r.f, r.caches, r.t.scope);
    forall k: nat | k < |stats|
      ensures stats[k].total == Some(|g|) && stats[k].excluded == Excluded(r.f, r.t.scope)
        && stats[k].phantom == r.phantoms
      ensures stats[k].counts.Total() - stats[k].counts.skipped == |Part(g, deal, k)|
    {
      ShardStats(r, k);
    }
    SameEverywhere(stats, Some(|g|), Excluded(r.f, r.t.scope), r.phantoms);
    CoveredParts(stats, g, deal);
    AllBelow(g, deal, r.t.shards);
    var whole := Export([r.f.(rows := r.whole)], r.t.scope).value;
    forall s | s != Skipped ensures Merged(stats).counts.Of(s) == whole.counts.Of(s) {
      var xs := RunWith(a, r.truth, g, s);
      RunsAreGenerated(a, r.truth, g, s);
      forall k: nat | k < |stats| ensures stats[k].counts.Of(s) == |Part(xs, deal, k)| {
        ShardStats(r, k);
      }
      SumOfParts(stats, s, xs, deal);
      AllBelow(xs, deal, r.t.shards);
    }
    ScoresFollow(Merged(stats), whole);
  }

  lemma AllBelow(xs: set<Mutant>, deal: map<Mutant, nat>, n: nat)
    requires xs <= deal.Keys && forall m | m in deal :: deal[m] < n
    ensures Below(xs, deal, n) == xs
  {}

  lemma RunsAreGenerated(a: Active, truth: map<Mutant, Status>, generated: set<Mutant>, s: Status)
    requires a.assignment.None? ==> a.shard.Some?
    ensures RunWith(a, truth, generated, s) <= generated
  {}

  // ----- the runs themselves

  /** The rows that a process leaves behind when it works off the mutants in order. */
  function CacheRows(order: seq<Mutant>, a: Active, truth: map<Mutant, Status>): seq<Row>
    requires a.assignment.None? ==> a.shard.Some?
  {
    if order == [] then []
    else
      var m := order[|order| - 1];
      CacheRows(order[..|order| - 1], a, truth)
      + if Skip(a, m) then [Row(m, Skipped)] else if m in truth then [Row(m, truth[m])] else []
  }

  lemma {:induction false} CacheRowsAre(order: seq<Mutant>, a: Active, truth: map<Mutant, Status>)
    requires a.assignment.None? ==> a.shard.Some?
    requires forall i, j | 0 <= i < j < |order| :: order[i] != order[j]
    ensures var rows := CacheRows(order, a, truth);
      && (forall i, j | 0 <= i < j < |rows| :: rows[i].m != rows[j].m)
      && (forall row :: row in rows <==>
            && row.m in order
            && if Skip(a, row.m) then row.status == Skipped else row.m in truth && row.status == truth[row.m])
  {
    hide Skip;
    if order != [] {
      var n := |order| - 1;
      CacheRowsAre(order[..n], a, truth);
      var init, rows := CacheRows(order[..n], a, truth), CacheRows(order, a, truth);
      assert order[n] !in order[..n];
      assert forall m :: m in order <==> m in order[..n] || m == order[n];
      assert forall i | 0 <= i < |init| :: init[i] in init;
    }
  }

  lemma {:induction false} NoPhantoms(rows: seq<Row>, generated: set<Mutant>, scope: Scope)
    requires forall i | 0 <= i < |rows| && InRange(rows[i].m, scope) :: rows[i].m in generated
    ensures Phantoms(rows, generated, scope) == 0
  {
    if rows != [] {
      NoPhantoms(rows[..|rows| - 1], generated, scope);
    }
  }

  lemma CacheRowsAreACache(f: File, a: Active, truth: map<Mutant, Status>, scope: Scope)
    requires a.assignment.None? ==> a.shard.Some?
    ensures var rows, g := CacheRows(Sorted(f.generated), a, truth), Within(f.generated, scope);
      CacheOf(rows, a, truth, g, scope) && Phantoms(rows, g, scope) == 0
  {
    hide Skip, CacheRows, InRange, Phantoms;
    var order, g := Sorted(f.generated), Within(f.generated, scope);
    var rows := CacheRows(order, a, truth);
    CacheRowsAre(order, a, truth);
    forall i | 0 <= i < |rows| ensures rows[i].m in f.generated {
      assert rows[i] in rows;
    }
    NoPhantoms(rows, g, scope);
    assert CleanCache(rows, g, scope);
    forall m, s | m in g
      ensures Row(m, s) in rows <==> if Skip(a, m) then s == Skipped else m in truth && s == truth[m]
    {
      assert m in order && Row(m, s).m == m;
    }
  }

  /** The caches of the first `n` shards. */
  function ShardCaches(order: seq<Mutant>, shards: nat, deal: map<Mutant, nat>, truth: map<Mutant, Status>,
        n: nat): seq<seq<Row>> {
    if n == 0 then []
    else
      ShardCaches(order, shards, deal, truth, n - 1)
      + [CacheRows(order, Active(Some(n - 1), shards, Some(deal)), truth)]
  }

  lemma {:induction false} ShardCachesAre(order: seq<Mutant>, shards: nat, deal: map<Mutant, nat>,
        truth: map<Mutant, Status>, n: nat)
    ensures |ShardCaches(order, shards, deal, truth, n)| == n
    ensures forall k: nat | k < n ::
      ShardCaches(order, shards, deal, truth, n)[k] == CacheRows(order, Active(Some(k), shards, Some(deal)), truth)
  {
    hide CacheRows;
    if n > 0 {
      ShardCachesAre(order, shards, deal, truth, n - 1);
    }
  }

  /** The runs of a target that has mutants to run, whatever their verdicts, are such runs: so its
      shards merge into the score of the unsharded run. */
  lemma ActualRunsAreValid(t: Target, f: File, truth: map<Mutant, Status>)
    requires t.shards > 0 && Skipped !in truth.Values && Within(f.generated, t.scope) != {}
      && PragmasCounted(f, t.scope)
    ensures var order, deal := Sorted(f.generated), Assignment(t, f.generated);
      var whole := CacheRows(order, Active(None, t.shards, Some(deal)), truth);
      Runs(t, f, truth, ShardCaches(order, t.shards, deal, truth, t.shards), whole, 0).Valid()
  {
    hide CacheOf, Phantoms, CacheRows, Within, PragmasCounted, Assignment, ShardCaches, Sorted, Skip;
    var order, deal := Sorted(f.generated), Assignment(t, f.generated);
    ShardCachesAre(order, t.shards, deal, truth, t.shards);
    forall k: nat | k < t.shards
      ensures var rows := ShardCaches(order, t.shards, deal, truth, t.shards)[k];
        CacheOf(rows, Active(Some(k), t.shards, Some(deal)), truth, Within(f.generated, t.scope), t.scope)
        && Phantoms(rows, Within(f.generated, t.scope), t.scope) == 0
    {
      CacheRowsAreACache(f, Active(Some(k), t.shards, Some(deal)), truth, t.scope);
    }
    CacheRowsAreACache(f, Active(None, t.shards, Some(deal)), truth, t.scope);
  }
}
