// The mask penalty of the encoder.
module QrPenalty {
  import opened QrWalk

  // ---------------------------------------------------------------- rule 1: runs

  /** Length of the run that ends with element n - 1. */
  function RunEnding(line: seq<Module>, n: nat): nat
    requires 0 < n <= |line|
  {
    if n > 1 && line[n - 1] == line[n - 2] then RunEnding(line, n - 1) + 1 else 1
  }

  /** The score the loop has given after n elements. */
  function RunScore(line: seq<Module>, n: nat): nat
    requires n <= |line|
  {
    if n <= 1 then 0
    else
      var run := RunEnding(line, n);
      var same := line[n - 1] == line[n - 2];
      RunScore(line, n - 1) + (if same && run == 5 then 3 else if same && run > 5 then 1 else 0)
  }

  /** What a maximal run of the given length costs. */
  function RunWorth(length: nat): nat {
    if length < 5 then 0 else length - 2
  }

  /** Length of the run the line starts with. */
  function FirstRun(line: seq<Module>): (k: nat)
    requires line != []
    ensures 0 < k <= |line|
    ensures forall i :: 0 <= i < k ==> line[i] == line[0]
    ensures k < |line| ==> line[k] != line[0]
  {
    if |line| == 1 || line[1] != line[0] then 1
    else
      var k := FirstRun(line[1..]);
      assert forall i :: 1 <= i <= k ==> line[i] == line[1..][i - 1];
      k + 1
  }

  /** The sum over the maximal runs of a line. */
  function RunsWorth(line: seq<Module>): nat {
    if line == [] then 0 else RunWorth(FirstRun(line)) + RunsWorth(line[FirstRun(line)..])
  }

  lemma {:induction false} RunInside(line: seq<Module>, n: nat)
    requires 0 < n <= |line| && forall i :: 0 <= i < n ==> line[i] == line[0]
    ensures RunEnding(line, n) == n && RunScore(line, n) == RunWorth(n)
  {
    if n > 1 { RunInside(line, n - 1); }
  }

  lemma {:induction false} RunAfter(line: seq<Module>, k: nat, n: nat)
    requires 0 < k < n <= |line| && line[k] != line[k - 1]
    ensures RunEnding(line, n) == RunEnding(line[k..], n - k)
    ensures RunScore(line, n) == RunScore(line, k) + RunScore(line[k..], n - k)
  {
    if n > k + 1 { RunAfter(line, k, n - 1); }
  }

  lemma NoRuns()
    ensures RunsWorth([]) == 0 && RunScore([], 0) == 0
  {
  }

  lemma RunsWorthNext(line: seq<Module>)
    requires line != []
    ensures RunsWorth(line) == RunWorth(FirstRun(line)) + RunsWorth(line[FirstRun(line)..])
  {
  }

  /** Counting run by run, the loop charges every maximal run of five or more. */
  lemma {:induction false} RunScoreIsRunsWorth(line: seq<Module>)
    ensures RunScore(line, |line|) == RunsWorth(line)
  {
    hide RunScore, RunEnding, RunsWorth, RunWorth, FirstRun;
    if line == [] {
      NoRuns();
    } else {
      var k := FirstRun(line);
      RunsWorthNext(line);
      RunInside(line, k);
      RunScoreIsRunsWorth(line[k..]);
      if k < |line| {
        RunAfter(line, k, |line|);
      } else {
        NoRuns();
        assert line[k..] == [];
      }
    }
  }

  method ScoreRuns(line: seq<Module>) returns (score: nat)
    requires line != []
    ensures score == RunsWorth(line)
  {
    score := 0;
    var run := 1;
    for b := 1 to |line|
      invariant run == RunEnding(line, b) && score == RunScore(line, b)
    {
      if line[b] == line[b - 1] {
        run := run + 1;
        if run == 5 { score := score + 3; }
        else if run > 5 { score := score + 1; }
      } else {
        run := 1;
      }
    }
    RunScoreIsRunsWorth(line);
  }

  // ---------------------------------------------------------------- lines of a grid

  function Column(g: Grid, c: nat): (line: seq<Module>)
    requires Square(g, |g|) && c < |g|
    ensures |line| == |g| && forall r :: 0 <= r < |g| ==> line[r] == g[r][c]
  {
    seq(|g|, r requires 0 <= r < |g| => g[r][c])
  }

  /** Rows first, then columns. */
  function Line(g: Grid, i: nat): (line: seq<Module>)
    requires Square(g, |g|) && i < 2 * |g|
    ensures |line| == |g|
  {
    if i < |g| then g[i] else Column(g, i - |g|)
  }

  /** Every row is a line, and so is every column. */
  lemma LinesAre(g: Grid, a: nat, b: nat)
    requires Square(g, |g|) && a < |g| && b < |g|
    ensures Line(g, a)[b] == g[a][b] && Line(g, |g| + a)[b] == g[b][a]
  {
  }

  /** Rule 1 over the first n lines. */
  function Rule1(g: Grid, n: nat): nat
    requires Square(g, |g|) && n <= 2 * |g|
  {
    if n == 0 then 0 else Rule1(g, n - 1) + RunsWorth(Line(g, n - 1))
  }

  // ---------------------------------------------------------------- rule 2: blocks

  predicate BlockAt(g: Grid, r: nat, c: nat)
    requires Square(g, |g|) && r + 1 < |g| && c + 1 < |g|
  {
    g[r][c] == g[r][c + 1] == g[r + 1][c] == g[r + 1][c + 1]
  }

  function BlocksInRow(g: Grid, r: nat, n: nat): nat
    requires Square(g, |g|) && r + 1 < |g| && n < |g|
  {
    if n == 0 then 0 else BlocksInRow(g, r, n - 1) + (if BlockAt(g, r, n - 1) then 3 else 0)
  }

  function Rule2(g: Grid, n: nat): nat
    requires Square(g, |g|) && n < |g|
  {
    if n == 0 then 0 else Rule2(g, n - 1) + BlocksInRow(g, n - 1, |g| - 1)
  }

  // ---------------------------------------------------------------- rule 3: finder-like patterns

  const PATTERN: seq<Module> := [Dark, Light, Dark, Dark, Dark, Light, Dark, Light, Light, Light, Light]

  /** Forty for each of the first n positions of a line where the pattern starts. */
  function PatternsInLine(line: seq<Module>, n: nat): nat
    requires n + 10 <= |line|
  {
    if n == 0 then 0
    else PatternsInLine(line, n - 1) + (if line[n - 1..n + 10] == PATTERN then 40 else 0)
  }

  function Rule3(g: Grid, n: nat): nat
    requires Square(g, |g|) && n <= 2 * |g| && |g| >= 11
  {
    if n == 0 then 0 else Rule3(g, n - 1) + PatternsInLine(Line(g, n - 1), |g| - 10)
  }

  // ---------------------------------------------------------------- rule 4: balance

  function DarkInRow(line: seq<Module>, n: nat): nat
    requires n <= |line|
  {
    if n == 0 then 0 else DarkInRow(line, n - 1) + (if line[n - 1] == Dark then 1 else 0)
  }

  function DarkIn(g: Grid, n: nat): nat
    requires n <= |g|
  {
    if n == 0 then 0 else DarkIn(g, n - 1) + DarkInRow(g[n - 1], |g[n - 1]|)
  }

  /** How many times step fits into x. */
  function Fits(x: nat, step: nat): nat
    requires step > 0
  {
    if x < step then 0 else 1 + Fits(x - step, step)
  }

  lemma {:induction false} FitsIsQuotient(x: nat, step: nat)
    requires step > 0
    ensures Fits(x, step) * step <= x < (Fits(x, step) + 1) * step
  {
    if x >= step { FitsIsQuotient(x - step, step); }
  }

  /** Ten for every full five per cent that the dark share is away from one half. */
  function Rule4(dark: nat, cells: nat): nat
    requires cells > 0
  {
    var away := 100 * dark - 50 * cells;
    10 * Fits(if away < 0 then -away else away, 5 * cells)
  }

  function Penalty(g: Grid): nat
    requires Square(g, |g|) && |g| >= 21
  {
    SquareIsPositive(|g|);
    Rule1(g, 2 * |g|) + Rule2(g, |g| - 1) + Rule3(g, 2 * |g|) + Rule4(DarkIn(g, |g|), |g| * |g|)
  }

  lemma SquareIsPositive(n: nat)
    requires n > 0
    ensures n * n > 0
  {
  }

  // ---------------------------------------------------------------- the loops

  method ScoreLines(g: Grid) returns (score: nat)
    requires Square(g, |g|) && |g| >= 21
    ensures score == Rule1(g, 2 * |g|) + Rule3(g, 2 * |g|)
  {
    hide RunsWorth, PatternsInLine;
    var runs, patterns := 0, 0;
    for i := 0 to 2 * |g|
      invariant runs == Rule1(g, i) && patterns == Rule3(g, i)
    {
      var line := Line(g, i);
      var s := ScoreRuns(line);
      var p := ScorePatterns(line);
      runs, patterns := runs + s, patterns + p;
    }
    score := runs + patterns;
  }

  method ScorePatterns(line: seq<Module>) returns (score: nat)
    requires |line| >= 11
    ensures score == PatternsInLine(line, |line| - 10)
  {
    score := 0;
    var b := 0;
    while b + |PATTERN| <= |line|
      invariant 0 <= b <= |line| - 10
      invariant score == PatternsInLine(line, b)
    {
      var hit := true;
      var k := 0;
      while k < |PATTERN|
        invariant 0 <= k <= 11
        invariant hit && forall j :: 0 <= j < k ==> line[b + j] == PATTERN[j]
      {
        if line[b + k] != PATTERN[k] {
          hit := false;
          break;
        }
        k := k + 1;
      }
      PatternHit(line, b, k, hit);
      if hit { score := score + 40; }
      b := b + 1;
    }
  }

  lemma PatternHit(line: seq<Module>, b: nat, k: nat, hit: bool)
    requires b + 11 <= |line| && k <= 11
    requires hit ==> k == 11 && forall j :: 0 <= j < k ==> line[b + j] == PATTERN[j]
    requires !hit ==> k < 11 && line[b + k] != PATTERN[k]
    ensures hit <==> line[b..b + 11] == PATTERN
  {
    var part := line[b..b + 11];
    if hit {
      forall j | 0 <= j < 11 ensures part[j] == PATTERN[j] {
        assert part[j] == line[b + j];
      }
    } else {
      assert part[k] == line[b + k];
    }
  }

  method ScoreBlocks(g: Grid) returns (score: nat)
    requires Square(g, |g|) && |g| >= 1
    ensures score == Rule2(g, |g| - 1)
  {
    score := 0;
    for r := 0 to |g| - 1
      invariant score == Rule2(g, r)
    {
      for c := 0 to |g| - 1
        invariant score == Rule2(g, r) + BlocksInRow(g, r, c)
      {
        var v := g[r][c];
        if v == g[r][c + 1] && v == g[r + 1][c] && v == g[r + 1][c + 1] { score := score + 3; }
      }
    }
  }

  method CountDark(g: Grid) returns (dark: nat)
    ensures dark == DarkIn(g, |g|)
  {
    dark := 0;
    for r := 0 to |g|
      invariant dark == DarkIn(g, r)
    {
      for c := 0 to |g[r]|
        invariant dark == DarkIn(g, r) + DarkInRow(g[r], c)
      {
        if g[r][c] == Dark { dark := dark + 1; }
      }
    }
  }

  /** penalty; the two transposed passes of rules 1 and 3 are passes over lines. */
  method ComputePenalty(g: Grid) returns (score: nat)
    requires Square(g, |g|) && |g| >= 21
    ensures score == Penalty(g)
  {
    hide Rule1, Rule2, Rule3, Rule4, DarkIn;
    SquareIsPositive(|g|);
    var lines := ScoreLines(g);
    var blocks := ScoreBlocks(g);
    var dark := CountDark(g);
    score := lines + blocks + Rule4(dark, |g| * |g|);
  }
  // ---------------------------------------------------------------- what the rules charge for

  /** The finder-like pattern, # for dark. */
  const FINDER_LIKE := "#.###.#...."

  /** Rule 3 charges for eleven modules in a row that look as drawn. */
  lemma PatternLooks(line: seq<Module>, b: nat)
    requires b + 11 <= |line|
    ensures line[b..b + 11] == PATTERN <==>
            forall j :: 0 <= j < 11 ==> line[b + j] == if FINDER_LIKE[j] == '#' then Dark else Light
  {
    var part := line[b..b + 11];
    assert forall j :: 0 <= j < 11 ==> part[j] == line[b + j];
    PatternDrawn();
  }

  lemma PatternDrawn()
    ensures |PATTERN| == 11 && |FINDER_LIKE| == 11
    ensures forall j :: 0 <= j < 11 ==> PATTERN[j] == if FINDER_LIKE[j] == '#' then Dark else Light
  {
  }

  /** Rule 4 charges ten for each full five per cent that the dark modules are away from one half. */
  lemma BalanceCharged(dark: nat, cells: nat)
    requires cells > 0
    ensures var k := Rule4(dark, cells) / 10;
            var away := if 100 * dark < 50 * cells then 50 * cells - 100 * dark else 100 * dark - 50 * cells;
            Rule4(dark, cells) == 10 * k && 5 * k * cells <= away < 5 * (k + 1) * cells
  {
    var away := if 100 * dark < 50 * cells then 50 * cells - 100 * dark else 100 * dark - 50 * cells;
    FitsBetween(away, 5 * cells);
    var k := Fits(away, 5 * cells);
    assert Rule4(dark, cells) == 10 * k;
    hide Fits, Rule4;
    Fivefold(k, cells);
    Fivefold(k + 1, cells);
  }

  lemma Fivefold(k: nat, cells: nat)
    ensures 5 * k * cells == k * (5 * cells)
  {
  }

  lemma {:induction false} FitsBetween(x: nat, step: nat)
    requires step > 0
    ensures Fits(x, step) * step <= x < (Fits(x, step) + 1) * step
  {
    if x >= step {
      FitsBetween(x - step, step);
      var k := Fits(x - step, step);
      assert (k + 1) * step == k * step + step && (k + 2) * step == (k + 1) * step + step;
    }
  }
}
