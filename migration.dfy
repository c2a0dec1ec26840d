/**
 * What `updateSchema` computes from the migration script, as functions of
 * the script's lines and the stored version.
 *
 * A line that starts with the block marker opens a new block; blocks are
 * numbered 1, 2, ... in script order, so the block of a line is the number
 * of marker lines up to and including it. Lines are joined, with no
 * separator, into a pending statement until a line ends with the
 * terminator; that line completes a statement, which runs only when its
 * block is newer than the stored version. Whatever follows the last
 * terminated line is never a statement.
 */
module Migration {
  import opened Text

  const BLOCK_MARKER: string := "/**"
  const TERMINATOR: string := ";"

  /** A line that opens a new migration block. */
  predicate IsMarker(line: string)
  {
    HasPrefix(line, BLOCK_MARKER)
  }

  /** A line that completes the pending statement. */
  predicate IsTerminated(line: string)
  {
    HasSuffix(line, TERMINATOR)
  }

  /** The number of marker lines, i.e. the block counter after reading `lines`. */
  function Markers(lines: seq<string>): nat
  {
    if lines == [] then 0
    else Markers(lines[..|lines| - 1]) + (if IsMarker(lines[|lines| - 1]) then 1 else 0)
  }

  /**
   * The indices of the terminated lines among the first `n`, in increasing
   * order: the lines at which a statement is completed.
   */
  function Ends(lines: seq<string>, n: nat): seq<nat>
    requires n <= |lines|
  {
    if n == 0 then []
    else Ends(lines, n - 1) + if IsTerminated(lines[n - 1]) then [n - 1] else []
  }

  /** `Ends` lists only terminated lines below `n`, each once, in increasing order. */
  lemma {:induction false} EndsSpec(lines: seq<string>, n: nat)
    requires n <= |lines|
    ensures forall k :: 0 <= k < |Ends(lines, n)| ==> Ends(lines, n)[k] < n && IsTerminated(lines[Ends(lines, n)[k]])
    ensures forall k, k' :: 0 <= k < k' < |Ends(lines, n)| ==> Ends(lines, n)[k] < Ends(lines, n)[k']
  {
    if n > 0 {
      EndsSpec(lines, n - 1);
    }
  }

  /** Every terminated line below `n` is listed in `Ends`: no statement end is missed. */
  lemma {:induction false} EndsComplete(lines: seq<string>, n: nat)
    requires n <= |lines|
    ensures forall j :: 0 <= j < n && IsTerminated(lines[j]) ==> j in Ends(lines, n)
  {
    if n > 0 {
      EndsComplete(lines, n - 1);
    }
  }

  /** Lines in strictly increasing order, all within the script. */
  ghost predicate ValidEnds(lines: seq<string>, e: seq<nat>)
  {
    && (forall k :: 0 <= k < |e| ==> e[k] < |lines|)
    && (forall k, k' :: 0 <= k < k' < |e| ==> e[k] < e[k'])
  }

  /** Where statement `k` begins: after the line that completed statement `k - 1`. */
  function StartOf(e: seq<nat>, k: nat): nat
    requires k <= |e|
  {
    if k == 0 then 0 else e[k - 1] + 1
  }

  /** Where the statement pending after the first `i` lines begins. */
  function PendingStart(lines: seq<string>, i: nat): nat
    requires i <= |lines|
  {
    StartOf(Ends(lines, i), |Ends(lines, i)|)
  }

  /** The pending statement starts within the lines read so far. */
  lemma PendingStartBound(lines: seq<string>, i: nat)
    requires i <= |lines|
    ensures PendingStart(lines, i) <= i
  {
    var e := Ends(lines, i);
    EndsSpec(lines, i);
    if e != [] {
      assert e[|e| - 1] < i;
    }
  }

  /** The text accumulated but not yet terminated after the first `i` lines. */
  function Pending(lines: seq<string>, i: nat): string
    requires i <= |lines|
  {
    PendingStartBound(lines, i);
    Concat(lines[PendingStart(lines, i)..i])
  }

  /**
   * A completed statement: its text, the block it was completed in, and the
   * index of the line that terminated it.
   */
  datatype Statement = Statement(text: string, block: nat, end: nat)

  /**
   * Statement `k` of those ending at `e`: the lines since the previous end,
   * joined, tagged with the block counter as it stood once its last line
   * had been read.
   */
  function StatementAt(lines: seq<string>, e: seq<nat>, k: nat): Statement
    requires ValidEnds(lines, e) && k < |e|
  {
    Statement(Concat(lines[StartOf(e, k)..e[k] + 1]), Markers(lines[..e[k] + 1]), e[k])
  }

  /** The statements completed within the first `n` lines, in script order. */
  function Statements(lines: seq<string>, n: nat): seq<Statement>
    requires n <= |lines|
  {
    var e := Ends(lines, n);
    EndsSpec(lines, n);
    assert ValidEnds(lines, e);
    seq(|e|, k requires 0 <= k < |e| => StatementAt(lines, e, k))
  }

  function Texts(stmts: seq<Statement>): seq<string>
  {
    seq(|stmts|, k requires 0 <= k < |stmts| => stmts[k].text)
  }

  /** The texts of the statements whose block is newer than `current`, in order. */
  function Newer(stmts: seq<Statement>, current: int): seq<string>
  {
    if stmts == [] then []
    else
      Newer(stmts[..|stmts| - 1], current) +
      if stmts[|stmts| - 1].block > current then [stmts[|stmts| - 1].text] else []
  }

  /** What one scan of the script produces: the statements run and the version written back. */
  datatype MigrationResult = MigrationResult(executed: seq<string>, version: nat)

  function Migrate(lines: seq<string>, current: int): MigrationResult
  {
    MigrationResult(Newer(Statements(lines, |lines|), current), Markers(lines))
  }

  // ---------------------------------------------------------------------
  // Block counting

  /** The block counter goes up by one per marker line, wherever the lines are split. */
  lemma {:induction false} MarkersAppend(a: seq<string>, b: seq<string>)
    ensures Markers(a + b) == Markers(a) + Markers(b)
    decreases |b|
  {
    if b == [] {
      assert a + b == a;
    } else {
      var b' := b[..|b| - 1];
      assert (a + b)[..|a + b| - 1] == a + b';
      MarkersAppend(a, b');
    }
  }

  /** Reading more lines never lowers the block counter. */
  lemma MarkersMonotone(lines: seq<string>, i: nat, j: nat)
    requires i <= j <= |lines|
    ensures Markers(lines[..i]) <= Markers(lines[..j])
  {
    MarkersAppend(lines[..i], lines[i..j]);
    assert lines[..i] + lines[i..j] == lines[..j];
  }

  // ---------------------------------------------------------------------
  // Statement accumulation

  /** Appending further ends leaves the earlier statements as they were. */
  lemma StatementAtExtend(lines: seq<string>, e: seq<nat>, more: seq<nat>, k: nat)
    requires ValidEnds(lines, e) && ValidEnds(lines, e + more) && k < |e|
    ensures StatementAt(lines, e + more, k) == StatementAt(lines, e, k)
  {
    assert (e + more)[k] == e[k];
    assert StartOf(e + more, k) == StartOf(e, k);
  }

  /** Reading one more line completes at most one statement and keeps the earlier ones. */
  lemma StatementsSnoc(lines: seq<string>, n: nat)
    requires n < |lines|
    ensures Statements(lines, n + 1) ==
      Statements(lines, n) +
      if IsTerminated(lines[n])
      then [Statement(Pending(lines, n) + lines[n], Markers(lines[..n + 1]), n)]
      else []
  {
    if IsTerminated(lines[n]) {
      StatementsSnocTerminated(lines, n);
    } else {
      assert Ends(lines, n + 1) == Ends(lines, n);
    }
  }

  lemma StatementsSnocTerminated(lines: seq<string>, n: nat)
    requires n < |lines| && IsTerminated(lines[n])
    ensures Statements(lines, n + 1) ==
      Statements(lines, n) + [Statement(Pending(lines, n) + lines[n], Markers(lines[..n + 1]), n)]
  {
    var e := Ends(lines, n);
    var e' := e + [n];
    assert Ends(lines, n + 1) == e';
    EndsSpec(lines, n);
    assert ValidEnds(lines, e) && ValidEnds(lines, e');
    var s, s' := Statements(lines, n), Statements(lines, n + 1);
    var last := Statement(Pending(lines, n) + lines[n], Markers(lines[..n + 1]), n);
    assert s'[|e|] == last by {
      var start := PendingStart(lines, n);
      PendingStartBound(lines, n);
      assert StartOf(e', |e|) == start;
      assert lines[start..n + 1][..n - start] == lines[start..n];
    }
    forall k | 0 <= k < |e|
      ensures s'[k] == s[k]
    {
      StatementAtExtend(lines, e, [n], k);
    }
    assert s' == s + [last];
  }

  /**
   * No text is lost or duplicated: the completed statements followed by the
   * pending tail spell out the whole script.
   */
  lemma {:induction false} Reassemble(lines: seq<string>, n: nat)
    requires n <= |lines|
    ensures Concat(Texts(Statements(lines, n))) + Pending(lines, n) == Concat(lines[..n])
  {
    if n > 0 {
      Reassemble(lines, n - 1);
      ReassembleStep(lines, n - 1);
    }
  }

  /** Reading line `m` keeps the completed statements and the pending text spelling out the lines read. */
  lemma ReassembleStep(lines: seq<string>, m: nat)
    requires m < |lines|
    requires Concat(Texts(Statements(lines, m))) + Pending(lines, m) == Concat(lines[..m])
    ensures Concat(Texts(Statements(lines, m + 1))) + Pending(lines, m + 1) == Concat(lines[..m + 1])
  {
    if IsTerminated(lines[m]) {
      ReassembleTerminated(lines, m);
    } else {
      ReassembleUnterminated(lines, m);
    }
  }

  lemma ReassembleTerminated(lines: seq<string>, m: nat)
    requires m < |lines| && IsTerminated(lines[m])
    requires Concat(Texts(Statements(lines, m))) + Pending(lines, m) == Concat(lines[..m])
    ensures Concat(Texts(Statements(lines, m + 1))) + Pending(lines, m + 1) == Concat(lines[..m + 1])
  {
    var t := Pending(lines, m) + lines[m];
    var done := Texts(Statements(lines, m));
    assert Concat(lines[..m + 1]) == Concat(lines[..m]) + lines[m] by { ConcatSnoc(lines, m + 1); }
    assert Texts(Statements(lines, m + 1)) == done + [t] by { TextsStep(lines, m); }
    assert Pending(lines, m + 1) == "" by { PendingSnoc(lines, m); }
    assert Concat(done + [t]) == Concat(done) + t by { ConcatPush(done, t); }
    assert Concat(done + [t]) + "" == Concat(done + [t]);
    JoinStep(Concat(done), Pending(lines, m), lines[m], Concat(lines[..m]));
  }

  lemma ReassembleUnterminated(lines: seq<string>, m: nat)
    requires m < |lines| && !IsTerminated(lines[m])
    requires Concat(Texts(Statements(lines, m))) + Pending(lines, m) == Concat(lines[..m])
    ensures Concat(Texts(Statements(lines, m + 1))) + Pending(lines, m + 1) == Concat(lines[..m + 1])
  {
    assert Concat(lines[..m + 1]) == Concat(lines[..m]) + lines[m] by { ConcatSnoc(lines, m + 1); }
    assert Texts(Statements(lines, m + 1)) == Texts(Statements(lines, m)) by { TextsStep(lines, m); }
    assert Pending(lines, m + 1) == Pending(lines, m) + lines[m] by { PendingSnoc(lines, m); }
    JoinStep(Concat(Texts(Statements(lines, m))), Pending(lines, m), lines[m], Concat(lines[..m]));
  }

  /** Appending a line to the pending text appends it to the whole. */
  lemma JoinStep(done: string, pending: string, line: string, prefix: string)
    requires done + pending == prefix
    ensures done + (pending + line) == prefix + line
  {
  }

  /** The texts of the completed statements grow by at most the statement just terminated. */
  lemma TextsStep(lines: seq<string>, n: nat)
    requires n < |lines|
    ensures Texts(Statements(lines, n + 1)) ==
      Texts(Statements(lines, n)) + if IsTerminated(lines[n]) then [Pending(lines, n) + lines[n]] else []
  {
    StatementsSnoc(lines, n);
    var s' := Statements(lines, n);
    if IsTerminated(lines[n]) {
      TextsSnoc(s', Statement(Pending(lines, n) + lines[n], Markers(lines[..n + 1]), n));
    } else {
      assert s' + [] == s';
    }
  }

  /** Reading one more line either ends the pending statement or extends it by that line. */
  lemma PendingSnoc(lines: seq<string>, n: nat)
    requires n < |lines|
    ensures Pending(lines, n + 1) == if IsTerminated(lines[n]) then "" else Pending(lines, n) + lines[n]
  {
    var start := PendingStart(lines, n);
    PendingStartBound(lines, n);
    if IsTerminated(lines[n]) {
      assert Ends(lines, n + 1) == Ends(lines, n) + [n];
      assert PendingStart(lines, n + 1) == n + 1;
    } else {
      assert Ends(lines, n + 1) == Ends(lines, n);
      var run := lines[start..n + 1];
      assert run[..|run| - 1] == lines[start..n];
    }
  }

  lemma TextsSnoc(s: seq<Statement>, st: Statement)
    ensures Texts(s + [st]) == Texts(s) + [st.text]
  {
  }

  /** The statements completed within the first `i` lines are a prefix of those completed later. */
  lemma {:induction false} StatementsGrow(lines: seq<string>, i: nat, n: nat)
    requires i <= n <= |lines|
    ensures |Statements(lines, i)| <= |Statements(lines, n)|
    ensures Statements(lines, n) == Statements(lines, i) + Statements(lines, n)[|Statements(lines, i)|..]
    decreases n - i
  {
    if i < n {
      StatementsGrow(lines, i + 1, n);
      StatementsSnoc(lines, i);
      var s, s', all := Statements(lines, i), Statements(lines, i + 1), Statements(lines, n);
      assert all[..|s'|] == s';
      assert s'[..|s|] == s;
      assert all[..|s|] == s;
      assert all == all[..|s|] + all[|s|..];
    } else {
      var s := Statements(lines, n);
      assert s[|s|..] == [];
      assert s + [] == s;
    }
  }

  /** Before the first line: no block seen, nothing pending, nothing to run. */
  lemma ScanStart(lines: seq<string>, current: int)
    ensures Markers(lines[..0]) == 0 && Pending(lines, 0) == "" && Newer(Statements(lines, 0), current) == []
  {
    assert lines[..0] == [];
  }

  /**
   * One iteration of the scan: reading line `i` raises the block counter iff
   * the line is a marker; if the line is terminated, the pending text plus
   * the line is a completed statement that runs iff its block is newer than
   * `current`, and the pending text is reset; otherwise the line is appended
   * to the pending text.
   */
  lemma ScanStep(lines: seq<string>, i: nat, current: int)
    requires i < |lines|
    ensures Markers(lines[..i + 1]) == Markers(lines[..i]) + if IsMarker(lines[i]) then 1 else 0
    ensures Pending(lines, i + 1) == if IsTerminated(lines[i]) then "" else Pending(lines, i) + lines[i]
    ensures Newer(Statements(lines, i + 1), current) ==
      Newer(Statements(lines, i), current) +
      if IsTerminated(lines[i]) && Markers(lines[..i + 1]) > current then [Pending(lines, i) + lines[i]] else []
  {
    assert lines[..i + 1][..i] == lines[..i];
    PendingSnoc(lines, i);
    StatementsSnoc(lines, i);
    var s := Statements(lines, i);
    if IsTerminated(lines[i]) {
      var st := Statement(Pending(lines, i) + lines[i], Markers(lines[..i + 1]), i);
      assert (s + [st])[..|s|] == s;
    } else {
      assert s + [] == s;
    }
  }

  /**
   * The scanner's state after `n` lines, computed one line at a time as the
   * scanning loop does: blocks seen, the statement being joined, and the
   * completed statements of blocks newer than `current`, in order.
   */
  datatype ScanState = ScanState(block: nat, pending: string, issued: seq<string>)

  /** One turn of the scanning loop: count a marker, join the line, complete the statement at a terminator. */
  function ScanLine(s: ScanState, line: string, current: int): ScanState
  {
    var block := s.block + if IsMarker(line) then 1 else 0;
    if IsTerminated(line) then
      ScanState(block, "", s.issued + if block > current then [s.pending + line] else [])
    else
      ScanState(block, s.pending + line, s.issued)
  }

  function ScanLines(lines: seq<string>, current: int, n: nat): ScanState
    requires n <= |lines|
  {
    if n == 0 then ScanState(0, "", []) else ScanLine(ScanLines(lines, current, n - 1), lines[n - 1], current)
  }

  /**
   * The line-at-a-time scan agrees with the whole-script description: its
   * block count is the number of markers so far, its pending text is the
   * unterminated tail, and it has issued exactly the newer completed
   * statements.
   */
  lemma {:induction false} ScanLinesMeaning(lines: seq<string>, current: int, n: nat)
    requires n <= |lines|
    ensures ScanLines(lines, current, n) ==
      ScanState(Markers(lines[..n]), Pending(lines, n), Newer(Statements(lines, n), current))
    decreases n
  {
    if n == 0 {
      ScanStart(lines, current);
    } else {
      var i := n - 1;
      var line := lines[i];
      var markers, pending, issued := Markers(lines[..i]), Pending(lines, i), Newer(Statements(lines, i), current);
      assert ScanLines(lines, current, i) == ScanState(markers, pending, issued) by {
        ScanLinesMeaning(lines, current, i);
      }
      var block := markers + if IsMarker(line) then 1 else 0;
      var markers', pending', issued' := Markers(lines[..n]), Pending(lines, n), Newer(Statements(lines, n), current);
      assert && markers' == block
             && pending' == (if IsTerminated(line) then "" else pending + line)
             && issued' == issued + (if IsTerminated(line) && block > current then [pending + line] else [])
      by {
        ScanStep(lines, i, current);
      }
      assert ScanLine(ScanState(markers, pending, issued), line, current) == ScanState(markers', pending', issued');
    }
  }

  /** Scanning more lines only adds statements after those already issued. */
  lemma {:induction false} ScanIssuedGrows(lines: seq<string>, current: int, i: nat, n: nat) returns (later: seq<string>)
    requires i <= n <= |lines|
    ensures ScanLines(lines, current, n).issued == ScanLines(lines, current, i).issued + later
    decreases n - i
  {
    if i == n {
      later := [];
    } else {
      var next := ScanLines(lines, current, i + 1).issued;
      var step := next[|ScanLines(lines, current, i).issued|..];
      assert next == ScanLines(lines, current, i).issued + step;
      var rest := ScanIssuedGrows(lines, current, i + 1, n);
      later := step + rest;
    }
  }

  /** `Migrate`, read off the scanner's state after the last line. */
  lemma MigrateByScan(lines: seq<string>, current: int)
    ensures var s := ScanLines(lines, current, |lines|);
      Migrate(lines, current) == MigrationResult(s.issued, s.block)
  {
    ScanLinesMeaning(lines, current, |lines|);
    assert lines[..|lines|] == lines;
  }

  // ---------------------------------------------------------------------
  // Selective execution

  /** Blocks of completed statements never decrease along the script. */
  ghost predicate BlocksSorted(stmts: seq<Statement>)
  {
    forall k, k' :: 0 <= k < k' < |stmts| ==> stmts[k].block <= stmts[k'].block
  }

  /** Completed statements come in block order and no block exceeds the final count. */
  lemma StatementsSorted(lines: seq<string>, n: nat)
    requires n <= |lines|
    ensures BlocksSorted(Statements(lines, n))
    ensures forall k :: 0 <= k < |Statements(lines, n)| ==> Statements(lines, n)[k].block <= Markers(lines[..n])
  {
    StatementsEnds(lines, n);
    CountedInOrder(lines, Statements(lines, n), n);
  }

  /**
   * Statements tagged with the block count at increasing lines below `n`
   * come in block order, none above the count at `n`.
   */
  lemma CountedInOrder(lines: seq<string>, st: seq<Statement>, n: nat)
    requires n <= |lines|
    requires forall k :: 0 <= k < |st| ==> st[k].end < n && st[k].block == Markers(lines[..st[k].end + 1])
    requires forall k, k' :: 0 <= k < k' < |st| ==> st[k].end < st[k'].end
    ensures BlocksSorted(st)
    ensures forall k :: 0 <= k < |st| ==> st[k].block <= Markers(lines[..n])
  {
    forall k | 0 <= k < |st|
      ensures st[k].block <= Markers(lines[..n])
    {
      MarkersMonotone(lines, st[k].end + 1, n);
    }
    forall k, k' | 0 <= k < k' < |st|
      ensures st[k].block <= st[k'].block
    {
      MarkersMonotone(lines, st[k].end + 1, st[k'].end + 1);
    }
  }

  /** Each completed statement records its last line, in increasing order, and the block count there. */
  lemma StatementsEnds(lines: seq<string>, n: nat)
    requires n <= |lines|
    ensures var st := Statements(lines, n);
      && (forall k :: 0 <= k < |st| ==> st[k].end < n && st[k].block == Markers(lines[..st[k].end + 1]))
      && (forall k, k' :: 0 <= k < k' < |st| ==> st[k].end < st[k'].end)
  {
    EndsSpec(lines, n);
  }

  lemma {:induction false} NewerAppend(a: seq<Statement>, b: seq<Statement>, current: int)
    ensures Newer(a + b, current) == Newer(a, current) + Newer(b, current)
    decreases |b|
  {
    if b == [] {
      assert a + b == a;
    } else {
      var b' := b[..|b| - 1];
      assert (a + b)[..|a + b| - 1] == a + b';
      NewerAppend(a, b', current);
    }
  }

  /** With no statement newer than `current`, nothing runs. */
  lemma {:induction false} NewerNone(stmts: seq<Statement>, current: int)
    requires forall k :: 0 <= k < |stmts| ==> stmts[k].block <= current
    ensures Newer(stmts, current) == []
  {
    if stmts != [] {
      NewerNone(stmts[..|stmts| - 1], current);
    }
  }

  /** With every statement newer than `current`, all of them run, in order. */
  lemma {:induction false} NewerAll(stmts: seq<Statement>, current: int)
    requires forall k :: 0 <= k < |stmts| ==> stmts[k].block > current
    ensures Newer(stmts, current) == Texts(stmts)
  {
    if stmts != [] {
      NewerAll(stmts[..|stmts| - 1], current);
    }
  }

  /**
   * The statements that run are a suffix of the completed statements:
   * those before position `k` belong to blocks at or below `current` and are
   * skipped, those from `k` on belong to newer blocks and all run, in
   * script order.
   */
  lemma NewerIsSuffix(stmts: seq<Statement>, current: int) returns (k: nat)
    requires BlocksSorted(stmts)
    ensures k <= |stmts|
    ensures forall j :: 0 <= j < k ==> stmts[j].block <= current
    ensures forall j :: k <= j < |stmts| ==> stmts[j].block > current
    ensures Newer(stmts, current) == Texts(stmts[k..])
  {
    k := 0;
    while k < |stmts| && stmts[k].block <= current
      invariant k <= |stmts|
      invariant forall j :: 0 <= j < k ==> stmts[j].block <= current
    {
      k := k + 1;
    }
    forall j | k <= j < |stmts|
      ensures stmts[j].block > current
    {
      assert stmts[k].block <= stmts[j].block;
    }
    NewerSplit(stmts, current, k);
  }

  /** Skipping every statement before `k` and running every one from `k` on runs the suffix from `k`. */
  lemma NewerSplit(stmts: seq<Statement>, current: int, k: nat)
    requires k <= |stmts|
    requires forall j :: 0 <= j < k ==> stmts[j].block <= current
    requires forall j :: k <= j < |stmts| ==> stmts[j].block > current
    ensures Newer(stmts, current) == Texts(stmts[k..])
  {
    var skipped, run := stmts[..k], stmts[k..];
    assert Newer(stmts, current) == Newer(skipped, current) + Newer(run, current) by {
      assert skipped + run == stmts;
      NewerAppend(skipped, run, current);
    }
    assert Newer(skipped, current) == [] by {
      NewerNone(skipped, current);
    }
    assert Newer(run, current) == Texts(run) by {
      forall j | 0 <= j < |run|
        ensures run[j].block > current
      {
        assert run[j] == stmts[k + j];
      }
      NewerAll(run, current);
    }
    assert [] + Texts(run) == Texts(run);
  }

  /**
   * A statement runs iff the block counter, when its terminating line is
   * read, is strictly greater than the stored version; the statements that
   * run are in script order and form a suffix of all completed statements.
   */
  lemma MigrateExecutesNewerSuffix(lines: seq<string>, current: int) returns (k: nat)
    ensures var s := Statements(lines, |lines|);
      && k <= |s|
      && (forall j :: 0 <= j < k ==> s[j].block <= current)
      && (forall j :: k <= j < |s| ==> s[j].block > current)
      && Migrate(lines, current).executed == Texts(s[k..])
  {
    StatementsSorted(lines, |lines|);
    k := NewerIsSuffix(Statements(lines, |lines|), current);
  }

  /**
   * The scanning loop's final block counter, the version written back, is
   * the number of marker lines, whatever the stored version was.
   */
  lemma ScanFinalBlock(lines: seq<string>, current: int, other: int)
    ensures ScanLines(lines, current, |lines|).block == ScanLines(lines, other, |lines|).block == Markers(lines)
  {
    ScanLinesMeaning(lines, current, |lines|);
    ScanLinesMeaning(lines, other, |lines|);
    assert lines[..|lines|] == lines;
  }

  lemma {:induction false} MarkersBound(lines: seq<string>)
    ensures Markers(lines) <= |lines|
  {
    if lines != [] {
      MarkersBound(lines[..|lines| - 1]);
    }
  }

  /** A store already at or past the script's block count runs nothing. */
  lemma MigrateUpToDate(lines: seq<string>, current: int)
    requires current >= Markers(lines)
    ensures Migrate(lines, current).executed == []
    ensures Migrate(lines, current).version == Markers(lines)
  {
    StatementsSorted(lines, |lines|);
    assert lines[..|lines|] == lines;
    NewerNone(Statements(lines, |lines|), current);
  }

  /** Migrating a store and then migrating it again with the same script runs nothing the second time. */
  lemma MigrateTwice(lines: seq<string>, current: int)
    ensures var v := Migrate(lines, current).version;
      Migrate(lines, v) == MigrationResult([], v)
  {
    MigrateUpToDate(lines, Markers(lines));
  }

  // ---------------------------------------------------------------------
  // The unterminated tail

  lemma {:induction false} EndsPrefix(a: seq<string>, b: seq<string>, n: nat)
    requires n <= |a|
    ensures Ends(a + b, n) == Ends(a, n)
  {
    if n > 0 {
      assert (a + b)[n - 1] == a[n - 1];
      EndsPrefix(a, b, n - 1);
    }
  }

  /** The statements completed within the first `n` lines depend on those lines only. */
  lemma StatementsPrefix(a: seq<string>, b: seq<string>, n: nat)
    requires n <= |a|
    ensures Statements(a + b, n) == Statements(a, n)
  {
    EndsPrefix(a, b, n);
    EndsSpec(a, n);
    var e := Ends(a, n);
    forall k | 0 <= k < |e|
      ensures StatementAt(a + b, e, k) == StatementAt(a, e, k)
    {
      assert (a + b)[..e[k] + 1] == a[..e[k] + 1];
      assert (a + b)[StartOf(e, k)..e[k] + 1] == a[StartOf(e, k)..e[k] + 1];
    }
  }

  /** Lines with no terminator complete no statement. */
  lemma {:induction false} EndsUnterminated(lines: seq<string>, i: nat, n: nat)
    requires i <= n <= |lines|
    requires forall j :: i <= j < n ==> !IsTerminated(lines[j])
    ensures Ends(lines, n) == Ends(lines, i)
    decreases n - i
  {
    if n > i {
      EndsUnterminated(lines, i, n - 1);
    }
  }

  /**
   * Text after the last terminated line is silently dropped: appending lines
   * that carry no terminator changes nothing that runs, and raises no error;
   * marker lines among them still count towards the version written back.
   */
  lemma UnterminatedTailDropped(lines: seq<string>, tail: seq<string>, current: int)
    requires forall j :: 0 <= j < |tail| ==> !IsTerminated(tail[j])
    ensures Migrate(lines + tail, current).executed == Migrate(lines, current).executed
    ensures Migrate(lines + tail, current).version == Markers(lines) + Markers(tail)
  {
    var all := lines + tail;
    EndsUnterminated(all, |lines|, |all|);
    StatementsPrefix(lines, tail, |lines|);
    MarkersAppend(lines, tail);
  }

  // ---------------------------------------------------------------------
  // Worked examples

  /** The version is overwritten, not maxed: a script with fewer blocks lowers it. */
  lemma VersionCanDecrease()
    ensures Migrate(["/** 1 */", "CREATE TABLE a (x INT);"], 2) == MigrationResult([], 1)
  {
    var lines := ["/** 1 */", "CREATE TABLE a (x INT);"];
    assert IsMarker(lines[0]) by { assert lines[0][..3] == BLOCK_MARKER; }
    assert !IsMarker(lines[1]) by { assert lines[1][0] != BLOCK_MARKER[0]; }
    assert Markers(lines) == 1 by {
      assert lines[..1][..0] == [];
    }
    MigrateUpToDate(lines, 2);
  }
}
