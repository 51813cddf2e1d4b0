/** Whole TOML documents: which are accepted, and what is left of every line at the end. */
module TomlRuns {
  import opened Bytes
  import opened TomlKeys
  import opened TomlStore
  import opened TomlHeaders
  import opened TomlInline
  import opened TomlAccept

  /** A line of a document: an assignment in the current table, or a header. */
  datatype Line = AssignLine(key: Key, val: Inline) | SelectLine(path: seq<Key>, double: bool)

  function Apply(s: Store, line: Line, vt: seq<byte> -> nat): Option<Store> {
    match line
    case AssignLine(key, v) => Assign(s, s.cur, key, v, vt)
    case SelectLine(path, double) => Select(s, path, double)
  }

  /** One accepted line. */
  ghost predicate Leads(s: Store, line: Line, s': Store, vt: seq<byte> -> nat) {
    Apply(s, line, vt) == Some(s')
  }

  /** `tr` are the documents after no line, one line, two lines and so on, as far as it goes. */
  ghost predicate Trace(tr: seq<Store>, lines: seq<Line>, vt: seq<byte> -> nat) {
    && 0 < |tr| <= |lines| + 1 && tr[0] == INITIAL
    && forall k :: 0 <= k < |tr| - 1 ==> StepAt(tr, lines, k, vt)
  }

  ghost predicate StepAt(tr: seq<Store>, lines: seq<Line>, k: nat, vt: seq<byte> -> nat)
    requires k < |tr| - 1 && k < |lines|
  {
    Leads(tr[k], lines[k], tr[k + 1], vt)
  }

  /** The trace of the first `i` lines, which leaves `s`. */
  ghost predicate Traced(tr: seq<Store>, lines: seq<Line>, i: nat, s: Store, vt: seq<byte> -> nat) {
    |tr| == i + 1 && Trace(tr, lines, vt) && s == tr[i]
  }

  /** The trace up to a line that is refused. */
  ghost predicate Stopped(tr: seq<Store>, lines: seq<Line>, vt: seq<byte> -> nat) {
    Trace(tr, lines, vt) && |tr| <= |lines| && Apply(tr[|tr| - 1], lines[|tr| - 1], vt).None?
  }

  lemma TraceStarts(lines: seq<Line>, vt: seq<byte> -> nat)
    ensures Traced([INITIAL], lines, 0, INITIAL, vt)
  {
  }

  lemma TraceNext(tr: seq<Store>, lines: seq<Line>, s: Store, vt: seq<byte> -> nat)
    requires Trace(tr, lines, vt) && |tr| <= |lines| && Leads(tr[|tr| - 1], lines[|tr| - 1], s, vt)
    ensures Trace(tr + [s], lines, vt)
  {
    var tr' := tr + [s];
    forall k | 0 <= k < |tr'| - 1 ensures StepAt(tr', lines, k, vt) {
      if k < |tr| - 1 {
        SameStep(tr, tr', lines, k, vt);
      }
    }
  }

  lemma SameStep(tr: seq<Store>, tr': seq<Store>, lines: seq<Line>, k: nat, vt: seq<byte> -> nat)
    requires tr <= tr' && Trace(tr, lines, vt) && k < |tr| - 1
    ensures StepAt(tr', lines, k, vt)
  {
    assert StepAt(tr, lines, k, vt) && tr'[k] == tr[k] && tr'[k + 1] == tr[k + 1];
  }

  lemma InitialOk(vt: seq<byte> -> nat)
    ensures Ok(INITIAL, vt) && Keys(INITIAL, 0) == []
  {
    assert TabOk(INITIAL, 0);
  }

  // ---- One line --------------------------------------------------------------------------------------

  /** What a line leaves behind: an assignment is held by the current table, a header leads to it. */
  ghost predicate LineDone(s: Store, s': Store, line: Line) {
    match line
    case AssignLine(key, v) => s'.cur == s.cur && HoldsEntry(s', s.cur, key, v, false)
    case SelectLine(path, _) =>
      && Reach(s', 0, path) == Reaches(s'.cur)
      && s'.explicit == s.explicit + [s'.cur] && s'.cur !in s.explicit
      && forall i {:trigger T(s', i)} :: 0 <= i < |s.tabs| ==> T(s', i).kval == T(s, i).kval
  }

  lemma LineKeeps(s: Store, line: Line, s': Store, vt: seq<byte> -> nat)
    requires Ok(s, vt) && Leads(s, line, s', vt)
    ensures Ok(s', vt) && Extends(s, s') && LineDone(s, s', line)
  {
    match line
    case AssignLine(key, v) => AssignKeeps(s, s.cur, key, v, vt);
    case SelectLine(path, double) => SelectKeeps(s, path, double, vt);
  }

  /** Only a double-bracket header gives an array another last table, and only the array that it names. */
  ghost predicate Renews(s: Store, line: Line, b: nat) {
    line.SelectLine? && Appended(s, line.path, line.double, b)
  }

  /** A path that led to a table still does after any line, unless it crosses an array that the line renews. */
  lemma PathSurvives(s: Store, line: Line, s': Store, path: seq<Key>, vt: seq<byte> -> nat)
    requires Ok(s, vt) && Leads(s, line, s', vt) && Reach(s, 0, path).Reaches?
    requires forall b :: b in Crossed(s, 0, path) ==> !Renews(s, line, b)
    ensures Reach(s', 0, path) == Reach(s, 0, path) && Crossed(s', 0, path) == Crossed(s, 0, path)
  {
    LineKeeps(s, line, s', vt);
    CrossedShallow(s, 0, path, vt);
    match line
    case AssignLine(key, v) =>
      AssignKeeps(s, s.cur, key, v, vt);
      ReachKept(s, s', 0, path, vt);
    case SelectLine(p, double) =>
      SelectKeeps(s, p, double, vt);
      ReachKept(s, s', 0, path, vt);
  }

  /** Whether the tables as they are may take a line. */
  ghost predicate MayLoad(s: Store, line: Line, vt: seq<byte> -> nat) {
    match line
    case SelectLine(path, double) => CanSelect(s, path, double)
    case AssignLine(key, v) => Accepts(s, s.cur, key, v, vt)
  }

  /** A line is accepted if and only if the tables as they are may take it. */
  lemma AcceptedExactly(s: Store, line: Line, vt: seq<byte> -> nat)
    requires Ok(s, vt)
    ensures Apply(s, line, vt).Some? <==> MayLoad(s, line, vt)
  {
    match line
    case SelectLine(path, double) => SelectKeeps(s, path, double, vt);
    case AssignLine(key, v) => AssignExactly(s, s.cur, key, v, vt);
  }

  // ---- Every document --------------------------------------------------------------------------------

  /**
   * In every document the keys of each table are distinct, the arrays hold one kind and type, and
   * each table became explicit at most once.
   */
  lemma {:induction false} TraceOk(tr: seq<Store>, lines: seq<Line>, n: nat, vt: seq<byte> -> nat)
    requires Trace(tr, lines, vt) && n < |tr|
    ensures Ok(tr[n], vt)
  {
    if n == 0 {
      InitialOk(vt);
    } else {
      TraceOk(tr, lines, n - 1, vt);
      TraceStep(tr, lines, n - 1, vt);
    }
  }

  lemma TraceStep(tr: seq<Store>, lines: seq<Line>, k: nat, vt: seq<byte> -> nat)
    requires Trace(tr, lines, vt) && k < |tr| - 1 && Ok(tr[k], vt)
    ensures Ok(tr[k + 1], vt) && Extends(tr[k], tr[k + 1])
  {
    assert StepAt(tr, lines, k, vt);
    LineKeeps(tr[k], lines[k], tr[k + 1], vt);
  }

  /** Nothing that was there after the first `m` lines is gone after `n` lines. */
  lemma {:induction false} TraceGrows(tr: seq<Store>, lines: seq<Line>, m: nat, n: nat, vt: seq<byte> -> nat)
    requires Trace(tr, lines, vt) && m <= n < |tr|
    ensures Extends(tr[m], tr[n])
    decreases n
  {
    if m == n {
      ExtendsItself(tr[n]);
    } else {
      TraceGrows(tr, lines, m, n - 1, vt);
      TraceOk(tr, lines, n - 1, vt);
      TraceStep(tr, lines, n - 1, vt);
      ExtendsTwice(tr[m], tr[n - 1], tr[n]);
    }
  }

  lemma ExtendsItself(s: Store)
    ensures Extends(s, s)
  {
  }

  /**
   * Every assignment of a document is held at the end by the table that was current at its line,
   * and every header has led to the table that it made current.
   */
  lemma NothingIsLost(tr: seq<Store>, lines: seq<Line>, j: nat, n: nat, vt: seq<byte> -> nat)
    requires Trace(tr, lines, vt) && j < n < |tr|
    ensures LineDone(tr[j], tr[j + 1], lines[j])
    ensures lines[j].AssignLine? ==> HoldsEntry(tr[n], tr[j].cur, lines[j].key, lines[j].val, false)
  {
    TraceOk(tr, lines, j, vt);
    TraceOk(tr, lines, n, vt);
    TraceGrows(tr, lines, j + 1, n, vt);
    LineLastsAt(tr, lines, j, tr[n], vt);
  }

  lemma LineLastsAt(tr: seq<Store>, lines: seq<Line>, j: nat, s': Store, vt: seq<byte> -> nat)
    requires Trace(tr, lines, vt) && j < |tr| - 1 && Ok(tr[j], vt) && Ok(s', vt) && Extends(tr[j + 1], s')
    ensures LineDone(tr[j], tr[j + 1], lines[j])
    ensures lines[j].AssignLine? ==> HoldsEntry(s', tr[j].cur, lines[j].key, lines[j].val, false)
  {
    assert StepAt(tr, lines, j, vt);
    LineLasts(tr[j], lines[j], tr[j + 1], s', vt);
  }

  lemma LineLasts(s: Store, line: Line, s1: Store, s': Store, vt: seq<byte> -> nat)
    requires Ok(s, vt) && Leads(s, line, s1, vt) && Ok(s', vt) && Extends(s1, s')
    ensures LineDone(s, s1, line)
    ensures line.AssignLine? ==> HoldsEntry(s', s.cur, line.key, line.val, false)
  {
    LineKeeps(s, line, s1, vt);
    if line.AssignLine? {
      EntryGrows(s1, s', s.cur, line.key, line.val, vt);
    }
  }

  /** Where a path leads, and the arrays that it crosses on the way. */
  ghost predicate Points(s: Store, path: seq<Key>, n: nat, crossed: set<nat>) {
    Reach(s, 0, path) == Reaches(n) && Crossed(s, 0, path) == crossed
  }

  /** The line renews none of the arrays. */
  ghost predicate Calm(s: Store, line: Line, crossed: set<nat>) {
    forall b :: b in crossed ==> !Renews(s, line, b)
  }

  /** A path that leads to a table after `m` lines leads to it while no line renews an array that it crosses. */
  lemma {:induction false} PathLasts(
      tr: seq<Store>, lines: seq<Line>, m: nat, n: nat, path: seq<Key>, t: nat, crossed: set<nat>, vt: seq<byte> -> nat)
    requires Trace(tr, lines, vt) && m <= n < |tr| && Points(tr[m], path, t, crossed)
    requires forall k :: m <= k < n ==> Calm(tr[k], lines[k], crossed)
    ensures Points(tr[n], path, t, crossed)
    decreases n
  {
    if m < n {
      PathLasts(tr, lines, m, n - 1, path, t, crossed, vt);
      TraceOk(tr, lines, n - 1, vt);
      PointsNext(tr, lines, n - 1, path, t, crossed, vt);
    }
  }

  lemma PointsNext(
      tr: seq<Store>, lines: seq<Line>, k: nat, path: seq<Key>, t: nat, crossed: set<nat>, vt: seq<byte> -> nat)
    requires Trace(tr, lines, vt) && k < |tr| - 1 && Ok(tr[k], vt) && Points(tr[k], path, t, crossed)
    requires Calm(tr[k], lines[k], crossed)
    ensures Points(tr[k + 1], path, t, crossed)
  {
    assert StepAt(tr, lines, k, vt);
    PointsAfter(tr[k], lines[k], tr[k + 1], path, t, crossed, vt);
  }

  lemma PointsAfter(
      s: Store, line: Line, s': Store, path: seq<Key>, t: nat, crossed: set<nat>, vt: seq<byte> -> nat)
    requires Ok(s, vt) && Leads(s, line, s', vt) && Points(s, path, t, crossed)
    requires Calm(s, line, crossed)
    ensures Points(s', path, t, crossed)
  {
    PathSurvives(s, line, s', path, vt);
  }

  // ---- Accepted documents ------------------------------------------------------------------------------

  ghost predicate Accepted(lines: seq<Line>, vt: seq<byte> -> nat) {
    exists tr :: Trace(tr, lines, vt) && |tr| == |lines| + 1
  }

  /** The lines determine the documents. */
  lemma {:induction false} TraceUnique(tr: seq<Store>, tr': seq<Store>, lines: seq<Line>, n: nat,
      vt: seq<byte> -> nat)
    requires Trace(tr, lines, vt) && Trace(tr', lines, vt) && n < |tr| && n < |tr'|
    ensures tr[n] == tr'[n]
  {
    if n > 0 {
      TraceUnique(tr, tr', lines, n - 1, vt);
      assert StepAt(tr, lines, n - 1, vt) && StepAt(tr', lines, n - 1, vt);
    }
  }

  /** A line that is refused refuses the document. */
  lemma RefusedForGood(tr: seq<Store>, lines: seq<Line>, vt: seq<byte> -> nat)
    requires Trace(tr, lines, vt) && |tr| <= |lines| && Apply(tr[|tr| - 1], lines[|tr| - 1], vt).None?
    ensures !Accepted(lines, vt)
  {
    var n := |tr| - 1;
    forall tr' | Trace(tr', lines, vt) && |tr'| == |lines| + 1 ensures !StepAt(tr', lines, n, vt) {
      TraceUnique(tr, tr', lines, n, vt);
    }
  }

  /** Each line of a trace was one that the tables before it may take. */
  ghost predicate AllMayLoad(tr: seq<Store>, lines: seq<Line>, vt: seq<byte> -> nat)
    requires 0 < |tr| <= |lines| + 1
  {
    forall k {:trigger MayLoad(tr[k], lines[k], vt)} :: 0 <= k < |tr| - 1 ==> MayLoad(tr[k], lines[k], vt)
  }

  /** The last document of a trace holds every assignment in the table that was current at its line. */
  ghost predicate AllHeld(tr: seq<Store>, lines: seq<Line>)
    requires 0 < |tr| <= |lines| + 1
  {
    forall j :: 0 <= j < |tr| - 1 ==> HeldAt(tr, lines, j)
  }

  ghost predicate HeldAt(tr: seq<Store>, lines: seq<Line>, j: nat)
    requires j < |tr| - 1 && j < |lines|
  {
    lines[j].AssignLine? ==> HoldsEntry(tr[|tr| - 1], tr[j].cur, lines[j].key, lines[j].val, false)
  }

  lemma TraceLoads(tr: seq<Store>, lines: seq<Line>, vt: seq<byte> -> nat)
    requires Trace(tr, lines, vt)
    ensures AllMayLoad(tr, lines, vt)
  {
    forall k | 0 <= k < |tr| - 1 ensures MayLoad(tr[k], lines[k], vt) {
      TraceOk(tr, lines, k, vt);
      assert StepAt(tr, lines, k, vt);
      AcceptedExactly(tr[k], lines[k], vt);
    }
  }

  lemma TraceHolds(tr: seq<Store>, lines: seq<Line>, vt: seq<byte> -> nat)
    requires Trace(tr, lines, vt)
    ensures AllHeld(tr, lines)
  {
    forall j | 0 <= j < |tr| - 1 ensures HeldAt(tr, lines, j) {
      NothingIsLost(tr, lines, j, |tr| - 1, vt);
    }
  }

  lemma RefusedExactly(tr: seq<Store>, lines: seq<Line>, vt: seq<byte> -> nat)
    requires Trace(tr, lines, vt) && |tr| <= |lines|
    ensures Apply(tr[|tr| - 1], lines[|tr| - 1], vt).None? <==> !MayLoad(tr[|tr| - 1], lines[|tr| - 1], vt)
  {
    TraceOk(tr, lines, |tr| - 1, vt);
    AcceptedExactly(tr[|tr| - 1], lines[|tr| - 1], vt);
  }

  // ---- Documents without headers -----------------------------------------------------------------------

  /** The assignments of a document; a header stands for nothing here. */
  function EntriesOf(lines: seq<Line>): (v: Inline)
    ensures v.Entries? && |v.entries| == |lines|
    ensures forall i :: 0 <= i < |lines| && lines[i].AssignLine? ==> v.entries[i] == Entry(lines[i].key, lines[i].val)
  {
    Entries(seq(|lines|, i requires 0 <= i < |lines| =>
      match lines[i]
      case AssignLine(key, v) => Entry(key, v)
      case SelectLine(_, _) => Entry(NO_KEY, Raw([]))))
  }

  ghost predicate NoHeader(lines: seq<Line>) {
    forall i :: 0 <= i < |lines| ==> lines[i].AssignLine?
  }

  /** Without headers, the lines of a document are the entries of one inline table in the root. */
  lemma {:induction false} PlainTrace(tr: seq<Store>, lines: seq<Line>, n: nat, vt: seq<byte> -> nat)
    requires Trace(tr, lines, vt) && n < |tr| && NoHeader(lines)
    ensures FillTable(INITIAL, 0, EntriesOf(lines), n, vt) == Some(tr[n]) && tr[n].cur == 0
  {
    if n > 0 {
      PlainTrace(tr, lines, n - 1, vt);
      TraceOk(tr, lines, n - 1, vt);
      assert StepAt(tr, lines, n - 1, vt);
      LineKeeps(tr[n - 1], lines[n - 1], tr[n], vt);
      assert EntriesOf(lines).entries[n - 1] == Entry(lines[n - 1].key, lines[n - 1].val);
    }
  }

  lemma PlainHeld(v: Inline, n: nat, s: Store, vt: seq<byte> -> nat)
    requires v.Entries? && n <= |v.entries| && FillTable(INITIAL, 0, v, n, vt) == Some(s)
    ensures EntriesFit(v, n, vt) && (n == |v.entries| ==> HoldsTable(s, 0, v, true))
  {
    InitialOk(vt);
    NewTabFilled(INITIAL, 0, v);
    FillNewTable(INITIAL, 0, v, n, vt);
    if n == |v.entries| {
      FilledHolds(s, 0, v);
    }
  }

  lemma PlainRefused(v: Inline, n: nat, s: Store, vt: seq<byte> -> nat)
    requires v.Entries? && n < |v.entries| && FillTable(INITIAL, 0, v, n, vt) == Some(s)
    requires Assign(s, 0, v.entries[n].key, v.entries[n].val, vt).None?
    ensures !Loadable(v, vt)
  {
    FillRefused(v, n, s, vt);
    PlainFits(v, n + 1, vt);
    NotLoadable(v, n + 1, vt);
  }

  lemma PlainFits(v: Inline, n: nat, vt: seq<byte> -> nat)
    requires v.Entries? && n <= |v.entries|
    ensures FillTable(INITIAL, 0, v, n, vt).Some? <==> EntriesFit(v, n, vt)
  {
    InitialOk(vt);
    NewTabFilled(INITIAL, 0, v);
    FillNewTable(INITIAL, 0, v, n, vt);
  }

  lemma FillRefused(v: Inline, n: nat, s: Store, vt: seq<byte> -> nat)
    requires v.Entries? && n < |v.entries| && FillTable(INITIAL, 0, v, n, vt) == Some(s)
    requires Assign(s, 0, v.entries[n].key, v.entries[n].val, vt).None?
    ensures FillTable(INITIAL, 0, v, n + 1, vt).None?
  {
  }

  lemma NotLoadable(v: Inline, n: nat, vt: seq<byte> -> nat)
    requires v.Entries? && n <= |v.entries| && !EntriesFit(v, n, vt)
    ensures !Loadable(v, vt)
  {
  }

  /**
   * Without headers, a document is accepted exactly when it is loadable as one inline table, and
   * the root then holds its entries and nothing else.
   */
  lemma PlainExactly(tr: seq<Store>, lines: seq<Line>, vt: seq<byte> -> nat)
    requires Trace(tr, lines, vt) && NoHeader(lines)
    requires |tr| <= |lines| ==> Apply(tr[|tr| - 1], lines[|tr| - 1], vt).None?
    ensures |tr| == |lines| + 1 <==> Loadable(EntriesOf(lines), vt)
    ensures |tr| == |lines| + 1 ==> HoldsTable(tr[|lines|], 0, EntriesOf(lines), true)
  {
    var v, n := EntriesOf(lines), |tr| - 1;
    PlainTrace(tr, lines, n, vt);
    PlainHeld(v, n, tr[n], vt);
    if n < |lines| {
      assert v.entries[n] == Entry(lines[n].key, lines[n].val);
      PlainRefused(v, n, tr[n], vt);
    }
  }
}
