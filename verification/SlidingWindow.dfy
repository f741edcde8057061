/** iibench's insert generator and statement executor: inserts and the deletes
    that keep the table at a bounded size, handed over through a queue of one
    place. The table is the set of its auto-increment ids. */
module SlidingWindow {
  import opened Common
  import opened Runs

  datatype Config = Config(rowsPerCommit: nat, maxRows: nat, maxTableRows: nat, withMax: bool) {
    /** One commit is not larger than the whole run. */
    ghost predicate Valid() { 0 < rowsPerCommit <= maxRows }
  }

  /** SQL statements: that many rows inserted; ids lo..hi-1 deleted. */
  datatype Statement = InsertRows(rows: nat) | DeleteRange(lo: nat, hi: nat)

  /** A queue entry. */
  datatype Entry = Execute(s: Statement) | InsertDone

  // --------------------------------------------------------------------------
  // The generator
  // --------------------------------------------------------------------------

  datatype Counters = Counters(inserted: nat, tableSize: int, tail: nat)

  /** One round of Insert: its statements, and the counters after it. */
  function Round(c: Config, p: Counters): (seq<Statement>, Counters) {
    var grown := Counters(p.inserted + c.rowsPerCommit, p.tableSize + c.rowsPerCommit, p.tail);
    var insert := InsertRows(Least(c.rowsPerCommit, c.maxRows));
    if c.withMax && grown.tableSize > c.maxTableRows then
      ([insert, DeleteRange(p.tail, p.tail + c.rowsPerCommit)],
       grown.(tableSize := grown.tableSize - c.rowsPerCommit, tail := p.tail + c.rowsPerCommit))
    else ([insert], grown)
  }

  /** The counters after r rounds. */
  function After(c: Config, r: nat): Counters {
    if r == 0 then Counters(0, 0, 0) else Round(c, After(c, r - 1)).1
  }

  /** The statements of the first r rounds. */
  function Stream(c: Config, r: nat): seq<Statement> {
    if r == 0 then [] else Stream(c, r - 1) + Round(c, After(c, r - 1)).0
  }

  function Entries(ss: seq<Statement>): seq<Entry> {
    seq(|ss|, i requires 0 <= i < |ss| => Execute(ss[i]))
  }

  /** Insert, up to reporting and rate limiting: what it puts into the queue. */
  method Insert(c: Config, rounds: nat) returns (queued: seq<Entry>)
    ensures queued == Entries(Stream(c, rounds)) + [InsertDone]
  {
    queued := [];
    var inserted: nat, tableSize: int, tail: nat := 0, 0, 0;
    for r := 0 to rounds
      invariant After(c, r) == Counters(inserted, tableSize, tail)
      invariant queued == Entries(Stream(c, r))
    {
      queued := queued + [Execute(InsertRows(Least(c.rowsPerCommit, c.maxRows)))];
      inserted := inserted + c.rowsPerCommit;
      tableSize := tableSize + c.rowsPerCommit;
      if c.withMax && tableSize > c.maxTableRows {
        queued := queued + [Execute(DeleteRange(tail, tail + c.rowsPerCommit))];
        tableSize := tableSize - c.rowsPerCommit;
        tail := tail + c.rowsPerCommit;
      }
    }
    queued := queued + [InsertDone];
  }

  /** The deletes among the statements. */
  function Deletes(ss: seq<Statement>): seq<(nat, nat)> {
    if ss == [] then []
    else Deletes(ss[..|ss| - 1]) + (if ss[|ss| - 1].DeleteRange? then [(ss[|ss| - 1].lo, ss[|ss| - 1].hi)] else [])
  }

  lemma {:induction false} DeletesAppend(ss: seq<Statement>, more: seq<Statement>)
    ensures Deletes(ss + more) == Deletes(ss) + Deletes(more)
  {
    if more == [] {
      assert ss + more == ss;
    } else {
      assert (ss + more)[..|ss + more| - 1] == ss + more[..|more| - 1];
      DeletesAppend(ss, more[..|more| - 1]);
    }
  }

  /** After every round: table_size is what was inserted minus what was deleted,
      and within the maximum; the deletes never pass the rows inserted, and once
      something was deleted one commit more would not fit. */
  lemma {:induction false} RoundsKeepWindow(c: Config, r: nat)
    ensures var p := After(c, r);
            && p.inserted == r * c.rowsPerCommit
            && p.tableSize == p.inserted - p.tail >= 0
            && (c.withMax ==> p.tableSize <= c.maxTableRows)
            && (!c.withMax ==> p.tail == 0)
            && (p.tail > 0 ==> p.tableSize + c.rowsPerCommit > c.maxTableRows)
  {
    if r > 0 {
      RoundsKeepWindow(c, r - 1);
      assert r * c.rowsPerCommit == (r - 1) * c.rowsPerCommit + c.rowsPerCommit;
    }
  }

  lemma StreamStep(c: Config, r: nat)
    requires r > 0
    ensures Stream(c, r) == Stream(c, r - 1) + Round(c, After(c, r - 1)).0
    ensures After(c, r) == Round(c, After(c, r - 1)).1
  {
  }

  /** A round is an insert, or an insert and a delete. */
  lemma RoundShape(c: Config, p: Counters)
    requires c.Valid()
    ensures var (ss, q) := Round(c, p);
            && q.inserted == p.inserted + c.rowsPerCommit
            && (if q.tail == p.tail then ss == [InsertRows(c.rowsPerCommit)]
                else q.tail == p.tail + c.rowsPerCommit
                     && ss == [InsertRows(c.rowsPerCommit)] + [DeleteRange(p.tail, q.tail)])
  {
  }

  /** What one round deletes. */
  lemma RoundDeletes(c: Config, p: Counters)
    ensures var (ss, q) := Round(c, p);
            if q.tail == p.tail + c.rowsPerCommit && |ss| == 2
            then Deletes(ss) == [(p.tail, p.tail + c.rowsPerCommit)]
            else Deletes(ss) == [] && q.tail == p.tail
  {
    var ss := Round(c, p).0;
    assert Deletes([ss[0]]) == Deletes([ss[0]][..0]) + [];
    if |ss| == 2 {
      assert ss[..1] == [ss[0]];
    }
  }

  /** The ranges tile [0, tail) in steps of d. */
  ghost predicate Tile(ds: seq<(nat, nat)>, d: nat, tail: nat) {
    && tail == |ds| * d
    && forall k :: 0 <= k < |ds| ==> ds[k].0 == k * d && ds[k].1 == ds[k].0 + d
  }

  lemma TilePush(ds: seq<(nat, nat)>, d: nat, tail: nat)
    requires Tile(ds, d, tail)
    ensures Tile(ds + [(tail, tail + d)], d, tail + d)
  {
    TimesStep(|ds|, d);
  }

  /** The delete ranges of all rounds tile [0, tail). */
  lemma {:induction false} DeletesTile(c: Config, r: nat)
    ensures Tile(Deletes(Stream(c, r)), c.rowsPerCommit, After(c, r).tail)
  {
    if r == 0 {
      NothingYet(c);
    } else {
      hide Deletes, Round, Stream, After, Tile;
      DeletesTile(c, r - 1);
      StreamStep(c, r);
      var p := After(c, r - 1);
      RoundDeletes(c, p);
      var before := Deletes(Stream(c, r - 1));
      DeletesAppend(Stream(c, r - 1), Round(c, p).0);
      TilePush(before, c.rowsPerCommit, p.tail);
      assert before + [] == before;
    }
  }

  lemma TimesStep(n: nat, d: nat)
    ensures (n + 1) * d == n * d + d
  {
  }

  // --------------------------------------------------------------------------
  // The table
  // --------------------------------------------------------------------------

  datatype Table = Table(nextId: nat, ids: set<nat>)

  const EmptyTable := Table(1, {})

  function Apply(t: Table, s: Statement): Table {
    match s
    case InsertRows(n) => Table(t.nextId + n, t.ids + Range(t.nextId, t.nextId + n))
    case DeleteRange(lo, hi) => t.(ids := t.ids - Range(lo, hi))
  }

  function Replay(ss: seq<Statement>): Table {
    if ss == [] then EmptyTable else Apply(Replay(ss[..|ss| - 1]), ss[|ss| - 1])
  }

  /** The table holds the ids from max(1, tail) to `inserted`. */
  predicate Holds(t: Table, tail: nat, inserted: nat) {
    t.nextId == inserted + 1 && t.ids == Range(if tail > 1 then tail else 1, inserted + 1)
  }

  lemma ReplayPush(ss: seq<Statement>, s: Statement)
    ensures Replay(ss + [s]) == Apply(Replay(ss), s)
  {
    assert (ss + [s])[..|ss|] == ss;
  }

  lemma ApplyInsert(t: Table, tail: nat, inserted: nat, n: nat)
    requires Holds(t, tail, inserted) && tail <= inserted
    ensures Holds(Apply(t, InsertRows(n)), tail, inserted + n)
  {
  }

  lemma ApplyDelete(t: Table, tail: nat, inserted: nat, n: nat)
    requires Holds(t, tail, inserted) && tail + n <= inserted
    ensures Holds(Apply(t, DeleteRange(tail, tail + n)), tail + n, inserted)
  {
  }

  lemma NothingYet(c: Config)
    ensures Stream(c, 0) == [] && After(c, 0) == Counters(0, 0, 0) && Holds(Replay([]), 0, 0)
  {
  }

  lemma {:induction false} ReplayRounds(c: Config, r: nat)
    requires c.Valid()
    ensures Holds(Replay(Stream(c, r)), After(c, r).tail, After(c, r).inserted)
  {
    hide Holds, Apply, Round, Stream, After, Replay;
    if r == 0 {
      NothingYet(c);
    } else {
      ReplayRounds(c, r - 1);
      RoundsKeepWindow(c, r - 1);
      RoundsKeepWindow(c, r);
      StreamStep(c, r);
      var p := After(c, r - 1);
      RoundShape(c, p);
      var before := Stream(c, r - 1);
      var insert := InsertRows(c.rowsPerCommit);
      ReplayPush(before, insert);
      ApplyInsert(Replay(before), p.tail, p.inserted, c.rowsPerCommit);
      if After(c, r).tail != p.tail {
        var delete := DeleteRange(p.tail, p.tail + c.rowsPerCommit);
        assert before + ([insert] + [delete]) == (before + [insert]) + [delete];
        ReplayPush(before + [insert], delete);
        ApplyDelete(Replay(before + [insert]), p.tail, p.inserted + c.rowsPerCommit, c.rowsPerCommit);
      }
    }
  }

  /** After r rounds the table holds exactly the ids max(1, tail)..inserted. The
      ids start at 1 and the deletes at 0, so from the first delete on the table
      has one row more than table_size says: at most max_table_rows + 1. */
  lemma WindowLeft(c: Config, r: nat)
    requires c.Valid()
    ensures var p := After(c, r);
            var t := Replay(Stream(c, r));
            && Holds(t, p.tail, p.inserted)
            && |t.ids| == p.tableSize + (if p.tail > 0 then 1 else 0)
            && (c.withMax ==> |t.ids| <= c.maxTableRows + 1)
  {
    ReplayRounds(c, r);
    RoundsKeepWindow(c, r);
  }

  lemma RoundIds(c: Config, p: Counters, before: seq<Statement>)
    ensures Replay(before + Round(c, p).0).nextId == Replay(before).nextId + Least(c.rowsPerCommit, c.maxRows)
  {
    var ss := Round(c, p).0;
    var insert := InsertRows(Least(c.rowsPerCommit, c.maxRows));
    hide Replay;
    ReplayPush(before, insert);
    if |ss| == 2 {
      ReplayPush(before + [insert], ss[1]);
      assert before + ss == before + [insert] + [ss[1]];
    } else {
      assert before + ss == before + [insert];
    }
  }

  /** The next id counts the rows really inserted: never more than max_rows a round. */
  lemma {:induction false} NextIdCounts(c: Config, r: nat)
    ensures Replay(Stream(c, r)).nextId == r * Least(c.rowsPerCommit, c.maxRows) + 1
  {
    hide Stream, Round, Replay, Least, After;
    if r > 0 {
      NextIdCounts(c, r - 1);
      StreamStep(c, r);
      RoundIds(c, After(c, r - 1), Stream(c, r - 1));
      TimesStep(r - 1, Least(c.rowsPerCommit, c.maxRows));
    } else {
      EmptyIds(c);
    }
  }

  lemma EmptyIds(c: Config)
    ensures Replay(Stream(c, 0)).nextId == 1
  {
  }

  /** The table is the window the counters describe exactly when a commit is
      not larger than the whole run: the counters always move by rows_per_commit. */
  lemma WindowIff(c: Config, r: nat)
    requires c.rowsPerCommit > 0 && r > 0
    ensures Holds(Replay(Stream(c, r)), After(c, r).tail, After(c, r).inserted)
       <==> c.rowsPerCommit <= c.maxRows
  {
    hide Stream, After, Replay;
    if c.rowsPerCommit <= c.maxRows {
      ReplayRounds(c, r);
    } else {
      NextIdCounts(c, r);
      RoundsKeepWindow(c, r);
      Apart(c.maxRows, c.rowsPerCommit, r);
    }
  }

  lemma Apart(m: nat, n: nat, r: nat)
    requires m < n && r > 0
    ensures r * m < r * n
  {
  }

  // --------------------------------------------------------------------------
  // Hand-over through the queue
  // --------------------------------------------------------------------------

  /** `put`: entries the generator has put; `queue`: what is in the queue;
      `held`: the statement the executor has got but not executed;
      `done`: statements the executor has executed and committed. */
  datatype State = State(put: nat, queue: seq<Entry>, held: Option<Statement>, done: seq<Statement>,
                         table: Table, stopped: bool)

  datatype Label = Put | Get | Run

  /** The queue's place is free again as soon as the executor has got the entry. */
  function Step(entries: seq<Entry>, s: State, l: Label): Option<State> {
    match l
    case Put =>
      if s.put < |entries| && |s.queue| < 1 then
        Some(s.(put := s.put + 1, queue := s.queue + [entries[s.put]]))
      else None
    case Get =>
      if s.stopped || s.held.Some? || s.queue == [] then None
      else if s.queue[0].InsertDone? then Some(s.(queue := s.queue[1..], stopped := true))
      else Some(s.(queue := s.queue[1..], held := Some(s.queue[0].s)))
    case Run =>
      match s.held
      case None => None
      case Some(st) => Some(s.(held := None, done := s.done + [st], table := Apply(s.table, st)))
  }

  const InitState := State(0, [], None, [], EmptyTable, false)

  function Machine(entries: seq<Entry>): (State, Label) -> Option<State> {
    (s, l) => Step(entries, s, l)
  }

  /** Entries got but not executed. */
  function Held(s: State): nat {
    if s.held.Some? then 1 else 0
  }

  /** The executor has executed a prefix; it holds what follows, and the queue
      what follows that. */
  ghost predicate Inv(ss: seq<Statement>, s: State) {
    var entries := Entries(ss) + [InsertDone];
    && s.put <= |entries|
    && |s.done| <= |ss| && s.done == ss[..|s.done|]
    && s.table == Replay(s.done)
    && |s.queue| <= 1
    && (s.held.Some? ==> |s.done| < |ss| && s.held.value == ss[|s.done|])
    && (if s.stopped then s.done == ss && s.held.None? && s.queue == [] && s.put == |entries|
        else |s.done| + Held(s) + |s.queue| == s.put && s.queue == entries[|s.done| + Held(s)..s.put])
  }

  /** What the executor gets next. */
  lemma NextEntry(ss: seq<Statement>, s: State)
    requires Inv(ss, s) && !s.stopped && s.held.None? && s.queue != []
    ensures |s.done| == |ss| ==> s.queue == [InsertDone] && s.put == |ss| + 1
    ensures |s.done| < |ss| ==> s.queue == [Execute(ss[|s.done|])] && s.put == |s.done| + 1
  {
    assert s.queue[0] == (Entries(ss) + [InsertDone])[|s.done|];
  }

  lemma OneEntry(entries: seq<Entry>, i: nat)
    requires i < |entries|
    ensures entries[i..i + 1] == [entries[i]]
  {
  }

  lemma StepKeepsInv(ss: seq<Statement>, s: State, l: Label)
    requires Inv(ss, s) && Step(Entries(ss) + [InsertDone], s, l).Some?
    ensures Inv(ss, Step(Entries(ss) + [InsertDone], s, l).value)
  {
    hide Replay, Apply;
    var entries, a := Entries(ss) + [InsertDone], |s.done| + Held(s);
    match l {
      case Put =>
        assert !s.stopped && s.queue == [] && a == s.put;
        PutStep(entries, s);
        OneEntry(entries, s.put);
      case Get => NextEntry(ss, s);
      case Run =>
        assert ss[..|s.done| + 1] == s.done + [ss[|s.done|]];
        ReplayPush(s.done, ss[|s.done|]);
    }
  }

  ghost function Invariant(ss: seq<Statement>): State -> bool {
    s => Inv(ss, s)
  }

  lemma ExecKeepsInv(ss: seq<Statement>, s: State, ls: seq<Label>)
    requires Inv(ss, s) && Exec(Machine(Entries(ss) + [InsertDone]), s, ls).Some?
    ensures Inv(ss, Exec(Machine(Entries(ss) + [InsertDone]), s, ls).value)
  {
    hide Inv, Step;
    forall s, l | Inv(ss, s) && Step(Entries(ss) + [InsertDone], s, l).Some?
      ensures Inv(ss, Step(Entries(ss) + [InsertDone], s, l).value)
    {
      StepKeepsInv(ss, s, l);
    }
    ExecKeeps(Machine(Entries(ss) + [InsertDone]), Invariant(ss), s, ls);
  }

  /** However generator and executor interleave, the executor is at most two
      statements behind, one it holds and one in the queue, the table is that of
      a prefix of the stream, and when the executor stops it has left exactly
      the window. */
  lemma HandOver(c: Config, rounds: nat, ls: seq<Label>)
    requires c.Valid() && Exec(Machine(Entries(Stream(c, rounds)) + [InsertDone]), InitState, ls).Some?
    ensures var ss := Stream(c, rounds);
            var s := Exec(Machine(Entries(ss) + [InsertDone]), InitState, ls).value;
            && |s.done| <= |ss| && s.done == ss[..|s.done|] && s.table == Replay(s.done)
            && (!s.stopped ==> |s.done| <= s.put <= |s.done| + 2)
            && (s.stopped ==> Holds(s.table, After(c, rounds).tail, After(c, rounds).inserted))
  {
    ExecKeepsInv(Stream(c, rounds), InitState, ls);
    ReplayRounds(c, rounds);
  }

  /** Steps left to generator and executor. */
  function Left(ss: seq<Statement>, s: State): int {
    3 * (|ss| + 1 - s.put) + 2 * |s.queue| + Held(s)
  }

  /** Nobody waits for ever: until the executor stops some step is possible, and
      every step leaves fewer, so every run ends with everything executed. */
  lemma HandOverEnds(ss: seq<Statement>, s: State)
    requires Inv(ss, s)
    ensures Left(ss, s) >= 0
    ensures !s.stopped ==> exists l :: Step(Entries(ss) + [InsertDone], s, l).Some?
    ensures forall l :: Step(Entries(ss) + [InsertDone], s, l).Some? ==>
              Left(ss, Step(Entries(ss) + [InsertDone], s, l).value) < Left(ss, s)
  {
    var entries := Entries(ss) + [InsertDone];
    if !s.stopped {
      if s.held.Some? {
        assert Step(entries, s, Run).Some?;
      } else if s.queue != [] {
        NextEntry(ss, s);
        assert Step(entries, s, Get).Some?;
      } else {
        assert Step(entries, s, Put).Some?;
      }
    }
  }

  /** k statements executed, the next one held, and one more entry in the queue. */
  ghost function TwoAhead(ss: seq<Statement>, k: nat): State
    requires k < |ss|
  {
    State(k + 2, [(Entries(ss) + [InsertDone])[k + 1]], Some(ss[k]), ss[..k], Replay(ss[..k]), false)
  }

  lemma PutStep(entries: seq<Entry>, s: State)
    requires s.queue == [] && s.put < |entries|
    ensures Step(entries, s, Put) == Some(s.(put := s.put + 1, queue := [entries[s.put]]))
  {
    assert [] + [entries[s.put]] == [entries[s.put]];
  }

  lemma GetStep(entries: seq<Entry>, s: State, st: Statement)
    requires s.queue == [Execute(st)] && s.held.None? && !s.stopped
    ensures Step(entries, s, Get) == Some(s.(queue := [], held := Some(st)))
  {
    assert s.queue[1..] == [];
  }

  lemma RunGetPut(ss: seq<Statement>, k: nat)
    requires 0 < k < |ss|
    ensures Exec(Machine(Entries(ss) + [InsertDone]), TwoAhead(ss, k - 1), [Run] + ([Get] + ([Put] + [])))
         == Some(TwoAhead(ss, k))
  {
    var entries := Entries(ss) + [InsertDone];
    assert ss[..k] == ss[..k - 1] + [ss[k - 1]];
    ReplayPush(ss[..k - 1], ss[k - 1]);
    assert entries[k] == Execute(ss[k]);
    var s := TwoAhead(ss, k - 1);
    var s1 := s.(held := None, done := ss[..k], table := Replay(ss[..k]));
    var s2 := s1.(queue := [], held := Some(ss[k]));
    assert Step(entries, s, Run) == Some(s1) by { hide Replay, Apply; }
    hide Replay, Apply, Step;
    GetStep(entries, s1, ss[k]);
    PutStep(entries, s2);
    RunThree(entries, s, s1, s2, TwoAhead(ss, k), Run, Get, Put);
  }

  lemma RunThree(entries: seq<Entry>, s: State, s1: State, s2: State, s3: State, a: Label, b: Label, d: Label)
    requires Step(entries, s, a) == Some(s1) && Step(entries, s1, b) == Some(s2) && Step(entries, s2, d) == Some(s3)
    ensures Exec(Machine(entries), s, [a] + ([b] + ([d] + []))) == Some(s3)
  {
    hide Step;
    var m := Machine(entries);
    assert ([d] + [])[1..] == [] && ([b] + ([d] + []))[1..] == [d] + [];
    assert ([a] + ([b] + ([d] + [])))[1..] == [b] + ([d] + []);
    assert Exec(m, s3, []) == Some(s3);
    assert Exec(m, s2, [d] + []) == Some(s3);
    assert Exec(m, s1, [b] + ([d] + [])) == Some(s3);
  }

  lemma PutGetPut(ss: seq<Statement>)
    requires ss != []
    ensures Exec(Machine(Entries(ss) + [InsertDone]), InitState, [Put] + ([Get] + ([Put] + [])))
         == Some(TwoAhead(ss, 0))
  {
    var entries := Entries(ss) + [InsertDone];
    assert entries[0] == Execute(ss[0]) && ss[..0] == [] && Replay([]) == EmptyTable;
    hide Replay, Apply, Step;
    var s1 := InitState.(put := 1, queue := [entries[0]]);
    var s2 := s1.(queue := [], held := Some(ss[0]));
    PutStep(entries, InitState);
    GetStep(entries, s1, ss[0]);
    PutStep(entries, s2);
    RunThree(entries, InitState, s1, s2, TwoAhead(ss, 0), Put, Get, Put);
  }

  /** Two behind is attained, after any number of executed statements. */
  lemma {:induction false} TwoBehind(ss: seq<Statement>, k: nat)
    requires k < |ss|
    ensures Leads(Machine(Entries(ss) + [InsertDone]), InitState, TwoAhead(ss, k))
  {
    var m := Machine(Entries(ss) + [InsertDone]);
    hide TwoAhead;
    if k == 0 {
      PutGetPut(ss);
    } else {
      TwoBehind(ss, k - 1);
      RunGetPut(ss, k);
      LeadsOn(m, InitState, TwoAhead(ss, k - 1), TwoAhead(ss, k), [Run] + ([Get] + ([Put] + [])));
    }
  }

  /** At every point of every interleaving the table is one interval of ids, of
      at most max_table_rows + rows_per_commit + 1 rows. */
  lemma {:induction false} PrefixHolds(c: Config, r: nat, n: nat) returns (tail: nat, inserted: nat)
    requires c.Valid() && n <= |Stream(c, r)|
    ensures Holds(Replay(Stream(c, r)[..n]), tail, inserted) && tail <= inserted
    ensures c.withMax ==> inserted - tail <= c.maxTableRows + c.rowsPerCommit
  {
    hide Holds, Apply, Round, Stream, After, Replay;
    if r == 0 {
      NothingYet(c);
      assert Stream(c, r)[..n] == [];
      tail, inserted := 0, 0;
    } else {
      StreamStep(c, r);
      RoundsKeepWindow(c, r - 1);
      RoundsKeepWindow(c, r);
      ReplayRounds(c, r - 1);
      ReplayRounds(c, r);
      var p := After(c, r - 1);
      RoundShape(c, p);
      var before := Stream(c, r - 1);
      var insert := InsertRows(c.rowsPerCommit);
      if n <= |before| {
        tail, inserted := PrefixHolds(c, r - 1, n);
        assert Stream(c, r)[..n] == before[..n];
      } else if n == |Stream(c, r)| {
        assert Stream(c, r)[..n] == Stream(c, r);
        tail, inserted := After(c, r).tail, After(c, r).inserted;
      } else {
        assert Stream(c, r)[..n] == before + [insert];
        ReplayPush(before, insert);
        ApplyInsert(Replay(before), p.tail, p.inserted, c.rowsPerCommit);
        tail, inserted := p.tail, p.inserted + c.rowsPerCommit;
      }
    }
  }
}
