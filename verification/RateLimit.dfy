/** The rate limit of one writer (MyWriter.run of jmongoiibench): time passes
    between any two statements, and the writer pauses once it has inserted its
    share for a second. */
module RateLimit {
  import opened Common
  import opened Runs

  datatype Config = Config(maxPerSecond: int, docs: nat, rounds: nat, start: nat)

  datatype Pc = Head | Pausing | NewSecond | Inserting

  /** `seconds`: how often the writer has started a new second; `batches`,
      `lastBatches`: the same as the two counters of rows, in batches. */
  datatype State = State(now: nat, inserts: nat, lastInserts: nat, nextMs: nat, pc: Pc, round: nat,
                         seconds: nat, batches: nat, lastBatches: nat)

  datatype Label = Tick(ms: nat) | Go(taken: bool)

  function Init(c: Config): State {
    State(c.start, 0, 0, c.start + 1000, Head, 0, 0, 0, 0)
  }

  /** One statement of the loop; `taken` tells whether the insert succeeds. */
  function Step(c: Config, s: State, l: Label): Option<State> {
    match l
    case Tick(ms) => Some(s.(now := s.now + ms))
    case Go(taken) =>
      match s.pc
      case Head =>
        if s.round >= c.rounds then None
        else Some(s.(pc := if s.inserts - s.lastInserts >= c.maxPerSecond then Pausing else Inserting))
      case Pausing => Some(s.(pc := if s.now < s.nextMs then Pausing else NewSecond))
      case NewSecond =>
        Some(s.(lastInserts := s.inserts, lastBatches := s.batches, nextMs := s.now + 1000,
                pc := Inserting, seconds := s.seconds + 1))
      case Inserting =>
        var next := s.(pc := Head, round := s.round + 1);
        Some(if taken then next.(inserts := s.inserts + c.docs, batches := s.batches + 1) else next)
  }

  function Machine(c: Config): (State, Label) -> Option<State> {
    (s, l) => Step(c, s, l)
  }

  /** Batches a second: the check comes before a whole batch. */
  function PerSecond(c: Config): nat
    requires c.docs > 0
  {
    ((if c.maxPerSecond < 1 then 1 else c.maxPerSecond) + c.docs - 1) / c.docs
  }

  /** Seconds in which batches can have been inserted, ms after the start. A
      limit below one pauses before the first insert, and later lets one through
      at the beginning of each second. */
  function Seconds(c: Config, ms: nat): nat {
    ms / 1000 + FirstSecond(c)
  }

  function FirstSecond(c: Config): nat {
    if c.maxPerSecond < 1 then 0 else 1
  }

  /** The most batches inserted ms after the start. */
  function MostBatches(c: Config, ms: nat): nat
    requires c.docs > 0
  {
    Least(Seconds(c, ms) * PerSecond(c), c.rounds)
  }

  lemma PerSecondIs(c: Config, n: nat)
    requires c.docs > 0
    ensures PerSecond(c) >= 1
    ensures n * c.docs < c.maxPerSecond ==> n < PerSecond(c)
    ensures c.maxPerSecond >= 1 && n < PerSecond(c) ==> n * c.docs < c.maxPerSecond
    ensures c.maxPerSecond < 1 ==> PerSecond(c) == 1
    ensures PerSecond(c) * c.docs <= (if c.maxPerSecond < 1 then 1 else c.maxPerSecond) + c.docs - 1
  {
    var d, q := c.docs, PerSecond(c);
    var x := (if c.maxPerSecond < 1 then 1 else c.maxPerSecond) + d - 1;
    assert x == x / d * d + x % d;
    if q < 1 { MulMono(q, 0, d); }
    if c.maxPerSecond < 1 && q > 1 { MulMono(2, q, d); }
    if n >= q { MulMono(q, n, d); } else { MulMono(n + 1, q, d); }
    assert (n + 1) * d == n * d + d;
  }

  /** The counters of rows count whole batches. */
  predicate WholeBatches(c: Config, s: State) {
    s.inserts == s.batches * c.docs && s.lastInserts == s.lastBatches * c.docs && s.lastBatches <= s.batches
  }

  /** The batches of this second, of all seconds and of all rounds; the one
      about to be inserted is counted. */
  predicate WithinShare(c: Config, s: State)
    requires c.docs > 0
  {
    var n := s.batches + (if s.pc.Inserting? then 1 else 0);
    && n <= s.lastBatches + PerSecond(c)
    && n <= (s.seconds + FirstSecond(c)) * PerSecond(c)
    && (c.maxPerSecond >= 1 ==> s.lastBatches <= s.seconds * PerSecond(c))
    && s.batches <= s.round && s.round + (if s.pc.Head? then 0 else 1) <= c.rounds
  }

  predicate OnTime(c: Config, s: State) {
    && c.start + 1000 * (s.seconds + 1) <= s.nextMs
    && c.start + 1000 * s.seconds <= s.now
    && (s.pc.NewSecond? ==> s.nextMs <= s.now)
  }

  ghost predicate Inv(c: Config, s: State) {
    c.docs > 0 && WholeBatches(c, s) && WithinShare(c, s) && OnTime(c, s)
  }

  lemma StepKeepsWhole(c: Config, s: State, l: Label)
    requires WholeBatches(c, s) && Step(c, s, l).Some?
    ensures WholeBatches(c, Step(c, s, l).value)
  {
    assert (s.batches + 1) * c.docs == s.batches * c.docs + c.docs;
  }

  lemma StepKeepsShare(c: Config, s: State, l: Label)
    requires c.docs > 0 && WithinShare(c, s) && s.lastBatches <= s.batches && Step(c, s, l).Some?
    requires s.inserts - s.lastInserts < c.maxPerSecond ==> s.batches - s.lastBatches < PerSecond(c)
    requires c.maxPerSecond < 1 ==> s.inserts - s.lastInserts >= c.maxPerSecond
    requires PerSecond(c) >= 1
    ensures WithinShare(c, Step(c, s, l).value)
  {
    hide PerSecond;
    var q, n := PerSecond(c), s.seconds;
    assert (n + 1) * q == n * q + q && (n + 2) * q == n * q + q + q;
  }

  lemma StepKeepsInv(c: Config, s: State, l: Label)
    requires Inv(c, s) && Step(c, s, l).Some?
    ensures Inv(c, Step(c, s, l).value)
  {
    RoomInSecond(c, s);
    hide WholeBatches, WithinShare, PerSecond;
    StepKeepsWhole(c, s, l);
    StepKeepsShare(c, s, l);
  }

  lemma RoomInSecond(c: Config, s: State)
    requires c.docs > 0 && WholeBatches(c, s)
    ensures s.lastBatches <= s.batches && s.lastInserts <= s.inserts
    ensures s.inserts - s.lastInserts < c.maxPerSecond ==> s.batches - s.lastBatches < PerSecond(c)
    ensures c.maxPerSecond >= 1 && s.batches - s.lastBatches >= PerSecond(c) ==>
              s.inserts - s.lastInserts >= c.maxPerSecond
    ensures c.maxPerSecond < 1 ==> s.inserts - s.lastInserts >= c.maxPerSecond
    ensures PerSecond(c) >= 1
  {
    var n := s.batches - s.lastBatches;
    hide PerSecond;
    assert n * c.docs == s.batches * c.docs - s.lastBatches * c.docs;
    MulMono(0, n, c.docs);
    PerSecondIs(c, n);
  }

  ghost function Invariant(c: Config): State -> bool {
    s => Inv(c, s)
  }

  lemma ExecKeepsInv(c: Config, ls: seq<Label>)
    requires c.docs > 0 && Exec(Machine(c), Init(c), ls).Some?
    ensures Inv(c, Exec(Machine(c), Init(c), ls).value)
  {
    PerSecondIs(c, 0);
    assert (0 + FirstSecond(c)) * PerSecond(c) >= 0;
    forall s, l | Inv(c, s) && Step(c, s, l).Some? ensures Inv(c, Step(c, s, l).value) {
      StepKeepsInv(c, s, l);
    }
    ExecKeeps(Machine(c), Invariant(c), Init(c), ls);
  }

  /** Over a whole run, however long its pauses and whichever inserts fail: at
      most ceil(limit / batch) batches in every begun second, and no more than
      the writer's rounds. */
  lemma RateBound(c: Config, ls: seq<Label>)
    requires c.docs > 0 && Exec(Machine(c), Init(c), ls).Some?
    ensures var s := Exec(Machine(c), Init(c), ls).value;
            && s.now >= c.start
            && s.inserts <= MostBatches(c, s.now - c.start) * c.docs
            && s.inserts <= ((s.now - c.start) / 1000 + 1)
                            * ((if c.maxPerSecond < 1 then 1 else c.maxPerSecond) + c.docs - 1)
  {
    ExecKeepsInv(c, ls);
    var s := Exec(Machine(c), Init(c), ls).value;
    hide PerSecond;
    MulMono(s.seconds + FirstSecond(c), Seconds(c, s.now - c.start), PerSecond(c));
    MulMono(s.batches, MostBatches(c, s.now - c.start), c.docs);
    LimitAndBatch(c, s.now - c.start);
  }

  /** A batch less one over the limit, in every begun second. */
  lemma LimitAndBatch(c: Config, ms: nat)
    requires c.docs > 0
    ensures MostBatches(c, ms) * c.docs
         <= (ms / 1000 + 1) * ((if c.maxPerSecond < 1 then 1 else c.maxPerSecond) + c.docs - 1)
  {
    var most := (if c.maxPerSecond < 1 then 1 else c.maxPerSecond) + c.docs - 1;
    var q, n := PerSecond(c), ms / 1000 + 1;
    PerSecondIs(c, 0);
    hide PerSecond;
    MulMono(Seconds(c, ms), n, q);
    MulMono(MostBatches(c, ms), n * q, c.docs);
    assert (n * q) * c.docs == (q * c.docs) * n;
    MulMono(q * c.docs, most, n);
  }

  /** t comes after s: in the same second of the writer, in the next one, or at
      least 1000 ms later. */
  ghost predicate SoonAfter(c: Config, s: State, t: State)
    requires c.docs > 0
  {
    && s.now <= t.now
    && (|| t.lastBatches == s.lastBatches
        || (t.lastBatches <= s.lastBatches + PerSecond(c) && t.nextMs >= s.now + 1000)
        || t.now >= s.now + 1000)
  }

  lemma StepKeepsSoon(c: Config, s: State, t: State, l: Label)
    requires Inv(c, t) && SoonAfter(c, s, t) && Step(c, t, l).Some?
    ensures SoonAfter(c, s, Step(c, t, l).value)
  {
  }

  ghost function SoonState(c: Config, s: State): State -> bool
    requires c.docs > 0
  {
    (t: State) => Inv(c, t) && SoonAfter(c, s, t)
  }

  /** In any stretch of less than 1000 ms, wherever it begins, a writer inserts
      at most the batches of two seconds: a new second begins only 1000 ms after
      the last one. */
  lemma AnySecond(c: Config, s: State, ls: seq<Label>)
    requires c.docs > 0 && Inv(c, s) && Exec(Machine(c), s, ls).Some?
    ensures var t := Exec(Machine(c), s, ls).value;
            t.now < s.now + 1000 ==> t.batches <= s.batches + 2 * PerSecond(c)
                                     && t.inserts <= s.inserts + 2 * PerSecond(c) * c.docs
  {
    hide Inv, SoonAfter, Step;
    SoonStart(c, s);
    forall t, l | Inv(c, t) && SoonAfter(c, s, t) && Step(c, t, l).Some?
      ensures Inv(c, Step(c, t, l).value) && SoonAfter(c, s, Step(c, t, l).value)
    {
      StepKeepsInv(c, t, l);
      StepKeepsSoon(c, s, t, l);
    }
    ExecKeeps(Machine(c), SoonState(c, s), s, ls);
    var t := Exec(Machine(c), s, ls).value;
    if t.now < s.now + 1000 { SoonBound(c, s, t); }
  }

  lemma SoonStart(c: Config, s: State)
    requires c.docs > 0
    ensures SoonAfter(c, s, s)
  {
  }

  lemma SoonBound(c: Config, s: State, t: State)
    requires Inv(c, s) && Inv(c, t) && SoonAfter(c, s, t) && t.now < s.now + 1000
    ensures t.batches <= s.batches + 2 * PerSecond(c)
    ensures t.inserts <= s.inserts + 2 * PerSecond(c) * c.docs
  {
    hide PerSecond;
    assert t.batches <= s.batches + 2 * PerSecond(c);
    assert t.inserts == t.batches * c.docs && s.inserts == s.batches * c.docs;
    hide Inv, SoonAfter;
    RowsOf(t.batches, s.batches, 2 * PerSecond(c), c.docs);
  }

  lemma RowsOf(x: nat, y: nat, n: nat, d: nat)
    requires x <= y + n
    ensures x * d <= y * d + n * d
  {
    MulMono(x, y + n, d);
    assert (y + n) * d == y * d + n * d;
  }

  /** Inserts along a run, all of them and those that succeed. */
  function Tried(c: Config, s: State, ls: seq<Label>, all: bool): nat
    decreases |ls|
  {
    if ls == [] || Step(c, s, ls[0]).None? then 0
    else
      (if s.pc.Inserting? && ls[0].Go? && (all || ls[0].taken) then 1 else 0)
      + Tried(c, Step(c, s, ls[0]).value, ls[1..], all)
  }

  lemma OneTried(c: Config, s: State, l: Label)
    requires Step(c, s, l).Some?
    ensures var s1 := Step(c, s, l).value;
            var insert := s.pc.Inserting? && l.Go?;
            && s1.inserts == s.inserts + (if insert && l.taken then c.docs else 0)
            && s1.round == s.round + (if insert then 1 else 0)
  {
  }

  /** A failed insert uses up a round and counts no rows. */
  lemma {:induction false} InsertsTried(c: Config, s: State, ls: seq<Label>)
    requires Exec(Machine(c), s, ls).Some?
    ensures var t := Exec(Machine(c), s, ls).value;
            && t.inserts == s.inserts + Tried(c, s, ls, false) * c.docs
            && t.round == s.round + Tried(c, s, ls, true)
    decreases |ls|
  {
    if ls != [] {
      var s1 := Step(c, s, ls[0]).value;
      OneTried(c, s, ls[0]);
      hide Step;
      InsertsTried(c, s1, ls[1..]);
      var n := Tried(c, s1, ls[1..], false);
      assert (n + 1) * c.docs == n * c.docs + c.docs;
    }
  }

  // --------------------------------------------------------------------------
  // The bound is attained
  // --------------------------------------------------------------------------

  ghost predicate RunsTo(c: Config, s: State) {
    Leads(Machine(c), Init(c), s)
  }

  lemma StepsTo(c: Config, s: State, l: Label)
    requires RunsTo(c, s) && Step(c, s, l).Some?
    ensures RunsTo(c, Step(c, s, l).value)
  {
    LeadsTo(Machine(c), Init(c), s, l);
  }

  /** A writer that has inserted all it may in the first k + 1 seconds. */
  predicate Ahead(c: Config, s: State, k: nat)
    requires c.docs > 0
  {
    && s.pc.Head? && s.now == c.start + 1000 * k
    && WholeBatches(c, s)
    && s.batches == s.round == MostBatches(c, 1000 * k)
    && (s.round < c.rounds ==> s.nextMs == s.now + 1000)
    && (s.round < c.rounds && c.maxPerSecond >= 1 ==> s.batches == s.lastBatches + PerSecond(c))
  }

  /** n more batches in the running second. */
  lemma {:induction false} Batches(c: Config, s: State, n: nat) returns (t: State)
    requires c.docs > 0 && RunsTo(c, s) && s.pc.Head? && s.round + n <= c.rounds
    requires WholeBatches(c, s) && s.batches - s.lastBatches + n <= PerSecond(c)
    requires n > 0 ==> c.maxPerSecond >= 1
    ensures RunsTo(c, t)
    ensures t == s.(inserts := s.inserts + n * c.docs, batches := s.batches + n, round := s.round + n)
    ensures WholeBatches(c, t)
    decreases n
  {
    t := s;
    if n > 0 {
      var m := s.batches - s.lastBatches;
      assert m * c.docs == s.inserts - s.lastInserts;
      PerSecondIs(c, m);
      StepsTo(c, s, Go(true));
      var s1 := Step(c, s, Go(true)).value;
      StepsTo(c, s1, Go(true));
      var s2 := Step(c, s1, Go(true)).value;
      assert (s.batches + 1) * c.docs == s.batches * c.docs + c.docs;
      t := Batches(c, s2, n - 1);
      assert n * c.docs == (n - 1) * c.docs + c.docs;
    }
  }

  lemma FirstFull(c: Config) returns (t: State)
    requires c.docs > 0
    ensures RunsTo(c, t) && Ahead(c, t, 0)
  {
    LeadsStart(Machine(c), Init(c));
    PerSecondIs(c, 0);
    t := Init(c);
    if c.maxPerSecond >= 1 {
      assert Seconds(c, 0) * PerSecond(c) == PerSecond(c);
      t := Batches(c, t, Least(PerSecond(c), c.rounds));
    } else {
      assert Seconds(c, 0) * PerSecond(c) == 0;
    }
  }

  /** A writer ahead at its loop head waits out the second and starts the next one. */
  lemma Pause(c: Config, s: State) returns (t: State)
    requires RunsTo(c, s) && s.pc.Head? && s.nextMs == s.now + 1000 && s.round < c.rounds
    requires s.inserts - s.lastInserts >= c.maxPerSecond
    ensures RunsTo(c, t)
    ensures t == s.(now := s.now + 1000, nextMs := s.now + 2000, seconds := s.seconds + 1,
                    lastInserts := s.inserts, lastBatches := s.batches,
                    inserts := s.inserts + c.docs, batches := s.batches + 1, round := s.round + 1)
  {
    hide RunsTo;
    StepsTo(c, s, Go(true));
    t := s.(pc := Pausing);
    StepsTo(c, t, Tick(1000));
    t := Step(c, t, Tick(1000)).value;
    for i := 0 to 3
      invariant RunsTo(c, t)
      invariant i == 0 ==> t == s.(pc := Pausing, now := s.now + 1000)
      invariant i == 1 ==> t == s.(pc := NewSecond, now := s.now + 1000)
      invariant i == 2 ==> t == s.(pc := Inserting, now := s.now + 1000, nextMs := s.now + 2000,
                                   seconds := s.seconds + 1, lastInserts := s.inserts, lastBatches := s.batches)
      invariant i == 3 ==> t == s.(now := s.now + 1000, nextMs := s.now + 2000, seconds := s.seconds + 1,
                                   lastInserts := s.inserts, lastBatches := s.batches,
                                   inserts := s.inserts + c.docs, batches := s.batches + 1, round := s.round + 1)
    {
      StepsTo(c, t, Go(true));
      t := Step(c, t, Go(true)).value;
    }
  }

  lemma MostGrows(c: Config, k: nat)
    requires c.docs > 0
    ensures MostBatches(c, 1000 * k) < c.rounds ==>
              MostBatches(c, 1000 * (k + 1)) == Least(MostBatches(c, 1000 * k) + PerSecond(c), c.rounds)
    ensures MostBatches(c, 1000 * k) == c.rounds ==> MostBatches(c, 1000 * (k + 1)) == c.rounds
  {
    var q, n := PerSecond(c), k + FirstSecond(c);
    assert 1000 * k / 1000 == k && 1000 * (k + 1) / 1000 == k + 1;
    hide PerSecond;
    assert (n + 1) * q == n * q + q;
  }

  lemma PausedWhole(c: Config, s: State, t: State)
    requires WholeBatches(c, s) && t.lastInserts == s.inserts && t.lastBatches == s.batches
    requires t.inserts == s.inserts + c.docs && t.batches == s.batches + 1
    ensures WholeBatches(c, t)
  {
    assert t.batches * c.docs == s.batches * c.docs + c.docs;
  }

  lemma NextFull(c: Config, s: State, k: nat) returns (t: State)
    requires c.docs > 0 && RunsTo(c, s) && Ahead(c, s, k)
    ensures RunsTo(c, t) && Ahead(c, t, k + 1)
  {
    MostGrows(c, k);
    PerSecondIs(c, 0);
    RoomInSecond(c, s);
    hide RunsTo, WholeBatches, MostBatches, PerSecond;
    if s.round >= c.rounds {
      MostWithin(c, 1000 * k);
      StepsTo(c, s, Tick(1000));
      t := s.(now := s.now + 1000);
      SameBatches(c, s, t);
    } else {
      var u := Pause(c, s);
      PausedWhole(c, s, u);
      t := u;
      if c.maxPerSecond >= 1 {
        t := Batches(c, u, Least(PerSecond(c) - 1, c.rounds - u.round));
      }
    }
  }

  lemma MostWithin(c: Config, ms: nat)
    requires c.docs > 0
    ensures MostBatches(c, ms) <= c.rounds
  {
  }

  lemma SameBatches(c: Config, s: State, t: State)
    requires WholeBatches(c, s) && t == s.(now := t.now)
    ensures WholeBatches(c, t)
  {
  }

  lemma {:induction false} FullSeconds(c: Config, k: nat) returns (t: State)
    requires c.docs > 0
    ensures RunsTo(c, t) && Ahead(c, t, k)
  {
    if k == 0 {
      t := FirstFull(c);
    } else {
      var s := FullSeconds(c, k - 1);
      t := NextFull(c, s, k - 1);
    }
  }

  /** For every configuration and every time some run has inserted that many rows. */
  lemma RateAttained(c: Config, ms: nat) returns (t: State)
    requires c.docs > 0
    ensures RunsTo(c, t) && t.now == c.start + ms && t.inserts == MostBatches(c, ms) * c.docs
  {
    t := FullSeconds(c, ms / 1000);
    StepsTo(c, t, Tick(ms % 1000));
    t := Step(c, t, Tick(ms % 1000)).value;
  }
}
