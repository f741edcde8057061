/** sysbench's multi-row INSERT buffer (db_bulk_insert_init, db_bulk_insert_next,
    db_bulk_do_insert, db_bulk_insert_done) over a fixed character array. */
module BulkInsert {
  import opened BulkSpec

  const BULK_PACKET_SIZE: nat := 512 * 1024
  const ROWS_BEFORE_COMMIT: nat := 1000

  /** Lengths and positions are C unsigned ints. */
  const UINT_RANGE: nat := 0x1_0000_0000

  ghost predicate NoNul(s: string) {
    forall i :: 0 <= i < |s| ==> s[i] != '\0'
  }

  /** The C string that starts a stretch of memory. */
  function CString(mem: string): string {
    if mem == [] || mem[0] == '\0' then [] else [mem[0]] + CString(mem[1..])
  }

  lemma {:induction false} CStringEnds(mem: string, n: nat)
    requires n < |mem| && NoNul(mem[..n]) && mem[n] == '\0'
    ensures CString(mem) == mem[..n]
  {
    if n > 0 {
      assert mem[0] == mem[..n][0];
      assert mem[1..][..n - 1] == mem[..n][1..];
      CStringEnds(mem[1..], n - 1);
    }
  }

  /** Rows with a comma between them. */
  function Join(rows: seq<string>): string {
    if rows == [] then ""
    else if |rows| == 1 then rows[0]
    else Join(rows[..|rows| - 1]) + "," + rows[|rows| - 1]
  }

  lemma JoinPush(rows: seq<string>, row: string)
    ensures Join(rows + [row]) == if rows == [] then row else Join(rows) + "," + row
  {
    assert (rows + [row])[..|rows|] == rows;
  }

  lemma {:induction false} JoinLength(rows: seq<string>)
    ensures rows != [] ==> |Join(rows)| + 1 == Width(rows)
  {
    if |rows| == 1 {
      assert rows == [rows[0]] && Width(rows[1..]) == 0;
    } else if |rows| > 1 {
      var front := rows[..|rows| - 1];
      var last := rows[|rows| - 1];
      JoinLength(front);
      assert rows == front + [last];
      WidthAppend(front, [last]);
      assert Width([last]) == |last| + 1;
    }
  }

  /** Where a row stands, and the comma behind it. */
  lemma {:induction false} JoinAt(rows: seq<string>, i: nat)
    requires i < |rows|
    ensures var at := Width(rows[..i]);
            && at + |rows[i]| <= |Join(rows)| && Join(rows)[at..at + |rows[i]|] == rows[i]
            && (i + 1 == |rows| ==> at + |rows[i]| == |Join(rows)|)
            && (i + 1 < |rows| ==> at + |rows[i]| < |Join(rows)| && Join(rows)[at + |rows[i]|] == ',')
  {
    var n := |rows| - 1;
    var front, last := rows[..n], rows[n];
    JoinLength(front);
    if i < n {
      JoinAt(front, i);
      assert front[..i] == rows[..i];
      if i + 1 == n { assert rows[..i] + [rows[i]] == front; WidthAppend(rows[..i], [rows[i]]); }
    }
  }

  /** The text of a statement. */
  function Text(prefix: string, rows: seq<string>): string {
    prefix + Join(rows)
  }

  lemma TextStartsWithPrefix(prefix: string, rows: seq<string>)
    ensures Text(prefix, rows)[..|prefix|] == prefix
    ensures NoNul(Text(prefix, rows)) ==> NoNul(prefix)
    ensures Text(prefix, []) == prefix && Width([]) == 0
  {
    assert forall i :: 0 <= i < |prefix| ==> prefix[i] == Text(prefix, rows)[i];
  }

  function StatementText(prefix: string, s: Statement): (string, bool) {
    if s.Insert? then (Text(prefix, s.rows), s.ok) else ("COMMIT", s.ok)
  }

  function Texts(prefix: string, log: seq<Statement>): seq<(string, bool)> {
    seq(|log|, i requires 0 <= i < |log| => StatementText(prefix, log[i]))
  }

  lemma TextsPush(prefix: string, log: seq<Statement>, s: Statement)
    ensures Texts(prefix, log + [s]) == Texts(prefix, log) + [StatementText(prefix, s)]
  {
  }

  method StrCpy(mem: array<char>, at: nat, s: string)
    requires at + |s| < mem.Length
    modifies mem
    ensures mem[..at + |s|] == old(mem[..at]) + s && mem[at + |s|] == '\0'
    ensures mem[at + |s| + 1..] == old(mem[at + |s| + 1..])
  {
    for i := 0 to |s|
      invariant forall k :: 0 <= k < at || at + |s| < k < mem.Length ==> mem[k] == old(mem[k])
      invariant forall k :: 0 <= k < i ==> mem[at + k] == s[k]
    {
      mem[at + i] := s[i];
    }
    mem[at + |s|] := '\0';
    assert mem[..at + |s|] == mem[..at] + mem[at..at + |s|];
  }

  lemma RowAppended(prefix: string, rows: seq<string>, row: string)
    ensures Text(prefix, rows + [row]) ==
            Text(prefix, rows) + (if rows == [] then "" else ",") + row
    ensures NoNul(Text(prefix, rows)) && NoNul(row) ==> NoNul(Text(prefix, rows + [row]))
    ensures Width(rows + [row]) == Width(rows) + |row| + 1
  {
    JoinPush(rows, row);
    WidthAppend(rows, [row]);
    assert Width([row]) == |row| + 1;
  }

  /** The test of db_bulk_insert_next, in unsigned ints, tells what it means to:
      the sum fits, or it does not and has not wrapped back into the buffer. */
  predicate TestHolds(sum: nat, buflen: nat) {
    sum <= buflen || sum % UINT_RANGE > buflen
  }

  lemma TestMeans(x: nat, len: nat, buflen: nat)
    requires buflen < UINT_RANGE && TestHolds(x + len, buflen)
    ensures (x + len % UINT_RANGE) % UINT_RANGE > buflen <==> x + len > buflen
  {
    assert (x + len % UINT_RANGE) % UINT_RANGE == (x + len) % UINT_RANGE;
  }

  class Connection {
    var buffer: array?<char>   // bulk_buffer
    var buflen: nat            // bulk_buflen
    var ptr: nat               // bulk_ptr
    var ptrOrig: nat           // bulk_ptr_orig
    var cnt: nat               // bulk_cnt
    var commitCnt: nat         // bulk_commit_cnt
    var commitMax: nat         // bulk_commit_max
    var sent: seq<(string, bool)> // what db_query was given since the last init, and whether it was taken
    ghost var state: Bulk

    /** The fields hold `state`; the buffer holds prefix and rows. */
    ghost predicate Holds()
      reads this, buffer
    {
      && buffer != null
      && buffer.Length == buflen == state.buflen <= BULK_PACKET_SIZE
      && Fits(state.prefix, state.rows, buflen)
      && ptrOrig == |state.prefix| && cnt == |state.rows|
      && commitCnt == state.commitCnt && commitMax == state.commitMax
      && ptr == |Text(state.prefix, state.rows)| < buflen
      && buffer[..ptr] == Text(state.prefix, state.rows)
      && NoNul(Text(state.prefix, state.rows))
      && sent == Texts(state.prefix, state.log)
    }

    /** Between calls the text in the buffer is terminated. */
    ghost predicate Valid()
      reads this, buffer
    {
      Holds() && buffer[ptr] == '\0'
    }

    /** The driver call; whether the driver takes the text comes from outside. */
    method DbQuery(text: string, taken: bool) returns (ok: bool)
      modifies this`sent
      ensures sent == old(sent) + [(text, taken)] && ok == taken
    {
      sent := sent + [(text, taken)];
      ok := taken;
    }

    constructor ()
      ensures fresh(this) && buffer == null
    {
      buffer := null;
      buflen, ptr, ptrOrig, cnt, commitCnt, commitMax := 0, 0, 0, 0, 0, 0;
      sent := [];
      state := Start("", 0, 0);
    }

    /** db_bulk_insert_init. `described`: there is a driver and it tells its capabilities. */
    method Init(query: string, described: bool, needsCommit: bool) returns (rc: int)
      requires NoNul(query)
      modifies this
      ensures rc == 0 <==> described && |query| + 1 <= BULK_PACKET_SIZE
      ensures rc == 0 ==> Valid() && fresh(buffer)
                          && state == Start(query, BULK_PACKET_SIZE, if needsCommit then ROWS_BEFORE_COMMIT else 0)
      ensures rc != 0 ==> rc == 1 && unchanged(this)
    {
      if !described || |query| + 1 > BULK_PACKET_SIZE {
        return 1;
      }
      buflen := BULK_PACKET_SIZE;
      var mem := new char[BULK_PACKET_SIZE];
      buffer := mem;
      commitMax := if needsCommit then ROWS_BEFORE_COMMIT else 0;
      commitCnt := 0;
      StrCpy(mem, 0, query);
      ptr := |query|;
      ptrOrig := |query|;
      cnt := 0;
      sent := [];
      state := Start(query, BULK_PACKET_SIZE, commitMax);
      assert mem[..|query|] == query;
      rc := 0;
    }

    /** db_bulk_do_insert. After a flush that goes through, position and count
        are set back but no terminator is written. */
    method DoInsert(last: bool, reply: Reply) returns (rc: int)
      requires Valid()
      modifies this
      ensures buffer == old(buffer) && buffer[..] == old(buffer[..])
      ensures (state, rc) == Flush(old(state), last, reply)
      ensures old(cnt) == 0 ==> sent == old(sent)
      ensures old(cnt) > 0 ==>
                && |sent| > |old(sent)| && sent[|old(sent)|] == (CString(old(buffer[..])), reply.insertOk)
                && forall i :: |old(sent)| < i < |sent| ==> sent[i] == ("COMMIT", reply.commitOk)
      ensures Holds() && (rc != 0 || old(cnt) == 0 ==> Valid())
    {
      hide CString, Width, Texts, Join, NoNul;
      if cnt == 0 {
        return 0;
      }
      CStringEnds(buffer[..], ptr);
      assert buffer[..][..ptr] == buffer[..ptr];
      TextStartsWithPrefix(state.prefix, state.rows);
      assert buffer[..ptr][..ptrOrig] == buffer[..ptrOrig];
      TextsPush(state.prefix, state.log, Insert(state.rows, reply.insertOk));
      var inserted := DbQuery(CString(buffer[..]), reply.insertOk);
      state := state.(log := state.log + [Insert(state.rows, reply.insertOk)]);
      if !inserted {
        return 1;
      }
      if commitMax != 0 {
        commitCnt := commitCnt + cnt;
        state := state.(commitCnt := commitCnt);
        if last || commitCnt >= commitMax {
          TextsPush(state.prefix, state.log, Commit(reply.commitOk));
          var committed := DbQuery("COMMIT", reply.commitOk);
          state := state.(log := state.log + [Commit(reply.commitOk)]);
          if !committed {
            return 1;
          }
          commitCnt := 0;
          state := state.(commitCnt := 0);
        }
      }
      ptr := ptrOrig;
      cnt := 0;
      state := state.(rows := []);
      rc := 0;
    }

    /** The last part of db_bulk_insert_next: copy the row, after a comma unless it is the first. */
    method CopyRow(row: string)
      requires Holds() && NoNul(row) && |state.prefix| + Width(state.rows) + |row| + 1 <= buflen
      modifies this, buffer
      ensures buffer == old(buffer) && Valid() && state == old(state).(rows := old(state).rows + [row])
      ensures buflen == old(buflen)
    {
      hide Width, NoNul, Texts;
      ghost var text := Text(state.prefix, state.rows);
      JoinLength(state.rows);
      RowAppended(state.prefix, state.rows, row);
      if cnt > 0 {
        buffer[ptr] := ',';
        assert buffer[..ptr + 1] == text + ",";
        StrCpy(buffer, ptr + 1, row);
      } else {
        StrCpy(buffer, ptr, row);
      }
      ptr := ptr + |row| + (if cnt > 0 then 1 else 0);
      cnt := cnt + 1;
      state := state.(rows := state.rows + [row]);
    }

    /** db_bulk_insert_next. A row of nearly 2^32 characters whose sum with the
        position wraps back under buflen would overrun the buffer. */
    method Next(row: string, reply: Reply) returns (rc: int)
      requires Valid() && NoNul(row) && Legal(state, row)
      requires TestHolds(ptr + 1 + (if cnt > 0 then 1 else 0) + |row|, buflen)
      modifies this, buffer
      ensures buffer == old(buffer) && Valid()
      ensures (state, rc) == BulkSpec.Next(old(state), row, reply)
    {
      hide NoNul, Texts, SentRows, TestHolds;
      var len := |row| % UINT_RANGE;
      var end := ptr + 1 + (if cnt > 0 then 1 else 0);
      TestMeans(end, |row|, buflen);
      JoinLength(state.rows);
      if (end + len) % UINT_RANGE > buflen {
        if cnt == 0 {
          return 1;
        }
        rc := DoInsert(false, reply);
        if rc != 0 {
          return 1;
        }
      }
      CopyRow(row);
      rc := 0;
    }

    /** db_bulk_insert_done. */
    method Done(reply: Reply)
      requires Valid()
      modifies this
      ensures buffer == null
      ensures sent == Texts(old(state).prefix, Flush(old(state), true, reply).0.log)
    {
      var rc := DoInsert(true, reply);
      buffer := null;
    }
  }
}
