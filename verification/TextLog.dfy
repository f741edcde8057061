/** The text log handler (text_handler_process): a message equal to the last one
    is only counted, and the count is printed when a different one comes. */
module TextLog {

  /** TEXT_BUFFER_SIZE, of which one character is the terminator. */
  const TEXT_BUFFER_SIZE: nat := 4096

  datatype Message = Message(priority: nat, text: string, allowDuplicates: bool)

  /** What printf writes. */
  datatype Printed = Line(priority: nat, text: string) | Repeated(n: nat)

  function Copies(text: string, n: nat): seq<string> {
    if n == 0 then [] else Copies(text, n - 1) + [text]
  }

  /** The texts a log stands for, when `last` is the message before it. */
  function Expand(log: seq<Printed>, last: string): seq<string> {
    if log == [] then []
    else match log[0]
      case Line(_, text) => [text] + Expand(log[1..], text)
      case Repeated(n) => Copies(last, n) + Expand(log[1..], last)
  }

  /** The message a reader of the log takes for the last one. */
  function LastLine(log: seq<Printed>, last: string): string {
    if log == [] then last
    else LastLine(log[1..], if log[0].Line? then log[0].text else last)
  }

  lemma {:induction false} ExpandAppend(log: seq<Printed>, more: seq<Printed>, last: string)
    ensures Expand(log + more, last) == Expand(log, last) + Expand(more, LastLine(log, last))
    ensures LastLine(log + more, last) == LastLine(more, LastLine(log, last))
  {
    if log == [] {
      assert log + more == more;
    } else {
      assert (log + more)[1..] == log[1..] + more;
      ExpandAppend(log[1..], more, if log[0].Line? then log[0].text else last);
    }
  }

  lemma ExpandOne(p: Printed, last: string)
    ensures Expand([p], last) == if p.Line? then [p.text] else Copies(last, p.n)
    ensures LastLine([p], last) == if p.Line? then p.text else last
  {
    assert [p][1..] == [];
    assert Copies(last, if p.Repeated? then p.n else 0) + [] == Copies(last, if p.Repeated? then p.n else 0);
  }

  /** No two lines in a row say the same; counts are never zero. So it stays
      as long as no message allows duplicates. */
  ghost predicate Compressed(log: seq<Printed>) {
    && (forall i :: 0 < i < |log| && log[i].Line? && log[i - 1].Line? ==> log[i].text != log[i - 1].text)
    && (forall i :: 0 <= i < |log| && log[i].Repeated? ==> log[i].n > 0)
  }

  /** Appending a count. */
  lemma CountAppended(log: seq<Printed>, n: nat)
    requires n > 0
    ensures Expand(log + [Repeated(n)], "") == Expand(log, "") + Copies(LastLine(log, ""), n)
    ensures LastLine(log + [Repeated(n)], "") == LastLine(log, "")
    ensures Compressed(log) ==> Compressed(log + [Repeated(n)])
  {
    ExpandAppend(log, [Repeated(n)], "");
    ExpandOne(Repeated(n), LastLine(log, ""));
  }

  /** Appending a message that differs from the last one. */
  lemma LineAppended(log: seq<Printed>, priority: nat, text: string)
    requires text != LastLine(log, "")
    ensures Expand(log + [Line(priority, text)], "") == Expand(log, "") + [text]
    ensures LastLine(log + [Line(priority, text)], "") == text
    ensures Compressed(log) ==> Compressed(log + [Line(priority, text)])
  {
    ExpandAppend(log, [Line(priority, text)], "");
    ExpandOne(Line(priority, text), LastLine(log, ""));
    LineEnds(log);
  }

  lemma {:induction false} LineEnds(log: seq<Printed>)
    ensures log != [] && log[|log| - 1].Line? ==> LastLine(log, "") == log[|log| - 1].text
  {
    if log != [] {
      assert log == log[..|log| - 1] + [log[|log| - 1]];
      ExpandAppend(log[..|log| - 1], [log[|log| - 1]], "");
      ExpandOne(log[|log| - 1], LastLine(log[..|log| - 1], ""));
    }
  }

  // --------------------------------------------------------------------------
  // The handler
  // --------------------------------------------------------------------------

  /** text_buf, text_cnt and what has been printed. */
  datatype State = State(buf: string, cnt: nat, out: seq<Printed>)

  const Fresh := State("", 0, [])

  /** What text_handler_process makes of one message. */
  function Handle(s: State, m: Message, verbosity: nat): State {
    if m.priority > verbosity then s
    else
      var line := [Line(m.priority, m.text)];
      if m.allowDuplicates then s.(out := s.out + line)
      else if s.buf == m.text then s.(cnt := s.cnt + 1)
      else State(m.text, 0, s.out + (if s.cnt > 0 then [Repeated(s.cnt)] else []) + line)
  }

  function HandleAll(s: State, ms: seq<Message>, verbosity: nat): State
    decreases |ms|
  {
    if ms == [] then s else HandleAll(Handle(s, ms[0], verbosity), ms[1..], verbosity)
  }

  /** The texts that pass the verbosity filter. */
  function Passing(ms: seq<Message>, verbosity: nat): seq<string> {
    if ms == [] then []
    else (if ms[0].priority > verbosity then [] else [ms[0].text]) + Passing(ms[1..], verbosity)
  }

  /** The log and the pending count give back these texts. */
  predicate Lossless(s: State, shown: seq<string>) {
    shown == Expand(s.out, "") + Copies(s.buf, s.cnt)
  }

  /** ... and a count printed next will be read as it is meant. */
  predicate Sound(s: State, shown: seq<string>) {
    Lossless(s, shown) && s.buf == LastLine(s.out, "")
  }

  /** A message that may not be duplicated keeps the log sound. */
  lemma HandleKeeps(s: State, m: Message, verbosity: nat, shown: seq<string>)
    requires Sound(s, shown) && !m.allowDuplicates
    ensures Sound(Handle(s, m, verbosity), shown + Passing([m], verbosity))
    ensures Compressed(s.out) ==> Compressed(Handle(s, m, verbosity).out)
  {
    FirstOf(s, m, [], verbosity);
    hide Passing, HandleAll;
    assert shown + [] == shown;
    if m.priority <= verbosity && s.buf != m.text {
      hide Expand, LastLine, Compressed;
      var counted := s.out;
      if s.cnt > 0 {
        CountAppended(s.out, s.cnt);
        counted := s.out + [Repeated(s.cnt)];
      }
      assert Expand(s.out, "") + [] == Expand(s.out, "") && s.out + [] == s.out;
      LineAppended(counted, m.priority, m.text);
      assert Handle(s, m, verbosity).out == counted + [Line(m.priority, m.text)];
      assert Expand(counted, "") + [m.text] + [] == Expand(counted, "") + [m.text];
    }
  }

  lemma FirstOf(s: State, m: Message, ms: seq<Message>, v: nat)
    ensures HandleAll(s, [m] + ms, v) == HandleAll(Handle(s, m, v), ms, v)
    ensures Passing([m] + ms, v) == Passing([m], v) + Passing(ms, v)
    ensures Passing([m], v) == if m.priority > v then [] else [m.text]
    ensures HandleAll(s, [], v) == s && Passing([], v) == []
  {
    assert ([m] + ms)[1..] == ms && [m][1..] == [];
  }

  /** No message is lost and none changes place: expanding the counts in the
      output and adding the pending ones gives the messages back. */
  lemma {:induction false} RunLossless(s: State, ms: seq<Message>, verbosity: nat, shown: seq<string>)
    requires Sound(s, shown) && forall m :: m in ms ==> !m.allowDuplicates
    ensures Sound(HandleAll(s, ms, verbosity), shown + Passing(ms, verbosity))
    ensures Compressed(s.out) ==> Compressed(HandleAll(s, ms, verbosity).out)
    decreases |ms|
  {
    hide Sound, Handle, HandleAll, Passing, Compressed;
    if ms == [] {
      FirstOf(s, Message(0, "", false), [], verbosity);
      assert shown + [] == shown;
    } else {
      var m, rest := ms[0], ms[1..];
      assert ms == [m] + rest;
      FirstOf(s, m, rest, verbosity);
      HandleKeeps(s, m, verbosity, shown);
      RunLossless(Handle(s, m, verbosity), rest, verbosity, shown + Passing([m], verbosity));
      assert shown + Passing([m], verbosity) + Passing(rest, verbosity) == shown + Passing(ms, verbosity);
    }
  }

  lemma FreshIsSound()
    ensures Sound(Fresh, []) && Compressed(Fresh.out)
  {
  }

  /** From the start: as long as no message allows duplicates, nothing is lost
      and no two equal lines follow each other. */
  lemma LogLossless(ms: seq<Message>, verbosity: nat)
    requires forall m :: m in ms ==> !m.allowDuplicates
    ensures var s := HandleAll(Fresh, ms, verbosity);
            && Expand(s.out, "") + Copies(s.buf, s.cnt) == Passing(ms, verbosity)
            && Compressed(s.out)
  {
    FreshIsSound();
    RunLossless(Fresh, ms, verbosity, []);
    assert [] + Passing(ms, verbosity) == Passing(ms, verbosity);
  }

  // --------------------------------------------------------------------------
  // Messages that allow duplicates
  // --------------------------------------------------------------------------

  /** An unflagged message as log_text makes it. */
  predicate Plain(m: Message) {
    !m.allowDuplicates && m.text != "" && |m.text| < TEXT_BUFFER_SIZE
  }

  /** The buffer after any messages of log_text and log_timestamp: empty only
      before the first unflagged one, which nothing counts. */
  predicate Received(s: State) {
    |s.buf| < TEXT_BUFFER_SIZE && (s.buf == "" ==> s.cnt == 0)
  }

  /** The last line printed is the one the handler compares with, or nothing is
      there to compare with yet. */
  predicate Settled(s: State) {
    s.buf == LastLine(s.out, "") || s.buf == ""
  }

  /** No run of further unflagged messages loses anything. */
  ghost predicate StaysLossless(s: State, v: nat, shown: seq<string>) {
    forall ms :: (forall m :: m in ms ==> Plain(m)) ==>
      Lossless(HandleAll(s, ms, v), shown + Passing(ms, v))
  }

  /** The first unflagged message is printed, whatever was printed before. */
  lemma FirstPrinted(s: State, m: Message, v: nat, shown: seq<string>)
    requires Received(s) && Lossless(s, shown) && s.buf == "" && Plain(m) && m.priority <= v
    ensures Sound(Handle(s, m, v), shown + [m.text])
  {
    hide Expand, LastLine;
    ExpandAppend(s.out, [Line(m.priority, m.text)], "");
    ExpandOne(Line(m.priority, m.text), LastLine(s.out, ""));
    assert Handle(s, m, v) == State(m.text, 0, s.out + [] + [Line(m.priority, m.text)]);
    assert s.out + [] == s.out && shown + [] == shown;
  }

  lemma {:induction false} SettledStays(s: State, ms: seq<Message>, v: nat, shown: seq<string>)
    requires Received(s) && Lossless(s, shown) && Settled(s) && forall m :: m in ms ==> Plain(m)
    ensures Lossless(HandleAll(s, ms, v), shown + Passing(ms, v))
    decreases |ms|
  {
    hide Handle, HandleAll, Passing, Expand, LastLine;
    if Sound(s, shown) {
      RunLossless(s, ms, v, shown);
    } else if ms == [] {
      FirstOf(s, Message(0, "", false), [], v);
      assert shown + [] == shown;
    } else {
      var m, rest := ms[0], ms[1..];
      assert ms == [m] + rest;
      assert forall k :: k in rest ==> k in ms && Plain(k);
      FirstOf(s, m, rest, v);
      assert shown + Passing([m], v) + Passing(rest, v) == shown + Passing(ms, v);
      if m.priority > v {
        Filtered(s, m, v);
        assert shown + [] == shown;
        SettledStays(s, rest, v, shown);
      } else {
        FirstPrinted(s, m, v, shown);
        RunLossless(Handle(s, m, v), rest, v, shown + [m.text]);
      }
    }
  }

  lemma Filtered(s: State, m: Message, v: nat)
    requires m.priority > v
    ensures Handle(s, m, v) == s
  {
  }

  lemma LastButOne(a: seq<string>, x: string, b: seq<string>, y: string, z: string)
    requires x != y
    ensures a + [x] + [z] != b + [y] + [z]
  {
    assert (a + [x] + [z])[|a + [x] + [z]| - 2] == x && (b + [y] + [z])[|b + [y] + [z]| - 2] == y;
  }

  lemma TwoHandled(s: State, v: nat, other: string)
    requires other != s.buf
    ensures Handle(Handle(s, Message(0, s.buf, false), v), Message(0, other, false), v)
         == State(other, 0, s.out + [Repeated(s.cnt + 1)] + [Line(0, other)])
  {
  }

  /** Otherwise the buffered message once more, and then another one, make the
      count be read as the repetition of the wrong line. */
  lemma MisreadRun(s: State, v: nat, shown: seq<string>, other: string)
    requires Lossless(s, shown) && !Settled(s) && other != s.buf
    ensures var ms := [Message(0, s.buf, false)] + ([Message(0, other, false)] + []);
            !Lossless(HandleAll(s, ms, v), shown + Passing(ms, v))
  {
    var again, last, n := Message(0, s.buf, false), Message(0, other, false), s.cnt + 1;
    var counted := s.out + [Repeated(n)];
    var line := LastLine(s.out, "");
    TwoHandled(s, v, other);
    assert Copies(s.buf, n) == Copies(s.buf, s.cnt) + [s.buf] && Copies(line, n) == Copies(line, s.cnt) + [line];
    hide Expand, LastLine, HandleAll, Passing, Handle;
    FirstOf(s, again, [last] + [], v);
    FirstOf(Handle(s, again, v), last, [], v);
    ExpandAppend(s.out, [Repeated(n)], "");
    ExpandOne(Repeated(n), line);
    ExpandAppend(counted, [Line(0, other)], "");
    ExpandOne(Line(0, other), line);
    var told := Expand(s.out, "") + Copies(line, n) + [other];
    var meant := shown + ([s.buf] + ([other] + []));
    assert told == Expand(s.out, "") + Copies(line, s.cnt) + [line] + [other];
    assert meant == shown + [s.buf] + [other];
    LastButOne(Expand(s.out, "") + Copies(line, s.cnt), line, shown, s.buf, other);
    assert told + Copies(other, 0) == told;
  }

  /** Whatever came before, a log that has lost nothing yet loses nothing in any
      run of further unflagged messages exactly when it is settled. */
  lemma StaysLosslessIff(s: State, v: nat, shown: seq<string>)
    requires Received(s) && Lossless(s, shown)
    ensures StaysLossless(s, v, shown) <==> Settled(s)
  {
    hide HandleAll, Passing, Lossless;
    if Settled(s) {
      forall ms | forall m :: m in ms ==> Plain(m)
        ensures Lossless(HandleAll(s, ms, v), shown + Passing(ms, v))
      {
        SettledStays(s, ms, v, shown);
      }
    } else {
      var other := if s.buf == "\n" then "-\n" else "\n";
      var ms := [Message(0, s.buf, false)] + ([Message(0, other, false)] + []);
      MisreadRun(s, v, shown, other);
      assert forall m :: m in ms ==> Plain(m);
    }
  }

  lemma {:induction false} CopiesShift(text: string, n: nat)
    ensures [text] + Copies(text, n) == Copies(text, n) + [text]
  {
    if n > 0 {
      CopiesShift(text, n - 1);
      assert [text] + (Copies(text, n - 1) + [text]) == ([text] + Copies(text, n - 1)) + [text];
    }
  }

  /** What printing a flagged message leaves. */
  lemma FlaggedHandled(s: State, m: Message, v: nat, shown: seq<string>)
    requires Received(s) && Lossless(s, shown) && m.allowDuplicates && m.priority <= v
    ensures var s1 := Handle(s, m, v);
            && (Settled(s1) <==> m.text == s.buf || s.buf == "")
            && (Settled(s1) ==> Lossless(s1, shown + [m.text]))
  {
    hide Expand, LastLine;
    ExpandAppend(s.out, [Line(m.priority, m.text)], "");
    ExpandOne(Line(m.priority, m.text), LastLine(s.out, ""));
    CopiesShift(s.buf, s.cnt);
    if s.buf == "" {
      assert Copies(s.buf, s.cnt) == [];
    } else if m.text == s.buf {
      assert shown + [m.text] == Expand(s.out, "") + ([m.text] + Copies(s.buf, s.cnt));
    }
  }

  /** A message that allows duplicates, as the interval reports do, leaves a log
      that stays lossless whatever unflagged messages follow, exactly when it
      repeats the last unflagged message or none has come yet. */
  lemma FlaggedKeepsIff(s: State, m: Message, v: nat, shown: seq<string>)
    requires Received(s) && Lossless(s, shown) && m.allowDuplicates && m.priority <= v
    ensures StaysLossless(Handle(s, m, v), v, shown + [m.text]) <==> m.text == s.buf || s.buf == ""
  {
    var s1, after := Handle(s, m, v), shown + [m.text];
    FlaggedHandled(s, m, v, shown);
    if Lossless(s1, after) {
      StaysLosslessIff(s1, v, after);
    } else {
      FirstOf(s1, m, [], v);
      assert after + [] == after;
      assert !Lossless(HandleAll(s1, [], v), after + Passing([], v));
    }
  }

  // --------------------------------------------------------------------------
  // Which lines are printed, and with which priority
  // --------------------------------------------------------------------------

  /** The lines among what was printed, counts left out. */
  function Lines(out: seq<Printed>): seq<Printed> {
    if out == [] then []
    else Lines(out[..|out| - 1]) + (if out[|out| - 1].Line? then [out[|out| - 1]] else [])
  }

  /** The messages with something new to say: flagged, or unlike the unflagged
      one before. */
  function News(ms: seq<Message>, last: string, v: nat): seq<Message>
    decreases |ms|
  {
    if ms == [] then []
    else if ms[0].priority > v then News(ms[1..], last, v)
    else if ms[0].allowDuplicates then [ms[0]] + News(ms[1..], last, v)
    else if ms[0].text == last then News(ms[1..], last, v)
    else [ms[0]] + News(ms[1..], ms[0].text, v)
  }

  function AsLines(ms: seq<Message>): seq<Printed> {
    seq(|ms|, i requires 0 <= i < |ms| => Line(ms[i].priority, ms[i].text))
  }

  lemma LinesPush(out: seq<Printed>, p: Printed)
    ensures Lines(out + [p]) == Lines(out) + (if p.Line? then [p] else [])
  {
    assert (out + [p])[..|out|] == out;
  }

  /** What one message adds to the lines. */
  lemma LinesOfOne(s: State, m: Message, v: nat)
    ensures Lines(Handle(s, m, v).out) ==
            Lines(s.out) + (if m.priority <= v && (m.allowDuplicates || m.text != s.buf)
                            then [Line(m.priority, m.text)] else [])
  {
    hide Lines;
    LinesPush(s.out, Line(m.priority, m.text));
    LinesPush(s.out, Repeated(s.cnt));
    LinesPush(s.out + [Repeated(s.cnt)], Line(m.priority, m.text));
    assert s.out + [] == s.out && Lines(s.out) + [] == Lines(s.out);
  }

  /** The lines printed are the messages with something new to say, each with its
      own priority, in order. */
  lemma {:induction false} LinesPrinted(s: State, ms: seq<Message>, v: nat)
    ensures Lines(HandleAll(s, ms, v).out) == Lines(s.out) + AsLines(News(ms, s.buf, v))
    decreases |ms|
  {
    if ms == [] {
      assert AsLines([]) == [] && Lines(s.out) + [] == Lines(s.out);
    } else {
      var m, s1 := ms[0], Handle(s, ms[0], v);
      LinesOfOne(s, m, v);
      LinesPrinted(s1, ms[1..], v);
      NewsStep(s, ms, v);
    }
  }

  lemma NewsStep(s: State, ms: seq<Message>, v: nat)
    requires ms != []
    ensures var m := ms[0];
            AsLines(News(ms, s.buf, v)) ==
            (if m.priority <= v && (m.allowDuplicates || m.text != s.buf) then [Line(m.priority, m.text)] else [])
            + AsLines(News(ms[1..], Handle(s, m, v).buf, v))
  {
  }

  class Handler {
    const verbosity: nat
    var textBuf: string
    var textCnt: nat
    var out: seq<Printed>

    ghost function Abstract(): State
      reads this
    {
      State(textBuf, textCnt, out)
    }

    /** text_handler_init. */
    constructor (verbosity: nat)
      ensures Abstract() == Fresh && this.verbosity == verbosity
    {
      this.verbosity := verbosity;
      textBuf, textCnt, out := "", 0, [];
    }

    /** text_handler_process. */
    method Process(m: Message)
      requires |m.text| < TEXT_BUFFER_SIZE
      modifies this
      ensures Abstract() == Handle(old(Abstract()), m, verbosity)
      ensures Received(old(Abstract())) && m.text != "" ==> Received(Abstract())
      ensures forall shown :: !m.allowDuplicates && Sound(old(Abstract()), shown) ==>
                Sound(Abstract(), shown + Passing([m], verbosity))
    {
      ghost var before := Abstract();
      if m.priority > verbosity {
      } else if m.allowDuplicates {
        out := out + [Line(m.priority, m.text)];
      } else if textBuf == m.text {
        textCnt := textCnt + 1;
      } else {
        if textCnt > 0 {
          out := out + [Repeated(textCnt)];
        }
        textCnt := 0;
        textBuf := m.text;
        out := out + [Line(m.priority, m.text)];
      }
      forall shown | !m.allowDuplicates && Sound(before, shown)
        ensures Sound(Handle(before, m, verbosity), shown + Passing([m], verbosity))
      {
        HandleKeeps(before, m, verbosity, shown);
      }
    }
  }
}
