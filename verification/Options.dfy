/** The option registry of sb_options.c: a list of named options, each with a
    list of values, behaves as a map whose keys take '-' and '_' as equal. */
module Options {
  import opened Common
  import opened Lists

  /** sb_arg_type_t. */
  datatype ArgType = NoType | Flag | Int | Size | Float | Text | Many

  /** What is set for one name. */
  datatype Setting = Setting(kind: ArgType, values: seq<string>)

  /** A string that a terminator can follow. */
  type CString = s: string | '\0' !in s

  // ---------------------------------------------------------------- names

  function Dash(c: char): char {
    if c == '-' then '_' else c
  }

  function Convert(s: CString): (r: CString)
    ensures |r| == |s| && forall i :: 0 <= i < |s| ==> r[i] == Dash(s[i])
  {
    seq(|s|, i requires 0 <= i < |s| => Dash(s[i]))
  }

  /** The character a pointer into s reads, the terminator included. */
  function At(s: CString, i: nat): char
    requires i <= |s|
  {
    if i < |s| then s[i] else '\0'
  }

  lemma ConvertTwice(s: CString)
    ensures Convert(Convert(s)) == Convert(s)
  {
  }

  /** Two names are one exactly when they differ in nothing but '-' and '_'. */
  lemma SpellingsAgree(s: CString, t: CString)
    ensures Convert(s) == Convert(t) <==>
              |s| == |t| && forall i :: 0 <= i < |s| ==> s[i] == t[i] || {s[i], t[i]} == {'-', '_'}
  {
    if Convert(s) == Convert(t) {
      forall i | 0 <= i < |s| ensures s[i] == t[i] || {s[i], t[i]} == {'-', '_'} {
        assert Convert(s)[i] == Convert(t)[i];
      }
    } else if |s| == |t| {
      var i :| 0 <= i < |s| && Convert(s)[i] != Convert(t)[i];
    }
  }

  /** convert_dashes: rewrites the name in the buffer that holds it. */
  method ConvertDashes(a: array<char>, ghost s: CString)
    requires a.Length == |s| + 1 && a[..|s|] == s && a[|s|] == '\0'
    modifies a
    ensures a[..|s|] == Convert(s) && a[|s|] == '\0'
  {
    var i := 0;
    while a[i] != '\0'
      invariant 0 <= i <= |s|
      invariant a[..i] == Convert(s)[..i] && a[i..|s|] == s[i..] && a[|s|] == '\0'
      decreases |s| - i
    {
      assert a[i] == a[i..|s|][0] == s[i];
      if a[i] == '-' {
        a[i] := '_';
      }
      i := i + 1;
    }
  }

  /** opt_name_cmp: zero exactly for spellings of one name, otherwise the
      difference at the first place where the spellings part. */
  method OptNameCmp(s1: CString, s2: CString) returns (r: int)
    ensures r == 0 <==> Convert(s1) == Convert(s2)
    ensures r != 0 ==>
      exists i: nat :: i <= |s1| && i <= |s2| && Convert(s1[..i]) == Convert(s2[..i])
        && r == At(s1, i) as int - At(s2, i) as int
  {
    var i := 0;
    while At(s1, i) != '\0'
      invariant i <= |s1| && i <= |s2|
      invariant forall j :: 0 <= j < i ==> Dash(s1[j]) == Dash(s2[j])
      decreases |s1| - i
    {
      if At(s1, i) != At(s2, i) {
        if (At(s1, i) != '-' && At(s1, i) != '_') || (At(s2, i) != '-' && At(s2, i) != '_') {
          break;
        }
      }
      i := i + 1;
    }
    r := At(s1, i) as int - At(s2, i) as int;
    assert Convert(s1[..i]) == Convert(s2[..i]);
    if r == 0 {
      assert i == |s1| == |s2|;
      assert s1[..i] == s1 && s2[..i] == s2;
    }
  }

  // --------------------------------------------------------------- values

  /** What strtok skips before a token. */
  function SkipCommas(s: string): (r: string)
    ensures |r| <= |s| && (r != "" ==> r[0] != ',')
  {
    if s != "" && s[0] == ',' then SkipCommas(s[1..]) else s
  }

  /** The characters before the first comma. */
  function Word(s: string): (w: string)
    ensures |w| <= |s| && s[..|w|] == w && ',' !in w
    ensures |w| < |s| ==> s[|w|] == ','
  {
    if s == "" || s[0] == ',' then "" else [s[0]] + Word(s[1..])
  }

  /** The tokens strtok returns one after another. */
  function Tokens(s: string): (ts: seq<string>)
    ensures forall i :: 0 <= i < |ts| ==> ts[i] != "" && ',' !in ts[i]
    decreases |s|
  {
    var t := SkipCommas(s);
    if t == "" then [] else [Word(t)] + Tokens(t[|Word(t)|..])
  }

  function Joined(ts: seq<string>): string {
    if ts == [] then "" else if |ts| == 1 then ts[0] else ts[0] + "," + Joined(ts[1..])
  }

  lemma {:induction false} WordThen(w: string, s: string)
    requires ',' !in w && (s == "" || s[0] == ',')
    ensures Word(w + s) == w
  {
    if w == "" {
      assert w + s == s;
    } else {
      assert (w + s)[0] == w[0] && (w + s)[1..] == w[1..] + s;
      WordThen(w[1..], s);
    }
  }

  /** A list of values written with commas between is read back as it was,
      and extra commas before it make no difference. */
  lemma {:induction false} TokensOfJoined(ts: seq<string>, s: string)
    requires forall i :: 0 <= i < |ts| ==> ts[i] != "" && ',' !in ts[i]
    requires SkipCommas(s) == Joined(ts)
    ensures Tokens(s) == ts
  {
    if |ts| >= 1 {
      var rest := if |ts| == 1 then "" else "," + Joined(ts[1..]);
      assert ts[0] + rest == Joined(ts);
      WordThen(ts[0], rest);
      assert Joined(ts)[|ts[0]|..] == rest;
      if |ts| > 1 {
        assert rest[1..] == Joined(ts[1..]);
        var u := ts[1..];
        assert u[0] == ts[1] && Joined(u)[0] == u[0][0];
        assert SkipCommas(rest) == Joined(u);
      }
      TokensOfJoined(ts[1..], rest);
    }
  }

  /** The characters that are no commas. */
  function Kept(s: string): string {
    if s == "" then "" else (if s[0] == ',' then "" else [s[0]]) + Kept(s[1..])
  }

  function Flat(ts: seq<string>): string {
    if ts == [] then "" else ts[0] + Flat(ts[1..])
  }

  lemma {:induction false} SkipKeeps(s: string)
    ensures Kept(SkipCommas(s)) == Kept(s)
  {
    if s != "" && s[0] == ',' { SkipKeeps(s[1..]); }
  }

  lemma {:induction false} WordKept(s: string)
    ensures Kept(s) == Word(s) + Kept(s[|Word(s)|..])
  {
    if s != "" && s[0] != ',' {
      var w := Word(s[1..]);
      WordKept(s[1..]);
      var rest := s[1..][|w|..];
      assert Word(s) == [s[0]] + w && s[|w| + 1..] == rest;
      assert Kept(s) == [s[0]] + Kept(s[1..]);
      hide Kept, Word;
      assert [s[0]] + (w + Kept(rest)) == ([s[0]] + w) + Kept(rest);
    }
  }

  /** However many commas there are, the tokens are all the other characters in order. */
  lemma {:induction false} TokensKeepText(s: string)
    ensures Flat(Tokens(s)) == Kept(s)
    decreases |s|
  {
    SkipKeeps(s);
    var t := SkipCommas(s);
    if t != "" {
      WordKept(t);
      TokensKeepText(t[|Word(t)|..]);
      assert Tokens(s)[0] == Word(t) && Tokens(s)[1..] == Tokens(t[|Word(t)|..]);
    }
  }

  /** Exactly the argument that set_option refuses. */
  predicate Refused(kind: ArgType, value: Option<CString>) {
    kind.NoType? && value.Some? && value.value != ""
  }

  /** The values set_option leaves for an argument. */
  function Parsed(kind: ArgType, value: Option<CString>): seq<string> {
    match kind
    case Flag => if value.None? || value.value == "on" then ["on"] else []
    case Many => if value.None? then [] else Tokens(value.value)
    case NoType => []
    case _ => if value.None? || value.value == "" then [] else [value.value]
  }

  /** What an argument means by its type: a flag is on when nothing or "on" is
      given for it, a number or a text has at most the one value given, and a list
      has none exactly when there is nothing but commas. */
  lemma ParsedMeans(kind: ArgType, value: Option<CString>)
    ensures kind == Flag ==> (Parsed(kind, value) != [] <==> value.None? || value.value == "on")
    ensures kind in {Int, Size, Float, Text} ==>
              Parsed(kind, value) == if value.None? || value.value == "" then [] else [value.value]
    ensures kind == Many ==> (Parsed(kind, value) == [] <==> value.None? || Kept(value.value) == "")
    ensures kind == NoType ==> Parsed(kind, value) == []
  {
    if kind == Many && value.Some? {
      SkipKeeps(value.value);
      var t := SkipCommas(value.value);
      if t != "" { WordKept(t); }
    }
  }

  /** free_values: the loop keeps the next item before it cuts out the current. */
  method FreeValues(values: List<string>)
    requires values.Valid()
    modifies values`nodes, values.repr
    ensures values.Valid() && values.nodes == []
  {
    var cur := values.head.next;
    assert LinkedAt(values.Items(), 0);
    assert LinkedAt(values.Items(), Succ(0, |values.Items()|));
    var next := cur.next;
    while cur != values.head
      invariant values.Valid()
      invariant cur == values.head.next && cur != null && next == cur.next
      decreases |values.nodes|
    {
      ghost var before := values.Items();
      assert LinkedAt(before, 0) && LinkedAt(before, 1);
      values.Delete(cur, 0);
      assert values.Items() == [before[0]] + before[2..];
      assert LinkedAt(values.Items(), 0);
      assert LinkedAt(values.Items(), Succ(0, |values.Items()|));
      cur := next;
      next := cur.next;
    }
    assert LinkedAt(values.Items(), 0);
  }

  /** add_value. */
  method AddValue(values: List<string>, data: string)
    requires values.Valid()
    modifies values, values.repr
    ensures values.Valid() && Entries(values.nodes) == old(Entries(values.nodes)) + [data]
    ensures fresh(values.repr - old(values.repr))
  {
    var item := new Item<string>(Some(data));
    values.AddTail(item);
    assert values.nodes[..|values.nodes| - 1] == old(values.nodes);
  }

  /** The loop of set_option over the tokens strtok finds. */
  method AddTokens(values: List<string>, data: string)
    requires values.Valid()
    modifies values, values.repr
    ensures values.Valid() && Entries(values.nodes) == old(Entries(values.nodes)) + Tokens(data)
    ensures fresh(values.repr - old(values.repr))
  {
    var rest := SkipCommas(data);
    while rest != ""
      invariant values.Valid() && SkipCommas(rest) == rest
      invariant Entries(values.nodes) + Tokens(rest) == old(Entries(values.nodes)) + Tokens(data)
      invariant fresh(values.repr - old(values.repr))
      decreases |rest|
    {
      var token := Word(rest);
      AddValue(values, token);
      rest := SkipCommas(rest[|token|..]);
    }
  }

  /** The part of set_option after the old values are gone. */
  method AddParsed(values: List<string>, value: Option<CString>, kind: ArgType) returns (rc: int)
    requires values.Valid()
    modifies values, values.repr
    ensures values.Valid() && Entries(values.nodes) == old(Entries(values.nodes)) + Parsed(kind, value)
    ensures fresh(values.repr - old(values.repr))
    ensures rc == if Refused(kind, value) then 1 else 0
    ensures rc == 0 || rc == 1
    ensures rc == 1 <==> kind == NoType && value.Some? && value.value != ""
  {
    hide List.Valid;
    if kind != Flag && (value.None? || value.value == "") {
      return 0;
    }
    match kind {
      case Flag =>
        if value.None? || value.value == "on" {
          AddValue(values, "on");
        }
      case Int | Size | Float | Text =>
        AddValue(values, value.value);
      case Many =>
        AddTokens(values, value.value);
      case NoType =>
        return 1;
    }
    rc := 0;
  }

  // --------------------------------------------------------------- records

  /** option_t. */
  class Record {
    var name: CString
    var kind: ArgType
    const values: List<string>

    /** The objects the record is made of. */
    ghost function Foot(): set<object>
      reads this, values
    {
      {this, values} + values.repr
    }

    ghost predicate Valid()
      reads this, values, values.repr
    {
      values.Valid() && Convert(name) == name
    }

    ghost function Contents(): Setting
      requires Valid()
      reads this, values, values.repr
    {
      Setting(kind, Entries(values.nodes))
    }

    /** new_option, with the name add_option gives it. */
    constructor (name: CString)
      requires Convert(name) == name
      ensures Valid() && this.name == name && Contents() == Setting(NoType, []) && fresh(Foot())
    {
      this.name := name;
      kind := NoType;
      values := new List<string>();
    }

    /** sb_opt_to_flag. */
    method ToFlag() returns (on: bool)
      requires Valid()
      ensures on <==> Contents().values != []
    {
      var empty := values.IsEmpty();
      on := !empty;
    }

    /** sb_opt_to_string: the first value, if there is one. */
    method ToText() returns (text: Option<string>)
      requires Valid()
      ensures text == if Contents().values == [] then None else Some(Contents().values[0])
    {
      values.LinkFrom(0);
      var pos := values.head.next;
      text := if pos != values.head then pos.entry else None;
    }

    /** set_option after add_option: the old values go, the new ones come. */
    method Assign(value: Option<CString>, kind: ArgType) returns (rc: int)
      requires Valid()
      modifies this`kind, values, values.repr
      ensures Valid() && Contents() == Setting(kind, Parsed(kind, value))
      ensures fresh(Foot() - old(Foot()))
      ensures rc == if Refused(kind, value) then 1 else 0
    {
      hide List.Valid, Convert, Parsed, Refused;
      FreeValues(values);
      assert Entries(values.nodes) == [];
      this.kind := kind;
      rc := AddParsed(values, value, kind);
    }
  }

  // -------------------------------------------------------------- registry

  /** sb_arg_t: one entry of the table sb_register_arg_set reads. */
  datatype Arg = Arg(name: CString, value: Option<CString>, kind: ArgType)

  /** The settings after set_option. */
  function Set(m: map<CString, Setting>, a: Arg): map<CString, Setting> {
    m[Convert(a.name) := Setting(a.kind, Parsed(a.kind, a.value))]
  }

  /** One option as the registry accounts for it. */
  datatype Entry = Entry(record: Record, name: CString, setting: Setting, foot: set<object>)

  /** The record is as it is accounted for. */
  ghost predicate Right(e: Entry)
    reads e.record, e.record.values, e.record.values.repr
  {
    e.record.Valid() && e.record.name == e.name && e.record.Contents() == e.setting
  }

  /** The account of a record as it stands. */
  lemma RightNow(r: Record)
    requires r.Valid()
    ensures Right(Entry(r, r.name, r.Contents(), r.Foot()))
  {
  }

  lemma RightThen(e: Entry)
    requires Right(e)
    ensures e.record.Valid() && e.record.values.Valid() && e.record.name == e.name
  {
  }

  /** The entries are what is set, each name once. */
  ghost predicate Tied(es: seq<Entry>, m: map<CString, Setting>) {
    && (forall k :: 0 <= k < |es| ==> es[k].name in m && m[es[k].name] == es[k].setting)
    && (forall j, k :: 0 <= j < k < |es| ==> es[j].name != es[k].name)
    && (forall n :: n in m ==> exists k :: 0 <= k < |es| && es[k].name == n)
  }

  /** No two records share an object, and none has one of these. */
  ghost predicate Separate(es: seq<Entry>, base: set<object>) {
    && (forall k :: 0 <= k < |es| ==> es[k].foot !! base)
    && (forall j, k :: 0 <= j < k < |es| ==> es[j].foot !! es[k].foot)
  }

  lemma TiedAppend(es: seq<Entry>, m: map<CString, Setting>, e: Entry)
    requires Tied(es, m) && e.name !in m
    ensures Tied(es + [e], m[e.name := e.setting])
  {
    var grown := m[e.name := e.setting];
    forall n | n in grown
      ensures exists k :: 0 <= k < |es| + 1 && (es + [e])[k].name == n
    {
      if n == e.name {
        assert (es + [e])[|es|].name == n;
      } else {
        var k: nat :| k < |es| && es[k].name == n;
        assert (es + [e])[k].name == n;
      }
    }
  }

  lemma SeparateAppend(es: seq<Entry>, base: set<object>, e: Entry, grown: set<object>)
    requires Separate(es, base) && base <= grown
    requires forall k :: 0 <= k < |es| ==> es[k].foot !! e.foot && es[k].foot !! grown - base
    requires e.foot !! grown
    ensures Separate(es + [e], grown)
  {
  }

  lemma TiedUpdate(es: seq<Entry>, m: map<CString, Setting>, k: nat, e: Entry)
    requires Tied(es, m) && k < |es| && es[k].name == e.name
    ensures Tied(es[k := e], m[e.name := e.setting])
  {
    var fs, grown := es[k := e], m[e.name := e.setting];
    forall n | n in grown
      ensures exists i :: 0 <= i < |fs| && fs[i].name == n
    {
      var i: nat :| i < |es| && es[i].name == n;
      assert fs[i].name == n;
    }
  }

  lemma SeparateAt(es: seq<Entry>, base: set<object>, k: nat)
    requires Separate(es, base) && k < |es|
    ensures es[k].foot !! base && forall i :: 0 <= i < |es| && i != k ==> es[i].foot !! es[k].foot
  {
  }

  lemma SeparateUpdate(es: seq<Entry>, base: set<object>, k: nat, e: Entry)
    requires Separate(es, base) && k < |es| && e.foot !! base
    requires forall i :: 0 <= i < |es| ==> es[i].foot !! e.foot - es[k].foot
    ensures Separate(es[k := e], base)
  {
    forall i | 0 <= i < |es| && i != k
      ensures es[i].foot !! e.foot
    {
      assert es[i].foot !! es[k].foot;
    }
  }

  /** Where the entry at place i was before the entry at place k left. */
  ghost function Past(i: nat, k: nat): nat {
    if i < k then i else i + 1
  }

  lemma TiedRemove(es: seq<Entry>, m: map<CString, Setting>, k: nat, fs: seq<Entry>)
    requires Tied(es, m) && k < |es| == |fs| + 1
    requires forall i :: 0 <= i < |fs| ==> fs[i] == es[Past(i, k)]
    ensures Tied(fs, m - {es[k].name})
  {
    var shrunk := m - {es[k].name};
    forall n | n in shrunk
      ensures exists i :: 0 <= i < |fs| && fs[i].name == n
    {
      var i: nat :| i < |es| && es[i].name == n;
      var at := if i < k then i else i - 1;
      assert fs[at] == es[Past(at, k)];
    }
  }

  lemma SeparateRemove(es: seq<Entry>, base: set<object>, k: nat, fs: seq<Entry>)
    requires Separate(es, base) && k < |es| == |fs| + 1
    requires forall i :: 0 <= i < |fs| ==> fs[i] == es[Past(i, k)]
    ensures Separate(fs, base)
  {
  }

  /** What changes the registry: an option set or removed. */
  datatype Event = Put(arg: Arg) | Drop(gone: CString) {
    function Key(): CString {
      match this
      case Put(a) => Convert(a.name)
      case Drop(n) => Convert(n)
    }
  }

  function Replay(m: map<CString, Setting>, es: seq<Event>): map<CString, Setting> {
    if es == [] then m
    else match es[|es| - 1]
      case Put(a) => Set(Replay(m, es[..|es| - 1]), a)
      case Drop(n) => Replay(m, es[..|es| - 1]) - {Convert(n)}
  }

  /** What sb_register_arg_set sets: everything up to the first refusal, the
      refused option with it. */
  function Registered(args: seq<Arg>): (es: seq<Event>)
    ensures |es| <= |args| && forall i :: 0 <= i < |es| ==> es[i] == Put(args[i])
    ensures forall i :: 0 <= i < |es| - 1 ==> !Refused(args[i].kind, args[i].value)
    ensures |es| < |args| ==> es != [] && Refused(args[|es| - 1].kind, args[|es| - 1].value)
  {
    if args == [] then []
    else if Refused(args[0].kind, args[0].value) then [Put(args[0])]
    else [Put(args[0])] + Registered(args[1..])
  }

  /** The k-th event is the last one about the name with that key. */
  ghost predicate LastOf(es: seq<Event>, key: CString, k: nat)
    requires k < |es|
  {
    es[k].Key() == key && forall i :: k < i < |es| ==> es[i].Key() != key
  }

  /** Whatever was set or removed before and after, a name in any spelling
      has the type and the values that were last set for it. */
  lemma {:induction false} LastEventWins(m: map<CString, Setting>, es: seq<Event>, name: CString, k: nat)
    requires k < |es| && LastOf(es, Convert(name), k)
    ensures Convert(name) in Replay(m, es) <==> es[k].Put?
    ensures es[k].Put? ==>
      Replay(m, es)[Convert(name)] == Setting(es[k].arg.kind, Parsed(es[k].arg.kind, es[k].arg.value))
  {
    if k < |es| - 1 {
      LastEventWins(m, es[..|es| - 1], name, k);
      assert es[|es| - 1].Key() != Convert(name);
    }
  }

  /** What is not named stays as it was. */
  lemma {:induction false} OthersStay(m: map<CString, Setting>, es: seq<Event>, n: CString)
    requires forall i :: 0 <= i < |es| ==> es[i].Key() != n
    ensures n in Replay(m, es) <==> n in m
    ensures n in m ==> Replay(m, es)[n] == m[n]
  {
    if es != [] {
      OthersStay(m, es[..|es| - 1], n);
      assert es[|es| - 1].Key() != n;
    }
  }

  /** What a name has after the events, all cases. */
  lemma ReplayAt(m: map<CString, Setting>, es: seq<Event>, name: CString)
    ensures forall k :: 0 <= k < |es| && LastOf(es, Convert(name), k) ==>
              && (Convert(name) in Replay(m, es) <==> es[k].Put?)
              && (es[k].Put? ==>
                    Replay(m, es)[Convert(name)] == Setting(es[k].arg.kind, Parsed(es[k].arg.kind, es[k].arg.value)))
    ensures (forall k :: 0 <= k < |es| ==> es[k].Key() != Convert(name)) ==>
              && (Convert(name) in Replay(m, es) <==> Convert(name) in m)
              && (Convert(name) in m ==> Replay(m, es)[Convert(name)] == m[Convert(name)])
  {
    hide Replay, Parsed, Convert;
    forall k | 0 <= k < |es| && LastOf(es, Convert(name), k)
      ensures Convert(name) in Replay(m, es) <==> es[k].Put?
      ensures es[k].Put? ==>
        Replay(m, es)[Convert(name)] == Setting(es[k].arg.kind, Parsed(es[k].arg.kind, es[k].arg.value))
    {
      LastEventWins(m, es, name, k);
    }
    if forall k :: 0 <= k < |es| ==> es[k].Key() != Convert(name) {
      OthersStay(m, es, Convert(name));
    }
  }

  lemma {:induction false} ReplayMore(m: map<CString, Setting>, es: seq<Event>, fs: seq<Event>)
    ensures Replay(m, es + fs) == Replay(Replay(m, es), fs)
  {
    if fs == [] {
      assert es + fs == es;
    } else {
      ReplayMore(m, es, fs[..|fs| - 1]);
      assert (es + fs)[..|es + fs| - 1] == es + fs[..|fs| - 1];
    }
  }

  lemma ReplayFirst(m: map<CString, Setting>, args: seq<Arg>)
    requires args != []
    ensures Replay(m, Registered(args)) ==
            if Refused(args[0].kind, args[0].value) then Set(m, args[0])
            else Replay(Set(m, args[0]), Registered(args[1..]))
  {
    assert Replay(m, [Put(args[0])]) == Set(Replay(m, []), args[0]);
    ReplayMore(m, [Put(args[0])], Registered(args[1..]));
  }

  /** The list of all options. */
  class Registry {
    const options: List<Record>
    ghost var entries: seq<Entry>
    ghost var settings: map<CString, Setting>
    ghost var repr: set<object>

    ghost function Base(): set<object>
      reads this, options
    {
      {this, options} + options.repr
    }

    /** Everything the entry stands for belongs to the registry. */
    ghost predicate Has(e: Entry)
      reads this, repr
    {
      e.record in repr && e.record.values in repr && e.record.Foot() == e.foot <= repr && Right(e)
    }

    /** The list is well formed and holds one record for every entry, no two of
        them share a name or an object, and together they are what is set. */
    ghost predicate Valid()
      reads this, repr
    {
      && this in repr && options in repr && Base() <= repr
      && options.Valid()
      && |options.nodes| == |entries|
      && (forall k :: 0 <= k < |entries| ==> options.nodes[k].entry == Some(entries[k].record))
      && (forall k :: 0 <= k < |entries| ==> Has(entries[k]))
      && Separate(entries, Base())
      && Tied(entries, settings)
    }

    /** sb_options_init. */
    constructor ()
      ensures Valid() && settings == map[] && fresh(repr)
    {
      options := new List<Record>();
      entries := [];
      settings := map[];
      new;
      repr := {this, options} + options.repr;
    }

    /** What a loop over the options finds at the k-th place. */
    lemma Finds(k: nat)
      requires Valid() && k <= |entries|
      ensures |options.nodes| == |entries|
      ensures options.Items()[k].next == options.Items()[Succ(k, |entries| + 1)]
      ensures k < |entries| ==>
                && options.Items()[k + 1] == options.nodes[k] != options.head
                && options.Items()[k + 1].entry == Some(entries[k].record)
                && Right(entries[k]) && Convert(entries[k].name) == entries[k].name
                && entries[k].name in settings && settings[entries[k].name] == entries[k].setting
    {
      options.LinkFrom(k);
      assert k < |entries| ==> Has(entries[k]);
    }

    /** A name that no option has is not set. */
    lemma NotNamed(n: CString)
      requires Valid() && forall k :: 0 <= k < |entries| ==> entries[k].name != n
      ensures n !in settings
    {
    }

    /** find_option; also the item of the option found. */
    method Find(name: CString) returns (r: Record?, item: Item?<Record>, ghost k: nat)
      requires Valid()
      ensures r == null <==> Convert(name) !in settings
      ensures r != null ==> k < |entries| && entries[k].record == r && entries[k].name == Convert(name)
      ensures r != null ==> options.nodes[k] == item && item != null
      ensures r != null ==> r.name == Convert(name) && r.Valid() && r.Contents() == settings[Convert(name)]
    {
      hide Convert, Record.Valid, Record.Contents, Record.Foot, Registry.Valid;
      k := 0;
      var pos := options.head.next;
      Finds(0);
      while pos != options.head
        invariant k <= |entries|
        invariant pos == options.Items()[Succ(k, |entries| + 1)]
        invariant forall j :: 0 <= j < k ==> entries[j].name != Convert(name)
        decreases |entries| - k
      {
        Finds(k);
        Finds(k + 1);
        var opt := pos.entry.value;
        var c := OptNameCmp(opt.name, name);
        if c == 0 {
          return opt, pos, k;
        }
        pos := pos.next;
        k := k + 1;
      }
      Finds(k);
      NotNamed(Convert(name));
      r, item := null, null;
    }

    /** sb_get_value_flag. */
    method GetFlag(name: CString) returns (on: bool)
      requires Valid()
      ensures on <==> Convert(name) in settings && settings[Convert(name)].values != []
    {
      hide Registry.Valid, Record.Valid, Record.Contents, Convert;
      var r, item, k := Find(name);
      if r == null {
        return false;
      }
      on := r.ToFlag();
    }

    /** sb_get_value_string. */
    method GetText(name: CString) returns (text: Option<string>)
      requires Valid()
      ensures text == if Convert(name) in settings && settings[Convert(name)].values != []
                      then Some(settings[Convert(name)].values[0]) else None
    {
      hide Registry.Valid, Record.Valid, Record.Contents, Convert;
      var r, item, k := Find(name);
      if r == null {
        return None;
      }
      text := r.ToText();
    }

    /** The part of add_option that puts a new option at the end. */
    method Append(r: Record)
      requires Valid() && r.Foot() !! repr
      requires r.Valid() && r.name !in settings && r.Contents() == Setting(NoType, [])
      modifies repr
      ensures Valid() && |entries| == |old(entries)| + 1 && entries[|old(entries)|].record == r
      ensures settings == old(settings)[r.name := Setting(NoType, [])]
      ensures fresh(repr - old(repr) - r.Foot()) && r.name == old(r.name)
    {
      hide Convert, List.Valid, Record.Valid, Record.Contents, Right, Tied, Separate;
      RightNow(r);
      ghost var e := Entry(r, r.name, Setting(NoType, []), r.Foot());
      assert Right(e);
      var item := new Item<Record>(Some(r));
      options.AddTail(item);
      entries := entries + [e];
      settings := settings[r.name := Setting(NoType, [])];
      repr := repr + r.Foot() + {item};
      forall k | 0 <= k < |entries|
        ensures Has(entries[k])
      {
        assert k < |old(entries)| ==> old(Has(entries[k]));
      }
      SeparateAppend(old(entries), old(Base()), e, Base());
      TiedAppend(old(entries), old(settings), e);
    }

    /** add_option: the name is stored with its dashes converted. */
    method AddOption(name: CString) returns (r: Record, ghost k: nat)
      requires Valid()
      modifies repr
      ensures Valid() && k < |entries| && entries[k].record == r && r.name == Convert(name)
      ensures settings == if Convert(name) in old(settings) then old(settings)
                          else old(settings)[Convert(name) := Setting(NoType, [])]
      ensures fresh(repr - old(repr))
    {
      hide Convert, Registry.Valid, Record.Valid, Record.Contents;
      var found, item, at := Find(name);
      if found != null {
        return found, at;
      }
      var copy := new char[|name| + 1](i requires 0 <= i <= |name| => At(name, i));
      assert copy[..|name|] == name;
      ConvertDashes(copy, name);
      var stored: CString := copy[..|name|];
      ConvertTwice(name);
      k := |entries|;
      r := new Record(stored);
      Append(r);
    }

    /** The part of set_option that fills the option it found or added. */
    method Fill(r: Record, ghost k: nat, value: Option<CString>, kind: ArgType) returns (rc: int)
      requires Valid() && k < |entries| && entries[k].record == r
      modifies repr
      ensures Valid()
      ensures settings == old(settings)[old(r.name) := Setting(kind, Parsed(kind, value))]
      ensures rc == if Refused(kind, value) then 1 else 0
      ensures fresh(repr - old(repr))
    {
      hide Convert, Parsed, Refused, List.Valid, Record.Valid, Record.Contents, Right, Tied, Separate;
      assert Has(entries[k]);
      SeparateAt(entries, Base(), k);
      RightThen(entries[k]);
      rc := r.Assign(value, kind);
      RightNow(r);
      ghost var e := Entry(r, r.name, Setting(kind, Parsed(kind, value)), r.Foot());
      repr := repr + r.Foot();
      entries := entries[k := e];
      settings := settings[e.name := e.setting];
      forall i | 0 <= i < |entries|
        ensures Has(entries[i])
      {
        assert i != k ==> entries[i] == old(entries)[i] && old(Has(entries[i]));
      }
      assert e.foot - old(entries)[k].foot !! old(repr);
      SeparateUpdate(old(entries), Base(), k, e);
      TiedUpdate(old(entries), old(settings), k, e);
    }

    /** set_option. */
    method SetOption(name: CString, value: Option<CString>, kind: ArgType) returns (rc: int)
      requires Valid()
      modifies repr
      ensures Valid() && settings == Set(old(settings), Arg(name, value, kind))
      ensures rc == if Refused(kind, value) then 1 else 0
      ensures fresh(repr - old(repr))
    {
      hide Convert, Parsed, Registry.Valid, Registry.Has;
      var r, k := AddOption(name);
      rc := Fill(r, k, value, kind);
      assert settings == old(settings)[Convert(name) := Setting(kind, Parsed(kind, value))];
    }

    /** remove_option. */
    method RemoveOption(name: CString) returns (rc: int)
      requires Valid()
      modifies repr
      ensures Valid() && settings == old(settings) - {Convert(name)}
      ensures rc == if Convert(name) in old(settings) then 0 else 1
      ensures fresh(repr - old(repr))
    {
      hide Convert, Registry.Valid;
      var r, item, k := Find(name);
      if r == null {
        return 1;
      }
      Clear(r, k);
      CutOut(item, k);
      assert settings == old(settings) - {Convert(name)};
      rc := 0;
    }

    /** free_values of an option: it stays, without values. */
    method Clear(r: Record, ghost k: nat)
      requires Valid() && k < |entries| && entries[k].record == r
      modifies repr
      ensures Valid() && repr == old(repr) && options.nodes == old(options.nodes)
      ensures |entries| == |old(entries)| && entries[k].name == old(r.name)
      ensures settings == old(settings)[old(r.name) := Setting(old(r.kind), [])]
    {
      hide Convert, List.Valid, Record.Valid, Right, Tied, Separate;
      assert Has(entries[k]);
      SeparateAt(entries, Base(), k);
      RightThen(entries[k]);
      FreeValues(r.values);
      RightNow(r);
      ghost var e := Entry(r, r.name, Setting(r.kind, []), r.Foot());
      entries := entries[k := e];
      settings := settings[e.name := e.setting];
      forall i | 0 <= i < |entries|
        ensures Has(entries[i])
      {
        assert old(Has(entries[i]));
      }
      SeparateUpdate(old(entries), Base(), k, e);
      TiedUpdate(old(entries), old(settings), k, e);
    }

    /** The option leaves the list. */
    method CutOut(item: Item<Record>, ghost k: nat)
      requires Valid() && k < |entries| && options.nodes[k] == item
      modifies repr
      ensures Valid() && settings == old(settings) - {old(entries[k].name)}
      ensures repr == old(repr)
    {
      hide Convert, List.Valid, Record.Valid, Record.Contents, Right, Tied, Separate;
      SeparateAt(entries, Base(), k);
      options.Delete(item, k);
      entries := entries[..k] + entries[k + 1..];
      settings := settings - {old(entries[k].name)};
      forall i | 0 <= i < |entries|
        ensures entries[i] == old(entries)[Past(i, k)] && options.nodes[i] == old(options.nodes)[Past(i, k)]
        ensures Has(entries[i])
      {
        assert old(Has(entries[Past(i, k)]));
        SeparateAt(old(entries), old(Base()), Past(i, k));
      }
      SeparateRemove(old(entries), Base(), k, entries);
      TiedRemove(old(entries), old(settings), k, entries);
    }

    /** sb_register_arg_set. */
    method RegisterArgSet(args: seq<Arg>) returns (rc: int)
      requires Valid()
      modifies repr
      ensures Valid() && settings == Replay(old(settings), Registered(args))
      ensures rc == if exists i :: 0 <= i < |args| && Refused(args[i].kind, args[i].value) then 1 else 0
      ensures fresh(repr - old(repr))
    {
      hide Registry.Valid, Refused, Convert, Parsed, Set, Registered;
      var i := 0;
      while i < |args|
        invariant 0 <= i <= |args| && Valid() && fresh(repr - old(repr))
        invariant forall j :: 0 <= j < i ==> !Refused(args[j].kind, args[j].value)
        invariant Replay(settings, Registered(args[i..])) == Replay(old(settings), Registered(args))
      {
        ReplayFirst(settings, args[i..]);
        assert args[i..][1..] == args[i + 1..];
        rc := SetOption(args[i].name, args[i].value, args[i].kind);
        i := i + 1;
        if rc != 0 {
          return 1;
        }
      }
      rc := 0;
      assert args[i..] == [];
      assert Registered([]) == [];
    }

    /** Any sequence of settings and removals leaves a well-formed registry that
        behaves as the map after the same changes. */
    method ApplyAll(es: seq<Event>)
      requires Valid()
      modifies repr
      ensures Valid() && settings == Replay(old(settings), es)
      ensures fresh(repr - old(repr))
    {
      hide Registry.Valid, Convert, Parsed, Set;
      for i := 0 to |es|
        invariant Valid() && fresh(repr - old(repr))
        invariant settings == Replay(old(settings), es[..i])
      {
        assert es[..i + 1][..i] == es[..i];
        var rc;
        match es[i] {
          case Put(a) => rc := SetOption(a.name, a.value, a.kind);
          case Drop(n) => rc := RemoveOption(n);
        }
      }
      assert es[..|es|] == es;
    }

    /** What find_option finds afterwards, under any spelling of a name: what was
        last set for it, nothing if it was removed last, and what was there
        before if it is not among the changes. */
    method FindAfter(es: seq<Event>, name: CString) returns (r: Record?)
      requires Valid()
      modifies repr
      ensures Valid() && (r != null ==> r.Valid())
      ensures forall k :: 0 <= k < |es| && LastOf(es, Convert(name), k) ==>
                if es[k].Drop? then r == null
                else r != null && r.Contents() == Setting(es[k].arg.kind, Parsed(es[k].arg.kind, es[k].arg.value))
      ensures (forall k :: 0 <= k < |es| ==> es[k].Key() != Convert(name)) ==>
                if Convert(name) !in old(settings) then r == null
                else r != null && r.Contents() == old(settings)[Convert(name)]
    {
      hide Registry.Valid, Record.Valid, Record.Contents, Convert, Parsed, Replay, LastOf, Event.Key;
      ApplyAll(es);
      var found, item, at := Find(name);
      r := found;
      ReplayAt(old(settings), es, name);
    }
  }
}
