/** The modem's command parser: it splits a byte stream into commands and finds each command's handler. */
module AtParsers {

  import opened Wrappers
  import opened Sequences

  type Handler = nat

  // --- splitting -----------------------------------------------------------

  predicate Ends(c: char) {
    c == '\n' || c == '\r'
  }

  function Init<T>(s: seq<T>): seq<T>
    requires s != []
  {
    s[..|s| - 1]
  }

  function Last<T>(s: seq<T>): T
    requires s != []
  {
    s[|s| - 1]
  }

  lemma Snoc<T>(s: seq<T>)
    requires s != []
    ensures Init(s) + [Last(s)] == s
  {
  }

  lemma InitAppend<T>(a: seq<T>, b: seq<T>)
    requires b != []
    ensures Init(a + b) == a + Init(b) && Last(a + b) == Last(b)
  {
  }

  /** What no terminator has closed yet. */
  function Leftover(bs: string): string {
    if bs == "" || Ends(Last(bs)) then "" else Leftover(Init(bs)) + [Last(bs)]
  }

  /** What the terminators close, in order. */
  function Commands(bs: string): seq<string> {
    if bs == "" then []
    else if Ends(Last(bs)) then Commands(Init(bs)) + [Leftover(Init(bs))]
    else Commands(Init(bs))
  }

  function Terminators(bs: string): string {
    if bs == "" then "" else if Ends(Last(bs)) then Terminators(Init(bs)) + [Last(bs)] else Terminators(Init(bs))
  }

  /** Commands with their terminators. */
  function Closed(commands: seq<string>, ends: string): string
    requires |ends| == |commands|
  {
    if commands == [] then "" else Closed(Init(commands), Init(ends)) + Last(commands) + [Last(ends)]
  }

  /** Nothing is lost or moved. */
  lemma {:induction false} SplitExact(bs: string)
    ensures |Terminators(bs)| == |Commands(bs)| && Closed(Commands(bs), Terminators(bs)) + Leftover(bs) == bs
    ensures forall i :: 0 <= i < |Terminators(bs)| ==> Terminators(bs)[i] == '\n' || Terminators(bs)[i] == '\r'
  {
    if bs != "" {
      SplitExact(Init(bs));
      Snoc(bs);
      if Ends(Last(bs)) {
        assert Init(Commands(bs)) == Commands(Init(bs)) && Init(Terminators(bs)) == Terminators(Init(bs));
      }
    }
  }

  predicate NoEnd(s: string) {
    forall i :: 0 <= i < |s| ==> s[i] != '\n' && s[i] != '\r'
  }

  /** No command contains a terminator, and neither does the rest. */
  lemma {:induction false} SplitClean(bs: string)
    ensures NoEnd(Leftover(bs)) && forall k :: 0 <= k < |Commands(bs)| ==> NoEnd(Commands(bs)[k])
  {
    if bs != "" {
      SplitClean(Init(bs));
    }
  }

  lemma {:induction false} CleanIsLeft(bs: string)
    requires NoEnd(bs)
    ensures Commands(bs) == [] && Leftover(bs) == bs
  {
    if bs != "" {
      assert !Ends(Last(bs));
      assert NoEnd(Init(bs));
      CleanIsLeft(Init(bs));
      Snoc(bs);
    }
  }

  /** Bytes that come later are split as if they followed the rest of those that came before. */
  lemma {:induction false} SplitAppend(a: string, b: string)
    ensures Commands(a + b) == Commands(a) + Commands(Leftover(a) + b)
    ensures Leftover(a + b) == Leftover(Leftover(a) + b)
  {
    if b == "" {
      assert a + b == a && Leftover(a) + b == Leftover(a);
      SplitClean(a);
      CleanIsLeft(Leftover(a));
    } else {
      InitAppend(a, b);
      InitAppend(Leftover(a), b);
      SplitAppend(a, Init(b));
      Reassociate(Commands(a), Commands(Leftover(a) + Init(b)), [Leftover(Leftover(a) + Init(b))]);
    }
  }

  // --- the order of keys ---------------------------------------------------

  /** The order in which the handlers are kept. */
  predicate Less(a: string, b: string) {
    b != "" && (a == "" || a[0] < b[0] || (a[0] == b[0] && Less(a[1..], b[1..])))
  }

  lemma {:induction false} LessTotal(a: string, b: string)
    ensures a == b || Less(a, b) || Less(b, a)
    ensures !Less(a, a)
  {
    if a != "" {
      LessTotal(a[1..], if b == "" then "" else b[1..]);
      if b != "" && a[0] == b[0] && a[1..] == b[1..] {
        assert a == [a[0]] + a[1..] && b == [b[0]] + b[1..];
      }
    }
  }

  lemma {:induction false} LessTrans(a: string, b: string, c: string)
    requires Less(a, b) && Less(b, c)
    ensures Less(a, c)
  {
    if a != "" && a[0] == b[0] == c[0] {
      LessTrans(a[1..], b[1..], c[1..]);
    }
  }

  /** Among beginnings of one string the order is that of length. */
  lemma {:induction false} LessOfPrefixes(a: string, b: string, t: string)
    requires a <= t && b <= t
    ensures Less(a, b) <==> |a| < |b|
  {
    if a != "" && b != "" {
      LessOfPrefixes(a[1..], b[1..], t[1..]);
    }
  }

  // --- handlers ------------------------------------------------------------

  datatype Entry = Entry(key: string, handler: Handler)

  predicate Ordered(hs: seq<Entry>) {
    forall i, j :: 0 <= i < j < |hs| ==> Less(hs[i].key, hs[j].key)
  }

  predicate Known(hs: seq<Entry>, key: string) {
    exists i :: 0 <= i < |hs| && hs[i].key == key
  }

  /** The handler with the shortest key that begins the command. */
  ghost predicate Chosen(hs: seq<Entry>, command: string, e: Entry) {
    && e in hs && e.key <= command
    && forall d :: d in hs && d.key <= command && d != e ==> |e.key| < |d.key|
  }

  /** What a command calls: the chosen handler, with the command behind its "AT". */
  ghost predicate Calls(hs: seq<Entry>, command: string, call: Option<(Handler, string)>) {
    if "AT" <= command && exists e :: Chosen(hs, command[2..], e) then
      exists e :: Chosen(hs, command[2..], e) && call == Some((e.handler, command[2..]))
    else
      call == None
  }

  /** There is at most one answer. */
  lemma CallsUnique(hs: seq<Entry>, command: string, a: Option<(Handler, string)>, b: Option<(Handler, string)>)
    requires Ordered(hs) && Calls(hs, command, a) && Calls(hs, command, b)
    ensures a == b
  {
  }

  /** The first entry whose key begins the command, in the order of the keys. */
  function Lookup(hs: seq<Entry>, command: string): Option<Handler> {
    if hs == [] then None else if hs[0].key <= command then Some(hs[0].handler) else Lookup(hs[1..], command)
  }

  function CallOf(hs: seq<Entry>, command: string): Option<(Handler, string)> {
    if !("AT" <= command) then None
    else
      match Lookup(hs, command[2..])
      case None => None
      case Some(h) => Some((h, command[2..]))
  }

  function CallsOf(hs: seq<Entry>, commands: seq<string>): seq<(Handler, string)> {
    if commands == [] then []
    else CallsOf(hs, Init(commands)) + Called(CallOf(hs, Last(commands)))
  }

  function Called(call: Option<(Handler, string)>): seq<(Handler, string)> {
    if call.None? then [] else [call.value]
  }

  lemma {:induction false} CallsAppend(hs: seq<Entry>, a: seq<string>, b: seq<string>)
    ensures CallsOf(hs, a + b) == CallsOf(hs, a) + CallsOf(hs, b)
  {
    if b == [] {
      assert a + b == a;
    } else {
      InitAppend(a, b);
      CallsAppend(hs, a, Init(b));
      Reassociate(CallsOf(hs, a), CallsOf(hs, Init(b)), Called(CallOf(hs, Last(b))));
    }
  }

  lemma NextCommand(hs: seq<Entry>, commands: seq<string>, command: string)
    ensures CallsOf(hs, commands + [command]) == CallsOf(hs, commands) + Called(CallOf(hs, command))
  {
    assert Init(commands + [command]) == commands;
  }

  /** First in order means shortest, although the keys are ordered by their letters. */
  lemma {:induction false} LookupShortest(hs: seq<Entry>, command: string)
    requires Ordered(hs)
    ensures Lookup(hs, command).None? <==> forall e :: e in hs ==> !(e.key <= command)
    ensures Lookup(hs, command).Some? ==> exists e :: Chosen(hs, command, e) && e.handler == Lookup(hs, command).value
  {
    if hs != [] {
      var first := hs[0];
      if first.key <= command {
        forall d | d in hs && d.key <= command && d != first
          ensures |first.key| < |d.key|
        {
          var j :| 0 <= j < |hs| && hs[j] == d;
          LessOfPrefixes(first.key, d.key, command);
        }
        assert Chosen(hs, command, first);
      } else {
        LookupShortest(hs[1..], command);
        if Lookup(hs[1..], command).Some? {
          var e :| Chosen(hs[1..], command, e) && e.handler == Lookup(hs[1..], command).value;
          assert Chosen(hs, command, e);
        }
      }
    }
  }

  /** What is called is what should be, and nothing else would be right. */
  lemma CallOfIsRight(hs: seq<Entry>, command: string, call: Option<(Handler, string)>)
    requires Ordered(hs)
    ensures Calls(hs, command, call) <==> call == CallOf(hs, command)
  {
    if "AT" <= command {
      LookupShortest(hs, command[2..]);
    }
    if Calls(hs, command, call) {
      CallsUnique(hs, command, call, CallOf(hs, command));
    }
  }

  class AtParser {
    /** Kept in the order of the keys, each key once. */
    var handlers: seq<Entry>
    /** The handlers called so far. */
    var calls: seq<(Handler, string)>

    constructor ()
      ensures handlers == [] && calls == []
    {
      handlers, calls := [], [];
    }

    /** A key that is already there keeps its handler. */
    method RegisterCommand(key: string, handler: Handler)
      requires Ordered(handlers)
      modifies this`handlers
      ensures Ordered(handlers)
      ensures forall e :: e in handlers <==> e in old(handlers) || (e == Entry(key, handler) && !old(Known(handlers, key)))
    {
      var i := 0;
      while i < |handlers| && Less(handlers[i].key, key)
        invariant i <= |handlers| && forall j :: 0 <= j < i ==> Less(handlers[j].key, key)
      {
        i := i + 1;
      }
      if i < |handlers| && handlers[i].key == key {
        return;
      }
      forall j | i <= j < |handlers|
        ensures Less(key, handlers[j].key)
      {
        LessTotal(handlers[i].key, key);
        if i < j {
          LessTrans(key, handlers[i].key, handlers[j].key);
        }
      }
      LessTotal(key, key);
      handlers := handlers[..i] + [Entry(key, handler)] + handlers[i..];
      assert handlers[i] == Entry(key, handler);
      forall e | e in old(handlers)
        ensures e in handlers
      {
        var j :| 0 <= j < |old(handlers)| && old(handlers)[j] == e;
        assert handlers[if j < i then j else j + 1] == e;
      }
    }

    method ProcessCommand(command: string)
      requires Ordered(handlers)
      modifies this`calls
      ensures calls == old(calls) + Called(CallOf(handlers, command))
    {
      if !("AT" <= command) {
        return;
      }
      var body := command[2..];
      var i := 0;
      while i < |handlers| && !(handlers[i].key <= body)
        invariant i <= |handlers| && Lookup(handlers, body) == Lookup(handlers[i..], body)
      {
        i := i + 1;
      }
      if i < |handlers| {
        calls := calls + [(handlers[i].handler, body)];
      }
    }

    /** Handles every command that is complete, and answers what is left of the data. */
    method ProcessData(data: string) returns (rest: string)
      requires Ordered(handlers)
      modifies this`calls
      ensures calls == old(calls) + CallsOf(handlers, Commands(data)) && rest == Leftover(data)
    {
      var processed: nat := 0;
      var pos: nat := 0;
      assert data[..0] == "" && data[0..0] == "";
      while pos < |data|
        invariant processed <= pos <= |data| && Leftover(data[..pos]) == data[processed..pos]
        invariant calls == old(calls) + CallsOf(handlers, Commands(data[..pos]))
      {
        assert Init(data[..pos + 1]) == data[..pos] && Last(data[..pos + 1]) == data[pos];
        if data[pos] == '\n' || data[pos] == '\r' {
          Reassociate(old(calls), CallsOf(handlers, Commands(data[..pos])), Called(CallOf(handlers, data[processed..pos])));
          NextCommand(handlers, Commands(data[..pos]), data[processed..pos]);
          ProcessCommand(data[processed..pos]);
          processed := pos + 1;
        } else {
          assert data[processed..pos + 1] == data[processed..pos] + [data[pos]];
        }
        pos := pos + 1;
      }
      assert data[..|data|] == data;
      rest := data[processed..];
    }
  }

  /** The modem: it keeps what is left between two chunks. */
  class GsmMessageProcessor {
    const parser: AtParser
    var buffer: string

    constructor (parser: AtParser)
      ensures this.parser == parser && buffer == ""
    {
      this.parser, buffer := parser, "";
    }

    method ProcessData(data: string)
      requires Ordered(parser.handlers)
      modifies this`buffer, parser`calls
      ensures parser.calls == old(parser.calls) + CallsOf(parser.handlers, Commands(old(buffer) + data))
      ensures buffer == Leftover(old(buffer) + data)
    {
      for i := 0 to |data|
        invariant buffer == old(buffer) + data[..i] && parser.calls == old(parser.calls)
      {
        buffer := buffer + [data[i]];
      }
      assert data[..|data|] == data;
      buffer := parser.ProcessData(buffer);
    }
  }

  function Joined(chunks: seq<string>): string {
    if chunks == [] then "" else Joined(Init(chunks)) + Last(chunks)
  }

  /** However the stream is cut into chunks, the same handlers are called and the same bytes are left. */
  method ProcessChunks(m: GsmMessageProcessor, chunks: seq<string>)
    requires Ordered(m.parser.handlers) && Commands(m.buffer) == []
    modifies m`buffer, m.parser`calls
    ensures m.parser.calls == old(m.parser.calls) + CallsOf(m.parser.handlers, Commands(old(m.buffer) + Joined(chunks)))
    ensures m.buffer == Leftover(old(m.buffer) + Joined(chunks))
  {
    ghost var start, calls := m.buffer, m.parser.calls;
    assert start + Joined(chunks[..0]) == start;
    SplitClean(start);
    SplitExact(start);
    for i := 0 to |chunks|
      invariant m.parser.calls == calls + CallsOf(m.parser.handlers, Commands(start + Joined(chunks[..i])))
      invariant m.buffer == Leftover(start + Joined(chunks[..i]))
    {
      ghost var seen := start + Joined(chunks[..i]);
      NextChunk(m.parser.handlers, calls, seen, chunks[i]);
      JoinedNext(start, chunks, i);
      m.ProcessData(chunks[i]);
    }
    assert chunks[..|chunks|] == chunks;
  }

  lemma JoinedNext(start: string, chunks: seq<string>, i: nat)
    requires i < |chunks|
    ensures start + Joined(chunks[..i + 1]) == (start + Joined(chunks[..i])) + chunks[i]
  {
    assert Init(chunks[..i + 1]) == chunks[..i];
  }

  lemma NextChunk(hs: seq<Entry>, calls: seq<(Handler, string)>, seen: string, chunk: string)
    ensures calls + CallsOf(hs, Commands(seen + chunk)) ==
            (calls + CallsOf(hs, Commands(seen))) + CallsOf(hs, Commands(Leftover(seen) + chunk))
    ensures Leftover(seen + chunk) == Leftover(Leftover(seen) + chunk)
  {
    SplitAppend(seen, chunk);
    CallsAppend(hs, Commands(seen), Commands(Leftover(seen) + chunk));
  }
}
