/** The text of the event log, character by character, and what is found in it again. */
module LogText {
  import opened Wrappers
  import opened EventLog
  import Stamps

  lemma {:induction false} FirstKeys()
    ensures "\"" + "ts" + "\":" == "\"ts\":" && "\"" + "path" + "\":" == "\"path\":"
    ensures "\"" + "op" + "\":" == "\"op\":" && "\"" + "pid" + "\":" == "\"pid\":"
  {
  }

  lemma {:induction false} LastKeys()
    ensures "\"" + "comm" + "\":" == "\"comm\":" && "\"" + "exe" + "\":" == "\"exe\":"
    ensures "\"" + "cmdline" + "\":" == "\"cmdline\":" && "\"" + "uid" + "\":" == "\"uid\":"
  {
  }

  /** One line, written out. */
  lemma {:induction false} LineIs(e: LogEvent)
    ensures Line(e) ==
            "{" + ("\"ts\":" + ("\"" + e.ts + "\"") + "," +
            ("\"path\":" + ("\"" + Escape(e.path) + "\"") + "," +
            ("\"op\":" + ("\"" + e.op + "\"") + "," +
            ("\"pid\":" + IntText(e.pid) + "," +
            ("\"comm\":" + ("\"" + Escape(e.comm) + "\"") + "," +
            ("\"exe\":" + ("\"" + Escape(e.exe) + "\"") + "," +
            ("\"cmdline\":" + ("\"" + Escape(e.cmdline) + "\"") + "," +
            ("\"uid\":" + NatText(e.uid) + "}"))))))))
  {
    FirstKeys();
    LastKeys();
  }

  /** Escapes, character by character. */
  lemma {:induction false} Escapes()
    ensures EscapeChar('"') == ['\\', '"'] && EscapeChar('\\') == ['\\', '\\']
    ensures EscapeChar('\n') == ['\\', 'n'] && EscapeChar('\t') == ['\\', 't']
    ensures forall c: char :: (c as int) >= 0x20 && c != '"' && c != '\\' ==> EscapeChar(c) == [c]
    ensures forall c: char :: (c as int) < 0x20 && c != '\n' && c != '\t' ==>
              EscapeChar(c) == "\\u00" + [if (c as int) < 0x10 then '0' else '1', "0123456789abcdef"[c as int % 0x10]]
    ensures Unescaped('n') == '\n' && Unescaped('t') == '\t'
    ensures forall c: char :: c != 'n' && c != 't' ==> Unescaped(c) == c
  {
    assert "\\u00" == ['\\', 'u'] + ['0', '0'];
    assert HexDigit(0) == '0' && HexDigit(1) == '1';
  }

  /** Decimal numbers without leading zeros, a minus sign in front of negative ones. */
  lemma {:induction false} NatTextIsDecimal(n: nat)
    ensures Stamps.ParseDigits(NatText(n)) == Some(n)
    ensures NatText(n) != "" && (NatText(n)[0] == '0' ==> n == 0)
  {
    if n < 10 {
      assert NatText(n)[..0] == "";
    } else {
      NatTextIsDecimal(n / 10);
      var s := NatText(n);
      assert s[..|s| - 1] == NatText(n / 10);
    }
  }

  lemma {:induction false} IntTextIsDecimal(n: int)
    ensures IntText(n) == if n < 0 then "-" + NatText(-n) else NatText(n)
    ensures n >= 0 ==> Stamps.ParseDigits(IntText(n)) == Some(n)
  {
    if n >= 0 {
      NatTextIsDecimal(n);
    }
  }

  /* ---- Lines ---- */

  /** A line ends at its newline, and a carriage return before that is no part of it. */
  lemma {:induction false} LinesAre(line: string, rest: string)
    requires '\n' !in line
    ensures line == "" || line[|line| - 1] != '\r' ==> Lines(line + "\n" + rest) == [line] + Lines(rest)
    ensures Lines(line + "\r\n" + rest) == [line] + Lines(rest)
    ensures line != "" ==> Lines(line) == [line]
  {
    var s, t := line + "\n" + rest, line + "\r\n" + rest;
    NewlineAfter(line, rest);
    assert s[..|line|] == line && s[|line| + 1..] == rest;
    var ended := line + "\r";
    NewlineAfter(ended, rest);
    assert t == ended + "\n" + rest;
    assert t[..|line|] == line && t[|ended| + 1..] == rest && t[|line|] == '\r';
    LastLine(line);
  }

  lemma {:induction false} LastLine(line: string)
    requires '\n' !in line
    ensures UpToNewline(line) == |line|
  {
    if line != "" {
      LastLine(line[1..]);
    }
  }

  /** Among ASCII characters the blank ones are the space and those from tab to carriage
   *  return, and a line of blanks is no event.
   */
  lemma {:induction false} BlankLines(line: string)
    requires forall i :: 0 <= i < |line| ==> (line[i] as int) < 0x80
    ensures ParseLine(line) == None <==> forall i :: 0 <= i < |line| ==> line[i] == ' ' || 9 <= (line[i] as int) <= 13
  {
    assert ' ' as int == 32;
  }

  /* ---- Loading ---- */

  // The events at these positions of the log, in order.
  ghost predicate Positions(at: seq<nat>, n: nat) {
    && (forall i :: 0 <= i < |at| ==> at[i] < n)
    && (forall i, j :: 0 <= i < j < |at| ==> at[i] < at[j])
  }

  function Shift(at: seq<nat>): (r: seq<nat>)
    ensures |r| == |at|
    ensures forall i :: 0 <= i < |r| ==> r[i] == at[i] + 1
  {
    if at == [] then [] else [at[0] + 1] + Shift(at[1..])
  }

  // The event's path, as it comes back, is the one asked for or its absolute form.
  predicate AskedFor(e: LogEvent, target: string, targetAbs: string) {
    Mangle(e.path) == target || Mangle(e.path) == targetAbs
  }

  // What comes back of an event.
  predicate ComesBack(r: ReadEvent, e: LogEvent) {
    && r.ts == e.ts && r.op == e.op && r.pid == IntText(e.pid)
    && r.path == Mangle(e.path) && r.comm == Mangle(e.comm) && r.exe == Mangle(e.exe)
    && r.cmdline == Mangle(e.cmdline)
  }

  ghost predicate AllComeBack(events: seq<LogEvent>, at: seq<nat>, rs: seq<ReadEvent>) {
    && Positions(at, |events|)
    && |rs| == |at|
    && (forall i :: 0 <= i < |at| ==> ComesBack(rs[i], events[at[i]]))
  }

  ghost predicate JustAskedFor(events: seq<LogEvent>, at: seq<nat>, target: string, targetAbs: string) {
    forall k :: 0 <= k < |events| ==> (k in at <==> AskedFor(events[k], target, targetAbs))
  }

  lemma {:induction false} ShiftMembers(at: seq<nat>, k: nat)
    ensures k in Shift(at) <==> k > 0 && k - 1 in at
  {
    if k > 0 && k - 1 in at {
      var i :| 0 <= i < |at| && at[i] == k - 1;
      assert Shift(at)[i] == k;
    }
  }

  function Longer(here: bool, at: seq<nat>): seq<nat> {
    (if here then [0] else []) + Shift(at)
  }

  lemma {:induction false} LongerJustAskedFor(events: seq<LogEvent>, at: seq<nat>, target: string, targetAbs: string)
    requires events != [] && JustAskedFor(events[1..], at, target, targetAbs)
    ensures JustAskedFor(events, Longer(AskedFor(events[0], target, targetAbs), at), target, targetAbs)
  {
    var longer := Longer(AskedFor(events[0], target, targetAbs), at);
    forall k | 0 <= k < |events| ensures k in longer <==> AskedFor(events[k], target, targetAbs) {
      ShiftMembers(at, k);
      if k > 0 {
        assert events[k] == events[1..][k - 1];
      }
    }
  }

  lemma {:induction false} ShiftComesBack(events: seq<LogEvent>, at: seq<nat>, rs: seq<ReadEvent>)
    requires events != [] && AllComeBack(events[1..], at, rs)
    ensures AllComeBack(events, Shift(at), rs)
  {
    forall i | 0 <= i < |at| ensures Shift(at)[i] < |events| && ComesBack(rs[i], events[Shift(at)[i]]) {
      assert events[1..][at[i]] == events[at[i] + 1];
    }
  }

  lemma {:induction false} FirstComesBack(events: seq<LogEvent>, at: seq<nat>, rs: seq<ReadEvent>)
    requires events != [] && AllComeBack(events, at, rs) && forall i :: 0 <= i < |at| ==> at[i] > 0
    ensures AllComeBack(events, [0] + at, [Reread(events[0])] + rs)
  {
  }

  lemma {:induction false} LongerComesBack(events: seq<LogEvent>, here: bool, at: seq<nat>, rs: seq<ReadEvent>)
    requires events != [] && AllComeBack(events[1..], at, rs)
    ensures AllComeBack(events, Longer(here, at), (if here then [Reread(events[0])] else []) + rs)
  {
    ShiftComesBack(events, at, rs);
    if here {
      FirstComesBack(events, Shift(at), rs);
    } else {
      assert [] + Shift(at) == Shift(at) && [] + rs == rs;
    }
  }

  lemma {:induction false} ExpectedStep(events: seq<LogEvent>, here: bool, target: string, targetAbs: string)
    requires events != [] && here == AskedFor(events[0], target, targetAbs)
    ensures Expected(events, target, targetAbs) ==
            (if here then [Reread(events[0])] else []) + Expected(events[1..], target, targetAbs)
  {
    var rest := Expected(events[1..], target, targetAbs);
    assert [] + rest == rest;
  }

  lemma {:induction false} ExpectedPicks(events: seq<LogEvent>, target: string, targetAbs: string)
    returns (at: seq<nat>)
    ensures JustAskedFor(events, at, target, targetAbs)
    ensures AllComeBack(events, at, Expected(events, target, targetAbs))
  {
    if events == [] {
      at := [];
    } else {
      var here, rest := AskedFor(events[0], target, targetAbs), Expected(events[1..], target, targetAbs);
      at := ExpectedPicks(events[1..], target, targetAbs);
      LongerJustAskedFor(events, at, target, targetAbs);
      LongerComesBack(events, here, at, rest);
      ExpectedStep(events, here, target, targetAbs);
      at := Longer(here, at);
    }
  }

  /** Loading a printed log gives back, in order, exactly the events whose path is the one
   *  asked for, field by field.
   */
  lemma {:induction false} LoadPicks(events: seq<LogEvent>, target: string, targetAbs: string) returns (at: seq<nat>)
    requires forall e :: e in events ==> Loggable(e)
    ensures JustAskedFor(events, at, target, targetAbs)
    ensures AllComeBack(events, at, LoadEvents(PrintAll(events), target, targetAbs))
  {
    LogRoundTrip(events, target, targetAbs);
    at := ExpectedPicks(events, target, targetAbs);
  }
}
