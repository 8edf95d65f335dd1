/** The JSONL event log: the daemon's printer and the query tool's parser.
 *
 *  The parser finds a key by searching for its quoted text, so the round trip
 *  rests on no printed value ever containing a quoted key followed by a colon.
 */
module EventLog {
  import opened Wrappers

  /* ---- Escaping (section 7 of RFC 8259) ---- */

  function HexDigit(n: nat): char
    requires n < 16
  {
    "0123456789abcdef"[n]
  }

  // Four hexadecimal digits; only code points below 0x20 are written this way.
  function Hex4(n: nat): string
    requires n < 0x20
  {
    ['0', '0', HexDigit(n / 16), HexDigit(n % 16)]
  }

  predicate OtherControl(c: char) {
    (c as int) < 0x20 && c != '\n' && c != '\t'
  }

  function EscapeChar(c: char): string {
    if c == '"' then ['\\', '"']
    else if c == '\\' then ['\\', '\\']
    else if c == '\n' then ['\\', 'n']
    else if c == '\t' then ['\\', 't']
    else if (c as int) < 0x20 then ['\\', 'u'] + Hex4(c as int)
    else [c]
  }

  function Escape(s: string): string {
    if s == "" then "" else EscapeChar(s[0]) + Escape(s[1..])
  }

  lemma {:induction false} EscapeSnoc(s: string, c: char)
    ensures Escape(s + [c]) == Escape(s) + EscapeChar(c)
  {
    if s == "" {
      assert s + [c] == [c] && [c][1..] == "";
      assert Escape([c]) == EscapeChar(c) + Escape("");
    } else {
      assert (s + [c])[1..] == s[1..] + [c];
      EscapeSnoc(s[1..], c);
    }
  }

  method JsonEscape(s: string) returns (out: string)
    ensures out == Escape(s)
  {
    out := "";
    for i := 0 to |s|
      invariant out == Escape(s[..i])
    {
      var c := s[i];
      EscapeSnoc(s[..i], c);
      assert s[..i + 1] == s[..i] + [c];
      if c == '"' {
        out := out + ['\\', '"'];
      } else if c == '\\' {
        out := out + ['\\', '\\'];
      } else if c == '\n' {
        out := out + ['\\', 'n'];
      } else if c == '\t' {
        out := out + ['\\', 't'];
      } else if (c as int) < 0x20 {
        out := out + (['\\', 'u'] + Hex4(c as int));
      } else {
        out := out + [c];
      }
    }
    assert s[..|s|] == s;
  }

  /* ---- Reading a quoted value ---- */

  function Unescaped(c: char): char {
    if c == 'n' then '\n' else if c == 't' then '\t' else c
  }

  // Up to the closing quote; an escape the parser does not know yields its letter.
  function Unquote(s: string): string {
    if s == "" || s[0] == '"' then ""
    else if s[0] == '\\' then
      if |s| == 1 then "" else [Unescaped(s[1])] + Unquote(s[2..])
    else [s[0]] + Unquote(s[1..])
  }

  function FindSub(line: string, needle: string): Option<nat> {
    if needle <= line then Some(0)
    else if line == "" then None
    else match FindSub(line[1..], needle) case None => None case Some(i) => Some(i + 1)
  }

  lemma {:induction false} FindSubInBounds(line: string, needle: string)
    ensures FindSub(line, needle).Some? ==> FindSub(line, needle).value + |needle| <= |line|
  {
    if !(needle <= line) && line != "" {
      FindSubInBounds(line[1..], needle);
    }
  }

  function Needle(key: string): string {
    "\"" + key + "\":"
  }

  function UpToDelimiter(s: string): string {
    if s == "" || s[0] == ',' || s[0] == '}' then "" else [s[0]] + UpToDelimiter(s[1..])
  }

  function ValueText(rest: string): string {
    if rest != "" && rest[0] == '"' then Unquote(rest[1..]) else UpToDelimiter(rest)
  }

  // What follows the first match.
  function RestAfter(line: string, needle: string): Option<string> {
    match FindSub(line, needle)
    case None => None
    case Some(i) =>
      FindSubInBounds(line, needle);
      Some(line[i + |needle|..])
  }

  function FieldOf(line: string, key: string): string {
    match RestAfter(line, Needle(key))
    case None => ""
    case Some(rest) => ValueText(rest)
  }

  method Field(line: string, key: string) returns (out: string)
    ensures out == FieldOf(line, key)
  {
    out := "";
    var needle := Needle(key);
    var start := FindSub(line, needle);
    FindSubInBounds(line, needle);
    if start.None? {
      return;
    }
    var rest := line[start.value + |needle|..];
    if rest == "" || rest[0] != '"' {
      return UpToDelimiter(rest);
    }
    out := ReadQuoted(rest[1..]);
  }

  // The character loop behind an opening quote.
  method ReadQuoted(chars: string) returns (out: string)
    ensures out == Unquote(chars)
  {
    out := "";
    var i := 0;
    while i < |chars|
      invariant 0 <= i <= |chars|
      invariant Unquote(chars) == out + Unquote(chars[i..])
    {
      var c := chars[i];
      ghost var left, was := chars[i..], out;
      assert left[0] == c && left[1..] == chars[i + 1..];
      if c == '\\' {
        if i + 1 < |chars| {
          assert left[2..] == chars[i + 2..];
          out := out + [Unescaped(chars[i + 1])];
          i := i + 2;
          assert was + ([Unescaped(left[1])] + Unquote(chars[i..])) == out + Unquote(chars[i..]);
        } else {
          i := i + 1;
          assert Unquote(left) == "" && Unquote(chars[i..]) == "";
        }
      } else if c == '"' {
        assert Unquote(left) == "";
        return;
      } else {
        out := out + [c];
        i := i + 1;
        assert was + ([c] + Unquote(chars[i..])) == out + Unquote(chars[i..]);
      }
    }
  }

  /* ---- Escape, then read back ---- */

  // Control characters other than newline and tab come back as the text uXXXX.
  function MangleChar(c: char): string {
    if OtherControl(c) then ['u'] + Hex4(c as int) else [c]
  }

  function Mangle(s: string): string {
    if s == "" then "" else MangleChar(s[0]) + Mangle(s[1..])
  }

  lemma {:induction false} ReadPlain(s: string, rest: string)
    requires forall i :: 0 <= i < |s| ==> s[i] != '"' && s[i] != '\\'
    ensures Unquote(s + rest) == s + Unquote(rest)
  {
    if s == "" {
      assert s + rest == rest;
    } else {
      assert (s + rest)[1..] == s[1..] + rest;
      ReadPlain(s[1..], rest);
      assert [s[0]] + (s[1..] + Unquote(rest)) == s + Unquote(rest);
    }
  }

  lemma {:induction false} ReadEscape(e: char, rest: string)
    ensures Unquote(['\\', e] + rest) == [Unescaped(e)] + Unquote(rest)
  {
    assert (['\\', e] + rest)[2..] == rest;
  }

  lemma {:induction false} HexIsPlain(n: nat)
    requires n < 16
    ensures HexDigit(n) != '"' && HexDigit(n) != '\\'
  {
  }

  // The escape loses its backslash; what follows the u is read as it stands.
  lemma {:induction false} ReadHex(hex: string, rest: string)
    requires forall i :: 0 <= i < |hex| ==> hex[i] != '"' && hex[i] != '\\'
    ensures Unquote(['\\', 'u'] + hex + rest) == ['u'] + hex + Unquote(rest)
  {
    assert ['\\', 'u'] + hex + rest == ['\\', 'u'] + (hex + rest);
    ReadEscape('u', hex + rest);
    ReadPlain(hex, rest);
  }

  lemma {:induction false} ReadEscapedChar(c: char, rest: string)
    ensures Unquote(EscapeChar(c) + rest) == MangleChar(c) + Unquote(rest)
  {
    if OtherControl(c) {
      HexIsPlain(c as int / 16);
      HexIsPlain(c as int % 16);
      ReadHex(Hex4(c as int), rest);
    } else if |EscapeChar(c)| == 2 {
      ReadEscape(EscapeChar(c)[1], rest);
    } else {
      assert ([c] + rest)[1..] == rest;
    }
  }

  /** Reading back an escaped value gives the value, with each other control
   *  character replaced by its uXXXX text.
   */
  lemma {:induction false} ReadBack(v: string, rest: string)
    ensures Unquote(Escape(v) + "\"" + rest) == Mangle(v)
  {
    if v != "" {
      var tail := Escape(v[1..]) + "\"" + rest;
      assert Escape(v) + "\"" + rest == EscapeChar(v[0]) + tail;
      ReadEscapedChar(v[0], tail);
      ReadBack(v[1..], rest);
    } else {
      assert Escape(v) + "\"" + rest == "\"" + rest;
    }
  }

  lemma {:induction false} MangleLength(s: string)
    ensures |Mangle(s)| >= |s|
    ensures |Mangle(s)| == |s| <==> forall i :: 0 <= i < |s| ==> !OtherControl(s[i])
  {
    if s != "" {
      MangleLength(s[1..]);
    }
  }

  /** So the value comes back unchanged exactly when it has no such character. */
  lemma {:induction false} MangleIsIdentity(s: string)
    ensures Mangle(s) == s <==> forall i :: 0 <= i < |s| ==> !OtherControl(s[i])
  {
    MangleLength(s);
    if s != "" && |Mangle(s)| == |s| {
      MangleLength(s[1..]);
      MangleIsIdentity(s[1..]);
    }
  }

  /* ---- One printed line ---- */

  datatype Item = Text(key: string, value: string) | Number(key: string, digits: string)

  // Letters only, as every key is.
  predicate PlainKey(key: string) {
    key != "" && forall i :: 0 <= i < |key| ==> 'a' <= key[i] <= 'z'
  }

  predicate NumberText(s: string) {
    forall i :: 0 <= i < |s| ==> s[i] == '-' || '0' <= s[i] <= '9'
  }

  function Printed(x: Item): string {
    Needle(x.key) + match x case Text(_, v) => "\"" + Escape(v) + "\"" case Number(_, d) => d
  }

  function Items(xs: seq<Item>): string
    requires xs != []
  {
    if |xs| == 1 then Printed(xs[0]) + "}" else Printed(xs[0]) + "," + Items(xs[1..])
  }

  ghost predicate WellFormedItem(x: Item) {
    PlainKey(x.key) && (x.Number? ==> NumberText(x.digits))
  }

  // Every quote inside is preceded by a backslash.
  ghost predicate QuotesEscaped(v: string) {
    forall j :: 0 <= j < |v| && v[j] == '"' ==> j > 0 && v[j - 1] == '\\'
  }

  lemma {:induction false} EscapeEscapesQuotes(s: string)
    ensures QuotesEscaped(Escape(s))
  {
    if s != "" {
      var head, tail := EscapeChar(s[0]), Escape(s[1..]);
      EscapeEscapesQuotes(s[1..]);
      forall j | 0 <= j < |head + tail| && (head + tail)[j] == '"'
        ensures j > 0 && (head + tail)[j - 1] == '\\'
      {
        if j >= |head| {
          assert tail[j - |head|] == '"';
        }
      }
    }
  }

  // A needle at p: a quote, the key, a quote, a colon.
  lemma {:induction false} NeedleAt(s: string, p: nat, key: string)
    requires PlainKey(key) && p <= |s| && Needle(key) <= s[p..]
    ensures p + |key| + 3 <= |s|
    ensures s[p] == '"' && s[p + 1 + |key|] == '"' && s[p + 2 + |key|] == ':'
    ensures forall i :: 0 <= i < |key| ==> s[p + 1 + i] == key[i]
    ensures forall j :: p < j < p + 1 + |key| ==> 'a' <= s[j] <= 'z'
    ensures 'a' <= s[p + |key|] <= 'z'
  {
    var n := Needle(key);
    assert forall i :: 0 <= i < |n| ==> s[p..][i] == n[i];
    assert forall i :: 0 <= i < |key| ==> n[1 + i] == key[i];
    assert n[0] == '"' && n[1 + |key|] == '"' && n[2 + |key|] == ':';
    forall i | 0 <= i < |key| ensures s[p + 1 + i] == key[i] {
      assert s[p..][1 + i] == n[1 + i];
    }
    assert s[p..][1 + |key|] == '"' && s[p..][2 + |key|] == ':';
    forall j | p < j < p + 1 + |key| ensures 'a' <= s[j] <= 'z' {
      assert s[p + 1 + (j - p - 1)] == key[j - p - 1];
    }
  }

  lemma {:induction false} SameText(a: string, b: string)
    requires |a| == |b| && forall i :: 0 <= i < |a| ==> a[i] == b[i]
    ensures a == b
  {
  }

  // The key part of an item holds no other key.
  lemma {:induction false} NoNeedleInKey(k: string, after: string, key: string, p: nat)
    requires PlainKey(k) && PlainKey(key) && k != key
    requires p < |Needle(k)|
    ensures !(Needle(key) <= (Needle(k) + after)[p..])
  {
    var s := Needle(k) + after;
    assert s[0] == '"' && s[1 + |k|] == '"' && s[2 + |k|] == ':';
    assert forall i :: 0 <= i < |k| ==> s[1 + i] == k[i];
    assert |k| == |key| ==> exists i :: 0 <= i < |k| && k[i] != key[i] by {
      if |k| == |key| && forall i :: 0 <= i < |k| ==> k[i] == key[i] {
        SameText(k, key);
      }
    }
    if Needle(key) <= s[p..] {
      NeedleAt(s, p, key);
    }
  }

  // Up to a closing quote and its separator, with only escaped quotes before it.
  lemma {:induction false} NoNeedleBefore(s: string, close: nat, key: string, p: nat)
    requires close + 1 < |s| && s[close] == '"' && (s[close + 1] == ',' || s[close + 1] == '}')
    requires forall j :: 0 < j < close && s[j] == '"' ==> s[j - 1] == '\\'
    requires PlainKey(key) && p <= close + 1
    ensures !(Needle(key) <= s[p..])
  {
    if Needle(key) <= s[p..] {
      NeedleAt(s, p, key);
    }
  }

  // Nor does a quoted value, nor the separator after it.
  lemma {:induction false} NoNeedleInText(v: string, sep: char, after: string, key: string, p: nat)
    requires QuotesEscaped(v) && PlainKey(key) && (sep == ',' || sep == '}')
    requires p < |v| + 3
    ensures !(Needle(key) <= ("\"" + v + "\"" + [sep] + after)[p..])
  {
    var s := "\"" + v + "\"" + [sep] + after;
    assert s[|v| + 1] == '"' && s[|v| + 2] == sep;
    assert forall i :: 0 <= i < |v| ==> s[1 + i] == v[i];
    forall j | 0 < j < |v| + 1 && s[j] == '"' ensures s[j - 1] == '\\' {
      assert s[j] == v[j - 1] && s[j - 1] == v[j - 2];
    }
    NoNeedleBefore(s, |v| + 1, key, p);
  }

  lemma {:induction false} NoNeedleInNumber(d: string, sep: char, after: string, key: string, p: nat)
    requires NumberText(d) && PlainKey(key) && (sep == ',' || sep == '}')
    requires p < |d| + 1
    ensures !(Needle(key) <= (d + [sep] + after)[p..])
  {
    var s := d + [sep] + after;
    if Needle(key) <= s[p..] {
      NeedleAt(s, p, key);
    }
  }

  // Text that no needle starts in can be skipped.
  lemma {:induction false} SkipText(a: string, b: string, needle: string)
    requires needle != ""
    requires forall p :: 0 <= p < |a| ==> !(needle <= (a + b)[p..])
    ensures FindSub(a + b, needle) == match FindSub(b, needle) case None => None case Some(i) => Some(|a| + i)
  {
    if a == "" {
      assert a + b == b;
    } else {
      var s, t := a + b, a[1..] + b;
      assert s[1..] == t && s[0..] == s;
      forall p | 0 <= p < |a[1..]| ensures !(needle <= t[p..]) {
        assert t[p..] == s[p + 1..];
      }
      SkipText(a[1..], b, needle);
    }
  }

  // The text of an item's value with its separator.
  function Tail(x: Item, sep: char): string {
    match x case Text(_, v) => "\"" + Escape(v) + "\"" + [sep] case Number(_, d) => d + [sep]
  }

  lemma {:induction false} SkipItem(x: Item, sep: char, after: string, key: string)
    requires WellFormedItem(x) && PlainKey(key) && x.key != key && (sep == ',' || sep == '}')
    ensures var a := Printed(x) + [sep];
            FindSub(a + after, Needle(key)) ==
            match FindSub(after, Needle(key)) case None => None case Some(i) => Some(|a| + i)
  {
    var a := Printed(x) + [sep];
    var k, tail := Needle(x.key), Tail(x, sep);
    var s := a + after;
    assert a == k + tail;
    assert s == k + (tail + after);
    forall p | 0 <= p < |a| ensures !(Needle(key) <= s[p..]) {
      if p < |k| {
        NoNeedleInKey(x.key, tail + after, key, p);
      } else {
        assert s[p..] == (tail + after)[p - |k|..];
        match x {
          case Text(_, v) =>
            EscapeEscapesQuotes(v);
            NoNeedleInText(Escape(v), sep, after, key, p - |k|);
          case Number(_, d) => NoNeedleInNumber(d, sep, after, key, p - |k|);
        }
      }
    }
    SkipText(a, after, Needle(key));
  }

  // What a reader gets for an item.
  function ReadItem(x: Item): string {
    match x case Text(_, v) => Mangle(v) case Number(_, d) => d
  }

  function ItemValue(xs: seq<Item>, key: string): string {
    if xs == [] then "" else if xs[0].key == key then ReadItem(xs[0]) else ItemValue(xs[1..], key)
  }

  lemma {:induction false} NumberEndsAtSeparator(d: string, sep: char, after: string)
    requires NumberText(d) && (sep == ',' || sep == '}')
    ensures UpToDelimiter(d + [sep] + after) == d
  {
    if d != "" {
      assert (d + [sep] + after)[1..] == d[1..] + [sep] + after;
      NumberEndsAtSeparator(d[1..], sep, after);
    }
  }

  lemma {:induction false} FoundFirst(s: string, key: string)
    requires Needle(key) <= s
    ensures FieldOf(s, key) == ValueText(s[|Needle(key)|..])
  {
    assert FindSub(s, Needle(key)) == Some(0);
  }

  lemma {:induction false} AfterQuote(escaped: string, sep: char, after: string)
    ensures var rest := "\"" + escaped + "\"" + [sep] + after;
            rest != "" && rest[0] == '"' && rest[1..] == escaped + "\"" + ([sep] + after)
  {
  }

  lemma {:induction false} ReadText(v: string, sep: char, after: string)
    ensures ValueText("\"" + Escape(v) + "\"" + [sep] + after) == Mangle(v)
  {
    AfterQuote(Escape(v), sep, after);
    ReadBack(v, [sep] + after);
  }

  lemma {:induction false} ReadNumber(d: string, sep: char, after: string)
    requires NumberText(d) && (sep == ',' || sep == '}')
    ensures ValueText(d + [sep] + after) == d
  {
    assert (d + [sep] + after)[0] != '"';
    NumberEndsAtSeparator(d, sep, after);
  }

  lemma {:induction false} ReadValue(x: Item, sep: char, after: string)
    requires WellFormedItem(x) && (sep == ',' || sep == '}')
    ensures ValueText(Tail(x, sep) + after) == ReadItem(x)
  {
    match x {
      case Text(_, v) => ReadText(v, sep, after);
      case Number(_, d) => ReadNumber(d, sep, after);
    }
  }

  lemma {:induction false} ReadHere(x: Item, sep: char, after: string)
    requires WellFormedItem(x) && (sep == ',' || sep == '}')
    ensures FieldOf(Printed(x) + [sep] + after, x.key) == ReadItem(x)
  {
    var s, k, tail := Printed(x) + [sep] + after, Needle(x.key), Tail(x, sep) + after;
    assert s == k + tail;
    assert s[|k|..] == tail;
    FoundFirst(s, x.key);
    ReadValue(x, sep, after);
  }

  lemma {:induction false} DropPast(a: string, b: string, j: nat)
    requires j <= |b|
    ensures (a + b)[|a| + j..] == b[j..]
  {
  }

  lemma {:induction false} RestSkips(a: string, b: string, needle: string)
    requires FindSub(a + b, needle) == match FindSub(b, needle) case None => None case Some(i) => Some(|a| + i)
    ensures RestAfter(a + b, needle) == RestAfter(b, needle)
  {
    FindSubInBounds(b, needle);
    if FindSub(b, needle).Some? {
      DropPast(a, b, FindSub(b, needle).value + |needle|);
    }
  }

  lemma {:induction false} FieldSkips(a: string, b: string, key: string)
    requires FindSub(a + b, Needle(key)) ==
             match FindSub(b, Needle(key)) case None => None case Some(i) => Some(|a| + i)
    ensures FieldOf(a + b, key) == FieldOf(b, key)
  {
    RestSkips(a, b, Needle(key));
  }

  lemma {:induction false} FieldInItems(xs: seq<Item>, key: string)
    requires xs != [] && PlainKey(key)
    requires forall x :: x in xs ==> WellFormedItem(x)
    ensures FieldOf(Items(xs), key) == ItemValue(xs, key)
  {
    var x := xs[0];
    var sep, after := if |xs| == 1 then '}' else ',', if |xs| == 1 then "" else Items(xs[1..]);
    assert Items(xs) == Printed(x) + [sep] + after;
    if x.key == key {
      ReadHere(x, sep, after);
    } else {
      SkipItem(x, sep, after, key);
      FieldSkips(Printed(x) + [sep], after, key);
      if |xs| == 1 {
        assert FieldOf("", key) == "";
      } else {
        FieldInItems(xs[1..], key);
      }
    }
  }

  /** First match is the right match: in a printed object every key reads as its
   *  own value, whatever the values contain and whatever bracket opens it.
   */
  lemma {:induction false} FieldReadsItem(open: char, xs: seq<Item>, key: string)
    requires xs != [] && PlainKey(key) && open != '"'
    requires forall x :: x in xs ==> WellFormedItem(x)
    ensures FieldOf([open] + Items(xs), key) == ItemValue(xs, key)
  {
    var needle := Needle(key);
    assert ([open] + Items(xs))[0] == open && needle[0] == '"';
    forall p | 0 <= p < |[open]| ensures !(needle <= ([open] + Items(xs))[p..]) {
    }
    SkipText([open], Items(xs), needle);
    FieldSkips([open], Items(xs), key);
    FieldInItems(xs, key);
  }

  /* ---- The log ---- */

  datatype LogEvent = LogEvent(
    ts: string, path: string, op: string, pid: int,
    comm: string, exe: string, cmdline: string, uid: nat)

  // What the query tool makes of a line; the pid stays text.
  datatype ReadEvent = ReadEvent(
    ts: string, path: string, op: string, pid: string,
    comm: string, exe: string, cmdline: string)

  function NatText(n: nat): string {
    if n < 10 then [(n + '0' as int) as char] else NatText(n / 10) + [(n % 10 + '0' as int) as char]
  }

  function IntText(n: int): string {
    if n < 0 then "-" + NatText(-n) else NatText(n)
  }

  lemma {:induction false} NatTextIsNumber(n: nat)
    ensures NumberText(NatText(n))
  {
    if n >= 10 {
      NatTextIsNumber(n / 10);
    }
  }

  lemma {:induction false} IntTextIsNumber(n: int)
    ensures NumberText(IntText(n))
  {
    NatTextIsNumber(if n < 0 then -n else n);
  }

  // Printed without escaping: a timestamp or an operation name.
  predicate NeedsNoEscape(s: string) {
    forall i :: 0 <= i < |s| ==> s[i] != '"' && s[i] != '\\' && (s[i] as int) >= 0x20
  }

  lemma {:induction false} EscapePlain(s: string)
    requires NeedsNoEscape(s)
    ensures Escape(s) == s && Mangle(s) == s
  {
    if s != "" {
      EscapePlain(s[1..]);
    }
  }

  function TextField(key: string, text: string): string {
    "\"" + key + "\":" + ("\"" + text + "\"")
  }

  function NumberField(key: string, digits: string): string {
    "\"" + key + "\":" + digits
  }

  function Line(e: LogEvent): string {
    "{" + (TextField("ts", e.ts) + "," +
    (TextField("path", Escape(e.path)) + "," +
    (TextField("op", e.op) + "," +
    (NumberField("pid", IntText(e.pid)) + "," +
    (TextField("comm", Escape(e.comm)) + "," +
    (TextField("exe", Escape(e.exe)) + "," +
    (TextField("cmdline", Escape(e.cmdline)) + "," +
    (NumberField("uid", NatText(e.uid)) + "}"))))))))
  }

  function LineItems(e: LogEvent): seq<Item> {
    [Text("ts", e.ts), Text("path", e.path), Text("op", e.op), Number("pid", IntText(e.pid)),
     Text("comm", e.comm), Text("exe", e.exe), Text("cmdline", e.cmdline), Number("uid", NatText(e.uid))]
  }

  predicate Loggable(e: LogEvent) {
    NeedsNoEscape(e.ts) && NeedsNoEscape(e.op)
  }

  lemma {:induction false} ItemsFrom(xs: seq<Item>, i: nat)
    requires i < |xs|
    ensures Items(xs[i..]) == Printed(xs[i]) + if i + 1 == |xs| then "}" else "," + Items(xs[i + 1..])
  {
    assert xs[i..][0] == xs[i] && xs[i..][1..] == xs[i + 1..];
    if i + 1 < |xs| {
      assert Printed(xs[i]) + "," + Items(xs[i + 1..]) == Printed(xs[i]) + ("," + Items(xs[i + 1..]));
    }
  }

  lemma {:induction false} LineIsItems(e: LogEvent)
    requires Loggable(e)
    ensures Line(e) == "{" + Items(LineItems(e))
  {
    EscapePlain(e.ts);
    EscapePlain(e.op);
    var xs := LineItems(e);
    assert xs[0..] == xs;
    var uid := NumberField("uid", NatText(e.uid)) + "}";
    ItemsFrom(xs, 7);
    assert Items(xs[7..]) == uid;
    var cmdline := TextField("cmdline", Escape(e.cmdline)) + "," + uid;
    ItemsFrom(xs, 6);
    assert Items(xs[6..]) == cmdline;
    var exe := TextField("exe", Escape(e.exe)) + "," + cmdline;
    ItemsFrom(xs, 5);
    assert Items(xs[5..]) == exe;
    var comm := TextField("comm", Escape(e.comm)) + "," + exe;
    ItemsFrom(xs, 4);
    assert Items(xs[4..]) == comm;
    var pid := NumberField("pid", IntText(e.pid)) + "," + comm;
    ItemsFrom(xs, 3);
    assert Items(xs[3..]) == pid;
    var op := TextField("op", e.op) + "," + pid;
    ItemsFrom(xs, 2);
    assert Items(xs[2..]) == op;
    var path := TextField("path", Escape(e.path)) + "," + op;
    ItemsFrom(xs, 1);
    assert Items(xs[1..]) == path;
    ItemsFrom(xs, 0);
    assert Items(xs[0..]) == TextField("ts", e.ts) + "," + path;
  }

  predicate IsWhite(c: char) {
    var n := c as int;
    9 <= n <= 13 || n == 32 || n == 0x85 || n == 0xA0 || n == 0x1680 || 0x2000 <= n <= 0x200A
    || n == 0x2028 || n == 0x2029 || n == 0x202F || n == 0x205F || n == 0x3000
  }

  function ParseLine(line: string): Option<ReadEvent> {
    if forall i :: 0 <= i < |line| ==> IsWhite(line[i]) then None
    else
      Some(ReadEvent(FieldOf(line, "ts"), FieldOf(line, "path"), FieldOf(line, "op"), FieldOf(line, "pid"),
                     FieldOf(line, "comm"), FieldOf(line, "exe"), FieldOf(line, "cmdline")))
  }

  // The event as it comes back.
  function Reread(e: LogEvent): ReadEvent {
    ReadEvent(e.ts, Mangle(e.path), e.op, IntText(e.pid), Mangle(e.comm), Mangle(e.exe), Mangle(e.cmdline))
  }

  lemma {:induction false} LineItemsWellFormed(e: LogEvent)
    ensures forall x :: x in LineItems(e) ==> WellFormedItem(x)
  {
    assert PlainKey("ts") && PlainKey("path") && PlainKey("op") && PlainKey("pid");
    assert PlainKey("comm") && PlainKey("exe") && PlainKey("cmdline") && PlainKey("uid");
    IntTextIsNumber(e.pid);
    NatTextIsNumber(e.uid);
  }

  lemma {:induction false} LineField(e: LogEvent, key: string)
    requires Loggable(e) && PlainKey(key)
    ensures FieldOf(Line(e), key) == ItemValue(LineItems(e), key)
  {
    LineIsItems(e);
    LineItemsWellFormed(e);
    FieldReadsItem('{', LineItems(e), key);
    assert ['{'] + Items(LineItems(e)) == Line(e);
  }

  lemma {:induction false} LineKeysArePlain()
    ensures PlainKey("ts") && PlainKey("path") && PlainKey("op") && PlainKey("pid")
    ensures PlainKey("comm") && PlainKey("exe") && PlainKey("cmdline")
  {
  }

  lemma {:induction false} FirstFields(e: LogEvent)
    requires Loggable(e)
    ensures var line := Line(e);
            && FieldOf(line, "ts") == Mangle(e.ts)
            && FieldOf(line, "path") == Mangle(e.path)
            && FieldOf(line, "op") == Mangle(e.op)
            && FieldOf(line, "pid") == IntText(e.pid)
  {
    LineKeysArePlain();
    FirstValues(e);
    LineField(e, "ts");
    LineField(e, "path");
    LineField(e, "op");
    LineField(e, "pid");
  }

  lemma {:induction false} LastFields(e: LogEvent)
    requires Loggable(e)
    ensures var line := Line(e);
            && FieldOf(line, "comm") == Mangle(e.comm)
            && FieldOf(line, "exe") == Mangle(e.exe)
            && FieldOf(line, "cmdline") == Mangle(e.cmdline)
  {
    LineKeysArePlain();
    LastValues(e);
    LineField(e, "comm");
    LineField(e, "exe");
    LineField(e, "cmdline");
  }

  lemma {:induction false} NotBlank(line: string)
    requires line != "" && line[0] == '{'
    ensures ParseLine(line).Some?
  {
    assert !IsWhite(line[0]);
  }

  lemma {:induction false} LineReadsBack(e: LogEvent)
    requires Loggable(e)
    ensures ParseLine(Line(e)) == Some(Reread(e))
  {
    NotBlank(Line(e));
    FirstFields(e);
    LastFields(e);
    EscapePlain(e.ts);
    EscapePlain(e.op);
  }

  lemma {:induction false} FirstValues(e: LogEvent)
    ensures var xs := LineItems(e);
            && ItemValue(xs, "ts") == Mangle(e.ts)
            && ItemValue(xs, "path") == Mangle(e.path)
            && ItemValue(xs, "op") == Mangle(e.op)
            && ItemValue(xs, "pid") == IntText(e.pid)
  {
    var xs := LineItems(e);
    SkipValues(xs, "path", 1);
    SkipValues(xs, "op", 2);
    SkipValues(xs, "pid", 3);
  }

  lemma {:induction false} LastValues(e: LogEvent)
    ensures var xs := LineItems(e);
            && ItemValue(xs, "comm") == Mangle(e.comm)
            && ItemValue(xs, "exe") == Mangle(e.exe)
            && ItemValue(xs, "cmdline") == Mangle(e.cmdline)
  {
    var xs := LineItems(e);
    SkipValues(xs, "comm", 4);
    SkipValues(xs, "exe", 5);
    SkipValues(xs, "cmdline", 6);
  }

  lemma {:induction false} SkipValues(xs: seq<Item>, key: string, n: nat)
    requires n < |xs| && xs[n].key == key
    requires forall i :: 0 <= i < n ==> xs[i].key != key
    ensures ItemValue(xs, key) == ReadItem(xs[n])
  {
    if n > 0 {
      SkipValues(xs[1..], key, n - 1);
    }
  }

  /* ---- The file ---- */

  function PrintAll(events: seq<LogEvent>): string {
    if events == [] then "" else Line(events[0]) + "\n" + PrintAll(events[1..])
  }

  function UpToNewline(s: string): (n: nat)
    ensures n <= |s|
    ensures n < |s| ==> s[n] == '\n'
    ensures forall i :: 0 <= i < n ==> s[i] != '\n'
  {
    if s == "" || s[0] == '\n' then 0 else 1 + UpToNewline(s[1..])
  }

  // str::lines: a carriage return before the newline belongs to the terminator.
  function Lines(s: string): seq<string>
    decreases |s|
  {
    if s == "" then []
    else
      var n := UpToNewline(s);
      if n == |s| then [s]
      else
        var line := if n > 0 && s[n - 1] == '\r' then s[..n - 1] else s[..n];
        [line] + Lines(s[n + 1..])
  }

  function Selected(e: ReadEvent, target: string, targetAbs: string): bool {
    e.path == target || e.path == targetAbs
  }

  function LoadLines(lines: seq<string>, target: string, targetAbs: string): seq<ReadEvent> {
    if lines == [] then []
    else
      var rest := LoadLines(lines[1..], target, targetAbs);
      match ParseLine(lines[0])
      case None => rest
      case Some(e) => if Selected(e, target, targetAbs) then [e] + rest else rest
  }

  function LoadEvents(content: string, target: string, targetAbs: string): seq<ReadEvent> {
    LoadLines(Lines(content), target, targetAbs)
  }

  // The events of the log that concern the target, in order.
  function Expected(events: seq<LogEvent>, target: string, targetAbs: string): seq<ReadEvent> {
    if events == [] then []
    else
      var rest := Expected(events[1..], target, targetAbs);
      if Selected(Reread(events[0]), target, targetAbs) then [Reread(events[0])] + rest else rest
  }

  lemma {:induction false} EscapeHasNoNewline(s: string)
    ensures '\n' !in Escape(s)
  {
    if s != "" {
      EscapeHasNoNewline(s[1..]);
    }
  }

  lemma {:induction false} ItemsHaveNoNewline(xs: seq<Item>)
    requires xs != [] && forall x :: x in xs ==> WellFormedItem(x)
    ensures '\n' !in Items(xs)
    ensures Items(xs)[|Items(xs)| - 1] == '}'
  {
    var x := xs[0];
    assert WellFormedItem(x);
    assert '\n' !in x.key && '\n' !in Needle(x.key);
    if x.Text? {
      EscapeHasNoNewline(x.value);
    } else {
      assert '\n' !in x.digits;
    }
    assert '\n' !in Printed(x);
    if |xs| > 1 {
      ItemsHaveNoNewline(xs[1..]);
    }
  }

  lemma {:induction false} NewlineAfter(line: string, rest: string)
    requires '\n' !in line
    ensures UpToNewline(line + "\n" + rest) == |line|
  {
    if line == "" {
      assert (line + "\n" + rest)[0] == '\n';
    } else {
      assert line[0] in line;
      assert (line + "\n" + rest)[1..] == line[1..] + "\n" + rest;
      NewlineAfter(line[1..], rest);
    }
  }

  lemma {:induction false} LinesSplit(line: string, rest: string)
    requires line != "" && '\n' !in line && line[|line| - 1] == '}'
    ensures Lines(line + "\n" + rest) == [line] + Lines(rest)
  {
    var s := line + "\n" + rest;
    NewlineAfter(line, rest);
    assert s[|line| - 1] == '}' && s[..|line|] == line && s[|line| + 1..] == rest;
  }

  /** Printing any events and loading them gives the target's events in order. */
  lemma {:induction false} LogRoundTrip(events: seq<LogEvent>, target: string, targetAbs: string)
    requires forall e :: e in events ==> Loggable(e)
    ensures LoadEvents(PrintAll(events), target, targetAbs) == Expected(events, target, targetAbs)
  {
    if events != [] {
      PrintedLineFirst(events);
      LineReadsBack(events[0]);
      LogRoundTrip(events[1..], target, targetAbs);
      var rest := Lines(PrintAll(events[1..]));
      assert ([Line(events[0])] + rest)[1..] == rest;
    }
  }

  lemma {:induction false} PrintedLineFirst(events: seq<LogEvent>)
    requires events != [] && Loggable(events[0])
    ensures Lines(PrintAll(events)) == [Line(events[0])] + Lines(PrintAll(events[1..]))
  {
    var e := events[0];
    LineIsItems(e);
    LineItemsWellFormed(e);
    ItemsHaveNoNewline(LineItems(e));
    assert '\n' !in Line(e) && Line(e)[|Line(e)| - 1] == '}';
    LinesSplit(Line(e), PrintAll(events[1..]));
  }

  predicate Clean(s: string) {
    forall i :: 0 <= i < |s| ==> !OtherControl(s[i])
  }

  // Exactly the clean events come back as they were.
  lemma {:induction false} CleanEventsAreExact(e: LogEvent)
    ensures Reread(e) == ReadEvent(e.ts, e.path, e.op, IntText(e.pid), e.comm, e.exe, e.cmdline)
            <==> Clean(e.path) && Clean(e.comm) && Clean(e.exe) && Clean(e.cmdline)
  {
    MangleIsIdentity(e.path);
    MangleIsIdentity(e.comm);
    MangleIsIdentity(e.exe);
    MangleIsIdentity(e.cmdline);
  }
}
