/** The walk over a buffer of fanotify events: nested loops that hop from record
 *  to record by the lengths found in the bytes themselves.
 *
 *  Words are little-endian, and the buffer is only read. Opening a file handle and reading its path, decoding
 *  a name, the blocklist and the daemon's own pid are parameters.
 */
module FidWalk {
  import opened Wrappers

  type Byte = x: int | 0 <= x < 0x100

  const METADATA_SIZE: nat := 24
  const HEADER_SIZE: nat := 4
  const FSID_SIZE: nat := 8

  const DFID_NAME: Byte := 2
  const OLD_DFID_NAME: Byte := 10
  const NEW_DFID_NAME: Byte := 12

  datatype Host = Host(
    parent: (int, seq<Byte>) -> Option<string>,
    text: seq<Byte> -> string,
    blocked: string -> bool,
    daemon: int)

  /* ---- Words ---- */

  // The bytes from `at` to `end`, least significant first.
  function Little(s: seq<Byte>, at: nat, end: nat): nat
    requires at <= end <= |s|
    decreases |s|, end - at
  {
    if at == end then 0 else (s[at] as int) + 0x100 * Little(s, at + 1, end)
  }

  function U16(s: seq<Byte>, at: nat): nat
    requires at + 2 <= |s|
  {
    Little(s, at, at + 2)
  }

  function U32(s: seq<Byte>, at: nat): nat
    requires at + 4 <= |s|
  {
    Little(s, at, at + 4)
  }

  function U64(s: seq<Byte>, at: nat): nat
    requires at + 8 <= |s|
  {
    Little(s, at, at + 8)
  }

  /** Words are little-endian. */
  lemma {:induction false} WordsAt(s: seq<Byte>, at: nat)
    ensures at + 2 <= |s| ==> U16(s, at) == (s[at] as int) + 0x100 * (s[at + 1] as int)
    ensures at + 4 <= |s| ==> U32(s, at) == U16(s, at) + 0x1_0000 * U16(s, at + 2)
    ensures at + 8 <= |s| ==> U64(s, at) == U32(s, at) + 0x1_0000_0000 * U32(s, at + 4)
  {
    if at + 2 <= |s| {
      LittleStep(s, at, at + 1, at + 2);
    }
    if at + 4 <= |s| {
      LittleStep(s, at, at + 2, at + 4);
    }
    if at + 8 <= |s| {
      LittleStep(s, at, at + 4, at + 8);
    }
  }

  function Pow256(w: nat): nat {
    if w == 0 then 1 else 0x100 * Pow256(w - 1)
  }

  lemma {:induction false} Scaled(y: nat, p: nat, x: nat)
    ensures 0x100 * (y + p * x) == 0x100 * y + (0x100 * p) * x
  {
  }

  // Bytes after the first so many weigh that many bytes more.
  lemma {:induction false} LittleStep(s: seq<Byte>, i: nat, j: nat, k: nat)
    requires i <= j <= k <= |s|
    ensures Little(s, i, k) == Little(s, i, j) + Pow256(j - i) * Little(s, j, k)
    decreases j - i
  {
    if i < j {
      LittleStep(s, i + 1, j, k);
      Scaled(Little(s, i + 1, j), Pow256(j - i - 1), Little(s, j, k));
    }
  }

  lemma {:induction false} LittleInside(s: seq<Byte>, start: nat, end: nat, i: nat, j: nat)
    requires start <= end <= |s| && i <= j <= end - start
    ensures Little(s[start..end], i, j) == Little(s, start + i, start + j)
    decreases j - i
  {
    if i < j {
      LittleInside(s, start, end, i + 1, j);
    }
  }

  // A 32-bit word as a signed number, and back.
  function Signed(n: nat): int {
    if n < 0x8000_0000 then n else n - 0x1_0000_0000
  }

  predicate IsInt32(i: int) {
    -0x8000_0000 <= i < 0x8000_0000
  }

  function Unsigned(i: int): nat
    requires IsInt32(i)
  {
    if i >= 0 then i else i + 0x1_0000_0000
  }

  /* ---- One info record ---- */

  function UpToNul(s: seq<Byte>): seq<Byte> {
    if s == [] || s[0] == 0 then [] else [s[0]] + UpToNul(s[1..])
  }

  function Join(dir: string, name: string): string {
    if name == "" then dir else dir + "/" + name
  }

  function PathOf(host: Host, handleType: int, handle: seq<Byte>, name: seq<Byte>): Option<string> {
    match host.parent(handleType, handle)
    case None => None
    case Some(dir) => Some(Join(dir, host.text(name)))
  }

  // The path named by the info record at `at`, which ends before `end`.
  function ResolveOf(host: Host, buf: seq<Byte>, at: nat, end: nat): Option<string>
    requires at <= end <= |buf|
  {
    if at + 20 > end then None
    else
      var handleEnd := at + 20 + U32(buf, at + 12);
      if handleEnd > end then None
      else PathOf(host, Signed(U32(buf, at + 16)), buf[at + 20..handleEnd], UpToNul(buf[handleEnd..end]))
  }

  lemma {:induction false} UpToNulStops(s: seq<Byte>, n: nat)
    requires n <= |s| && 0 !in s[..n]
    requires n < |s| ==> s[n] == 0
    ensures UpToNul(s) == s[..n]
  {
    if n > 0 {
      assert s[0] in s[..n];
      assert s[1..][..n - 1] == s[..n][1..];
      UpToNulStops(s[1..], n - 1);
    }
  }

  lemma {:induction false} Inside(s: seq<Byte>, start: nat, end: nat, i: nat, j: nat)
    requires start <= end <= |s| && i <= j <= end - start
    ensures s[start..end][i..j] == s[start + i..start + j]
  {
    var a, b := s[start..end][i..j], s[start + i..start + j];
    assert |a| == |b|;
    assert forall k :: 0 <= k < |a| ==> a[k] == s[start + i + k] && b[k] == s[start + i + k];
  }

  /** The result depends on no byte outside the info record. */
  lemma {:induction false} ResolveStaysInside(host: Host, buf: seq<Byte>, start: nat, end: nat, i: nat, j: nat)
    requires start <= end <= |buf| && i <= j <= end - start
    ensures ResolveOf(host, buf[start..end], i, j) == ResolveOf(host, buf, start + i, start + j)
  {
    if i + 20 <= j {
      LittleInside(buf, start, end, i + 12, i + 16);
      LittleInside(buf, start, end, i + 16, i + 20);
      var n := i + 20 + U32(buf[start..end], i + 12);
      if n <= j {
        Inside(buf, start, end, i + 20, n);
        Inside(buf, start, end, n, j);
      }
    }
  }

  // A scan for NUL that stops at `stop` has read the whole name.
  lemma {:induction false} ScanReads(buf: seq<Byte>, from: nat, stop: nat, end: nat)
    requires from <= stop <= end <= |buf| && 0 !in buf[from..stop]
    requires stop < end ==> buf[stop] == 0
    ensures UpToNul(buf[from..end]) == buf[from..stop]
  {
    var rest := buf[from..end];
    Inside(buf, from, end, 0, stop - from);
    assert rest[0..stop - from] == rest[..stop - from];
    UpToNulStops(rest, stop - from);
  }

  lemma {:induction false} ScanOneMore(buf: seq<Byte>, from: nat, stop: nat)
    requires from <= stop < |buf| && 0 !in buf[from..stop] && buf[stop] != 0
    ensures 0 !in buf[from..stop + 1]
  {
    assert buf[from..stop + 1] == buf[from..stop] + [buf[stop]];
  }

  method ReadName(buf: seq<Byte>, nameStart: nat, end: nat) returns (name: seq<Byte>)
    requires nameStart <= end <= |buf|
    ensures name == UpToNul(buf[nameStart..end])
  {
    var nameEnd := nameStart;
    while nameEnd < end && buf[nameEnd] != 0
      invariant nameStart <= nameEnd <= end
      invariant 0 !in buf[nameStart..nameEnd]
    {
      ScanOneMore(buf, nameStart, nameEnd);
      nameEnd := nameEnd + 1;
    }
    ScanReads(buf, nameStart, nameEnd, end);
    name := buf[nameStart..nameEnd];
  }

  // Every index read lies before the record's end, whatever the bytes say.
  method ResolveDfidName(host: Host, buf: seq<Byte>, base: nat, infoOffset: nat, recordEnd: nat)
      returns (path: Option<string>)
    requires infoOffset <= recordEnd && base + recordEnd <= |buf|
    ensures path == ResolveOf(host, buf, base + infoOffset, base + recordEnd)
  {
    var handleStart := infoOffset + HEADER_SIZE + FSID_SIZE;
    if handleStart + 8 > recordEnd {
      return None;
    }
    var handleBytes := U32(buf, base + handleStart);
    var handleType := Signed(U32(buf, base + handleStart + 4));
    var fHandleStart := handleStart + 8;
    var nameStart := fHandleStart + handleBytes;
    if nameStart > recordEnd {
      return None;
    }
    var name := ReadName(buf, base + nameStart, base + recordEnd);
    var handle := buf[base + fHandleStart..base + nameStart];
    var parent := host.parent(handleType, handle);
    if parent.None? {
      return None;
    }
    path := Some(Join(parent.value, host.text(name)));
  }

  /* ---- The info records of an event ---- */

  // What an event's records named so far; a later record of a kind replaces an earlier.
  datatype Names = Names(plain: Option<string>, from: Option<string>, to: Option<string>)

  const NO_NAMES := Names(None, None, None)

  function Put(names: Names, kind: Byte, path: Option<string>): Names {
    if kind == DFID_NAME then names.(plain := path)
    else if kind == OLD_DFID_NAME then names.(from := path)
    else if kind == NEW_DFID_NAME then names.(to := path)
    else names
  }

  function InfosOf(host: Host, buf: seq<Byte>, at: nat, end: nat, names: Names): Names
    requires end <= |buf|
    decreases end - at
  {
    if at + HEADER_SIZE > end then names
    else
      var len := U16(buf, at + 2);
      if len == 0 || at + len > end then names
      else InfosOf(host, buf, at + len, end, Put(names, buf[at], ResolveOf(host, buf, at, at + len)))
  }

  method CollectNames(host: Host, buf: seq<Byte>, base: nat, metadataLen: nat, eventLen: nat)
      returns (names: Names)
    requires base + eventLen <= |buf|
    ensures names == InfosOf(host, buf, base + metadataLen, base + eventLen, NO_NAMES)
  {
    names := NO_NAMES;
    var infoOffset := metadataLen;
    while infoOffset + HEADER_SIZE <= eventLen
      invariant InfosOf(host, buf, base + infoOffset, base + eventLen, names)
             == InfosOf(host, buf, base + metadataLen, base + eventLen, NO_NAMES)
      decreases eventLen - infoOffset
    {
      var kind := buf[base + infoOffset];
      var len := U16(buf, base + infoOffset + 2);
      if len == 0 {
        break;
      }
      var recordEnd := infoOffset + len;
      if recordEnd > eventLen {
        break;
      }
      if kind == DFID_NAME || kind == OLD_DFID_NAME || kind == NEW_DFID_NAME {
        var path := ResolveDfidName(host, buf, base, infoOffset, recordEnd);
        names := Put(names, kind, path);
      }
      infoOffset := recordEnd;
    }
  }

  /* ---- Events ---- */

  // One call of the logger.
  datatype Call = Call(path: string, op: string, pid: int, other: Option<string>)

  // The bits are FAN_CREATE, FAN_DELETE, FAN_MOVED_FROM, FAN_MOVED_TO and FAN_ATTRIB.
  function OpName(mask: nat): string {
    if mask / 0x100 % 2 == 1 then "create"
    else if mask / 0x200 % 2 == 1 then "delete"
    else if mask / 0x40 % 2 == 1 then "moved_from"
    else if mask / 0x80 % 2 == 1 then "moved_to"
    else if mask / 0x4 % 2 == 1 then "attrib"
    else "fid_other"
  }

  function Logged(host: Host, names: Names, pid: int, mask: nat): seq<Call> {
    if pid == host.daemon then []
    else
      match (names.from, names.to)
      case (Some(from), Some(to)) => if host.blocked(to) then [] else [Call(to, "renamed", pid, Some(from))]
      case (Some(from), None) => if host.blocked(from) then [] else [Call(from, "moved_from", pid, None)]
      case (None, Some(to)) => if host.blocked(to) then [] else [Call(to, "moved_to", pid, None)]
      case (None, None) =>
        if names.plain.None? || host.blocked(names.plain.value) then []
        else [Call(names.plain.value, OpName(mask), pid, None)]
  }

  // The calls and the closed descriptors of a walk.
  datatype Walked = Walked(calls: seq<Call>, closed: seq<int>)

  function Both(a: Walked, b: Walked): Walked {
    Walked(a.calls + b.calls, a.closed + b.closed)
  }

  function Closing(fd: int): seq<int> {
    if fd >= 0 then [fd] else []
  }

  function Report(host: Host, names: Names, mask: nat, fd: nat, pid: nat): Walked {
    Walked(Logged(host, names, Signed(pid), mask), Closing(Signed(fd)))
  }

  function EventOf(host: Host, buf: seq<Byte>, at: nat, end: nat): Walked
    requires at + METADATA_SIZE <= end <= |buf|
  {
    Report(host, InfosOf(host, buf, at + U16(buf, at + 6), end, NO_NAMES),
           U64(buf, at + 8), U32(buf, at + 16), U32(buf, at + 20))
  }

  // What the kernel owes the walk: each length it writes stays inside the buffer.
  predicate Framed(buf: seq<Byte>, at: nat, n: nat)
    requires n <= |buf|
    decreases n - at
  {
    at >= n ||
    (&& at + METADATA_SIZE <= n
     && var len := U32(buf, at);
        len >= METADATA_SIZE ==> at + len <= n && Framed(buf, at + len, n))
  }

  function EventsOf(host: Host, buf: seq<Byte>, at: nat, n: nat): Walked
    requires n <= |buf| && Framed(buf, at, n)
    decreases n - at
  {
    if at >= n then Walked([], [])
    else
      var len := U32(buf, at);
      if len < METADATA_SIZE then Walked([], [])
      else Both(EventOf(host, buf, at, at + len), EventsOf(host, buf, at + len, n))
  }

  lemma {:induction false} BothAssociates(a: Walked, b: Walked, c: Walked)
    ensures Both(Both(a, b), c) == Both(a, Both(b, c))
  {
  }

  lemma {:induction false} InfosStayInside(host: Host, buf: seq<Byte>, start: nat, end: nat, i: nat, names: Names)
    requires start <= end <= |buf|
    ensures InfosOf(host, buf[start..end], i, end - start, names) == InfosOf(host, buf, start + i, end, names)
    decreases end - i
  {
    var at := start + i;
    if at + HEADER_SIZE <= end {
      LittleInside(buf, start, end, i + 2, i + 4);
      var len := U16(buf, at + 2);
      if len > 0 && at + len <= end {
        ResolveStaysInside(host, buf, start, end, i, i + len);
        InfosStayInside(host, buf, start, end, i + len, Put(names, buf[at], ResolveOf(host, buf, at, at + len)));
      }
    }
  }

  /** What an event reports depends on no byte outside it. */
  lemma {:induction false} EventStaysInside(host: Host, buf: seq<Byte>, at: nat, end: nat)
    requires at + METADATA_SIZE <= end <= |buf|
    ensures EventOf(host, buf, at, end) == EventOf(host, buf[at..end], 0, end - at)
  {
    LittleInside(buf, at, end, 6, 8);
    LittleInside(buf, at, end, 8, 16);
    LittleInside(buf, at, end, 16, 20);
    LittleInside(buf, at, end, 20, 24);
    InfosStayInside(host, buf, at, end, U16(buf, at + 6), NO_NAMES);
  }

  method HandleEvent(host: Host, buf: seq<Byte>, base: nat, eventLen: nat) returns (seen: Walked)
    requires METADATA_SIZE <= eventLen && base + eventLen <= |buf|
    ensures seen == EventOf(host, buf, base, base + eventLen)
  {
    var metadataLen := U16(buf, base + 6);
    var names := CollectNames(host, buf, base, metadataLen, eventLen);
    seen := Report(host, names, U64(buf, base + 8), U32(buf, base + 16), U32(buf, base + 20));
  }

  method WalkBuffer(host: Host, buf: seq<Byte>, n: nat) returns (seen: Walked)
    requires n <= |buf| && Framed(buf, 0, n)
    ensures seen == EventsOf(host, buf, 0, n)
  {
    seen := Walked([], []);
    var offset := 0;
    while offset < n
      invariant offset <= n && Framed(buf, offset, n)
      invariant Both(seen, EventsOf(host, buf, offset, n)) == EventsOf(host, buf, 0, n)
      decreases n - offset
    {
      var eventLen := U32(buf, offset);
      if eventLen < METADATA_SIZE {
        return;
      }
      var one := HandleEvent(host, buf, offset, eventLen);
      BothAssociates(seen, one, EventsOf(host, buf, offset + eventLen, n));
      seen := Both(seen, one);
      offset := offset + eventLen;
    }
  }
}
