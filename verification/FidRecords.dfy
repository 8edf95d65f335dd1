/** What the walk makes of the records the kernel writes: every event and info
 *  record is visited once, in order, and yields the names it encodes.
 */
module FidRecords {
  import opened Wrappers
  import opened FidWalk

  /* ---- The kernel's layout ---- */

  datatype InfoRecord =
    | Named(kind: Byte, fsid: seq<Byte>, handleType: int, handle: seq<Byte>, name: seq<Byte>, padding: seq<Byte>)
    | Other(kind: Byte, payload: seq<Byte>)

  datatype EventRecord = EventRecord(
    version: Byte, mask: nat, fd: int, pid: int,
    extra: seq<Byte>, infos: seq<InfoRecord>, slack: seq<Byte>)

  function Bytes(n: nat, width: nat): (s: seq<Byte>)
    ensures |s| == width
  {
    if width == 0 then [] else [n % 0x100] + Bytes(n / 0x100, width - 1)
  }

  predicate NamedKind(kind: Byte) {
    kind == DFID_NAME || kind == OLD_DFID_NAME || kind == NEW_DFID_NAME
  }

  // The type, a pad byte, the length and what follows them.
  function EncodeInfo(x: InfoRecord): (s: seq<Byte>)
    requires x.Named? ==> IsInt32(x.handleType)
    ensures |s| == InfoLength(x)
  {
    [x.kind, 0] + Bytes(InfoLength(x), 2) + InfoBody(x)
  }

  function InfoBody(x: InfoRecord): seq<Byte>
    requires x.Named? ==> IsInt32(x.handleType)
  {
    match x
    case Other(_, payload) => payload
    case Named(_, fsid, handleType, handle, name, padding) =>
      fsid + Bytes(|handle|, 4) + Bytes(Unsigned(handleType), 4) + handle + (name + padding)
  }

  function InfoLength(x: InfoRecord): nat {
    match x
    case Other(_, payload) => 4 + |payload|
    case Named(_, fsid, _, handle, name, padding) => 12 + |fsid| + |handle| + |name| + |padding|
  }

  // Padding starts with the NUL that ends the name.
  predicate ValidInfo(x: InfoRecord) {
    && InfoLength(x) < 0x1_0000
    && match x
       case Other(kind, _) => !NamedKind(kind)
       case Named(kind, fsid, handleType, _, name, padding) =>
         && NamedKind(kind) && |fsid| == FSID_SIZE && IsInt32(handleType) && 0 !in name
         && (padding == [] || padding[0] == 0)
  }

  predicate ValidInfos(xs: seq<InfoRecord>) {
    forall i :: 0 <= i < |xs| ==> ValidInfo(xs[i])
  }

  function Concat(chunks: seq<seq<Byte>>): seq<Byte> {
    if chunks == [] then [] else chunks[0] + Concat(chunks[1..])
  }

  function InfoChunks(xs: seq<InfoRecord>): seq<seq<Byte>>
    requires ValidInfos(xs)
  {
    seq(|xs|, i requires 0 <= i < |xs| => EncodeInfo(xs[i]))
  }

  function EncodeInfos(xs: seq<InfoRecord>): seq<Byte>
    requires ValidInfos(xs)
  {
    Concat(InfoChunks(xs))
  }

  predicate ValidEvent(e: EventRecord) {
    && ValidInfos(e.infos)
    && e.mask < 0x1_0000_0000_0000_0000 && IsInt32(e.fd) && IsInt32(e.pid)
    && METADATA_SIZE + |e.extra| < 0x1_0000
    && |e.slack| < HEADER_SIZE
    && EventLength(e) < 0x1_0000_0000
  }

  function EventLength(e: EventRecord): nat
    requires ValidInfos(e.infos)
  {
    METADATA_SIZE + |e.extra| + |EncodeInfos(e.infos)| + |e.slack|
  }

  function Metadata(e: EventRecord): (s: seq<Byte>)
    requires ValidEvent(e)
    ensures |s| == METADATA_SIZE
  {
    Bytes(EventLength(e), 4) + [e.version, 0] + Bytes(METADATA_SIZE + |e.extra|, 2)
    + Bytes(e.mask, 8) + Bytes(Unsigned(e.fd), 4) + Bytes(Unsigned(e.pid), 4)
  }

  function EncodeEvent(e: EventRecord): (s: seq<Byte>)
    requires ValidEvent(e)
    ensures |s| == EventLength(e)
  {
    Metadata(e) + (e.extra + (EncodeInfos(e.infos) + e.slack))
  }

  predicate ValidEvents(es: seq<EventRecord>) {
    forall i :: 0 <= i < |es| ==> ValidEvent(es[i])
  }

  function EventChunks(es: seq<EventRecord>): seq<seq<Byte>>
    requires ValidEvents(es)
  {
    seq(|es|, i requires 0 <= i < |es| => EncodeEvent(es[i]))
  }

  function EncodeEvents(es: seq<EventRecord>): seq<Byte>
    requires ValidEvents(es)
  {
    Concat(EventChunks(es))
  }

  /* ---- What they mean ---- */

  // The last record of a kind, if any, has the say.
  function LastNamed(host: Host, xs: seq<InfoRecord>, kind: Byte, before: Option<string>): Option<string> {
    if xs == [] then before
    else
      var k := |xs| - 1;
      if xs[k].Named? && xs[k].kind == kind then PathOf(host, xs[k].handleType, xs[k].handle, xs[k].name)
      else LastNamed(host, xs[..k], kind, before)
  }

  function NamesIn(host: Host, xs: seq<InfoRecord>, before: Names): Names {
    Names(LastNamed(host, xs, DFID_NAME, before.plain),
          LastNamed(host, xs, OLD_DFID_NAME, before.from),
          LastNamed(host, xs, NEW_DFID_NAME, before.to))
  }

  function CallsFor(host: Host, e: EventRecord): seq<Call> {
    Logged(host, NamesIn(host, e.infos, NO_NAMES), e.pid, e.mask)
  }

  function AllCalls(host: Host, es: seq<EventRecord>): seq<Call> {
    if es == [] then [] else CallsFor(host, es[0]) + AllCalls(host, es[1..])
  }

  function AllClosed(es: seq<EventRecord>): seq<int> {
    if es == [] then [] else Closing(es[0].fd) + AllClosed(es[1..])
  }

  /* ---- Words read back ---- */

  lemma {:induction false} WordSizes()
    ensures Pow256(2) == 0x1_0000 && Pow256(4) == 0x1_0000_0000
    ensures Pow256(8) == 0x1_0000_0000_0000_0000
  {
    assert Pow256(1) == 0x100;
    assert Pow256(3) == 0x100_0000;
    assert Pow256(5) == 0x100_0000_0000;
    assert Pow256(6) == 0x1_0000_0000_0000;
    assert Pow256(7) == 0x100_0000_0000_0000;
  }

  lemma {:induction false} WordReadsBack(s: seq<Byte>, at: nat, n: nat, w: nat)
    requires n < Pow256(w) && at + w <= |s| && s[at..at + w] == Bytes(n, w)
    ensures Little(s, at, at + w) == n
    decreases w
  {
    if w > 0 {
      assert s[at] == s[at..at + w][0];
      assert s[at + 1..at + w] == s[at..at + w][1..];
      WordReadsBack(s, at + 1, n / 0x100, w - 1);
    }
  }

  /* ---- One info record ---- */

  lemma {:induction false} NamedLayout(x: InfoRecord)
    requires ValidInfo(x) && x.Named?
    ensures var s, n := EncodeInfo(x), 20 + |x.handle|;
            && U32(s, 12) == |x.handle| && Signed(U32(s, 16)) == x.handleType
            && n <= |s| && s[20..n] == x.handle && s[n..|s|] == x.name + x.padding
  {
    var s, n := EncodeInfo(x), 20 + |x.handle|;
    assert s == [x.kind, 0] + Bytes(InfoLength(x), 2) + x.fsid + Bytes(|x.handle|, 4)
             + Bytes(Unsigned(x.handleType), 4) + x.handle + (x.name + x.padding);
    WordSizes();
    assert s[12..16] == Bytes(|x.handle|, 4);
    WordReadsBack(s, 12, |x.handle|, 4);
    assert s[16..20] == Bytes(Unsigned(x.handleType), 4);
    WordReadsBack(s, 16, Unsigned(x.handleType), 4);
  }

  lemma {:induction false} NameEnds(name: seq<Byte>, padding: seq<Byte>)
    requires 0 !in name && (padding == [] || padding[0] == 0)
    ensures UpToNul(name + padding) == name
  {
    var s := name + padding;
    assert s[..|name|] == name;
    UpToNulStops(s, |name|);
  }

  lemma {:induction false} InfoReadsBack(host: Host, x: InfoRecord)
    requires ValidInfo(x) && x.Named?
    ensures ResolveOf(host, EncodeInfo(x), 0, InfoLength(x)) == PathOf(host, x.handleType, x.handle, x.name)
  {
    NamedLayout(x);
    NameEnds(x.name, x.padding);
  }

  // These bytes are read as that record.
  predicate ReadsAs(host: Host, a: seq<Byte>, x: InfoRecord) {
    && |a| >= HEADER_SIZE && a[0] == x.kind && U16(a, 2) == |a|
    && (x.Named? ==> ResolveOf(host, a, 0, |a|) == PathOf(host, x.handleType, x.handle, x.name))
  }

  lemma {:induction false} EncodedInfoReads(host: Host, x: InfoRecord)
    requires ValidInfo(x)
    ensures ReadsAs(host, EncodeInfo(x), x)
  {
    WordSizes();
    assert EncodeInfo(x)[2..4] == Bytes(InfoLength(x), 2);
    WordReadsBack(EncodeInfo(x), 2, InfoLength(x), 2);
    if x.Named? {
      InfoReadsBack(host, x);
    }
  }

  /* ---- All of an event's ---- */

  lemma {:induction false} LastNamedCons(host: Host, xs: seq<InfoRecord>, kind: Byte, before: Option<string>)
    requires xs != []
    ensures LastNamed(host, xs, kind, before)
         == LastNamed(host, xs[1..], kind, LastNamed(host, xs[..1], kind, before))
  {
    var k := |xs| - 1;
    if k > 0 {
      LastNamedCons(host, xs[..k], kind, before);
      assert xs[..k][1..] == xs[1..][..k - 1] && xs[..k][..1] == xs[..1];
    } else {
      assert xs[..1] == xs;
    }
  }

  lemma {:induction false} FirstNamed(host: Host, xs: seq<InfoRecord>, kind: Byte, before: Option<string>)
    requires xs != []
    ensures LastNamed(host, xs[..1], kind, before) ==
            if xs[0].Named? && xs[0].kind == kind then PathOf(host, xs[0].handleType, xs[0].handle, xs[0].name)
            else before
  {
    assert xs[..1][..0] == [];
  }

  // Putting the first record first, then the rest.
  lemma {:induction false} NamesInCons(host: Host, xs: seq<InfoRecord>, before: Names, path: Option<string>)
    requires xs != [] && ValidInfo(xs[0])
    requires xs[0].Named? ==> path == PathOf(host, xs[0].handleType, xs[0].handle, xs[0].name)
    ensures NamesIn(host, xs, before) == NamesIn(host, xs[1..], Put(before, xs[0].kind, path))
  {
    LastNamedCons(host, xs, DFID_NAME, before.plain);
    LastNamedCons(host, xs, OLD_DFID_NAME, before.from);
    LastNamedCons(host, xs, NEW_DFID_NAME, before.to);
    FirstNamed(host, xs, DFID_NAME, before.plain);
    FirstNamed(host, xs, OLD_DFID_NAME, before.from);
    FirstNamed(host, xs, NEW_DFID_NAME, before.to);
  }

  lemma {:induction false} SplitSlice(s: seq<Byte>, at: nat, end: nat, a: seq<Byte>, b: seq<Byte>)
    requires at <= end <= |s| && s[at..end] == a + b
    ensures at + |a| <= end && s[at..at + |a|] == a && s[at + |a|..end] == b
  {
    assert |s[at..end]| == |a| + |b|;
    assert s[at..at + |a|] == s[at..end][..|a|];
    assert s[at + |a|..end] == s[at..end][|a|..];
  }

  // A word of a piece of the buffer.
  lemma {:induction false} SameWord(s: seq<Byte>, at: nat, a: seq<Byte>, i: nat, j: nat)
    requires at + |a| <= |s| && s[at..at + |a|] == a && i <= j <= |a|
    ensures Little(s, at + i, at + j) == Little(a, i, j)
  {
    LittleInside(s, at, at + |a|, i, j);
  }

  lemma {:induction false} InfoHere(host: Host, buf: seq<Byte>, at: nat, a: seq<Byte>, x: InfoRecord)
    requires ReadsAs(host, a, x) && at + |a| <= |buf| && buf[at..at + |a|] == a
    ensures buf[at] == x.kind && U16(buf, at + 2) == |a|
    ensures x.Named? ==> ResolveOf(host, buf, at, at + |a|) == PathOf(host, x.handleType, x.handle, x.name)
  {
    assert buf[at..at + |a|][0] == buf[at];
    SameWord(buf, at, a, 2, 4);
    ResolveStaysInside(host, buf, at, at + |a|, 0, |a|);
  }

  lemma {:induction false} InfosReadBack(host: Host, buf: seq<Byte>, at: nat, end: nat, chunks: seq<seq<Byte>>,
                                         xs: seq<InfoRecord>, slack: seq<Byte>, names: Names)
    requires ValidInfos(xs) && |slack| < HEADER_SIZE
    requires |chunks| == |xs| && forall i :: 0 <= i < |xs| ==> ReadsAs(host, chunks[i], xs[i])
    requires at <= end <= |buf| && buf[at..end] == Concat(chunks) + slack
    ensures InfosOf(host, buf, at, end, names) == NamesIn(host, xs, names)
    decreases |xs|
  {
    if xs == [] {
      assert buf[at..end] == slack;
    } else {
      var x, a := xs[0], chunks[0];
      assert Concat(chunks) + slack == a + (Concat(chunks[1..]) + slack);
      SplitSlice(buf, at, end, a, Concat(chunks[1..]) + slack);
      InfoHere(host, buf, at, a, x);
      var path := ResolveOf(host, buf, at, at + |a|);
      NamesInCons(host, xs, names, path);
      InfosReadBack(host, buf, at + |a|, end, chunks[1..], xs[1..], slack, Put(names, x.kind, path));
    }
  }

  /* ---- Events ---- */

  // The fields of a metadata block, wherever they were read from.
  predicate MetadataIs(s: seq<Byte>, e: EventRecord)
    requires ValidEvent(e)
  {
    && |s| == METADATA_SIZE && U16(s, 6) == METADATA_SIZE + |e.extra| && U64(s, 8) == e.mask
    && Signed(U32(s, 16)) == e.fd && Signed(U32(s, 20)) == e.pid
  }

  lemma {:induction false} MetadataReadsBack(e: EventRecord)
    requires ValidEvent(e)
    ensures U32(Metadata(e), 0) == EventLength(e) && MetadataIs(Metadata(e), e)
  {
    var s := Metadata(e);
    WordSizes();
    assert s[0..4] == Bytes(EventLength(e), 4);
    WordReadsBack(s, 0, EventLength(e), 4);
    assert s[6..8] == Bytes(METADATA_SIZE + |e.extra|, 2);
    WordReadsBack(s, 6, METADATA_SIZE + |e.extra|, 2);
    assert s[8..16] == Bytes(e.mask, 8);
    WordReadsBack(s, 8, e.mask, 8);
    assert s[16..20] == Bytes(Unsigned(e.fd), 4);
    WordReadsBack(s, 16, Unsigned(e.fd), 4);
    assert s[20..24] == Bytes(Unsigned(e.pid), 4);
    WordReadsBack(s, 20, Unsigned(e.pid), 4);
  }

  lemma {:induction false} MetadataHere(buf: seq<Byte>, meta: seq<Byte>, e: EventRecord)
    requires ValidEvent(e) && MetadataIs(meta, e)
    requires |buf| >= METADATA_SIZE && buf[0..METADATA_SIZE] == meta
    ensures U16(buf, 6) == METADATA_SIZE + |e.extra| && U64(buf, 8) == e.mask
    ensures Signed(U32(buf, 16)) == e.fd && Signed(U32(buf, 20)) == e.pid
  {
    SameWord(buf, 0, meta, 6, 8);
    SameWord(buf, 0, meta, 8, 16);
    SameWord(buf, 0, meta, 16, 20);
    SameWord(buf, 0, meta, 20, 24);
  }

  lemma {:induction false} EventReads(host: Host, buf: seq<Byte>, meta: seq<Byte>, infos: seq<seq<Byte>>,
                                      e: EventRecord)
    requires ValidEvent(e) && MetadataIs(meta, e)
    requires |infos| == |e.infos| && forall i :: 0 <= i < |infos| ==> ReadsAs(host, infos[i], e.infos[i])
    requires buf == meta + (e.extra + (Concat(infos) + e.slack))
    ensures EventOf(host, buf, 0, |buf|) == Walked(CallsFor(host, e), Closing(e.fd))
  {
    var at := METADATA_SIZE + |e.extra|;
    assert buf[0..METADATA_SIZE] == meta;
    assert buf[at..|buf|] == Concat(infos) + e.slack;
    MetadataHere(buf, meta, e);
    InfosReadBack(host, buf, at, |buf|, infos, e.infos, e.slack, NO_NAMES);
  }

  // These bytes are read as that event.
  predicate EventReadsAs(host: Host, a: seq<Byte>, e: EventRecord) {
    && |a| >= METADATA_SIZE && U32(a, 0) == |a|
    && EventOf(host, a, 0, |a|) == Walked(CallsFor(host, e), Closing(e.fd))
  }

  lemma {:induction false} EncodedEventReads(host: Host, e: EventRecord)
    requires ValidEvent(e)
    ensures EventReadsAs(host, EncodeEvent(e), e)
  {
    var a := EncodeEvent(e);
    MetadataReadsBack(e);
    assert a[0..METADATA_SIZE] == Metadata(e);
    SameWord(a, 0, Metadata(e), 0, 4);
    forall i | 0 <= i < |e.infos| ensures ReadsAs(host, InfoChunks(e.infos)[i], e.infos[i]) {
      EncodedInfoReads(host, e.infos[i]);
    }
    EventReads(host, a, Metadata(e), InfoChunks(e.infos), e);
  }

  lemma {:induction false} EventHere(host: Host, buf: seq<Byte>, at: nat, a: seq<Byte>, e: EventRecord)
    requires EventReadsAs(host, a, e) && at + |a| <= |buf| && buf[at..at + |a|] == a
    ensures U32(buf, at) == |a|
    ensures EventOf(host, buf, at, at + |a|) == Walked(CallsFor(host, e), Closing(e.fd))
  {
    SameWord(buf, at, a, 0, 4);
    EventStaysInside(host, buf, at, at + |a|);
  }

  lemma {:induction false} FirstChunk(host: Host, buf: seq<Byte>, at: nat, n: nat, chunks: seq<seq<Byte>>,
                                      e: EventRecord)
    requires chunks != [] && EventReadsAs(host, chunks[0], e)
    requires at <= n <= |buf| && buf[at..n] == Concat(chunks)
    ensures var len := |chunks[0]|;
            && METADATA_SIZE <= len && at + len <= n
            && U32(buf, at) == len
            && EventOf(host, buf, at, at + len) == Walked(CallsFor(host, e), Closing(e.fd))
            && buf[at + len..n] == Concat(chunks[1..])
  {
    SplitSlice(buf, at, n, chunks[0], Concat(chunks[1..]));
    EventHere(host, buf, at, chunks[0], e);
  }

  lemma {:induction false} WalkFrom(host: Host, buf: seq<Byte>, at: nat, n: nat,
                                    chunks: seq<seq<Byte>>, es: seq<EventRecord>)
    requires |chunks| == |es| && forall i :: 0 <= i < |es| ==> EventReadsAs(host, chunks[i], es[i])
    requires at <= n <= |buf| && buf[at..n] == Concat(chunks)
    ensures Framed(buf, at, n)
    ensures EventsOf(host, buf, at, n) == Walked(AllCalls(host, es), AllClosed(es))
    decreases |es|
  {
    if es == [] {
      assert |buf[at..n]| == n - at;
    } else {
      var len := |chunks[0]|;
      FirstChunk(host, buf, at, n, chunks, es[0]);
      WalkFrom(host, buf, at + len, n, chunks[1..], es[1..]);
      WalkOne(host, buf, at, n, len);
    }
  }

  lemma {:induction false} WalkOne(host: Host, buf: seq<Byte>, at: nat, n: nat, len: nat)
    requires METADATA_SIZE <= len && at + len <= n <= |buf| && U32(buf, at) == len && Framed(buf, at + len, n)
    ensures Framed(buf, at, n)
    ensures EventsOf(host, buf, at, n) == Both(EventOf(host, buf, at, at + len), EventsOf(host, buf, at + len, n))
  {
  }

  /** A buffer of well-formed records is safe to walk, and the walk reports each
   *  event once, in order, with the names its records encode.
   */
  lemma {:induction false} WalkReadsBack(host: Host, es: seq<EventRecord>, after: seq<Byte>)
    requires ValidEvents(es)
    ensures var buf, n := EncodeEvents(es) + after, |EncodeEvents(es)|;
            Framed(buf, 0, n) && EventsOf(host, buf, 0, n) == Walked(AllCalls(host, es), AllClosed(es))
  {
    var buf, n := EncodeEvents(es) + after, |EncodeEvents(es)|;
    assert buf[0..n] == EncodeEvents(es);
    forall i | 0 <= i < |es| ensures EventReadsAs(host, EventChunks(es)[i], es[i]) {
      EncodedEventReads(host, es[i]);
    }
    WalkFrom(host, buf, 0, n, EventChunks(es), es);
  }

  /* ---- What is logged ---- */

  predicate NamesPath(host: Host, x: InfoRecord, kind: Byte, path: string) {
    x.Named? && x.kind == kind && PathOf(host, x.handleType, x.handle, x.name) == Some(path)
  }

  ghost predicate NamedBy(host: Host, xs: seq<InfoRecord>, kind: Byte, path: string) {
    exists i :: 0 <= i < |xs| && NamesPath(host, xs[i], kind, path)
  }

  lemma {:induction false} LastNamedIsNamed(host: Host, xs: seq<InfoRecord>, kind: Byte)
    requires LastNamed(host, xs, kind, None).Some?
    ensures NamedBy(host, xs, kind, LastNamed(host, xs, kind, None).value)
  {
    var k := |xs| - 1;
    if xs[k].Named? && xs[k].kind == kind {
      assert NamesPath(host, xs[k], kind, LastNamed(host, xs, kind, None).value);
    } else {
      LastNamedIsNamed(host, xs[..k], kind);
      var i :| 0 <= i < k && NamesPath(host, xs[..k][i], kind, LastNamed(host, xs, kind, None).value);
      assert xs[..k][i] == xs[i];
    }
  }

  // Record k is the last of its type.
  ghost predicate LastOfType(xs: seq<InfoRecord>, kind: int, k: int) {
    && 0 <= k < |xs| && xs[k].Named? && xs[k].kind == kind
    && forall i :: k < i < |xs| ==> !(xs[i].Named? && xs[i].kind == kind)
  }

  // What the records of one type leave in their slot: what the last of them names, if its
  // directory can be opened; an empty name stands for the directory itself.
  ghost predicate Slot(host: Host, xs: seq<InfoRecord>, kind: int, path: Option<string>) {
    || (path == None && forall i :: 0 <= i < |xs| ==> !(xs[i].Named? && xs[i].kind == kind))
    || (exists k ::
          LastOfType(xs, kind, k) &&
          path == match host.parent(xs[k].handleType, xs[k].handle)
                  case None => None
                  case Some(dir) =>
                    var name := host.text(xs[k].name);
                    Some(if name == "" then dir else dir + "/" + name))
  }

  lemma {:induction false} LastFillsSlot(host: Host, xs: seq<InfoRecord>, kind: Byte)
    ensures Slot(host, xs, kind, LastNamed(host, xs, kind, None))
  {
    if xs != [] {
      var n := |xs| - 1;
      if xs[n].Named? && xs[n].kind == kind {
        assert LastOfType(xs, kind, n);
      } else {
        var init := xs[..n];
        LastFillsSlot(host, init, kind);
        forall k ensures LastOfType(init, kind, k) <==> LastOfType(xs, kind, k) {
          assert forall i :: 0 <= i < n ==> init[i] == xs[i];
        }
        assert forall i :: 0 <= i < |xs| ==> i == n || xs[i] == init[i];
      }
    }
  }

  // FAN_CREATE, FAN_DELETE, FAN_MOVED_FROM, FAN_MOVED_TO and FAN_ATTRIB, in that order.
  predicate Has(mask: nat, bit: nat)
    requires bit > 0
  {
    mask / bit % 2 == 1
  }

  /** The one call an event makes, if any, from the slots of record types 2, 10 and 12 and
   *  the bits of the mask.
   */
  lemma {:induction false} EventCalls(host: Host, e: EventRecord)
    returns (plain: Option<string>, from: Option<string>, to: Option<string>)
    ensures Slot(host, e.infos, 2, plain) && Slot(host, e.infos, 10, from) && Slot(host, e.infos, 12, to)
    ensures var op := if Has(e.mask, 0x100) then "create"
                      else if Has(e.mask, 0x200) then "delete"
                      else if Has(e.mask, 0x40) then "moved_from"
                      else if Has(e.mask, 0x80) then "moved_to"
                      else if Has(e.mask, 0x4) then "attrib"
                      else "fid_other";
            var call := if from.Some? && to.Some? then Some(Call(to.value, "renamed", e.pid, from))
                        else if from.Some? then Some(Call(from.value, "moved_from", e.pid, None))
                        else if to.Some? then Some(Call(to.value, "moved_to", e.pid, None))
                        else if plain.Some? then Some(Call(plain.value, op, e.pid, None))
                        else None;
            CallsFor(host, e) ==
            if call.Some? && e.pid != host.daemon && !host.blocked(call.value.path) then [call.value] else []
    ensures AllClosed([e]) == if e.fd >= 0 then [e.fd] else []
  {
    plain, from, to := LastNamed(host, e.infos, DFID_NAME, None), LastNamed(host, e.infos, OLD_DFID_NAME, None),
      LastNamed(host, e.infos, NEW_DFID_NAME, None);
    LastFillsSlot(host, e.infos, DFID_NAME);
    LastFillsSlot(host, e.infos, OLD_DFID_NAME);
    LastFillsSlot(host, e.infos, NEW_DFID_NAME);
  }

  /** An event makes at most one call, for its own process and never the daemon's;
   *  a rename has both ends, each from the record of its kind, and nothing else has two;
   *  half a rename is reported as a move.
   */
  lemma {:induction false} CallNamesRecords(host: Host, e: EventRecord)
    ensures |CallsFor(host, e)| <= 1
    ensures forall c :: c in CallsFor(host, e) ==>
              && c.pid == e.pid != host.daemon && !host.blocked(c.path)
              && (c.op == "renamed" <==> c.other.Some?)
              && (c.other.Some? ==> NamedBy(host, e.infos, 10, c.other.value)
                                    && NamedBy(host, e.infos, 12, c.path))
              && (c.other.None? ==>
                    || (c.op == "moved_from" && NamedBy(host, e.infos, 10, c.path))
                    || (c.op == "moved_to" && NamedBy(host, e.infos, 12, c.path))
                    || (c.op == OpName(e.mask) && NamedBy(host, e.infos, 2, c.path)))
  {
    var names := NamesIn(host, e.infos, NO_NAMES);
    if names.plain.Some? {
      LastNamedIsNamed(host, e.infos, DFID_NAME);
    }
    if names.from.Some? {
      LastNamedIsNamed(host, e.infos, OLD_DFID_NAME);
    }
    if names.to.Some? {
      LastNamedIsNamed(host, e.infos, NEW_DFID_NAME);
    }
  }

  /* ---- Bytes ---- */

  lemma {:induction false} FourBytes(s: seq<Byte>, at: nat, a: nat, b: nat, c: nat, d: nat)
    requires at + 4 <= |s| && s[at] == a && s[at + 1] == b && s[at + 2] == c && s[at + 3] == d
    ensures U16(s, at) == a + 0x100 * b
    ensures U32(s, at) == a + 0x100 * b + 0x1_0000 * (c + 0x100 * d)
  {
    WordsAt(s, at);
    WordsAt(s, at + 2);
  }

  // Sent by process 42 without a descriptor: FAN_CREATE, with one info record.
  const CREATE_METADATA: seq<Byte> :=
    [48, 0, 0, 0, 3, 0, 24, 0, 0, 1, 0, 0, 0, 0, 0, 0, 255, 255, 255, 255, 42, 0, 0, 0]

  // Of type 2: "a" in the directory with the handle 7, 9 of type 1.
  const CREATE_INFO: seq<Byte> :=
    [2, 0, 24, 0, 0, 1, 2, 3, 4, 5, 6, 7, 2, 0, 0, 0, 1, 0, 0, 0, 7, 9, 97, 0]

  lemma {:induction false} MetadataWords(buf: seq<Byte>)
    requires buf == CREATE_METADATA + CREATE_INFO
    ensures U32(buf, 0) == 48 && U16(buf, 6) == 24
    ensures U32(buf, 16) == 0xFFFF_FFFF && U32(buf, 20) == 42
  {
    FourBytes(buf, 0, 48, 0, 0, 0);
    FourBytes(buf, 6, 24, 0, 0, 1);
    FourBytes(buf, 16, 255, 255, 255, 255);
    FourBytes(buf, 20, 42, 0, 0, 0);
  }

  lemma {:induction false} MaskWord(buf: seq<Byte>)
    requires buf == CREATE_METADATA + CREATE_INFO
    ensures U64(buf, 8) == 0x100
  {
    FourBytes(buf, 8, 0, 1, 0, 0);
    FourBytes(buf, 12, 0, 0, 0, 0);
    WordsAt(buf, 8);
  }

  lemma {:induction false} InfoWords(buf: seq<Byte>)
    requires buf == CREATE_METADATA + CREATE_INFO
    ensures U16(buf, 26) == 24 && U32(buf, 36) == 2 && U32(buf, 40) == 1
  {
    FourBytes(buf, 26, 24, 0, 0, 1);
    FourBytes(buf, 36, 2, 0, 0, 0);
    FourBytes(buf, 40, 1, 0, 0, 0);
  }

  lemma {:induction false} CreateName(host: Host, buf: seq<Byte>, dir: string)
    requires buf == CREATE_METADATA + CREATE_INFO
    requires host.parent(1, [7, 9]) == Some(dir) && host.text([97]) == "a"
    ensures InfosOf(host, buf, 24, 48, NO_NAMES) == Names(Some(dir + "/a"), None, None)
  {
    InfoWords(buf);
    assert buf[44..46] == [7, 9];
    UpToNulStops(buf[46..48], 1);
    assert buf[46..48][..1] == [97];
    assert UpToNul(buf[46..48]) == [97] && dir + "/" + "a" == dir + "/a";
    assert ResolveOf(host, buf, 24, 48) == Some(dir + "/a");
    var names := Names(Some(dir + "/a"), None, None);
    assert InfosOf(host, buf, 48, 48, names) == names;
  }

  /** One event byte by byte: process 42 creates "a" in the directory of that handle. */
  lemma {:induction false} CreateInBytes(host: Host, dir: string)
    requires host.parent(1, [7, 9]) == Some(dir) && host.text([97]) == "a"
    requires host.daemon != 42 && !host.blocked(dir + "/a")
    ensures var buf := CREATE_METADATA + CREATE_INFO;
            Framed(buf, 0, 48) && EventsOf(host, buf, 0, 48) == Walked([Call(dir + "/a", "create", 42, None)], [])
  {
    var buf := CREATE_METADATA + CREATE_INFO;
    MetadataWords(buf);
    MaskWord(buf);
    CreateName(host, buf, dir);
    assert EventOf(host, buf, 0, 48) == Walked([Call(dir + "/a", "create", 42, None)], []);
    assert Framed(buf, 48, 48);
    WalkOne(host, buf, 0, 48, 48);
  }
}
