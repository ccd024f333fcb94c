/** The layout of a checkpoint file, and the changes that are made to one in place. */
module CheckpointFile {
  import opened Optional
  import opened Utf8

  const FIXED_HEADER: nat := 48
  const TEXT_AT: nat := 52
  const VERSION: byte := 1
  const PAYLOAD_ABI: byte := 2
  const REASON_UNKNOWN: byte := 0
  const REASON_CONTINUED: byte := 2
  const REASON_AGENT_SESSION: byte := 6
  const TWO_TO_32: nat := 0x1_0000_0000
  const TWO_TO_64: nat := 0x1_0000_0000_0000_0000
  const INT64_MAX: nat := 0x7FFF_FFFF_FFFF_FFFF

  // ---------------------------------------------------------------- little-endian numbers

  /** The low bytes of a number, the lowest first. */
  function LittleEndian(v: nat, size: nat): (s: seq<byte>)
    ensures |s| == size
  {
    if size == 0 then [] else [(v % 256) as byte] + LittleEndian(v / 256, size - 1)
  }

  function Number(s: seq<byte>): nat {
    if s == [] then 0 else s[0] as nat + 256 * Number(s[1..])
  }

  function Power256(k: nat): nat {
    if k == 0 then 1 else 256 * Power256(k - 1)
  }

  /** A number that fits is read back. */
  lemma {:induction false} NumberBack(v: nat, size: nat)
    requires v < Power256(size)
    ensures Number(LittleEndian(v, size)) == v
  {
    if size > 0 {
      NumberBack(v / 256, size - 1);
      assert LittleEndian(v, size)[1..] == LittleEndian(v / 256, size - 1);
    }
  }

  /** The bytes of what was read are what was read from. */
  lemma {:induction false} BytesBack(s: seq<byte>)
    ensures LittleEndian(Number(s), |s|) == s && Number(s) < Power256(|s|)
  {
    if s != [] { BytesBack(s[1..]); }
  }

  lemma Powers()
    ensures Power256(4) == TWO_TO_32 && Power256(8) == TWO_TO_64
  {
    assert Power256(2) == 0x1_0000;
    assert Power256(6) == 0x1_0000_0000_0000;
  }

  // ------------------------------------------------------------------------------ header

  datatype Header = Header(
    quantBits: byte, reason: byte, extFlags: byte, modelId: byte,
    tokens: nat, hits: nat, ctxSize: nat, createdAt: nat, lastUsed: nat, payloadBytes: nat)

  /** The fields are those of the integer types of the program. */
  predicate Sized(h: Header) {
    && h.tokens < TWO_TO_32 && h.hits < TWO_TO_32 && h.ctxSize < TWO_TO_32
    && h.createdAt < TWO_TO_64 && h.lastUsed < TWO_TO_64 && h.payloadBytes < TWO_TO_64
  }

  function HeaderStart(h: Header): (s: seq<byte>)
    ensures |s| == 8
  {
    ['K' as int as byte, 'V' as int as byte, 'C' as int as byte, VERSION, h.quantBits, h.reason, h.extFlags, h.modelId]
  }

  function HeaderBytes(h: Header): (s: seq<byte>)
    ensures |s| == FIXED_HEADER
  {
    HeaderStart(h)
    + LittleEndian(h.tokens, 4) + LittleEndian(h.hits, 4) + LittleEndian(h.ctxSize, 4)
    + [PAYLOAD_ABI, 0, 0, 0]
    + LittleEndian(h.createdAt, 8) + LittleEndian(h.lastUsed, 8) + LittleEndian(h.payloadBytes, 8)
  }

  predicate QuantBitsValid(q: byte) {
    q in {1, 2, 3, 4, 5, 6, 8}
  }

  predicate Marked(f: seq<byte>)
    requires |f| >= FIXED_HEADER
  {
    && f[0] == 'K' as int as byte && f[1] == 'V' as int as byte && f[2] == 'C' as int as byte && f[3] == VERSION
    && f[20] == PAYLOAD_ABI
  }

  function Fields(f: seq<byte>): Header
    requires |f| >= FIXED_HEADER
  {
    Header(f[4], if f[5] <= REASON_AGENT_SESSION then f[5] else REASON_UNKNOWN, f[6], f[7],
           Number(f[8..12]), Number(f[12..16]), Number(f[16..20]),
           Number(f[24..32]), Number(f[32..40]), Number(f[40..48]))
  }

  function TextBytes(f: seq<byte>): nat
    requires |f| >= TEXT_AT
  {
    Number(f[48..52])
  }

  /** The header of a file and the length of its text. */
  function ReadHeader(f: seq<byte>): (r: Option<(Header, nat)>) {
    if |f| < TEXT_AT || !Marked(f) then None
    else
      var h := Fields(f);
      if h.tokens != 0 && QuantBitsValid(h.quantBits) then Some((h, TextBytes(f))) else None
  }

  /** The header of a file that is at least as long as it says. */
  function ReadEntryFile(f: seq<byte>): Option<(Header, nat)> {
    var r := ReadHeader(f);
    if r.None? || r.value.1 + r.value.0.payloadBytes >= TWO_TO_64 - TEXT_AT then None
    else if |f| < TEXT_AT + r.value.1 + r.value.0.payloadBytes then None else r
  }

  /** A stored file. */
  function Stored(h: Header, text: seq<byte>, payload: seq<byte>, trailer: seq<byte>): seq<byte> {
    HeaderBytes(h) + LittleEndian(|text|, 4) + text + payload + trailer
  }

  /** Sound headers are those that a store writes. */
  predicate Sound(h: Header) {
    Sized(h) && h.tokens != 0 && QuantBitsValid(h.quantBits) && h.reason <= REASON_AGENT_SESSION
  }

  lemma HeaderParts(h: Header)
    ensures var f := HeaderBytes(h);
      && f[..8] == HeaderStart(h) && f[8..12] == LittleEndian(h.tokens, 4) && f[12..16] == LittleEndian(h.hits, 4)
      && f[16..20] == LittleEndian(h.ctxSize, 4) && f[20..24] == [PAYLOAD_ABI, 0, 0, 0]
      && f[24..32] == LittleEndian(h.createdAt, 8) && f[32..40] == LittleEndian(h.lastUsed, 8)
      && f[40..48] == LittleEndian(h.payloadBytes, 8)
  {
    hide LittleEndian;
  }

  /** What a file whose first bytes are a header says. */
  lemma HeaderIsRead(h: Header, rest: seq<byte>)
    requires Sized(h) && h.reason <= REASON_AGENT_SESSION
    ensures var f := HeaderBytes(h) + rest; Marked(f) && Fields(f) == h
  {
    hide LittleEndian, Number, HeaderBytes;
    var b := HeaderBytes(h);
    var f := b + rest;
    HeaderParts(h);
    Powers();
    NumberBack(h.tokens, 4);
    NumberBack(h.hits, 4);
    NumberBack(h.ctxSize, 4);
    NumberBack(h.createdAt, 8);
    NumberBack(h.lastUsed, 8);
    NumberBack(h.payloadBytes, 8);
    assert forall i :: 0 <= i < 8 ==> f[i] == b[..8][i];
    assert f[20] == b[20..24][0];
    assert f[8..12] == b[8..12] && f[12..16] == b[12..16] && f[16..20] == b[16..20];
    assert f[24..32] == b[24..32] && f[32..40] == b[32..40] && f[40..48] == b[40..48];
  }

  /** The text, the payload and what follows them. */
  function TextOf(f: seq<byte>): (text: seq<byte>)
    requires ReadEntryFile(f).Some?
    ensures |text| == ReadEntryFile(f).value.1
  {
    f[TEXT_AT..TEXT_AT + ReadEntryFile(f).value.1]
  }

  function PayloadEnd(f: seq<byte>): nat
    requires ReadEntryFile(f).Some?
    ensures PayloadEnd(f) <= |f|
  {
    TEXT_AT + ReadEntryFile(f).value.1 + ReadEntryFile(f).value.0.payloadBytes
  }

  function PayloadOf(f: seq<byte>): seq<byte>
    requires ReadEntryFile(f).Some?
  {
    f[TEXT_AT + ReadEntryFile(f).value.1..PayloadEnd(f)]
  }

  function TrailerOf(f: seq<byte>): seq<byte>
    requires ReadEntryFile(f).Some?
  {
    f[PayloadEnd(f)..]
  }

  /** A stored file gives back its header, text, payload and trailer. */
  lemma StoredReadsBack(h: Header, text: seq<byte>, payload: seq<byte>, trailer: seq<byte>)
    requires Sound(h) && |text| < TWO_TO_32 && |payload| == h.payloadBytes
    requires |text| + |payload| < TWO_TO_64 - TEXT_AT
    ensures var f := Stored(h, text, payload, trailer);
      && ReadEntryFile(f) == Some((h, |text|))
      && TextOf(f) == text && PayloadOf(f) == payload && TrailerOf(f) == trailer
  {
    hide LittleEndian, Number, HeaderBytes, Marked, Fields;
    var f := Stored(h, text, payload, trailer);
    var b := HeaderBytes(h);
    HeaderIsRead(h, LittleEndian(|text|, 4) + text + payload + trailer);
    assert f == b + (LittleEndian(|text|, 4) + text + payload + trailer);
    Powers();
    NumberBack(|text|, 4);
    assert f[48..52] == LittleEndian(|text|, 4);
    assert f[52..52 + |text|] == text;
    assert f[52 + |text|..52 + |text| + |payload|] == payload;
    assert f[52 + |text| + |payload|..] == trailer;
  }

  // ------------------------------------------------------------------ changes in place

  /** The header of a file with other hits and another time of use. */
  function Touch(f: seq<byte>, hits: nat, now: nat): (g: seq<byte>)
    ensures |g| == |f|
  {
    var r := ReadHeader(f);
    if r.None? then f else HeaderBytes(r.value.0.(hits := hits, lastUsed := now)) + f[FIXED_HEADER..]
  }

  /** The bytes that a header is written with where nothing was clamped or reserved. */
  predicate Plain(f: seq<byte>)
    requires |f| >= FIXED_HEADER
  {
    f[5] <= REASON_AGENT_SESSION && f[21] == 0 && f[22] == 0 && f[23] == 0
  }

  predicate Kept(i: nat) {
    !(12 <= i < 16) && !(32 <= i < 40)
  }

  lemma FieldsBytes(f: seq<byte>)
    requires |f| >= FIXED_HEADER
    ensures var h := Fields(f);
      && Sized(h)
      && LittleEndian(h.tokens, 4) == f[8..12] && LittleEndian(h.ctxSize, 4) == f[16..20]
      && LittleEndian(h.createdAt, 8) == f[24..32] && LittleEndian(h.payloadBytes, 8) == f[40..48]
  {
    hide LittleEndian, Number;
    Powers();
    BytesBack(f[8..12]);
    BytesBack(f[12..16]);
    BytesBack(f[16..20]);
    BytesBack(f[24..32]);
    BytesBack(f[32..40]);
    BytesBack(f[40..48]);
  }

  lemma PartOf(a: seq<byte>, lo: nat, hi: nat, b: seq<byte>)
    requires lo <= hi <= |a| && hi <= |b| && a[lo..hi] == b[lo..hi]
    ensures forall i :: lo <= i < hi ==> a[i] == b[i]
  {
    forall i | lo <= i < hi ensures a[i] == b[i] {
      assert a[lo..hi][i - lo] == b[lo..hi][i - lo];
    }
  }

  lemma RewrittenHeader(f: seq<byte>, h: Header)
    requires |f| >= FIXED_HEADER && Marked(f) && h == Fields(f).(hits := h.hits, lastUsed := h.lastUsed)
    ensures forall i :: 0 <= i < FIXED_HEADER && Kept(i) && i != 5 && !(21 <= i < 24) ==> HeaderBytes(h)[i] == f[i]
    ensures HeaderBytes(h)[5] == Fields(f).reason && HeaderBytes(h)[20..24] == [PAYLOAD_ABI, 0, 0, 0]
  {
    hide LittleEndian, Number, HeaderBytes;
    FieldsBytes(f);
    HeaderParts(h);
    var b := HeaderBytes(h);
    assert forall i :: 0 <= i < 8 ==> b[i] == b[..8][i];
    assert b[20] == b[20..24][0];
    PartOf(b, 8, 12, f);
    PartOf(b, 16, 20, f);
    PartOf(b, 24, 32, f);
    PartOf(b, 40, 48, f);
  }

  /** Touching a file changes its hits and its time of use and, exactly when its reason is known and
      its reserved bytes are zero, nothing else. */
  lemma TouchChanges(f: seq<byte>, hits: nat, now: nat)
    requires ReadHeader(f).Some?
    ensures var g := Touch(f, hits, now);
      && g[12..16] == LittleEndian(hits, 4) && g[32..40] == LittleEndian(now, 8)
      && ((forall i :: 0 <= i < |f| && Kept(i) ==> g[i] == f[i]) <==> Plain(f))
  {
    hide LittleEndian, Number, HeaderBytes;
    var h := Fields(f).(hits := hits, lastUsed := now);
    var b := HeaderBytes(h);
    var g := b + f[FIXED_HEADER..];
    RewrittenHeader(f, h);
    HeaderParts(h);
    assert g[12..16] == b[12..16] && g[32..40] == b[32..40];
    assert b[20..24][1] == b[21] && b[20..24][2] == b[22] && b[20..24][3] == b[23];
    assert Kept(5) && Kept(21) && Kept(22) && Kept(23);
    assert g[5] == b[5] && g[21] == b[21] && g[22] == b[22] && g[23] == b[23];
  }

  /** A file that was touched reads as before but for these two fields. */
  lemma TouchReads(f: seq<byte>, hits: nat, now: nat)
    requires ReadHeader(f).Some? && hits < TWO_TO_32 && now < TWO_TO_64
    ensures var (h, n) := ReadHeader(f).value;
      ReadHeader(Touch(f, hits, now)) == Some((h.(hits := hits, lastUsed := now), n))
    ensures Touch(f, hits, now)[FIXED_HEADER..] == f[FIXED_HEADER..]
  {
    hide LittleEndian, Number, HeaderBytes, Marked, Fields;
    var h := Fields(f).(hits := hits, lastUsed := now);
    var g := HeaderBytes(h) + f[FIXED_HEADER..];
    FieldsBytes(f);
    ReasonOk(f);
    HeaderIsRead(h, f[FIXED_HEADER..]);
    assert g[FIXED_HEADER..] == f[FIXED_HEADER..];
    assert g[48..52] == g[FIXED_HEADER..][..4] == f[FIXED_HEADER..][..4] == f[48..52];
  }

  /** For one: a reserved byte that is set is cleared. */
  lemma TouchClears(h: Header, hits: nat, now: nat)
    requires Sound(h)
    ensures var f := HeaderBytes(h)[21 := 1] + LittleEndian(0, 4);
      ReadHeader(f).Some? && !Plain(f) && f[21] == 1 && Touch(f, hits, now)[21] == 0
  {
    hide LittleEndian, Number, HeaderBytes;
    var b := HeaderBytes(h);
    var g, f := b + LittleEndian(0, 4), b[21 := 1] + LittleEndian(0, 4);
    HeaderIsRead(h, LittleEndian(0, 4));
    assert f[8..12] == g[8..12] && f[12..16] == g[12..16] && f[16..20] == g[16..20];
    assert f[24..32] == g[24..32] && f[32..40] == g[32..40] && f[40..48] == g[40..48];
    var h1 := Fields(f).(hits := hits, lastUsed := now);
    RewrittenHeader(f, h1);
    assert HeaderBytes(h1)[21] == HeaderBytes(h1)[20..24][1];
  }

  /** A file that reads as an entry, with nothing clamped or reserved in it, is one that a store writes. */
  lemma EntryIsStored(f: seq<byte>)
    requires ReadEntryFile(f).Some? && Plain(f)
    ensures f == Stored(ReadEntryFile(f).value.0, TextOf(f), PayloadOf(f), TrailerOf(f))
  {
    hide LittleEndian, Number, HeaderBytes;
    var h := Fields(f);
    RewrittenHeader(f, h);
    HeaderParts(h);
    var b := HeaderBytes(h);
    assert b[20..24][1] == b[21] && b[20..24][2] == b[22] && b[20..24][3] == b[23];
    BytesBack(f[12..16]);
    BytesBack(f[32..40]);
    BytesBack(f[48..52]);
    PartOf(b, 12, 16, f);
    PartOf(b, 32, 40, f);
    assert b == f[..FIXED_HEADER];
    assert f == f[..48] + f[48..52] + TextOf(f) + PayloadOf(f) + TrailerOf(f);
  }

  function Resized(f: seq<byte>, end: nat): (g: seq<byte>)
    ensures |g| == end
  {
    if end <= |f| then f[..end] else f + seq(end - |f|, _ => 0)
  }

  function WithFlag(flags: byte, flag: byte): byte {
    ((flags as bv8) | (flag as bv8)) as byte
  }

  /** The file with what was written behind its payload, and its header if all of that went well. */
  function RewriteTrailer(f: seq<byte>, written: seq<byte>, ok: bool, flag: byte, now: nat): seq<byte> {
    var r := ReadHeader(f);
    if r.None? then f
    else
      var (h, n) := r.value;
      var end := TEXT_AT + n + h.payloadBytes;
      if end > INT64_MAX then f
      else
        var g := Resized(f, end) + written;
        if ok && written != [] then
          HeaderBytes(h.(extFlags := WithFlag(h.extFlags, flag), lastUsed := now)) + g[FIXED_HEADER..]
        else g
  }

  /** A file that starts with a sound header and a text length, followed by enough. */
  lemma ReadsAs(f: seq<byte>, h: Header, n: nat)
    requires |f| >= TEXT_AT && Marked(f) && Fields(f) == h && TextBytes(f) == n
    requires h.tokens != 0 && QuantBitsValid(h.quantBits) && n + h.payloadBytes < TWO_TO_64 - TEXT_AT
    requires TEXT_AT + n + h.payloadBytes <= |f|
    ensures ReadEntryFile(f) == Some((h, n))
  {
    hide Marked, Fields, Number;
  }

  lemma KeptSlice(f: seq<byte>, end: nat, written: seq<byte>, a: nat, b: nat)
    requires a <= b <= end <= |f|
    ensures (f[..end] + written)[a..b] == f[a..b]
  {
  }

  /** Rewriting the trailer leaves the text and the payload, and every field of the header but the
      flags and the time of use; what was written becomes the trailer. */
  lemma RewriteKeeps(f: seq<byte>, written: seq<byte>, ok: bool, flag: byte, now: nat)
    requires ReadEntryFile(f).Some? && PayloadEnd(f) <= INT64_MAX && now < TWO_TO_64
    ensures var g, (h, n) := RewriteTrailer(f, written, ok, flag, now), ReadEntryFile(f).value;
      var noted := h.(extFlags := WithFlag(h.extFlags, flag), lastUsed := now);
      && ReadEntryFile(g) == Some((if ok && written != [] then noted else h, n))
      && TextOf(g) == TextOf(f) && PayloadOf(g) == PayloadOf(f) && TrailerOf(g) == written
  {
    hide LittleEndian, Number, HeaderBytes, Marked, Fields;
    var (h, n) := ReadEntryFile(f).value;
    var end := PayloadEnd(f);
    var g0 := f[..end] + written;
    SameStart(f, g0);
    ReadsAs(g0, h, n);
    KeptSlice(f, end, written, TEXT_AT, TEXT_AT + n);
    KeptSlice(f, end, written, TEXT_AT + n, end);
    assert g0[end..] == written;
    if ok && written != [] {
      var noted := h.(extFlags := WithFlag(h.extFlags, flag), lastUsed := now);
      var g := HeaderBytes(noted) + g0[FIXED_HEADER..];
      FieldsBytes(f);
      ReasonOk(f);
      HeaderIsRead(noted, g0[FIXED_HEADER..]);
      assert g[48..52] == g0[48..52];
      ReadsAs(g, noted, n);
      assert g[TEXT_AT..TEXT_AT + n] == g0[TEXT_AT..TEXT_AT + n];
      assert g[TEXT_AT + n..end] == g0[TEXT_AT + n..end];
      assert g[end..] == g0[end..];
    }
  }

  lemma ReasonOk(f: seq<byte>)
    requires |f| >= FIXED_HEADER
    ensures Fields(f).reason <= REASON_AGENT_SESSION
  {
  }

  lemma SameStart(f: seq<byte>, g: seq<byte>)
    requires |f| >= TEXT_AT && |g| >= TEXT_AT && f[..TEXT_AT] == g[..TEXT_AT]
    ensures Marked(f) == Marked(g) && Fields(f) == Fields(g) && TextBytes(f) == TextBytes(g)
  {
    hide Number;
    PartOf(f, 0, TEXT_AT, g);
    assert f[8..12] == g[8..12] && f[12..16] == g[12..16] && f[16..20] == g[16..20];
    assert f[24..32] == g[24..32] && f[32..40] == g[32..40] && f[40..48] == g[40..48];
    assert f[48..52] == g[48..52];
  }

  // ------------------------------------------------------------------------ the buffers

  /** le_put: the bytes of a number into a buffer. */
  method PutNumber(h: array<byte>, at: nat, v: nat, size: nat)
    requires at + size <= h.Length
    modifies h
    ensures h[..at + size] == old(h[..at]) + LittleEndian(v, size)
    ensures forall k :: at + size <= k < h.Length ==> h[k] == old(h[k])
  {
    var rest := v;
    for i := 0 to size
      invariant h[..at + i] + LittleEndian(rest, size - i) == old(h[..at]) + LittleEndian(v, size)
      invariant forall k :: at + size <= k < h.Length ==> h[k] == old(h[k])
    {
      h[at + i] := (rest % 256) as byte;
      assert h[..at + i + 1] == h[..at + i] + [(rest % 256) as byte];
      rest := rest / 256;
    }
  }

  /** le_get: from the last byte down. */
  method GetNumber(p: seq<byte>) returns (v: nat)
    ensures v == Number(p)
  {
    v := 0;
    var i := |p|;
    assert p[|p|..] == [];
    while i > 0
      invariant 0 <= i <= |p| && v == Number(p[i..])
    {
      i := i - 1;
      assert p[i..][1..] == p[i + 1..];
      v := v * 256 + p[i] as nat;
    }
    assert p[0..] == p;
  }

  /** The first bytes of the header, and zeros behind them. */
  method FillStart(buffer: array<byte>, h: Header)
    requires buffer.Length == FIXED_HEADER
    modifies buffer
    ensures buffer[..8] == HeaderStart(h) && forall k :: 8 <= k < FIXED_HEADER ==> buffer[k] == 0
  {
    for i := 0 to FIXED_HEADER
      invariant forall k :: 0 <= k < i ==> buffer[k] == 0
    {
      buffer[i] := 0;
    }
    buffer[0] := 'K' as int as byte;
    buffer[1] := 'V' as int as byte;
    buffer[2] := 'C' as int as byte;
    buffer[3] := VERSION;
    buffer[4] := h.quantBits;
    buffer[5] := h.reason;
    buffer[6] := h.extFlags;
    buffer[7] := h.modelId;
  }

  method FillHeader(buffer: array<byte>, h: Header)
    requires buffer.Length == FIXED_HEADER
    modifies buffer
    ensures buffer[..] == HeaderBytes(h)
  {
    hide LittleEndian;
    FillStart(buffer, h);
    PutNumber(buffer, 8, h.tokens, 4);
    PutNumber(buffer, 12, h.hits, 4);
    PutNumber(buffer, 16, h.ctxSize, 4);
    ghost var sofar := buffer[..20];
    buffer[20] := PAYLOAD_ABI;
    assert buffer[..24] == sofar + [PAYLOAD_ABI, 0, 0, 0];
    PutNumber(buffer, 24, h.createdAt, 8);
    PutNumber(buffer, 32, h.lastUsed, 8);
    PutNumber(buffer, 40, h.payloadBytes, 8);
    assert buffer[..] == buffer[..48];
  }
}
