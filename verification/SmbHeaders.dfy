// The NetBIOS session header (RFC 1002, section 4.3.1) and the SMB header
// (MS-CIFS, section 2.2.3.1) as app-layer-smb.c reads them: byte by byte across
// chunks, or at once when a chunk holds a header whole.
module SmbHeaders {
  import opened Bytes

  const NBSS_HDR_LEN := 4
  const SMB_HDR_LEN := 32
  const HDRS_LEN := 36
  const SESSION_MESSAGE: byte := 0
  const NO_ANDX: byte := 0xFF
  const MAX_CHAINED := 5

  // ---- numbers wider than a byte, as their bytes, highest first ----

  function Or(a: nat, b: nat, bits: nat): nat
    decreases bits
  {
    if bits == 0 then 0
    else (if a % 2 == 1 || b % 2 == 1 then 1 else 0) + 2 * Or(a / 2, b / 2, bits - 1)
  }

  function OrByte(a: byte, b: byte): byte {
    if a == 0 then b else Or(a, b, 8) % 256
  }

  // The number b shifted to the highest of n bytes.
  function Lead(b: byte, n: nat): Data
    requires n > 0
  {
    [b] + seq(n - 1, _ => 0)
  }

  // A byte or-ed into the i-th highest one.
  function OrAt(x: Data, i: nat, b: byte): Data {
    if i < |x| then x[i := OrByte(x[i], b)] else x
  }

  datatype Fields = Fields(command: byte, status: Data, flags: byte, flags2: Data, pidhigh: Data, signature: Data,
                           tid: Data, pid: Data, uid: Data, mid: Data)

  datatype Smb = Smb(bytes: nat, ntype: byte, length: Data, fields: Fields, andx: byte, maxChained: nat,
                     transactionId: nat)

  // ---- byte by byte ----

  function NbssByte(s: Smb, b: byte): Smb {
    var t :=
      if s.bytes == 0 then s.(ntype := b, andx := NO_ANDX, maxChained := MAX_CHAINED)
      else if s.bytes == 1 then s.(length := Lead(b % 2, 3))
      else s.(length := OrAt(s.length, s.bytes - 1, b));
    t.(bytes := s.bytes + 1)
  }

  function Magic(k: nat): byte {
    if k == 0 then 0xFF else if k == 1 then 0x53 else if k == 2 then 0x4D else 0x42
  }

  // What byte k of the SMB header does to the fields.
  function FieldByte(f: Fields, k: nat, b: byte): Fields {
    if k == 4 then f.(command := b)
    else if k == 5 then f.(status := Lead(b, 4))
    else if 6 <= k <= 8 then f.(status := OrAt(f.status, k - 5, b))
    else if k == 9 then f.(flags := b)
    else if k == 10 then f.(flags2 := Lead(b, 2))
    else if k == 11 then f.(flags2 := OrAt(f.flags2, 1, b))
    else if k == 12 then f.(pidhigh := Lead(b, 2))
    else if k == 13 then f.(pidhigh := OrAt(f.pidhigh, 1, b))
    else if k == 14 then f.(signature := Lead(b, 8))
    else if 15 <= k <= 21 then f.(signature := OrAt(f.signature, k - 14, b))
    else if k == 24 then f.(tid := Lead(b, 2))
    else if k == 25 then f.(tid := OrAt(f.tid, 1, b))
    else if k == 26 then f.(pid := Lead(b, 2))
    else if k == 27 then f.(pid := OrAt(f.pid, 1, b))
    else if k == 28 then f.(uid := Lead(b, 2))
    else if k == 29 then f.(uid := OrAt(f.uid, 1, b))
    else if k == 30 then f.(mid := Lead(b, 2))
    else if k == 31 then f.(mid := OrAt(f.mid, 1, b))
    else f
  }

  // Bytes k and on of the SMB header; none once the magic is wrong.
  function FieldBytes(f: Fields, k: nat, data: Data): Option<Fields>
    decreases |data|
  {
    if data == [] then Some(f)
    else if k < 4 && data[0] != Magic(k) then None
    else FieldBytes(FieldByte(f, k, data[0]), k + 1, data[1..])
  }

  // ---- what the headers say ----

  predicate MagicOk(h: Data)
    requires |h| >= 4
  {
    h[..4] == [0xFF, 0x53, 0x4D, 0x42]
  }

  // Each field is the bytes at its place, in network order.
  function Decode(h: Data): Fields
    requires |h| == SMB_HDR_LEN
  {
    Fields(h[4], h[5..9], h[9], h[10..12], h[12..14], h[14..22], h[24..26], h[26..28], h[28..30], h[30..32])
  }

  lemma {:induction false} FieldBytesAppend(f: Fields, k: nat, a: Data, b: Data)
    ensures FieldBytes(f, k, a + b)
      == var r := FieldBytes(f, k, a); if r.None? then None else FieldBytes(r.value, k + |a|, b)
    decreases |a|
  {
    if a == [] {
      assert a + b == b;
    } else {
      assert (a + b)[1..] == a[1..] + b;
      if !(k < 4 && a[0] != Magic(k)) {
        FieldBytesAppend(FieldByte(f, k, a[0]), k + 1, a[1..], b);
      }
    }
  }

  lemma OneByte(f: Fields, k: nat, h: Data)
    requires 4 <= k < |h|
    ensures FieldBytes(f, k, h[k..]) == FieldBytes(FieldByte(f, k, h[k]), k + 1, h[k + 1..])
  {
    assert h[k..][1..] == h[k + 1..];
  }

  lemma TwoBytes(f: Fields, k: nat, h: Data)
    requires 4 <= k && k + 2 <= |h|
    ensures FieldBytes(f, k, h[k..]) == FieldBytes(FieldByte(FieldByte(f, k, h[k]), k + 1, h[k + 1]), k + 2, h[k + 2..])
  {
    OneByte(f, k, h);
    OneByte(FieldByte(f, k, h[k]), k + 1, h);
  }

  lemma Pair(h: Data, k: nat)
    requires k + 2 <= |h|
    ensures OrAt(Lead(h[k], 2), 1, h[k + 1]) == h[k..k + 2]
  {
  }

  // A number put together from a run of bytes.
  function Gathered(x: Data, i: nat, d: Data): Data
    decreases |d|
  {
    if d == [] then x else Gathered(OrAt(x, i, d[0]), i + 1, d[1..])
  }

  lemma {:induction false} GatheredIs(x: Data, i: nat, d: Data)
    requires i + |d| == |x| && forall j | i <= j < |x| :: x[j] == 0
    ensures Gathered(x, i, d) == x[..i] + d
    decreases |d|
  {
    if d != [] {
      var y := OrAt(x, i, d[0]);
      GatheredIs(y, i + 1, d[1..]);
      assert y[..i + 1] == x[..i] + [d[0]] && d == [d[0]] + d[1..];
      ConcatAssociative(x[..i], [d[0]], d[1..]);
    } else {
      assert x[..i] == x;
    }
  }

  // Bytes i and on of a field that starts at byte `at`.
  lemma {:induction false} StatusBytes(f: Fields, k: nat, h: Data)
    requires |h| == SMB_HDR_LEN && 6 <= k <= 9
    ensures FieldBytes(f, k, h[k..]) == FieldBytes(f.(status := Gathered(f.status, k - 5, h[k..9])), 9, h[9..])
    decreases 9 - k
  {
    if k < 9 {
      OneByte(f, k, h);
      assert h[k..9][1..] == h[k + 1..9];
      StatusBytes(FieldByte(f, k, h[k]), k + 1, h);
    } else {
      assert h[k..9] == [];
    }
  }

  lemma {:induction false} SignatureBytes(f: Fields, k: nat, h: Data)
    requires |h| == SMB_HDR_LEN && 15 <= k <= 22
    ensures FieldBytes(f, k, h[k..])
      == FieldBytes(f.(signature := Gathered(f.signature, k - 14, h[k..22])), 22, h[22..])
    decreases 22 - k
  {
    if k < 22 {
      OneByte(f, k, h);
      assert h[k..22][1..] == h[k + 1..22];
      SignatureBytes(FieldByte(f, k, h[k]), k + 1, h);
    } else {
      assert h[k..22] == [];
    }
  }

  lemma From24(f: Fields, h: Data)
    requires |h| == SMB_HDR_LEN
    ensures FieldBytes(f, 24, h[24..])
      == Some(f.(tid := h[24..26], pid := h[26..28], uid := h[28..30], mid := h[30..32]))
  {
    Pair(h, 24);
    TwoBytes(f, 24, h);
    Pair(h, 26);
    var g := f.(tid := h[24..26]);
    TwoBytes(g, 26, h);
    Pair(h, 28);
    TwoBytes(g.(pid := h[26..28]), 28, h);
    Pair(h, 30);
    TwoBytes(g.(pid := h[26..28], uid := h[28..30]), 30, h);
    assert h[32..] == [];
  }

  lemma From14(f: Fields, h: Data)
    requires |h| == SMB_HDR_LEN
    ensures FieldBytes(f, 14, h[14..]) == FieldBytes(f.(signature := h[14..22]), 24, h[24..])
  {
    OneByte(f, 14, h);
    SignatureBytes(f.(signature := Lead(h[14], 8)), 15, h);
    GatheredIs(Lead(h[14], 8), 1, h[15..22]);
    assert Lead(h[14], 8)[..1] + h[15..22] == h[14..22];
    TwoBytes(f.(signature := h[14..22]), 22, h);
  }

  lemma From4(f: Fields, h: Data)
    requires |h| == SMB_HDR_LEN
    ensures FieldBytes(f, 4, h[4..])
      == FieldBytes(f.(command := h[4], status := h[5..9], flags := h[9], flags2 := h[10..12], pidhigh := h[12..14]),
                    14, h[14..])
  {
    TwoBytes(f, 4, h);
    var g := f.(command := h[4]);
    StatusBytes(g.(status := Lead(h[5], 4)), 6, h);
    GatheredIs(Lead(h[5], 4), 1, h[6..9]);
    assert Lead(h[5], 4)[..1] + h[6..9] == h[5..9];
    g := g.(status := h[5..9]);
    OneByte(g, 9, h);
    g := g.(flags := h[9]);
    Pair(h, 10);
    TwoBytes(g, 10, h);
    Pair(h, 12);
    TwoBytes(g.(flags2 := h[10..12]), 12, h);
  }

  // The 32 bytes one after the other put every field together.
  lemma ByteByByteIsDecode(f: Fields, h: Data)
    requires |h| == SMB_HDR_LEN
    ensures FieldBytes(f, 0, h) == if MagicOk(h) then Some(Decode(h)) else None
  {
    FourMagic(f, h);
    From4(f, h);
    var g := f.(command := h[4], status := h[5..9], flags := h[9], flags2 := h[10..12], pidhigh := h[12..14]);
    From14(g, h);
    From24(g.(signature := h[14..22]), h);
  }

  lemma FourMagic(f: Fields, h: Data)
    requires |h| == SMB_HDR_LEN
    ensures FieldBytes(f, 0, h) == if MagicOk(h) then FieldBytes(f, 4, h[4..]) else None
  {
    var h1, h2, h3 := h[1..], h[2..], h[3..];
    assert h1[1..] == h2 && h2[1..] == h3 && h3[1..] == h[4..];
    assert h[..4] == [h[0], h[1], h[2], h[3]];
    assert FieldBytes(f, 3, h3) == if h[3] == 0x42 then FieldBytes(f, 4, h[4..]) else None;
    assert FieldBytes(f, 2, h2) == if h[2] == 0x4D then FieldBytes(f, 3, h3) else None;
    assert FieldBytes(f, 1, h1) == if h[1] == 0x53 then FieldBytes(f, 2, h2) else None;
  }

  // ---- one call ----

  function Value3(x: Data): nat {
    if |x| == 3 then 0x1_0000 * (x[0] as int) + 0x100 * (x[1] as int) + x[2] as int else 0
  }

  function NbssBytes(s: Smb, data: Data): Smb
    decreases |data|
  {
    if data == [] then s else NbssByte(NbssBytes(s, data[..|data| - 1]), data[|data| - 1])
  }

  // A message is over when all of its length is in.
  function EndOfCall(s: Smb): Smb {
    if s.bytes >= Value3(s.length) + NBSS_HDR_LEN || s.maxChained == 0 then
      s.(bytes := 0, transactionId := (s.transactionId + 1) % 0x1_0000)
    else s
  }

  // How much of the session header a chunk holds.
  function NbssPart(s: Smb, c: Data): nat {
    if s.bytes >= NBSS_HDR_LEN then 0
    else if |c| < NBSS_HDR_LEN - s.bytes then |c|
    else NBSS_HDR_LEN - s.bytes
  }

  // A chunk of the two headers. With three bytes of the session header in, the
  // reader of it gives up and the chunk is dropped.
  function Call(s: Smb, c: Data): Smb
    requires c != [] && s.bytes + |c| <= HDRS_LEN
  {
    if s.bytes == NBSS_HDR_LEN - 1 then s.(bytes := 0)
    else
      var n := NbssPart(s, c);
      var t := NbssBytes(s, c[..n]);
      if t.ntype != SESSION_MESSAGE then t.(bytes := 0)
      else if t.bytes < NBSS_HDR_LEN then EndOfCall(t)
      else
        match FieldBytes(t.fields, t.bytes - NBSS_HDR_LEN, c[n..])
        case None => t.(bytes := 0)
        case Some(f) => EndOfCall(t.(fields := f, bytes := t.bytes + |c| - n))
  }

  // ---- any chunking ----

  function LengthOf(h: Data): nat
    requires |h| >= NBSS_HDR_LEN
  {
    0x1_0000 * (h[1] as int % 2) + 0x100 * (h[2] as int) + h[3] as int
  }

  // The headers of a session message with an SMB header and maybe more in it.
  ghost predicate SmbMessage(h: Data) {
    |h| == HDRS_LEN && h[0] == SESSION_MESSAGE && MagicOk(h[NBSS_HDR_LEN..]) && LengthOf(h) >= SMB_HDR_LEN
  }

  // With n bytes of the headers in.
  ghost function At(s: Smb, h: Data, n: nat): Smb
    requires s.bytes == 0 && SmbMessage(h) && n <= HDRS_LEN
  {
    if n <= NBSS_HDR_LEN then NbssBytes(s, h[..n])
    else
      var f := FieldBytes(s.fields, 0, h[NBSS_HDR_LEN..n]);
      if f.None? then s else NbssBytes(s, h[..NBSS_HDR_LEN]).(fields := f.value, bytes := n)
  }

  lemma {:induction false} NbssBytesAppend(s: Smb, a: Data, b: Data)
    ensures NbssBytes(s, a + b) == NbssBytes(NbssBytes(s, a), b)
    decreases |b|
  {
    if b == [] {
      assert a + b == a;
    } else {
      assert (a + b)[..|a + b| - 1] == a + b[..|b| - 1];
      NbssBytesAppend(s, a, b[..|b| - 1]);
    }
  }

  // The session header, one byte after the other.
  lemma NbssStages(s: Smb, h: Data)
    requires s.bytes == 0 && |h| >= NBSS_HDR_LEN
    ensures var s1 := s.(bytes := 1, ntype := h[0], andx := NO_ANDX, maxChained := MAX_CHAINED);
      && NbssBytes(s, h[..0]) == s
      && NbssBytes(s, h[..1]) == s1
      && NbssBytes(s, h[..2]) == s1.(bytes := 2, length := [h[1] % 2, 0, 0])
      && NbssBytes(s, h[..3]) == s1.(bytes := 3, length := [h[1] % 2, h[2], 0])
      && NbssBytes(s, h[..4]) == s1.(bytes := 4, length := [h[1] % 2, h[2], h[3]])
  {
    assert h[..1][..0] == h[..0] == [] && h[..2][..1] == h[..1] && h[..3][..2] == h[..2] && h[..4][..3] == h[..3];
    assert Lead(h[1] % 2, 3) == [h[1] % 2, 0, 0];
  }

  lemma MagicPrefix(f: Fields, h: Data, n: nat)
    requires SmbMessage(h) && NBSS_HDR_LEN <= n <= HDRS_LEN
    ensures FieldBytes(f, 0, h[NBSS_HDR_LEN..n]).Some?
  {
    var d := h[NBSS_HDR_LEN..];
    ByteByByteIsDecode(f, d);
    assert d == d[..n - NBSS_HDR_LEN] + d[n - NBSS_HDR_LEN..] && d[..n - NBSS_HDR_LEN] == h[NBSS_HDR_LEN..n];
    FieldBytesAppend(f, 0, d[..n - NBSS_HDR_LEN], d[n - NBSS_HDR_LEN..]);
  }

  lemma AtCounts(s: Smb, h: Data, n: nat)
    requires s.bytes == 0 && SmbMessage(h) && n <= HDRS_LEN
    ensures At(s, h, n).bytes == n
    ensures n > 0 ==> At(s, h, n).ntype == SESSION_MESSAGE && At(s, h, n).maxChained == MAX_CHAINED
    ensures n >= NBSS_HDR_LEN ==> Value3(At(s, h, n).length) == LengthOf(h)
    ensures n == HDRS_LEN ==> At(s, h, n).fields == Decode(h[NBSS_HDR_LEN..])
  {
    NbssStages(s, h);
    if n > NBSS_HDR_LEN {
      MagicPrefix(s.fields, h, n);
    }
    if n == HDRS_LEN {
      ByteByByteIsDecode(s.fields, h[NBSS_HDR_LEN..]);
      assert h[NBSS_HDR_LEN..n] == h[NBSS_HDR_LEN..];
    }
  }

  // A chunk that does not start behind the third byte brings its bytes in.
  lemma OneChunk(s: Smb, h: Data, n: nat, c: Data)
    requires s.bytes == 0 && SmbMessage(h) && c != [] && n != NBSS_HDR_LEN - 1
    requires n + |c| <= HDRS_LEN && h[n..n + |c|] == c
    ensures At(s, h, n).bytes == n
    ensures Call(At(s, h, n), c) == EndOfCall(At(s, h, n + |c|))
  {
    AtCounts(s, h, n);
    AtCounts(s, h, n + |c|);
    if n >= NBSS_HDR_LEN {
      FieldPart(s, h, n, c);
    } else {
      NbssPartIn(s, h, n, c);
    }
  }

  lemma FieldPart(s: Smb, h: Data, n: nat, c: Data)
    requires s.bytes == 0 && SmbMessage(h) && c != [] && NBSS_HDR_LEN <= n
    requires n + |c| <= HDRS_LEN && h[n..n + |c|] == c && At(s, h, n).bytes == n
    ensures Call(At(s, h, n), c) == EndOfCall(At(s, h, n + |c|))
  {
    AtFields(s, h, n);
    AtFields(s, h, n + |c|);
    AtCounts(s, h, n);
    var a := h[NBSS_HDR_LEN..n];
    assert h[NBSS_HDR_LEN..n + |c|] == a + c;
    FieldBytesAppend(s.fields, 0, a, c);
    assert c[..0] == [] && c[0..] == c;
  }

  lemma AtFields(s: Smb, h: Data, n: nat)
    requires s.bytes == 0 && SmbMessage(h) && NBSS_HDR_LEN <= n <= HDRS_LEN
    ensures var f := FieldBytes(s.fields, 0, h[NBSS_HDR_LEN..n]);
      f.Some? && At(s, h, n) == NbssBytes(s, h[..NBSS_HDR_LEN]).(fields := f.value, bytes := n)
  {
    MagicPrefix(s.fields, h, n);
    NbssStages(s, h);
    if n == NBSS_HDR_LEN {
      assert h[NBSS_HDR_LEN..n] == [];
    }
  }

  // A chunk of h cut in two.
  lemma ChunkOf(h: Data, n: nat, c: Data, k: nat)
    requires n + |c| <= |h| && h[n..n + |c|] == c && k <= |c|
    ensures h[..n + k] == h[..n] + c[..k] && c[k..] == h[n + k..n + |c|]
  {
  }

  // What a chunk brings of the session header.
  lemma NbssTaken(s: Smb, h: Data, n: nat, c: Data)
    requires s.bytes == 0 && SmbMessage(h) && c != [] && n < NBSS_HDR_LEN - 1
    requires n + |c| <= HDRS_LEN && h[n..n + |c|] == c && At(s, h, n).bytes == n
    ensures var k := if n + |c| < NBSS_HDR_LEN then |c| else NBSS_HDR_LEN - n;
      && NbssPart(At(s, h, n), c) == k && c[k..] == h[n + k..n + |c|]
      && NbssBytes(At(s, h, n), c[..k]) == At(s, h, n + k) == NbssBytes(s, h[..n + k])
  {
    var k := NbssPart(At(s, h, n), c);
    ChunkOf(h, n, c, k);
    NbssBytesAppend(s, h[..n], c[..k]);
  }

  lemma WholeNbss(s: Smb, h: Data)
    requires s.bytes == 0 && |h| >= NBSS_HDR_LEN
    ensures NbssBytes(s, h[..NBSS_HDR_LEN]).fields == s.fields
  {
    NbssStages(s, h);
  }

  lemma NbssPartIn(s: Smb, h: Data, n: nat, c: Data)
    requires s.bytes == 0 && SmbMessage(h) && c != [] && n < NBSS_HDR_LEN - 1
    requires n + |c| <= HDRS_LEN && h[n..n + |c|] == c && At(s, h, n).bytes == n
    ensures Call(At(s, h, n), c) == EndOfCall(At(s, h, n + |c|))
  {
    NbssTaken(s, h, n, c);
    var k := NbssPart(At(s, h, n), c);
    AtCounts(s, h, n + k);
    WholeNbss(s, h);
    if n + |c| >= NBSS_HDR_LEN {
      MagicPrefix(s.fields, h, n + |c|);
    }
  }

  ghost predicate Chunked(chunks: seq<Data>)
    decreases |chunks|
  {
    chunks == [] || (chunks[|chunks| - 1] != [] && Chunked(chunks[..|chunks| - 1]))
  }

  // A chunk starts behind exactly three bytes.
  ghost predicate SplitsAfterThree(chunks: seq<Data>)
    decreases |chunks|
  {
    chunks != [] && (|Flatten(chunks[..|chunks| - 1])| == NBSS_HDR_LEN - 1 || SplitsAfterThree(chunks[..|chunks| - 1]))
  }

  ghost function CallAll(s: Smb, chunks: seq<Data>): Smb
    decreases |chunks|
  {
    if chunks == [] then s
    else
      var t, c := CallAll(s, chunks[..|chunks| - 1]), chunks[|chunks| - 1];
      if c != [] && t.bytes + |c| <= HDRS_LEN then Call(t, c) else t
  }

  lemma LastApart(chunks: seq<Data>)
    requires chunks != []
    ensures Flatten(chunks) == Flatten(chunks[..|chunks| - 1]) + chunks[|chunks| - 1]
  {
    var before, c := chunks[..|chunks| - 1], chunks[|chunks| - 1];
    assert chunks == before + [c];
    FlattenAppend(before, [c]);
    assert Flatten([c]) == c + Flatten<byte>([]) == c;
  }

  // Whatever the chunks, if none starts behind the third byte, the headers are
  // put together as if they had come at once.
  lemma {:induction false} HeadersIgnoreChunking(s: Smb, h: Data, chunks: seq<Data>)
    requires s.bytes == 0 && SmbMessage(h) && Chunked(chunks) && Flatten(chunks) <= h && !SplitsAfterThree(chunks)
    ensures var n := |Flatten(chunks)|;
      CallAll(s, chunks) == if n == HDRS_LEN then EndOfCall(At(s, h, n)) else At(s, h, n)
    decreases |chunks|
  {
    if chunks == [] {
      NbssStages(s, h);
    } else {
      var before, c := chunks[..|chunks| - 1], chunks[|chunks| - 1];
      LastApart(chunks);
      PrefixOf(h, Flatten(before), c);
      HeadersIgnoreChunking(s, h, before);
      NextChunk(s, h, |Flatten(before)|, c);
    }
  }

  lemma PrefixOf(h: Data, a: Data, c: Data)
    requires a + c <= h
    ensures a <= h && h[|a|..|a| + |c|] == c
  {
    assert h[..|a| + |c|] == a + c;
  }

  lemma NextChunk(s: Smb, h: Data, n: nat, c: Data)
    requires s.bytes == 0 && SmbMessage(h) && c != [] && n != NBSS_HDR_LEN - 1
    requires n + |c| <= HDRS_LEN && h[n..n + |c|] == c
    ensures At(s, h, n).bytes == n
    ensures Call(At(s, h, n), c) == if n + |c| == HDRS_LEN then EndOfCall(At(s, h, n + |c|)) else At(s, h, n + |c|)
  {
    OneChunk(s, h, n, c);
    AtCounts(s, h, n + |c|);
  }

  lemma HeadersAtOnce(s: Smb, h: Data)
    requires s.bytes == 0 && SmbMessage(h)
    ensures Call(s, h) == EndOfCall(At(s, h, HDRS_LEN))
    ensures Call(s, h).fields == Decode(h[NBSS_HDR_LEN..]) && Value3(Call(s, h).length) == LengthOf(h)
  {
    NbssStages(s, h);
    assert h[..0] == [] && h[0..HDRS_LEN] == h;
    OneChunk(s, h, 0, h);
    AtCounts(s, h, HDRS_LEN);
  }

  // No call counts more bytes than it was given.
  lemma CountsAtMost(s: Smb, c: Data)
    requires c != [] && s.bytes + |c| <= HDRS_LEN
    ensures Call(s, c).bytes <= s.bytes + |c|
  {
    NbssCount(s, c[..NbssPart(s, c)]);
  }

  lemma {:induction false} NbssCount(s: Smb, data: Data)
    ensures NbssBytes(s, data).bytes == s.bytes + |data|
    decreases |data|
  {
    if data != [] {
      NbssCount(s, data[..|data| - 1]);
    }
  }

  lemma {:induction false} SplitLosesBytes(s: Smb, h: Data, chunks: seq<Data>)
    requires s.bytes == 0 && SmbMessage(h) && Chunked(chunks) && Flatten(chunks) <= h && SplitsAfterThree(chunks)
    ensures CallAll(s, chunks).bytes < |Flatten(chunks)|
    decreases |chunks|
  {
    var before, c := chunks[..|chunks| - 1], chunks[|chunks| - 1];
    LastApart(chunks);
    PrefixOf(h, Flatten(before), c);
    if SplitsAfterThree(before) {
      SplitLosesBytes(s, h, before);
      CountsAtMost(CallAll(s, before), c);
    } else {
      HeadersIgnoreChunking(s, h, before);
      AtCounts(s, h, NBSS_HDR_LEN - 1);
    }
  }

  // For a message that goes on behind the headers, they are all in exactly if
  // no chunk started behind the third byte.
  lemma HeadersCompleteExactly(s: Smb, h: Data, chunks: seq<Data>)
    requires s.bytes == 0 && SmbMessage(h) && LengthOf(h) > SMB_HDR_LEN && Chunked(chunks) && Flatten(chunks) == h
    ensures CallAll(s, chunks).bytes == HDRS_LEN <==> !SplitsAfterThree(chunks)
    ensures !SplitsAfterThree(chunks) ==> CallAll(s, chunks) == Call(s, h)
  {
    AtCounts(s, h, HDRS_LEN);
    HeadersAtOnce(s, h);
    if SplitsAfterThree(chunks) {
      SplitLosesBytes(s, h, chunks);
    } else {
      HeadersIgnoreChunking(s, h, chunks);
    }
  }

  // Cut behind the third byte, the rest of a message's headers is dropped.
  lemma ThirdByteBoundaryDropsTheRest(s: Smb, h: Data)
    requires s.bytes == 0 && SmbMessage(h)
    ensures CallAll(s, [h[..3], h[3..]]).bytes == 0
  {
    var chunks, head: seq<Data> := [h[..3], h[3..]], [h[..3]];
    assert chunks[..1] == head && head[..0] == [];
    assert Flatten(head) == h[..3] + Flatten<byte>([]) == h[..3];
    HeadersIgnoreChunking(s, h, head);
    AtCounts(s, h, 3);
  }
}
