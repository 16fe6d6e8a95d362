// FTP requests (app-layer-ftp.c): lines cut from the control stream at CRLF,
// each line handed to the command-line parser through the same parser state.
module FtpRequests {
  import opened Bytes
  import opened FieldDispatch
  import opened FieldParser

  const FTP_FIELD_REQUEST_LINE := 1
  const FTP_FIELD_REQUEST_COMMAND := 2
  const FTP_FIELD_RESPONSE_LINE := 4

  const CRLF: Data := [0x0d, 0x0a]
  const SPACE: Data := [0x20]
  const PORT: Data := [0x70, 0x6f, 0x72, 0x74]

  // ---- the stream as lines ----

  datatype Split = Split(lines: seq<Data>, rest: Data)

  function SplitLines(stream: Data): Split
    decreases |stream|
  {
    match Find(stream, CRLF)
    case None => Split([], stream)
    case Some(i) =>
      var s := SplitLines(stream[i + |CRLF|..]);
      Split([stream[..i]] + s.lines, s.rest)
  }

  ghost predicate NoDelimiter(s: Data) {
    Find(s, CRLF).None?
  }

  ghost predicate CrlfAt(text: Data, i: nat) {
    i + 1 < |text| && text[i] == 0x0d && text[i + 1] == 0x0a
  }

  ghost predicate FirstCrlf(text: Data, i: Option<nat>) {
    match i
    case None => forall j: nat :: !CrlfAt(text, j)
    case Some(i) => CrlfAt(text, i) && forall j: nat :: j < i ==> !CrlfAt(text, j)
  }

  // The search, byte by byte.
  lemma FindCrlf(text: Data)
    ensures FirstCrlf(text, Find(text, CRLF))
    ensures forall i :: FirstCrlf(text, i) ==> i == Find(text, CRLF)
  {
    FindIsFirst(text, CRLF);
    forall j: nat ensures IsAt(text, CRLF, j) <==> CrlfAt(text, j) {
      if j + 2 <= |text| {
        assert text[j..j + 2] == [text[j], text[j + 1]];
      }
    }
    assert FirstCrlf(text, Find(text, CRLF));
  }

  // A first occurrence stays the first when more bytes follow.
  lemma FindInPrefix(a: Data, b: Data)
    requires Find(a, CRLF).Some?
    ensures Find(a + b, CRLF) == Find(a, CRLF)
  {
    FindCrlf(a);
    FindCrlf(a + b);
    assert forall j: nat :: j < |a| - 1 ==> (CrlfAt(a + b, j) <==> CrlfAt(a, j));
    assert FirstCrlf(a + b, Find(a, CRLF));
  }

  lemma {:induction false} SplitAppend(a: Data, b: Data)
    ensures var s := SplitLines(a);
      var t := SplitLines(s.rest + b);
      SplitLines(a + b) == Split(s.lines + t.lines, t.rest)
    decreases |a|
  {
    if Find(a, CRLF).None? {
      assert SplitLines(a) == Split([], a);
      assert [] + SplitLines(a + b).lines == SplitLines(a + b).lines;
    } else {
      var i := Find(a, CRLF).value;
      FindInPrefix(a, b);
      assert (a + b)[..i] == a[..i] && (a + b)[i + 2..] == a[i + 2..] + b;
      SplitAppend(a[i + 2..], b);
      var s := SplitLines(a[i + 2..]);
      ConcatAssociative([a[..i]], s.lines, SplitLines(s.rest + b).lines);
    }
  }

  lemma {:induction false} RestHasNoDelimiter(stream: Data)
    ensures NoDelimiter(SplitLines(stream).rest)
    decreases |stream|
  {
    if Find(stream, CRLF).Some? {
      RestHasNoDelimiter(stream[Find(stream, CRLF).value + 2..]);
    }
  }

  // ---- one chunk handed to the request parser ----

  function Lines(c: Cut): seq<Data> {
    if c.emitted.Some? then [c.emitted.value] else []
  }

  // The call does what splitting the stream into lines asks for.
  ghost predicate Agrees(store: Data, chunk: Data) {
    var c := CutByDelimiter(store, false, CRLF, chunk);
    SplitLines(store + chunk) == Split(Lines(c), c.store)
  }

  // A chunk the parser copes with: a single byte, or no complete line at all,
  // or exactly the end of one whose delimiter lies within the chunk.
  predicate AtMostOneLine(store: Data, chunk: Data) {
    || |chunk| == 1
    || (var i := Find(store + chunk, CRLF);
        i.Some? ==> |store| <= i.value && i.value + 2 == |store + chunk|)
  }

  // A first occurrence behind a delimiter-free store straddles it or lies in the chunk.
  lemma WhereFound(store: Data, chunk: Data)
    requires NoDelimiter(store)
    ensures var i := Find(store + chunk, CRLF);
      && (i.Some? ==> |store| <= i.value + 1)
      && (i.Some? && |store| <= i.value ==> Find(chunk, CRLF) == Some(i.value - |store|))
      && (i.None? ==> Find(chunk, CRLF).None?)
  {
    var joined := store + chunk;
    FindCrlf(store);
    FindCrlf(chunk);
    FindCrlf(joined);
    assert forall j: nat :: CrlfAt(chunk, j) <==> CrlfAt(joined, |store| + j);
    assert forall j: nat :: j + 1 < |store| ==> (CrlfAt(joined, j) <==> CrlfAt(store, j));
    var i := Find(joined, CRLF);
    if i.Some? && |store| <= i.value {
      assert FirstCrlf(chunk, Some(i.value - |store|));
    }
  }

  // With no delimiter left in the store, the parser gets a chunk right if and
  // only if the chunk completes at most one line and nothing follows that line.
  lemma ExactlyOneLineAtATime(store: Data, chunk: Data)
    requires NoDelimiter(store) && chunk != []
    ensures Agrees(store, chunk) <==> AtMostOneLine(store, chunk)
  {
    var joined := store + chunk;
    var i := Find(joined, CRLF);
    var c := CutByDelimiter(store, false, CRLF, chunk);
    WhereFound(store, chunk);
    if i.None? {
      assert store == [] ==> joined == chunk;
    } else if |chunk| == 1 {
      assert c == Cut([], Some(joined[..i.value]), 1);
      assert i.value + 2 == |joined|;
      assert joined[i.value + 2..] == [] && SplitLines([]) == Split([], []);
      assert [joined[..i.value]] + [] == [joined[..i.value]];
    } else if |store| <= i.value {
      var j := i.value - |store|;
      assert store + chunk[..j] == joined[..i.value];
      var behind := joined[i.value + 2..];
      assert c == Cut([], Some(joined[..i.value]), j + 2);
      if behind == [] {
        assert Find([], CRLF).None?;
        assert [joined[..i.value]] + [] == [joined[..i.value]];
      } else {
        var s := SplitLines(behind);
        assert s.lines == [] ==> s.rest == behind;
      }
    } else {
      assert SplitLines(joined).lines[0] == joined[..i.value];
      if c.emitted.Some? {
        assert |c.emitted.value| >= |store| > i.value;
      }
    }
  }

  // What follows a line in its chunk is dropped, though it belongs to the stream.
  lemma {:induction false} SecondLineIsDropped(line: Data, tail: Data)
    requires NoDelimiter(line)
    ensures CutByDelimiter([], false, CRLF, line + CRLF + tail) == Cut([], Some(line), |line| + 2)
    ensures SplitLines(line + CRLF + tail) == Split([line] + SplitLines(tail).lines, SplitLines(tail).rest)
  {
    var chunk := line + CRLF + tail;
    FindCrlf(line);
    FindCrlf(chunk);
    assert CrlfAt(chunk, |line|) && forall j: nat | j + 1 < |line| :: CrlfAt(chunk, j) <==> CrlfAt(line, j);
    assert FirstCrlf(chunk, Some(|line|));
    assert chunk[..|line|] == line && [] + line == line && chunk[|line| + 2..] == tail;
  }

  // ---- a whole run ----

  // The lines emitted by one call per chunk, and the bytes left in the store.
  function CutAll(store: Data, chunks: seq<Data>): Split
    decreases |chunks|
  {
    if chunks == [] then Split([], store)
    else
      var c := CutByDelimiter(store, false, CRLF, chunks[0]);
      var r := CutAll(c.store, chunks[1..]);
      Split(Lines(c) + r.lines, r.rest)
  }

  lemma {:induction false} CutOneMore(store: Data, chunks: seq<Data>, last: Data)
    ensures var a := CutAll(store, chunks);
      var c := CutByDelimiter(a.rest, false, CRLF, last);
      CutAll(store, chunks + [last]) == Split(a.lines + Lines(c), c.store)
    decreases |chunks|
  {
    if chunks == [] {
      assert chunks + [last] == [last];
    } else {
      var c := CutByDelimiter(store, false, CRLF, chunks[0]);
      assert (chunks + [last])[1..] == chunks[1..] + [last];
      CutOneMore(c.store, chunks[1..], last);
      var a := CutAll(c.store, chunks[1..]);
      ConcatAssociative(Lines(c), a.lines, Lines(CutByDelimiter(a.rest, false, CRLF, last)));
    }
  }

  ghost predicate OneLineAtATime(store: Data, chunks: seq<Data>)
    decreases |chunks|
  {
    chunks == [] || (
      && chunks[0] != [] && AtMostOneLine(store, chunks[0])
      && OneLineAtATime(SplitLines(store + chunks[0]).rest, chunks[1..]))
  }

  // Any chunking that never hands over more than one line gives exactly the
  // stream's split, with no complete line left in the store.
  lemma {:induction false} RunSplitsTheStream(store: Data, chunks: seq<Data>)
    requires NoDelimiter(store) && OneLineAtATime(store, chunks)
    ensures CutAll(store, chunks) == SplitLines(store + Flatten(chunks))
    ensures NoDelimiter(CutAll(store, chunks).rest)
    decreases |chunks|
  {
    if chunks == [] {
      assert store + Flatten(chunks) == store;
    } else {
      var head := SplitLines(store + chunks[0]);
      ExactlyOneLineAtATime(store, chunks[0]);
      RestHasNoDelimiter(store + chunks[0]);
      RunSplitsTheStream(head.rest, chunks[1..]);
      SplitAppend(store + chunks[0], Flatten(chunks[1..]));
      ConcatAssociative(store, chunks[0], Flatten(chunks[1..]));
    }
  }

  // ---- and no other chunking does ----

  // The bytes of some lines with their delimiters.
  function LineBytes(lines: seq<Data>): nat
    decreases |lines|
  {
    if lines == [] then 0 else |lines[0]| + 2 + LineBytes(lines[1..])
  }

  lemma {:induction false} LineBytesAppend(a: seq<Data>, b: seq<Data>)
    ensures LineBytes(a + b) == LineBytes(a) + LineBytes(b)
    decreases |a|
  {
    if a == [] {
      assert a + b == b;
    } else {
      assert (a + b)[1..] == a[1..] + b;
      LineBytesAppend(a[1..], b);
    }
  }

  lemma OneLineBytes(line: Data)
    ensures LineBytes([line]) == |line| + 2
  {
    assert [line][1..] == [];
  }

  // Every byte of the stream is accounted for, and no delimiter is inside a line
  // or behind the last one.
  ghost predicate Clean(s: Split, n: nat) {
    LineBytes(s.lines) + |s.rest| == n && NoDelimiter(s.rest) && forall l <- s.lines :: NoDelimiter(l)
  }

  lemma {:induction false} SplitIsClean(stream: Data)
    ensures Clean(SplitLines(stream), |stream|)
    decreases |stream|
  {
    FindCrlf(stream);
    if Find(stream, CRLF).Some? {
      var i := Find(stream, CRLF).value;
      SplitIsClean(stream[i + 2..]);
      FindCrlf(stream[..i]);
      assert forall j: nat :: CrlfAt(stream[..i], j) ==> CrlfAt(stream, j);
      var s := SplitLines(stream[i + 2..]);
      assert ([stream[..i]] + s.lines)[1..] == s.lines;
    }
  }

  // Cutting never makes bytes.
  lemma CutBytes(store: Data, chunk: Data)
    ensures var c := CutByDelimiter(store, false, CRLF, chunk);
      LineBytes(Lines(c)) + |c.store| <= |store| + |chunk|
  {
  }

  lemma {:induction false} CutAllBytes(store: Data, chunks: seq<Data>)
    ensures var s := CutAll(store, chunks); LineBytes(s.lines) + |s.rest| <= |store| + |Flatten(chunks)|
    decreases |chunks|
  {
    if chunks != [] {
      var c := CutByDelimiter(store, false, CRLF, chunks[0]);
      CutBytes(store, chunks[0]);
      CutAllBytes(c.store, chunks[1..]);
      LineBytesAppend(Lines(c), CutAll(c.store, chunks[1..]).lines);
    }
  }

  ghost predicate CleanRun(store: Data, chunks: seq<Data>) {
    Clean(CutAll(store, chunks), |store| + |Flatten(chunks)|)
  }

  // A clean run is clean in its first cut and in the rest.
  lemma CleanOn(store: Data, chunks: seq<Data>)
    requires chunks != [] && CleanRun(store, chunks)
    ensures CleanCut(store, chunks[0]) && CleanRun(CutByDelimiter(store, false, CRLF, chunks[0]).store, chunks[1..])
  {
    var c := CutByDelimiter(store, false, CRLF, chunks[0]);
    var s := CutAll(c.store, chunks[1..]);
    CutBytes(store, chunks[0]);
    CutAllBytes(c.store, chunks[1..]);
    LineBytesAppend(Lines(c), s.lines);
    assert forall l <- Lines(c) :: l in Lines(c) + s.lines;
    assert forall l <- s.lines :: l in Lines(c) + s.lines;
  }

  predicate NoneEmpty(chunks: seq<Data>)
    decreases |chunks|
  {
    chunks == [] || (chunks[0] != [] && NoneEmpty(chunks[1..]))
  }

  // A call keeps every byte and puts no delimiter into a line.
  ghost predicate CleanCut(store: Data, chunk: Data) {
    var c := CutByDelimiter(store, false, CRLF, chunk);
    LineBytes(Lines(c)) + |c.store| == |store| + |chunk| && forall l <- Lines(c) :: NoDelimiter(l)
  }

  // What a clean call does: a line from the chunk to its very end, a line found
  // across a single byte, or nothing but storing.
  lemma CleanCuts(store: Data, chunk: Data)
    requires CleanCut(store, chunk)
    ensures var c, joined := CutByDelimiter(store, false, CRLF, chunk), store + chunk;
      if Find(chunk, CRLF).Some? then
        Find(chunk, CRLF).value + 2 == |chunk| && NoDelimiter(store + chunk[..Find(chunk, CRLF).value])
      else if store != [] && |chunk| < 2 && Find(joined, CRLF).Some? then Find(joined, CRLF).value + 2 == |joined|
      else c.store == joined
  {
    var c := CutByDelimiter(store, false, CRLF, chunk);
    if c.emitted.Some? {
      assert c.emitted.value in Lines(c);
      OneLineBytes(c.emitted.value);
    } else {
      assert store == [] ==> store + chunk == chunk;
    }
  }

  // A delimiter at i, with bytes behind it.
  ghost predicate Buried(store: Data, i: nat) {
    CrlfAt(store, i) && i + 2 < |store|
  }

  lemma BuriedIsFound(text: Data, i: nat)
    requires Buried(text, i)
    ensures !NoDelimiter(text) && Find(text, CRLF).Some? && Find(text, CRLF).value <= i
  {
    FindCrlf(text);
  }

  // Once a delimiter is buried in the store, a call is not clean or buries it
  // deeper.
  lemma BuriedStays(store: Data, chunk: Data, i: nat)
    requires Buried(store, i) && chunk != [] && CleanCut(store, chunk)
    ensures CutByDelimiter(store, false, CRLF, chunk).store == store + chunk && Buried(store + chunk, i)
  {
    var joined := store + chunk;
    assert Buried(joined, i);
    BuriedIsFound(joined, i);
    CleanCuts(store, chunk);
    if Find(chunk, CRLF).Some? {
      var line := store + chunk[..Find(chunk, CRLF).value];
      assert Buried(line, i);
      BuriedIsFound(line, i);
    }
  }

  // Nor is one that meets a chunk it does not cope with, unless it buries a
  // delimiter.
  lemma TooMuchIsBuried(store: Data, chunk: Data)
    requires NoDelimiter(store) && chunk != [] && !AtMostOneLine(store, chunk) && CleanCut(store, chunk)
    ensures Find(store + chunk, CRLF).Some? && Buried(store + chunk, Find(store + chunk, CRLF).value)
    ensures CutByDelimiter(store, false, CRLF, chunk).store == store + chunk
  {
    var joined := store + chunk;
    var i := Find(joined, CRLF);
    WhereFound(store, chunk);
    FindCrlf(joined);
    CleanCuts(store, chunk);
    if Find(chunk, CRLF).Some? {
      LineHoldsStraddling(store, chunk);
    }
  }

  // A delimiter that straddles store and chunk ends up in the chunk's line.
  lemma LineHoldsStraddling(store: Data, chunk: Data)
    requires NoDelimiter(store) && Find(chunk, CRLF).Some?
    ensures var line := store + chunk[..Find(chunk, CRLF).value];
      NoDelimiter(line) ==> Find(store + chunk, CRLF) == Some(|line|)
  {
    var joined, j := store + chunk, Find(chunk, CRLF).value;
    var line := store + chunk[..j];
    FindCrlf(chunk);
    FindCrlf(line);
    FindCrlf(joined);
    if NoDelimiter(line) {
      assert CrlfAt(joined, |line|);
      forall k: nat | k < |line| ensures !CrlfAt(joined, k) {
        assert CrlfAt(joined, k) ==> CrlfAt(line, k);
      }
      assert FirstCrlf(joined, Some(|line|));
    }
  }

  lemma {:induction false} BuriedSpoils(store: Data, chunks: seq<Data>, i: nat)
    requires Buried(store, i) && NoneEmpty(chunks)
    ensures !CleanRun(store, chunks)
    decreases |chunks|
  {
    BuriedIsFound(store, i);
    if chunks != [] && CleanRun(store, chunks) {
      CleanOn(store, chunks);
      BuriedStays(store, chunks[0], i);
      BuriedSpoils(store + chunks[0], chunks[1..], i);
    }
  }

  lemma CleanStartsWithOneLine(store: Data, chunks: seq<Data>)
    requires NoDelimiter(store) && NoneEmpty(chunks) && chunks != []
    requires CleanRun(store, chunks)
    ensures AtMostOneLine(store, chunks[0])
  {
    if !AtMostOneLine(store, chunks[0]) {
      CleanOn(store, chunks);
      TooMuchIsBuried(store, chunks[0]);
      BuriedSpoils(store + chunks[0], chunks[1..], Find(store + chunks[0], CRLF).value);
    }
  }

  // What such a chunk leaves stored.
  lemma OneLineLeavesNone(store: Data, chunk: Data)
    requires NoDelimiter(store) && chunk != [] && AtMostOneLine(store, chunk)
    ensures var rest := SplitLines(store + chunk).rest;
      CutByDelimiter(store, false, CRLF, chunk).store == rest && NoDelimiter(rest)
  {
    ExactlyOneLineAtATime(store, chunk);
    RestHasNoDelimiter(store + chunk);
  }

  lemma {:induction false} CleanMeansOneLineAtATime(store: Data, chunks: seq<Data>)
    requires NoDelimiter(store) && NoneEmpty(chunks)
    requires CleanRun(store, chunks)
    ensures OneLineAtATime(store, chunks)
    decreases |chunks|
  {
    if chunks != [] {
      CleanOn(store, chunks);
      CleanStartsWithOneLine(store, chunks);
      OneLineLeavesNone(store, chunks[0]);
      CleanMeansOneLineAtATime(CutByDelimiter(store, false, CRLF, chunks[0]).store, chunks[1..]);
    }
  }

  // A run of chunks is cut as the stream's lines are if and only if no chunk
  // completes more than one line or goes on behind it.
  lemma RunSplitsExactly(store: Data, chunks: seq<Data>)
    requires NoDelimiter(store) && NoneEmpty(chunks)
    ensures CutAll(store, chunks) == SplitLines(store + Flatten(chunks)) <==> OneLineAtATime(store, chunks)
  {
    if OneLineAtATime(store, chunks) {
      RunSplitsTheStream(store, chunks);
    } else if CutAll(store, chunks) == SplitLines(store + Flatten(chunks)) {
      SplitIsClean(store + Flatten(chunks));
      CleanMeansOneLineAtATime(store, chunks);
    }
  }

  function Singly(stream: Data): seq<Data>
    decreases |stream|
  {
    if stream == [] then [] else [stream[..1]] + Singly(stream[1..])
  }

  lemma {:induction false} SinglyIsOneLineAtATime(store: Data, stream: Data)
    ensures OneLineAtATime(store, Singly(stream)) && Flatten(Singly(stream)) == stream
    decreases |stream|
  {
    if stream != [] {
      SinglyIsOneLineAtATime(SplitLines(store + stream[..1]).rest, stream[1..]);
      assert stream[..1] + stream[1..] == stream;
    }
  }

  // Fed one byte per call, any control stream is split exactly on CRLF.
  lemma BytePerCallSplitsOnCrlf(stream: Data)
    ensures CutAll([], Singly(stream)) == SplitLines(stream)
    ensures NoDelimiter(CutAll([], Singly(stream)).rest)
  {
    SinglyIsOneLineAtATime([], stream);
    assert NoDelimiter([]);
    RunSplitsTheStream([], Singly(stream));
    assert [] + stream == stream;
  }

  // ---- command lines ----

  function ToLower(b: byte): byte {
    if 0x41 <= b <= 0x5a then b + 0x20 else b
  }

  // The first four bytes, in any case, spell "port".
  predicate StartsWithPort(line: Data) {
    && |line| >= 4
    && ToLower(line[0]) == PORT[0] && ToLower(line[1]) == PORT[1]
    && ToLower(line[2]) == PORT[2] && ToLower(line[3]) == PORT[3]
  }

  predicate Spaced(line: Data) {
    Find(line, SPACE).Some?
  }

  // The part of the FTP state the command line sets; the command is never reset.
  datatype Ftp = Ftp(isPort: bool, argOffset: nat, portLine: Option<Data>)

  const NEW_FTP := Ftp(false, 0, None)

  function Exec(s: Ftp, line: Data): Ftp {
    if !Spaced(line) then s
    else
      var isPort := s.isPort || StartsWithPort(line);
      Ftp(isPort, Find(line, SPACE).value + 1, if isPort then Some(line) else s.portLine)
  }

  function ExecAll(s: Ftp, lines: seq<Data>): Ftp
    decreases |lines|
  {
    if lines == [] then s else Exec(ExecAll(s, lines[..|lines| - 1]), lines[|lines| - 1])
  }

  lemma {:induction false} ExecAppend(s: Ftp, a: seq<Data>, b: seq<Data>)
    ensures ExecAll(s, a + b) == ExecAll(ExecAll(s, a), b)
    decreases |b|
  {
    if b == [] {
      assert a + b == a;
    } else {
      assert (a + b)[..|a + b| - 1] == a + b[..|b| - 1];
      ExecAppend(s, a, b[..|b| - 1]);
    }
  }

  // Until a spaced line starts with "port" there is no port line.
  lemma {:induction false} NoPortLine(lines: seq<Data>)
    ensures (forall i :: 0 <= i < |lines| ==> !(Spaced(lines[i]) && StartsWithPort(lines[i])))
      <==> !ExecAll(NEW_FTP, lines).isPort
    ensures !ExecAll(NEW_FTP, lines).isPort <==> ExecAll(NEW_FTP, lines).portLine.None?
    decreases |lines|
  {
    if lines != [] {
      NoPortLine(lines[..|lines| - 1]);
    }
  }

  // Once one has (line k), the port line is the last line with a space, whatever
  // command it starts with.
  lemma {:induction false} LastSpacedLineIsThePortLine(lines: seq<Data>, k: nat, j: nat)
    requires k <= j < |lines|
    requires Spaced(lines[k]) && StartsWithPort(lines[k])
    requires Spaced(lines[j]) && forall m :: j < m < |lines| ==> !Spaced(lines[m])
    ensures ExecAll(NEW_FTP, lines).portLine == Some(lines[j])
    decreases |lines|
  {
    var front := lines[..|lines| - 1];
    if j < |lines| - 1 {
      LastSpacedLineIsThePortLine(front, k, j);
    } else if k < j {
      NoPortLine(front);
      assert front[k] == lines[k];
    }
  }

  // So any later command with a space overwrites it.
  lemma LaterCommandReplacesThePortLine(port: Data, other: Data)
    requires Spaced(port) && StartsWithPort(port) && Spaced(other)
    ensures ExecAll(NEW_FTP, [port, other]).portLine == Some(other)
  {
    LastSpacedLineIsThePortLine([port, other], 0, 1);
  }

  // The same when the result pool may have no element left for the command: the
  // error goes unnoticed, only the offset of the argument is lost.
  function ExecWithin(s: Ftp, line: Data, room: nat): Ftp {
    if room == 0 && Spaced(line) then Exec(s, line).(argOffset := 0) else Exec(s, line)
  }

  // ---- the parsers ----

  // A cut answers with its field, if there is an element for it; an error is not
  // passed on.
  function Reply(s: Ftp, ps: PState, fieldIdx: nat, delim: Data, input: Data, room: nat): Outcome<Ftp> {
    var c := CutByDelimiter(ps.store, ps.eof, delim, input);
    var r := Code(c, room);
    Outcome(if r == FOUND then Emitted(fieldIdx, c) else [], s,
            ps.(parseField := 0,
                store := if r == ERROR then KeptByDelimiter(ps.store, delim, input) else c.store), true)
  }

  function ParseRequest(s: Ftp, ps: PState, input: Data, room: nat): Outcome<Ftp> {
    Reply(s, ps, FTP_FIELD_REQUEST_LINE, CRLF, input, room)
  }

  function ParseResponse(s: Ftp, ps: PState, input: Data, room: nat): Outcome<Ftp> {
    Reply(s, ps, FTP_FIELD_RESPONSE_LINE, CRLF, input, room)
  }

  function Argument(s: Ftp, input: Data): Ftp {
    if s.isPort then s.(portLine := Some(input)) else s
  }

  function ParseCommandLine(s: Ftp, ps: PState, input: Data, room: nat): Outcome<Ftp> {
    if ps.parseField == 0 then
      var c := CutByDelimiter(ps.store, ps.eof, SPACE, input);
      var r := Code(c, room);
      var command := Ftp(s.isPort || StartsWithPort(input), if r == ERROR then 0 else c.consumed, s.portLine);
      Reply(if r == IN_PROGRESS then s else Argument(command, input), ps, FTP_FIELD_REQUEST_COMMAND, SPACE, input, room)
    else Outcome([], if ps.parseField == 1 then Argument(s, input) else s, ps.(parseField := 0), true)
  }

  // A line handed over whole, with nothing stored, is executed.
  lemma WholeLineIsExecuted(s: Ftp, ps: PState, line: Data, room: nat)
    requires ps.parseField == 0 && ps.eof && ps.store == []
    ensures var o := ParseCommandLine(s, ps, line, room);
      && o.app == ExecWithin(s, line, room) && o.ps == ps && o.ok
      && |o.fields| <= room && forall x <- o.fields :: x.idx == FTP_FIELD_REQUEST_COMMAND
  {
  }

  class FtpState {
    var isPort: bool
    var argOffset: nat
    var portLine: Option<Data>

    ghost function Value(): Ftp
      reads this
    {
      Ftp(isPort, argOffset, portLine)
    }

    constructor ()
      ensures Value() == NEW_FTP
    {
      isPort, argOffset, portLine := false, 0, None;
    }

    method FTPParseRequestCommand(input: Data)
      modifies this`isPort
      ensures isPort == (old(isPort) || StartsWithPort(input))
    {
      if |input| >= 4 {
        var i := 0;
        var same := true;
        while i < 4
          invariant 0 <= i <= 4
          invariant same <==> forall j :: 0 <= j < i ==> ToLower(input[j]) == PORT[j]
        {
          same := same && ToLower(input[i]) == PORT[i];
          i := i + 1;
        }
        if same {
          isPort := true;
        }
      }
    }

    // The command, and then its argument. A failure to store the command counts
    // as success.
    method FTPParseRequestCommandLine(pstate: ParserState, output: Output, input: Data) returns (r: int)
      requires output.fields == []
      modifies this, pstate`store, pstate`parseField, output
      ensures Outcome(output.fields, Value(), pstate.Value(), r != ERROR)
        == ParseCommandLine(old(Value()), old(pstate.Value()), input, old(output.room))
    {
      var u := pstate.parseField;
      ghost var c := CutByDelimiter(pstate.store, pstate.eof, SPACE, input);
      ghost var code := Code(c, output.room);
      ghost var command := Ftp(isPort || StartsWithPort(input), if code == ERROR then 0 else c.consumed, portLine);
      while u < 2
        invariant u == old(pstate.parseField) || u == 1 || u == 2
        invariant u == old(pstate.parseField) ==>
          Value() == old(Value()) && pstate.Value() == old(pstate.Value())
          && output.fields == [] && output.room == old(output.room)
        invariant pstate.parseField == old(pstate.parseField) && pstate.eof == old(pstate.eof)
        invariant old(pstate.parseField) == 0 && u > 0 ==>
          && code != IN_PROGRESS && Value() == (if u == 1 then command else Argument(command, input))
          && output.fields == (if code == FOUND then Emitted(FTP_FIELD_REQUEST_COMMAND, c) else [])
          && pstate.store == if code == ERROR then KeptByDelimiter(old(pstate.store), SPACE, input) else c.store
        invariant old(pstate.parseField) == 1 && u == 2 ==>
          && Value() == Argument(old(Value()), input) && pstate.store == old(pstate.store) && output.fields == []
        invariant u >= old(pstate.parseField)
      {
        if u == 0 {
          var consumed;
          r, consumed := AlpParseFieldByDelimiter(output, pstate, FTP_FIELD_REQUEST_COMMAND, SPACE, input);
          if r == IN_PROGRESS {
            pstate.parseField := 0;
            return;
          }
          argOffset := consumed;
          FTPParseRequestCommand(input);
        } else if isPort {
          portLine := Some(input);
        }
        u := u + 1;
      }
      pstate.parseField := 0;
      return FOUND;
    }

    method FTPParseRequest(pstate: ParserState, output: Output, input: Data) returns (r: int)
      requires output.fields == []
      modifies pstate`store, pstate`parseField, output
      ensures Outcome(output.fields, Value(), pstate.Value(), r != ERROR)
        == ParseRequest(Value(), old(pstate.Value()), input, old(output.room))
    {
      var consumed;
      r, consumed := AlpParseFieldByDelimiter(output, pstate, FTP_FIELD_REQUEST_LINE, CRLF, input);
      if r == IN_PROGRESS {
        pstate.parseField := 0;
        return;
      }
      pstate.parseField := 0;
      return FOUND;
    }

    // The numeric response code is not kept in this model.
    method FTPParseResponse(pstate: ParserState, output: Output, input: Data) returns (r: int)
      requires output.fields == []
      modifies pstate`store, pstate`parseField, output
      ensures Outcome(output.fields, Value(), pstate.Value(), r != ERROR)
        == ParseResponse(Value(), old(pstate.Value()), input, old(output.room))
    {
      var consumed;
      r, consumed := AlpParseFieldByDelimiter(output, pstate, FTP_FIELD_RESPONSE_LINE, CRLF, input);
      if r == IN_PROGRESS {
        pstate.parseField := 0;
        return;
      }
      pstate.parseField := 0;
      return FOUND;
    }
  }
}
