/** Cutting a client's byte stream into message lines, read by read. */
module LineFramer {
  import opened Bytes
  import opened Utf8

  const MAX_LINE_BYTES: nat := 65536
  const NEWLINE: Byte := 10

  // ---- Lines ----

  function WithoutNul(s: Bytes): (r: Bytes)
    ensures |r| <= |s|
  {
    if s == [] then [] else if s[0] == 0 then WithoutNul(s[1..]) else [s[0]] + WithoutNul(s[1..])
  }

  /** What a read adds to the buffer. */
  function Text(chunk: Bytes): Bytes {
    Lossy(WithoutNul(chunk))
  }

  function FindNewline(s: Bytes): (p: nat)
    ensures p <= |s|
    ensures p < |s| ==> s[p] == NEWLINE
  {
    if s == [] || s[0] == NEWLINE then 0 else FindNewline(s[1..]) + 1
  }

  lemma {:induction false} FindNewlineFirst(s: Bytes)
    ensures NEWLINE !in s[..FindNewline(s)]
  {
    if s != [] && s[0] != NEWLINE {
      FindNewlineFirst(s[1..]);
      assert s[..FindNewline(s)] == [s[0]] + s[1..][..FindNewline(s) - 1];
    }
  }

  predicate IsSpace(b: Byte) {
    9 <= b <= 13 || b == 32
  }

  function TrimStart(s: Bytes): (r: Bytes)
    ensures |r| <= |s|
  {
    if s != [] && IsSpace(s[0]) then TrimStart(s[1..]) else s
  }

  function TrimEnd(s: Bytes): (r: Bytes)
    ensures r <= s
  {
    if s != [] && IsSpace(s[|s| - 1]) then TrimEnd(s[..|s| - 1]) else s
  }

  function Trim(s: Bytes): Bytes {
    TrimEnd(TrimStart(s))
  }

  /** White space at both ends goes, and nothing else. */
  lemma TrimExact(s: Bytes) returns (front: Bytes, back: Bytes)
    ensures s == front + Trim(s) + back
    ensures forall i | 0 <= i < |front| :: front[i] in [9, 10, 11, 12, 13, 32]
    ensures forall i | 0 <= i < |back| :: back[i] in [9, 10, 11, 12, 13, 32]
    ensures Trim(s) != [] ==> Trim(s)[0] !in [9, 10, 11, 12, 13, 32] && Trim(s)[|Trim(s)| - 1] !in [9, 10, 11, 12, 13, 32]
  {
    front := TrimStartExact(s);
    back := TrimEndExact(TrimStart(s));
    forall b: Byte ensures IsSpace(b) <==> b in [9, 10, 11, 12, 13, 32] { SpaceExact(b); }
  }

  lemma SpaceExact(b: Byte)
    ensures IsSpace(b) <==> b in [9, 10, 11, 12, 13, 32]
  {
  }

  predicate AllSpaces(s: Bytes) {
    forall i | 0 <= i < |s| :: IsSpace(s[i])
  }

  lemma {:induction false} TrimStartExact(s: Bytes) returns (front: Bytes)
    ensures s == front + TrimStart(s) && AllSpaces(front)
    ensures TrimStart(s) != [] ==> !IsSpace(TrimStart(s)[0])
  {
    front := [];
    if s != [] && IsSpace(s[0]) {
      front := TrimStartExact(s[1..]);
      front := [s[0]] + front;
    }
  }

  lemma {:induction false} TrimEndExact(s: Bytes) returns (back: Bytes)
    ensures s == TrimEnd(s) + back && AllSpaces(back)
    ensures TrimEnd(s) != [] ==> !IsSpace(TrimEnd(s)[|TrimEnd(s)| - 1])
  {
    back := [];
    if s != [] && IsSpace(s[|s| - 1]) {
      back := TrimEndExact(s[..|s| - 1]);
      back := back + [s[|s| - 1]];
    }
  }

  const PREFACE_END: Bytes := [0x53, 0x4D]
  const PREFACE: Bytes := [0x50, 0x52, 0x49, 0x20, 0x2A, 0x20, 0x48, 0x54, 0x54, 0x50, 0x2F, 0x32]
  const GET: Bytes := [0x47, 0x45, 0x54, 0x20]
  const POST: Bytes := [0x50, 0x4F, 0x53, 0x54, 0x20]
  const PUT: Bytes := [0x50, 0x55, 0x54, 0x20]
  const DELETE: Bytes := [0x44, 0x45, 0x4C, 0x45, 0x54, 0x45, 0x20]
  const HEAD: Bytes := [0x48, 0x45, 0x41, 0x44, 0x20]
  const OPTIONS: Bytes := [0x4F, 0x50, 0x54, 0x49, 0x4F, 0x4E, 0x53, 0x20]

  /** The line starts like an HTTP/2 preface or an HTTP request. */
  predicate HttpStart(line: Bytes) {
    PREFACE <= line || GET <= line || POST <= line || PUT <= line || DELETE <= line || HEAD <= line || OPTIONS <= line
  }

  /** The line belongs to HTTP: "SM", or an HTTP start. */
  predicate HttpLike(line: Bytes) {
    line == PREFACE_END || HttpStart(line)
  }

  /** The bytes of an ASCII text. */
  function Ascii(s: string): Bytes
    requires forall i | 0 <= i < |s| :: s[i] as int < 128
  {
    seq(|s|, i requires 0 <= i < |s| => (s[i] as int) as Byte)
  }

  /** The lines that are refused, in plain text. */
  lemma HttpLikeExact(line: Bytes)
    ensures HttpLike(line) <==>
            || line == Ascii("SM")
            || Ascii("PRI * HTTP/2") <= line
            || Ascii("GET ") <= line || Ascii("POST ") <= line || Ascii("PUT ") <= line
            || Ascii("DELETE ") <= line || Ascii("HEAD ") <= line || Ascii("OPTIONS ") <= line
  {
    assert Ascii("SM") == PREFACE_END && Ascii("PRI * HTTP/2") == PREFACE;
    assert Ascii("GET ") == GET && Ascii("POST ") == POST && Ascii("PUT ") == PUT;
    assert Ascii("DELETE ") == DELETE && Ascii("HEAD ") == HEAD && Ascii("OPTIONS ") == OPTIONS;
  }

  // ---- One read ----

  /** A connection: `first` until the first read, `open` until it is refused, the bytes of the
      unfinished line, and the messages handed to the handlers so far. */
  datatype Connection = Connection(first: bool, open: bool, pending: Bytes, out: seq<Bytes>)

  const FRESH: Connection := Connection(true, true, [], [])

  /** Takes whole lines off `buf` until none is left or one is `http`. */
  function Drain(http: Bytes -> bool, buf: Bytes, out: seq<Bytes>): Connection
    decreases |buf|
  {
    var p := FindNewline(buf);
    if p == |buf| then Connection(false, true, buf, out)
    else
      var line, rest := Trim(buf[..p]), buf[p + 1..];
      if line == [] then Drain(http, rest, out)
      else if http(line) then Connection(false, false, rest, out)
      else Drain(http, rest, out + [line])
  }

  predicate Stops(http: Bytes -> bool, raw: Bytes) {
    Trim(raw) != [] && http(Trim(raw))
  }

  function Kept(raw: Bytes): seq<Bytes> {
    if Trim(raw) == [] then [] else [Trim(raw)]
  }

  /** A line that does not stop is taken off and, unless blank, handed over. */
  lemma DrainStep(http: Bytes -> bool, s: Bytes, out: seq<Bytes>, p: nat)
    requires p == FindNewline(s) < |s| && !Stops(http, s[..p])
    ensures Drain(http, s, out) == Drain(http, s[p + 1..], out + Kept(s[..p]))
  {
    var line := Trim(s[..p]);
    DrainLine(http, s, out, p, line);
    assert line == [] ==> out + Kept(s[..p]) == out;
  }

  lemma DrainLine(http: Bytes -> bool, s: Bytes, out: seq<Bytes>, p: nat, line: Bytes)
    requires p == FindNewline(s) < |s| && line == Trim(s[..p]) && (line == [] || !http(line))
    ensures Drain(http, s, out) == Drain(http, s[p + 1..], if line == [] then out else out + [line])
  {
  }

  lemma DrainStops(http: Bytes -> bool, s: Bytes, out: seq<Bytes>, p: nat)
    requires p == FindNewline(s) < |s| && Stops(http, s[..p])
    ensures Drain(http, s, out) == Connection(false, false, s[p + 1..], out)
  {
  }

  function FirstLine(data: Bytes): Bytes {
    Trim(data[..FindNewline(data)])
  }

  predicate FirstRefused(http: Bytes -> bool, c: Connection, data: Bytes) {
    c.first && http(FirstLine(data))
  }

  predicate TooLong(c: Connection, data: Bytes) {
    |c.pending| + |data| > MAX_LINE_BYTES
  }

  function Feed(http: Bytes -> bool, c: Connection, chunk: Bytes): Connection {
    var data := Text(chunk);
    if !c.open then c
    else if FirstRefused(http, c, data) then c.(open := false)
    else if TooLong(c, data) then c.(first := false, open := false)
    else Drain(http, c.pending + data, c.out)
  }

  class Framer {
    var first: bool
    var open: bool
    var pending: Bytes
    var out: seq<Bytes>

    function Model(): Connection
      reads this
    {
      Connection(first, open, pending, out)
    }

    constructor ()
      ensures Model() == FRESH
    {
      first, open, pending, out := true, true, [], [];
    }

    method Append(data: Bytes) returns (ok: bool)
      modifies this`pending
      ensures ok == (|old(pending)| + |data| <= 65536)
      ensures pending == if ok then old(pending) + data else old(pending)
    {
      if |pending| + |data| > MAX_LINE_BYTES { return false; }
      pending := pending + data;
      return true;
    }

    /** One turn of the read loop on an open connection. */
    method Receive(chunk: Bytes)
      requires open
      modifies this
      ensures Model() == Feed(HttpLike, old(Model()), chunk)
    {
      var data := Text(chunk);
      if first {
        if HttpLike(FirstLine(data)) {
          open := false;
          return;
        }
        first := false;
      }
      var ok := Append(data);
      if !ok {
        open := false;
        return;
      }
      TakeLines(HttpLike);
    }

    /** Hands over the complete lines in the buffer. */
    method TakeLines(http: Bytes -> bool)
      requires open && !first
      modifies this`open, this`pending, this`out
      ensures Model() == Drain(http, old(pending), old(out))
    {
      var p := FindNewline(pending);
      while p < |pending|
        invariant open && p == FindNewline(pending)
        invariant Drain(http, old(pending), old(out)) == Drain(http, pending, out)
        decreases |pending|
      {
        if Stops(http, pending[..p]) { DrainStops(http, pending, out, p); } else { DrainStep(http, pending, out, p); }
        var line := Trim(pending[..p]);
        pending := pending[p + 1..];
        if line != [] {
          if http(line) {
            open := false;
            return;
          }
          out := out + [line];
        }
        p := FindNewline(pending);
      }
    }
  }

  // ---- The lines of a stream ----

  function RawLines(s: Bytes): seq<Bytes> {
    var p := FindNewline(s);
    if p == |s| then [] else [s[..p]] + RawLines(s[p + 1..])
  }

  function Unfinished(s: Bytes): Bytes {
    var p := FindNewline(s);
    if p == |s| then s else Unfinished(s[p + 1..])
  }

  function Join(lines: seq<Bytes>): Bytes {
    if lines == [] then [] else lines[0] + [10] + Join(lines[1..])
  }

  lemma JoinCons(line: Bytes, lines: seq<Bytes>)
    ensures Join([line] + lines) == line + [NEWLINE] + Join(lines)
  {
    assert ([line] + lines)[1..] == lines;
  }

  lemma CutAt(s: Bytes, p: nat)
    requires p < |s|
    ensures s == s[..p] + [s[p]] + s[p + 1..]
  {
  }

  lemma Regroup(a: Bytes, b: Bytes, c: Bytes)
    ensures a + b + c == a + (b + c)
  {
  }

  /** Cutting loses no byte: the lines, each with its newline, and the unfinished one are the stream. */
  lemma {:induction false} CutLosesNothing(s: Bytes)
    ensures Join(RawLines(s)) + Unfinished(s) == s
    ensures 10 !in Unfinished(s) && forall i | 0 <= i < |RawLines(s)| :: 10 !in RawLines(s)[i]
    decreases |s|
  {
    var p := FindNewline(s);
    if p == |s| {
      FindNewlineFirst(s);
      assert s[..p] == s;
    } else {
      var rest := s[p + 1..];
      CutLosesNothing(rest);
      JoinCons(s[..p], RawLines(rest));
      Regroup(s[..p] + [NEWLINE], Join(RawLines(rest)), Unfinished(rest));
      CutAt(s, p);
      FindNewlineFirst(s);
    }
  }

  predicate NoneStops(http: Bytes -> bool, lines: seq<Bytes>) {
    lines == [] || (!Stops(http, lines[0]) && NoneStops(http, lines[1..]))
  }

  /** The non-blank lines before the first that stops, trimmed. */
  function Messages(http: Bytes -> bool, lines: seq<Bytes>): seq<Bytes> {
    if lines == [] || Stops(http, lines[0]) then [] else Kept(lines[0]) + Messages(http, lines[1..])
  }

  lemma ConsParts(x: Bytes, xs: seq<Bytes>)
    ensures ([x] + xs)[0] == x && ([x] + xs)[1..] == xs
  {
  }

  lemma RawLinesCons(s: Bytes, p: nat)
    requires p == FindNewline(s) < |s|
    ensures RawLines(s) != [] && RawLines(s)[0] == s[..p] && RawLines(s)[1..] == RawLines(s[p + 1..])
  {
    var line, rest := s[..p], RawLines(s[p + 1..]);
    RawLinesUnfold(s, p, line, rest);
    ConsParts(line, rest);
  }

  lemma RawLinesUnfold(s: Bytes, p: nat, line: Bytes, rest: seq<Bytes>)
    requires p == FindNewline(s) < |s| && line == s[..p] && rest == RawLines(s[p + 1..])
    ensures RawLines(s) == [line] + rest
  {
  }

  lemma MessagesStep(http: Bytes -> bool, s: Bytes, p: nat)
    requires p == FindNewline(s) < |s|
    ensures Messages(http, RawLines(s)) ==
            if Stops(http, s[..p]) then [] else Kept(s[..p]) + Messages(http, RawLines(s[p + 1..]))
    ensures NoneStops(http, RawLines(s)) <==> !Stops(http, s[..p]) && NoneStops(http, RawLines(s[p + 1..]))
  {
    RawLinesCons(s, p);
  }

  lemma Associate(a: seq<Bytes>, b: seq<Bytes>, c: seq<Bytes>)
    ensures a + b + c == a + (b + c)
  {
  }

  lemma {:induction false} DrainMessages(http: Bytes -> bool, s: Bytes, out: seq<Bytes>)
    ensures Drain(http, s, out).out == out + Messages(http, RawLines(s))
    decreases |s|
  {
    var p := FindNewline(s);
    if p < |s| {
      MessagesStep(http, s, p);
      if !Stops(http, s[..p]) {
        DrainStep(http, s, out, p);
        DrainMessages(http, s[p + 1..], out + Kept(s[..p]));
        Associate(out, Kept(s[..p]), Messages(http, RawLines(s[p + 1..])));
      }
    }
  }

  lemma {:induction false} DrainOpen(http: Bytes -> bool, s: Bytes, out: seq<Bytes>)
    ensures Drain(http, s, out).open == NoneStops(http, RawLines(s))
    decreases |s|
  {
    var p := FindNewline(s);
    if p < |s| {
      MessagesStep(http, s, p);
      if Stops(http, s[..p]) {
        DrainStops(http, s, out, p);
      } else {
        DrainStep(http, s, out, p);
        DrainOpen(http, s[p + 1..], out + Kept(s[..p]));
      }
    }
  }

  lemma {:induction false} DrainPending(http: Bytes -> bool, s: Bytes, out: seq<Bytes>)
    requires Drain(http, s, out).open
    ensures Drain(http, s, out).pending == Unfinished(s)
    decreases |s|
  {
    var p := FindNewline(s);
    if p < |s| {
      if Stops(http, s[..p]) {
        DrainStops(http, s, out, p);
      } else {
        DrainStep(http, s, out, p);
        DrainPending(http, s[p + 1..], out + Kept(s[..p]));
      }
    }
  }

  /** A read buffer is drained of exactly its messages; it is refused if and only if one of
      its lines stops, and otherwise its unfinished line stays. */
  lemma DrainExact(http: Bytes -> bool, s: Bytes, out: seq<Bytes>)
    ensures Drain(http, s, out).out == out + Messages(http, RawLines(s))
    ensures Drain(http, s, out).open == NoneStops(http, RawLines(s))
    ensures Drain(http, s, out).open ==> Drain(http, s, out).pending == Unfinished(s)
  {
    DrainMessages(http, s, out);
    DrainOpen(http, s, out);
    if Drain(http, s, out).open { DrainPending(http, s, out); }
  }

  /** A read leaves the connection open if and only if its text fits behind the pending bytes,
      no line it completes is HTTP, and it is not a first read whose first line is. */
  lemma OpenExact(http: Bytes -> bool, c: Connection, chunk: Bytes)
    requires c.open
    ensures Feed(http, c, chunk).open <==>
            && (c.first ==> !http(FirstLine(Text(chunk))))
            && |c.pending| + |Text(chunk)| <= 65536
            && NoneStops(http, RawLines(c.pending + Text(chunk)))
    ensures Feed(http, c, chunk).open ==>
            && !Feed(http, c, chunk).first
            && Feed(http, c, chunk).pending == Unfinished(c.pending + Text(chunk))
            && Feed(http, c, chunk).out == c.out + Messages(http, RawLines(c.pending + Text(chunk)))
  {
    DrainExact(http, c.pending + Text(chunk), c.out);
    DrainKeepsFirst(http, c.pending + Text(chunk), c.out);
  }

  // ---- Any splitting of the stream ----

  lemma {:induction false} FindNewlineConcat(a: Bytes, b: Bytes)
    ensures FindNewline(a) < |a| ==> FindNewline(a + b) == FindNewline(a)
  {
    if a != [] && a[0] != NEWLINE {
      assert (a + b)[1..] == a[1..] + b;
      FindNewlineConcat(a[1..], b);
    }
  }

  /** Draining part of the bytes and later the rest is draining them all. */
  lemma {:induction false} DrainConcat(http: Bytes -> bool, a: Bytes, b: Bytes, out: seq<Bytes>)
    ensures var d, whole := Drain(http, a, out), Drain(http, a + b, out);
            if d.open then whole == Drain(http, d.pending + b, d.out) else !whole.open && whole.out == d.out
    decreases |a|
  {
    var p := FindNewline(a);
    if p < |a| {
      FindNewlineConcat(a, b);
      var rest := a[p + 1..];
      assert (a + b)[..p] == a[..p] && (a + b)[p + 1..] == rest + b;
      if !Stops(http, a[..p]) {
        DrainStep(http, a, out, p);
        DrainStep(http, a + b, out, p);
        DrainConcat(http, rest, b, out + Kept(a[..p]));
      }
    }
  }

  /** The reads without NUL bytes. */
  function Cleaned(chunks: seq<Bytes>): (r: seq<Bytes>)
    ensures |r| == |chunks|
  {
    seq(|chunks|, i requires 0 <= i < |chunks| => WithoutNul(chunks[i]))
  }

  /** The texts of all reads. */
  function Received(chunks: seq<Bytes>): Bytes {
    Decoded(Cleaned(chunks))
  }

  lemma ReceivedSnoc(chunks: seq<Bytes>)
    requires chunks != []
    ensures Received(chunks) == Received(chunks[..|chunks| - 1]) + Text(chunks[|chunks| - 1])
  {
    var n := |chunks| - 1;
    assert Cleaned(chunks)[..n] == Cleaned(chunks[..n]);
  }

  function FeedAll(http: Bytes -> bool, chunks: seq<Bytes>): Connection {
    if chunks == [] then FRESH else Feed(http, FeedAll(http, chunks[..|chunks| - 1]), chunks[|chunks| - 1])
  }

  lemma {:induction false} WithoutNulConcat(a: Bytes, b: Bytes)
    ensures WithoutNul(a + b) == WithoutNul(a) + WithoutNul(b)
  {
    if a == [] {
      assert a + b == b;
    } else {
      assert (a + b)[1..] == a[1..] + b;
      WithoutNulConcat(a[1..], b);
    }
  }

  lemma {:induction false} NulGone(s: Bytes)
    ensures 0 !in WithoutNul(s)
  {
    if s != [] { NulGone(s[1..]); }
  }

  lemma {:induction false} NulFree(s: Bytes)
    requires 0 !in s
    ensures WithoutNul(s) == s
  {
    if s != [] {
      assert s == [s[0]] + s[1..];
      NulFree(s[1..]);
    }
  }

  /** NUL bytes go, wherever they are, and nothing else. */
  lemma NulExact(a: Bytes, b: Bytes)
    ensures 0 !in WithoutNul(a)
    ensures 0 !in a ==> WithoutNul(a) == a
    ensures WithoutNul(a + [0] + b) == WithoutNul(a) + WithoutNul(b)
  {
    NulGone(a);
    if 0 !in a { NulFree(a); }
    WithoutNulConcat(a + [0], b);
    WithoutNulConcat(a, [0]);
    assert WithoutNul([0]) == [];
  }

  /** No line, finished or not, is longer than what leaves room for a text of length `room`. */
  ghost predicate ShortLines(s: Bytes, room: nat) {
    forall i, j | 0 <= i <= j <= |s| && NEWLINE !in s[i..j] :: j - i + room <= 65536
  }

  lemma ShortLinesPrefix(a: Bytes, b: Bytes, room: nat)
    requires ShortLines(a + b, room)
    ensures ShortLines(a, room)
  {
    forall i, j | 0 <= i <= j <= |a| && NEWLINE !in a[i..j] ensures j - i + room <= MAX_LINE_BYTES {
      assert (a + b)[i..j] == a[i..j];
    }
  }

  /** A connection stands where draining `s` in one go leads. */
  predicate Agrees(http: Bytes -> bool, c: Connection, s: Bytes) {
    var d := Drain(http, s, []);
    c.open == d.open && c.out == d.out && (d.open ==> c.pending == d.pending)
  }

  predicate Refused(http: Bytes -> bool, c: Connection, data: Bytes) {
    c.open && (FirstRefused(http, c, data) || TooLong(c, data))
  }

  /** No read is refused by itself, for its first line or for its length. */
  predicate NoneRefused(http: Bytes -> bool, chunks: seq<Bytes>) {
    chunks == [] ||
    (var n := |chunks| - 1;
     NoneRefused(http, chunks[..n]) && !Refused(http, FeedAll(http, chunks[..n]), Text(chunks[n])))
  }

  lemma DrainAgrees(http: Bytes -> bool, c: Connection, s: Bytes, data: Bytes)
    requires Agrees(http, c, s) && c.open
    ensures Agrees(http, Drain(http, c.pending + data, c.out), s + data)
  {
    DrainConcat(http, s, data, []);
  }

  lemma FeedDrains(http: Bytes -> bool, c: Connection, chunk: Bytes)
    requires c.open && !Refused(http, c, Text(chunk))
    ensures Feed(http, c, chunk) == Drain(http, c.pending + Text(chunk), c.out)
  {
  }

  lemma FeedAgrees(http: Bytes -> bool, c: Connection, s: Bytes, chunk: Bytes)
    requires Agrees(http, c, s) && !Refused(http, c, Text(chunk))
    ensures Agrees(http, Feed(http, c, chunk), s + Text(chunk))
  {
    if c.open {
      FeedDrains(http, c, chunk);
      DrainAgrees(http, c, s, Text(chunk));
    } else {
      DrainConcat(http, s, Text(chunk), []);
    }
  }

  /** As long as no read is refused by itself, the messages dispatched, the line that stops the
      connection and the bytes that stay pending are those of cutting all texts at once. */
  lemma {:induction false} TextIndependent(http: Bytes -> bool, chunks: seq<Bytes>)
    requires NoneRefused(http, chunks)
    ensures Agrees(http, FeedAll(http, chunks), Received(chunks))
  {
    if chunks != [] {
      var n := |chunks| - 1;
      TextIndependent(http, chunks[..n]);
      ReceivedSnoc(chunks);
      FeedAgrees(http, FeedAll(http, chunks[..n]), Received(chunks[..n]), chunks[n]);
    }
  }

  lemma {:induction false} CleanedConcat(chunks: seq<Bytes>)
    ensures Concat(Cleaned(chunks)) == WithoutNul(Concat(chunks))
  {
    if chunks != [] {
      var n := |chunks| - 1;
      assert Cleaned(chunks)[..n] == Cleaned(chunks[..n]);
      CleanedConcat(chunks[..n]);
      WithoutNulConcat(Concat(chunks[..n]), chunks[n]);
    }
  }

  /** No read ends inside a character. */
  predicate WholeCharacters(chunks: seq<Bytes>) {
    AllValid(Cleaned(chunks))
  }

  /** For a stream that is valid UTF-8, the texts of the reads are the stream if and only if no
      read ends inside a character: a character that is cut is replaced. */
  lemma ReceivedExact(chunks: seq<Bytes>)
    requires Valid(WithoutNul(Concat(chunks)))
    ensures Received(chunks) == WithoutNul(Concat(chunks)) <==> WholeCharacters(chunks)
  {
    CleanedConcat(chunks);
    DecodedExact(Cleaned(chunks));
  }

  /** However the network cuts a stream into reads of whole characters, the same messages are
      dispatched in the same order, the same line stops the connection, and the same bytes stay
      pending, as long as no read is refused by itself: the outcome is that of cutting the
      whole stream at once. */
  lemma SplitIndependent(http: Bytes -> bool, chunks: seq<Bytes>)
    requires NoneRefused(http, chunks) && WholeCharacters(chunks)
    ensures Agrees(http, FeedAll(http, chunks), WithoutNul(Concat(chunks)))
  {
    TextIndependent(http, chunks);
    CleanedConcat(chunks);
    AllValidDecoded(Cleaned(chunks));
  }

  /** Even if a read is refused, what was dispatched starts the messages of the texts. */
  lemma {:induction false} DispatchedStarts(http: Bytes -> bool, chunks: seq<Bytes>)
    ensures FeedAll(http, chunks).out <= Messages(http, RawLines(Received(chunks)))
    ensures FeedAll(http, chunks).open ==> NoneRefused(http, chunks)
  {
    if chunks != [] {
      var n := |chunks| - 1;
      var c, s, data := FeedAll(http, chunks[..n]), Received(chunks[..n]), Text(chunks[n]);
      DispatchedStarts(http, chunks[..n]);
      ReceivedSnoc(chunks);
      MessagesGrow(http, s, data);
      if c.open && !Refused(http, c, data) {
        TextIndependent(http, chunks);
        FreshDrain(http, s + data);
      }
    }
  }

  lemma DrainAppends(http: Bytes -> bool, s: Bytes, out: seq<Bytes>)
    ensures out <= Drain(http, s, out).out
  {
    DrainMessages(http, s, out);
  }

  lemma DrainGrows(http: Bytes -> bool, a: Bytes, b: Bytes)
    ensures Drain(http, a, []).out <= Drain(http, a + b, []).out
  {
    var d := Drain(http, a, []);
    DrainConcat(http, a, b, []);
    DrainAppends(http, d.pending + b, d.out);
  }

  lemma FreshDrain(http: Bytes -> bool, s: Bytes)
    ensures Drain(http, s, []).out == Messages(http, RawLines(s))
  {
    DrainMessages(http, s, []);
  }

  lemma MessagesGrow(http: Bytes -> bool, a: Bytes, b: Bytes)
    ensures Messages(http, RawLines(a)) <= Messages(http, RawLines(a + b))
  {
    FreshDrain(http, a);
    FreshDrain(http, a + b);
    DrainGrows(http, a, b);
  }

  /** Between reads the buffer is within the limit and holds no newline. */
  lemma {:induction false} BufferBounded(http: Bytes -> bool, chunks: seq<Bytes>)
    requires FeedAll(http, chunks).open
    ensures |FeedAll(http, chunks).pending| <= 65536 && NEWLINE !in FeedAll(http, chunks).pending
  {
    if chunks != [] {
      var c, data := FeedAll(http, chunks[..|chunks| - 1]), Text(chunks[|chunks| - 1]);
      FeedDrains(http, c, chunks[|chunks| - 1]);
      DrainExact(http, c.pending + data, c.out);
      CutLosesNothing(c.pending + data);
    }
  }

  // ---- Streams that are never refused ----

  /** No text of a read is longer than `room`. */
  predicate Reads(chunks: seq<Bytes>, room: nat) {
    forall k | 0 <= k < |chunks| :: |Text(chunks[k])| <= room
  }

  /** A read of the listener's size gives a text of that size if it has whole characters, and
      of three times that size at most in any case. */
  lemma ReadRoom(chunk: Bytes)
    requires |chunk| <= 1024
    ensures |Text(chunk)| <= 3072
    ensures Valid(WithoutNul(chunk)) ==> |Text(chunk)| <= 1024
  {
    LossyLength(WithoutNul(chunk));
    if Valid(WithoutNul(chunk)) { LossyValid(WithoutNul(chunk)); }
  }

  lemma RoomForRead(http: Bytes -> bool, s: Bytes, out: seq<Bytes>, room: nat)
    requires ShortLines(s, room) && Drain(http, s, out).open
    ensures |Drain(http, s, out).pending| + room <= MAX_LINE_BYTES
  {
    DrainExact(http, s, out);
    CutLosesNothing(s);
    var i := |s| - |Unfinished(s)|;
    assert s[i..|s|] == Unfinished(s);
  }

  lemma {:induction false} FirstOnlyOnce(http: Bytes -> bool, chunks: seq<Bytes>)
    requires chunks != [] && FeedAll(http, chunks).open
    ensures !FeedAll(http, chunks).first
  {
    var n := |chunks| - 1;
    var c, data := FeedAll(http, chunks[..n]), Text(chunks[n]);
    if n > 0 && c.open { FirstOnlyOnce(http, chunks[..n]); }
    DrainKeepsFirst(http, c.pending + data, c.out);
  }

  lemma {:induction false} DrainKeepsFirst(http: Bytes -> bool, s: Bytes, out: seq<Bytes>)
    ensures !Drain(http, s, out).first
    decreases |s|
  {
    var p := FindNewline(s);
    if p < |s| {
      var line := Trim(s[..p]);
      DrainKeepsFirst(http, s[p + 1..], if line == [] then out else out + [line]);
    }
  }

  lemma ReadAccepted(http: Bytes -> bool, c: Connection, s: Bytes, data: Bytes, room: nat)
    requires Agrees(http, c, s) && ShortLines(s, room) && |data| <= room && !FirstRefused(http, c, data)
    ensures !Refused(http, c, data)
  {
    if c.open { RoomForRead(http, s, [], room); }
  }

  /** Reads whose texts are no longer than `room` refuse nothing if no line leaves less room
      than that and the first read does not look like HTTP. */
  lemma {:induction false} ShortLinesAccepted(http: Bytes -> bool, chunks: seq<Bytes>, room: nat)
    requires Reads(chunks, room) && ShortLines(Received(chunks), room)
    requires chunks != [] ==> !http(FirstLine(Text(chunks[0])))
    ensures NoneRefused(http, chunks)
  {
    if chunks != [] {
      var n := |chunks| - 1;
      var init, s, data := chunks[..n], Received(chunks[..n]), Text(chunks[n]);
      assert ShortLines(s, room) by {
        ReceivedSnoc(chunks);
        ShortLinesPrefix(s, data, room);
      }
      ShortLinesAccepted(http, init, room);
      TextIndependent(http, init);
      var c := FeedAll(http, init);
      if c.open && init != [] { FirstOnlyOnce(http, init); }
      if c.open { ReadAccepted(http, c, s, data, room); }
    }
  }

  // ---- The check of the first read ----

  lemma {:induction false} TrimStartConcat(a: Bytes, b: Bytes)
    requires TrimStart(a) != []
    ensures TrimStart(a + b) == TrimStart(a) + b
  {
    if IsSpace(a[0]) {
      assert (a + b)[1..] == a[1..] + b;
      TrimStartConcat(a[1..], b);
    }
  }

  lemma {:induction false} TrimEndConcat(a: Bytes, b: Bytes)
    ensures TrimEnd(a) <= TrimEnd(a + b)
  {
    if b == [] {
      assert a + b == a;
    } else if IsSpace(b[|b| - 1]) {
      assert (a + b)[..|a + b| - 1] == a + b[..|b| - 1];
      TrimEndConcat(a, b[..|b| - 1]);
    }
  }

  lemma TrimPrefix(a: Bytes, b: Bytes)
    requires Trim(a) != []
    ensures Trim(a) <= Trim(a + b)
  {
    assert TrimStart(a) != [];
    TrimStartConcat(a, b);
    TrimEndConcat(TrimStart(a), b);
  }

  lemma FindNewlineLater(a: Bytes, b: Bytes)
    requires FindNewline(a) == |a|
    ensures FindNewline(a + b) >= |a|
  {
    FindNewlineFirst(a);
    assert a[..|a|] == a;
  }

  /** The first read shows the start of the first line, and all of it if it has the newline. */
  lemma FirstLineCut(data: Bytes, rest: Bytes) returns (more: Bytes)
    ensures data[..FindNewline(data)] + more == (data + rest)[..FindNewline(data + rest)]
    ensures FindNewline(data) < |data| ==> more == []
  {
    var q := FindNewline(data + rest);
    if FindNewline(data) < |data| {
      FindNewlineConcat(data, rest);
      more := [];
    } else {
      FindNewlineLater(data, rest);
      more := rest[..q - |data|];
    }
  }

  lemma FirstLinePrefix(data: Bytes, rest: Bytes)
    requires FirstLine(data) != []
    ensures FirstLine(data) <= FirstLine(data + rest)
    ensures FindNewline(data) < |data| ==> FirstLine(data) == FirstLine(data + rest)
  {
    var more := FirstLineCut(data, rest);
    var seen := data[..FindNewline(data)];
    TrimPrefix(seen, more);
    assert more == [] ==> seen + more == seen;
  }

  /** Whether a line that starts with an HTTP line is one itself. */
  lemma LikePrefix(a: Bytes, b: Bytes)
    requires a <= b && HttpLike(a)
    ensures a != []
    ensures HttpLike(b) <==> (a == PREFACE_END ==> b == PREFACE_END)
  {
    assert HttpStart(a) ==> HttpStart(b);
    assert HttpStart(b) ==> b[0] in [0x50, 0x47, 0x44, 0x48, 0x4F];
  }

  /** The first read is refused for a line that is not HTTP exactly when it shows only "SM"
      of a line that goes on. */
  lemma FirstCheckExact(data: Bytes, rest: Bytes, seen: Bytes, line: Bytes)
    requires seen == FirstLine(data) && line == FirstLine(data + rest) && HttpLike(seen)
    ensures HttpLike(line) <==> (seen == PREFACE_END ==> line == PREFACE_END)
    ensures FindNewline(data) < |data| ==> HttpLike(line)
  {
    LikePrefix(seen, seen);
    FirstLinePrefix(data, rest);
    LikePrefix(seen, line);
  }

  const SMART: Bytes := [0x53, 0x4D, 0x41, 0x52, 0x54]

  lemma {:induction false} FindNewlineIs(t: Bytes, p: nat)
    requires p <= |t| && NEWLINE !in t[..p] && (p < |t| ==> t[p] == NEWLINE)
    ensures FindNewline(t) == p
  {
    if p > 0 {
      assert t[0] == t[..p][0];
      assert t[1..][..p - 1] == t[..p][1..];
      FindNewlineIs(t[1..], p - 1);
    }
  }

  lemma PlainLine(s: Bytes)
    requires s != [] && !IsSpace(s[0]) && !IsSpace(s[|s| - 1]) && NEWLINE !in s
    ensures FindNewline(s + [NEWLINE]) == |s| && FirstLine(s + [NEWLINE]) == s
    ensures FindNewline(s) == |s| && FirstLine(s) == s
  {
    PlainTrim(s);
    PlainFirst(s, s);
    PlainFirst(s, s + [NEWLINE]);
  }

  lemma PlainTrim(s: Bytes)
    requires s != [] && !IsSpace(s[0]) && !IsSpace(s[|s| - 1])
    ensures Trim(s) == s
  {
  }

  lemma PlainFirst(s: Bytes, t: Bytes)
    requires s <= t && NEWLINE !in s && Trim(s) == s && (|s| < |t| ==> t[|s|] == NEWLINE)
    ensures FindNewline(t) == |s| && FirstLine(t) == s
  {
    assert t[..|s|] == s;
    FindNewlineIs(t, |s|);
  }

  lemma {:induction false} PlainText(s: Bytes)
    requires forall i | 0 <= i < |s| :: 0 < s[i] < 128
    ensures WithoutNul(s) == s && Valid(s) && Text(s) == s
  {
    if s != [] {
      PlainText(s[1..]);
      assert Fitting(s) == 1;
    }
    LossyValid(s);
  }

  lemma SmartIsPlain()
    ensures FirstLine(PREFACE_END) == PREFACE_END && FirstLine(SMART + [NEWLINE]) == SMART
    ensures FindNewline(SMART + [NEWLINE]) == |SMART| && !HttpLike(SMART)
  {
    PlainLine(PREFACE_END);
    PlainLine(SMART);
  }

  /** "SMART" is refused if its first read ends after "SM", and dispatched if it comes at once. */
  lemma FirstCheckDependsOnSplit()
    ensures !Feed(HttpLike, FRESH, SMART[..2]).open
    ensures Feed(HttpLike, FRESH, SMART + [NEWLINE]) == Connection(false, true, [], [SMART])
  {
    SmartIsPlain();
    assert SMART[..2] == PREFACE_END;
    PlainText(PREFACE_END);
    var s := SMART + [NEWLINE];
    PlainText(s);
    assert FRESH.pending + s == s;
    assert s[|SMART| + 1..] == [];
    assert Drain(HttpLike, s, []) == Drain(HttpLike, [], [SMART]);
  }

  /** U+00E9, two bytes, is dispatched if it comes at once; cut between its bytes it becomes
      two replacement characters. */
  lemma CutCharacterReplaced()
    ensures Text([0xC3, 0xA9]) == [0xC3, 0xA9]
    ensures Text([0xC3]) + Text([0xA9]) == REPLACEMENT + REPLACEMENT
  {
    var s: Bytes := [0xC3, 0xA9];
    assert WithoutNul(s[1..]) == s[1..];
    assert WithoutNul(s) == s;
    assert Whole(s) && s[2..] == [];
    LossyValid(s);
    assert WithoutNul([0xC3]) == [0xC3] && WithoutNul([0xA9]) == [0xA9];
    LossyBad([0xC3]);
    LossyBad([0xA9]);
  }

  lemma LossyBad(s: Bytes)
    requires |s| == 1 && !Whole(s)
    ensures Lossy(s) == REPLACEMENT
  {
    assert s[BadPart(s)..] == [];
  }
}
