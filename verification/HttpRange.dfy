/** Byte ranges over HTTP: the client prints a range, the server parses and clamps it, the client collects the body. */
module HttpRange {
  import opened Posix
  import opened Text

  // ---- The client's request ----

  /** The range string of `download`, for a positive size. */
  function RangeSpec(off: nat, size: nat): string
    requires size > 0
  {
    Print(off, 10) + "-" + Print(off + size - 1, 10)
  }

  /** libcurl sends the range string as `Range: bytes=...`. */
  function RangeHeader(off: nat, size: nat): string
    requires size > 0
  {
    "bytes=" + RangeSpec(off, size)
  }

  // ---- The server ----

  function Strip(s: string): string
    decreases |s|
  {
    if s != [] && IsSpace(s[0]) then Strip(s[1..])
    else if s != [] && IsSpace(s[|s| - 1]) then Strip(s[..|s| - 1])
    else s
  }

  function LowerChar(c: char): char { if 'A' <= c <= 'Z' then c - 'A' + 'a' else c }

  function Lower(s: string): string { seq(|s|, i requires 0 <= i < |s| => LowerChar(s[i])) }

  /** `str.split('-')`. */
  function Split(s: string, sep: char): (parts: seq<string>)
    ensures parts != []
  {
    if s == [] then [""]
    else
      var rest := Split(s[1..], sep);
      if s[0] == sep then [""] + rest else [[s[0]] + rest[0]] + rest[1..]
  }

  /** `int` on the digit strings that range headers carry; anything else raises. */
  function PyInt(s: string): Option<nat> {
    if s != [] && (forall i :: 0 <= i < |s| ==> IsDecimal(s[i])) then Some(DecimalValue(s)) else None
  }

  function DecimalValue(s: string): (n: nat)
    requires forall i :: 0 <= i < |s| ==> IsDecimal(s[i])
    ensures n == Value(s, 10)
  {
    if s == [] then 0 else assert IsDecimal(s[|s| - 1]); DecimalValue(s[..|s| - 1]) * 10 + (s[|s| - 1] as int - '0' as int)
  }

  /** A parsed header: no byte range, an unreadable one, or first and last byte position. */
  datatype Request = NoRange | Malformed | Bytes(start: nat, end: Option<nat>)

  function ParseRange(header: string): Request {
    var h := Lower(Strip(header));
    if !("bytes=" <= h) then NoRange
    else
      var ranges := Split(h[6..], '-');
      var start := if ranges[0] == "" then Some(0) else PyInt(ranges[0]);
      var hasEnd := |ranges| > 1 && ranges[1] != "";
      var end := if hasEnd then PyInt(ranges[1]) else None;
      if start.None? || (hasEnd && end.None?) then Malformed else Bytes(start.value, end)
  }

  /**
   * What the server puts on the wire: a complete answer with its Content-Length header; an error response, whose text
   * is not modelled; or a 206 head with this Content-Length behind which an exception and a second head follow.
   */
  datatype Response =
    | Sent(status: int, contentLength: int, body: File)
    | Failed(status: int)
    | Broken(contentLength: int)

  /** `f.read(n)` after `f.seek(start)`: -1 reads to the end of the file, and any smaller count raises. */
  function ReadFrom(F: File, start: nat, n: int): Option<File> {
    if n >= 0 then Some(Pread(F, n, start)) else if n == -1 then Some(Pread(F, |F|, start)) else None
  }

  /** The last position served: the requested end, clamped to the file. */
  function Last(F: File, end: Option<nat>): int { if end.None? then |F| - 1 else Min(end.value, |F| - 1) }

  function Respond(F: File, header: string): Response {
    match ParseRange(header)
    case NoRange => Sent(200, |F|, F)
    case Malformed => Failed(500)
    case Bytes(start, end) =>
      var n := Last(F, end) - start + 1;
      var body := ReadFrom(F, start, n);
      if body.None? then Broken(n) else Sent(206, n, body.value)
  }

  /** How many bytes a range asks for from its start on, as far as the file has them. */
  function Asked(F: File, start: nat, end: Option<nat>): nat {
    if end.None? then |F| else Max(end.value + 1 - start, 0)
  }

  /** The answer is exactly the bytes asked for, and announces their number. */
  ghost predicate Proper(F: File, start: nat, end: Option<nat>, r: Response) {
    r == Sent(206, |Pread(F, Asked(F, start, end), start)|, Pread(F, Asked(F, start, end), start))
  }

  /**
   * The three outcomes of a parsed range. Up to one past the last position served it is answered properly; two past
   * it, the rest of the file follows a Content-Length of -1; further on, the answer breaks off behind its head.
   */
  lemma RespondBytes(F: File, header: string, start: nat, end: Option<nat>)
    requires ParseRange(header) == Bytes(start, end)
    ensures var r := Respond(F, header);
            && (start <= Last(F, end) + 1 ==> Proper(F, start, end, r))
            && (start == Last(F, end) + 2 ==> r == Sent(206, -1, Pread(F, |F|, start)))
            && (start > Last(F, end) + 2 ==> r == Broken(Last(F, end) + 1 - start))
  {
    hide ParseRange;
  }

  ghost predicate Asks(header: Option<string>) { header.Some? && header.value != "" }

  /** The data request of the server, with its reassigned bounds; `None` stands for a path that is not a file. */
  method HandleDataRequest(file: Option<File>, rangeHeader: Option<string>) returns (r: Response)
    ensures file.None? ==> r == Failed(404)
    ensures file.Some? && !Asks(rangeHeader) ==> r == Sent(200, |file.value|, file.value)
    ensures file.Some? && Asks(rangeHeader) ==>
      && r == Respond(file.value, rangeHeader.value)
      && match ParseRange(rangeHeader.value)
         case NoRange => r == Sent(200, |file.value|, file.value)
         case Malformed => r == Failed(500)
         case Bytes(start, end) =>
           var last := Last(file.value, end);
           && (start <= last + 1 ==> Proper(file.value, start, end, r))
           && (start == last + 2 ==> r == Sent(206, -1, Pread(file.value, |file.value|, start)))
           && (start > last + 2 ==> r == Broken(last + 1 - start))
  {
    hide Proper;
    if file.None? { return Failed(404); }
    var F := file.value;
    if rangeHeader.Some? && rangeHeader.value != "" {
      var h := Lower(Strip(rangeHeader.value));
      if "bytes=" <= h {
        var ranges := Split(h[6..], '-');
        var start := Some(0);
        if ranges[0] != "" { start := PyInt(ranges[0]); }
        if start.None? { return Failed(500); }
        var end := None;
        if |ranges| > 1 && ranges[1] != "" {
          end := PyInt(ranges[1]);
          if end.None? { return Failed(500); }
        }
        RespondBytes(F, rangeHeader.value, start.value, end);
        var last := if end.None? then |F| - 1 else end.value;
        last := Min(last, |F| - 1);
        var contentLength := last - start.value + 1;
        var body := ReadFrom(F, start.value, contentLength);
        if body.None? { return Broken(contentLength); }
        return Sent(206, contentLength, body.value);
      }
    }
    r := Sent(200, |F|, F);
  }

  // ---- Printing and parsing undo each other ----

  ghost predicate Decimal(s: string) { s != [] && forall i :: 0 <= i < |s| ==> IsDecimal(s[i]) }

  lemma PrintDecimal(n: nat)
    ensures Decimal(Print(n, 10)) && PyInt(Print(n, 10)) == Some(n)
  {
    PrintValue(n, 10);
    PrintIsDecimal(n);
  }

  lemma {:induction false} SplitOne(s: string, sep: char)
    requires sep !in s
    ensures Split(s, sep) == [s]
  {
    if s != [] {
      SplitOne(s[1..], sep);
      assert [s[0]] + s[1..] == s;
    }
  }

  lemma {:induction false} SplitTwo(a: string, b: string, sep: char)
    requires sep !in a && sep !in b
    ensures Split(a + [sep] + b, sep) == [a, b]
  {
    if a == [] {
      SplitOne(b, sep);
      assert (a + [sep] + b)[1..] == b;
    } else {
      SplitTwo(a[1..], b, sep);
      assert (a + [sep] + b)[1..] == a[1..] + [sep] + b;
      assert [a[0]] + a[1..] == a;
    }
  }

  lemma StripFixed(h: string)
    requires h != [] && !IsSpace(h[0]) && !IsSpace(h[|h| - 1])
    ensures Strip(h) == h
  {
  }

  lemma LowerFixed(h: string)
    requires forall i :: 0 <= i < |h| ==> !('A' <= h[i] <= 'Z')
    ensures Lower(h) == h
  {
  }

  ghost predicate SpecChar(c: char) { IsDecimal(c) || c == '-' }

  /** A header of digits and dashes passes the server's normalisation unchanged. */
  lemma Normalised(spec: string)
    requires spec != [] && forall i :: 0 <= i < |spec| ==> SpecChar(spec[i])
    ensures Lower(Strip("bytes=" + spec)) == "bytes=" + spec && ("bytes=" + spec)[6..] == spec
  {
    hide Strip, Lower;
    forall i | 0 <= i < |spec| ensures PlainPosition(spec[i]) || spec[i] == '-' { assert SpecChar(spec[i]); }
    PlainHeader(spec);
  }

  /** A header that names both positions, in either order. */
  function Positions(start: nat, end: nat): string { "bytes=" + (Print(start, 10) + "-" + Print(end, 10)) }

  lemma ParsePositions(start: nat, end: nat)
    ensures ParseRange(Positions(start, end)) == Bytes(start, Some(end))
  {
    hide Strip, Lower, Print, PyInt;
    var a, b := Print(start, 10), Print(end, 10);
    PrintDecimal(start);
    PrintDecimal(end);
    var spec := a + ['-'] + b;
    assert Positions(start, end) == "bytes=" + spec;
    Normalised(spec);
    SplitTwo(a, b, '-');
  }

  lemma ParsePrinted(off: nat, size: nat)
    requires size > 0
    ensures ParseRange(RangeHeader(off, size)) == Bytes(off, Some(off + size - 1))
  {
    hide ParseRange, Print;
    assert RangeHeader(off, size) == Positions(off, off + size - 1);
    ParsePositions(off, off + size - 1);
  }

  /**
   * Printing a range, parsing it and clamping it on the server: a range that starts at or below the end of the file
   * gets exactly the bytes asked for that the file has; one that starts past the end gets a negative Content-Length.
   */
  lemma RangeServed(F: File, off: nat, size: nat)
    requires size > 0
    ensures var r := Respond(F, RangeHeader(off, size));
            && (off <= |F| ==> r == Sent(206, |Pread(F, size, off)|, Pread(F, size, off)))
            && (off == |F| + 1 ==> r == Sent(206, -1, []))
            && (off > |F| + 1 ==> r == Broken(|F| - off))
    ensures off < |F| ==> Respond(F, RangeHeader(off, size)).body == F[off..Min(off + size, |F|)]
  {
    hide ParseRange, RangeHeader, Respond;
    ParsePrinted(off, size);
    RespondBytes(F, RangeHeader(off, size), off, Some(off + size - 1));
  }

  /**
   * A request whose end precedes its start is not refused (section 14.1.1 of RFC 9110 calls it invalid): it gets
   * nothing when the two positions are adjacent, the whole rest of the file when one lies between them, and an
   * answer that breaks off behind its head otherwise.
   */
  lemma InvertedRange(F: File, start: nat, end: nat)
    requires end < start < |F|
    ensures Respond(F, Positions(start, end)) ==
            if end + 1 == start then Sent(206, 0, [])
            else if end + 2 == start then Sent(206, -1, F[start..])
            else Broken(end + 1 - start)
  {
    hide ParseRange, Positions, Respond;
    ParsePositions(start, end);
    RespondBytes(F, Positions(start, end), start, Some(end));
  }

  /**
   * Exactly when a request for the positions from `start` to `end` is answered with those bytes, none for an inverted
   * pair, and exactly when the Content-Length is right as well.
   */
  lemma PositionsServed(F: File, start: nat, end: nat)
    ensures var r := Respond(F, Positions(start, end));
            r.Sent? && r.body == Pread(F, Asked(F, start, Some(end)), start) <==>
            start <= Min(end + 1, |F|) || (start >= |F| && start == Min(end, |F| - 1) + 2)
    ensures Proper(F, start, Some(end), Respond(F, Positions(start, end))) <==> start <= Min(end + 1, |F|)
  {
    hide ParseRange, Positions, Respond;
    ParsePositions(start, end);
    RespondBytes(F, Positions(start, end), start, Some(end));
  }

  /**
   * A suffix range `bytes=-n` asks for the last n bytes (section 14.1.2 of RFC 9110), but the empty start is read as
   * zero, so the first n + 1 bytes are sent: right exactly when the file is no longer than n.
   */
  lemma SuffixRange(F: File, n: nat)
    ensures Respond(F, "bytes=-" + Print(n, 10)) == Sent(206, Min(n + 1, |F|), F[..Min(n + 1, |F|)])
    ensures Respond(F, "bytes=-" + Print(n, 10)).body == F[Max(|F| - n, 0)..] <==> |F| <= n
  {
    hide Strip, Lower, Print, PyInt;
    var b := Print(n, 10);
    PrintDecimal(n);
    assert "bytes=-" + b == "bytes=" + ("-" + b);
    assert "-" + b == [] + ['-'] + b;
    Normalised("-" + b);
    SplitTwo([], b, '-');
    assert ParseRange("bytes=-" + b) == Bytes(0, Some(n));
  }

  /** Without an end, with or without the dash, a range goes from its start to the end of the file. */
  lemma OpenRange(F: File, start: nat, dash: string)
    requires dash == "-" || dash == ""
    ensures ParseRange("bytes=" + (Print(start, 10) + dash)) == Bytes(start, None)
    ensures start <= |F| ==> Respond(F, "bytes=" + (Print(start, 10) + dash)) == Sent(206, |F| - start, F[start..])
  {
    hide Strip, Lower, Print, PyInt;
    var a := Print(start, 10);
    PrintDecimal(start);
    Normalised(a + dash);
    if dash == "-" {
      assert a + dash == a + ['-'] + [];
      SplitTwo(a, [], '-');
    } else {
      assert a + dash == a;
      SplitOne(a, '-');
    }
  }

  // ---- What the server ignores and what it refuses ----

  lemma {:induction false} StripSpaces(pre: string, core: string, post: string)
    requires core != [] && !IsSpace(core[0]) && !IsSpace(core[|core| - 1])
    requires (forall i :: 0 <= i < |pre| ==> IsSpace(pre[i])) && (forall i :: 0 <= i < |post| ==> IsSpace(post[i]))
    ensures Strip(pre + core + post) == core
    decreases |pre| + |post|
  {
    var s := pre + core + post;
    if pre != [] {
      assert s[0] == pre[0] && s[1..] == pre[1..] + core + post;
      StripSpaces(pre[1..], core, post);
    } else if post != [] {
      assert s[0] == core[0] && s[|s| - 1] == post[|post| - 1] && s[..|s| - 1] == pre + core + post[..|post| - 1];
      StripSpaces(pre, core, post[..|post| - 1]);
    } else {
      assert s == core;
    }
  }

  /** The unit `bytes=` in any mixture of upper and lower case. */
  ghost predicate ByteUnit(u: string) { |u| == 6 && forall i :: 0 <= i < 6 ==> u[i] == "bytes="[i] || u[i] == "BYTES="[i] }

  /** White space around a header and the case of its unit do not matter. */
  lemma HeaderNoise(pre: string, unit: string, spec: string, post: string)
    requires spec != [] && (forall i :: 0 <= i < |spec| ==> SpecChar(spec[i])) && ByteUnit(unit)
    requires (forall i :: 0 <= i < |pre| ==> IsSpace(pre[i])) && (forall i :: 0 <= i < |post| ==> IsSpace(post[i]))
    ensures ParseRange(pre + (unit + spec) + post) == ParseRange("bytes=" + spec)
  {
    hide Strip, Lower, PyInt, Split;
    var core := unit + spec;
    assert SpecChar(spec[|spec| - 1]) && core[|core| - 1] == spec[|spec| - 1];
    assert unit[0] == 'b' || unit[0] == 'B' by { assert "bytes="[0] == 'b' && "BYTES="[0] == 'B'; }
    StripSpaces(pre, core, post);
    Normalised(spec);
    LowerUnit(unit, spec);
  }

  lemma LowerUnit(unit: string, spec: string)
    requires ByteUnit(unit) && forall i :: 0 <= i < |spec| ==> SpecChar(spec[i])
    ensures Lower(unit + spec) == "bytes=" + spec
  {
    var low := Lower(unit + spec);
    assert forall i :: 0 <= i < 6 ==> LowerChar("BYTES="[i]) == "bytes="[i] == LowerChar("bytes="[i]);
    forall i | 0 <= i < |low| ensures low[i] == ("bytes=" + spec)[i] {
      if i >= 6 { assert SpecChar(spec[i - 6]); }
    }
  }

  /** A position that is neither left out nor a number makes the server answer 500; nothing else does. */
  lemma MalformedRange(F: File, a: string, b: string)
    requires forall i :: 0 <= i < |a| ==> PlainPosition(a[i])
    requires forall i :: 0 <= i < |b| ==> PlainPosition(b[i])
    ensures Respond(F, "bytes=" + (a + "-" + b)) == Failed(500) <==> (a != "" && !Decimal(a)) || (b != "" && !Decimal(b))
  {
    hide Strip, Lower, Split;
    var spec := a + ['-'] + b;
    PlainHeader(spec);
    SplitTwo(a, b, '-');
  }

  /** A character of a header value that is neither blank, nor upper-case, nor a dash. */
  ghost predicate PlainPosition(c: char) { !IsSpace(c) && !('A' <= c <= 'Z') && c != '-' }

  lemma PlainHeader(spec: string)
    requires spec != [] && forall i :: 0 <= i < |spec| ==> PlainPosition(spec[i]) || spec[i] == '-'
    ensures Lower(Strip("bytes=" + spec)) == "bytes=" + spec && ("bytes=" + spec)[6..] == spec
  {
    hide Strip, Lower;
    var h := "bytes=" + spec;
    assert h[|h| - 1] == spec[|spec| - 1];
    StripFixed(h);
    forall i | 0 <= i < |h| ensures !('A' <= h[i] <= 'Z') {
      if i < 6 { assert h[i] == "bytes="[i]; } else { assert h[i] == spec[i - 6]; }
    }
    LowerFixed(h);
  }

  /** A header in another unit is ignored: the whole file is sent. */
  lemma OtherUnit(F: File, h: string)
    requires h != [] && (forall i :: 0 <= i < |h| ==> PlainPosition(h[i]) || h[i] == '-') && !("bytes=" <= h)
    ensures Respond(F, h) == Sent(200, |F|, F)
  {
    hide Strip, Lower;
    StripFixed(h);
    LowerFixed(h);
  }

  // ---- The transfer callbacks ----

  function Concat(chunks: seq<File>): File { if chunks == [] then [] else chunks[0] + Concat(chunks[1..]) }

  function Take(f: File, n: nat): File { if |f| <= n then f else f[..n] }

  /** `write_slice_cb`: copies what fits and swallows the rest. */
  class SliceWriter {
    const dst: array<byte>
    const cap: nat
    var pos: nat

    ghost predicate Valid()
      reads this
    {
      pos <= cap <= dst.Length
    }

    ghost function Collected(): File
      requires Valid()
      reads this, dst
    {
      dst[..pos]
    }

    constructor (dst: array<byte>, cap: nat)
      requires cap <= dst.Length
      ensures Valid() && this.dst == dst && this.cap == cap && Collected() == []
    {
      this.dst, this.cap, pos := dst, cap, 0;
    }

    method WriteSlice(chunk: File) returns (n: nat)
      requires Valid()
      modifies this, dst
      ensures Valid() && n == |chunk| && Collected() == Take(old(Collected()) + chunk, cap)
      ensures dst[pos..] == old(dst[..])[pos..]
    {
      n := |chunk|;
      var cpy := Min(n, cap - pos);
      ghost var before := dst[..];
      var i := 0;
      while i < cpy
        invariant 0 <= i <= cpy && pos == old(pos)
        invariant forall j :: 0 <= j < dst.Length ==> dst[j] == if pos <= j < pos + i then chunk[j - pos] else before[j]
      {
        dst[pos + i] := chunk[i];
        i := i + 1;
      }
      pos := pos + cpy;
      assert dst[..pos] == before[..old(pos)] + chunk[..cpy];
      assert dst[pos..] == before[pos..];
    }

    /** However the body is cut into chunks, the buffer ends up with the first `cap` bytes of it. */
    method Collect(chunks: seq<File>)
      requires Valid() && pos == 0
      modifies this, dst
      ensures Valid() && Collected() == Take(Concat(chunks), cap) && pos == Min(cap, |Concat(chunks)|)
      ensures dst[pos..] == old(dst[..])[pos..]
    {
      ghost var before := dst[..];
      var i := 0;
      while i < |chunks|
        invariant 0 <= i <= |chunks| && Valid()
        invariant Collected() == Take(Concat(chunks[..i]), cap)
        invariant dst[pos..] == before[pos..]
      {
        ghost var pos0, mid := pos, dst[..];
        var n := WriteSlice(chunks[i]);
        SuffixKept(before, mid, dst[..], pos0, pos);
        ConcatAppend(chunks[..i], chunks[i]);
        assert chunks[..i + 1] == chunks[..i] + [chunks[i]];
        i := i + 1;
      }
      assert chunks[..|chunks|] == chunks;
    }
  }

  /** What two steps leave alone in turn stays as it was, from the later position on. */
  lemma SuffixKept(f0: File, f1: File, f2: File, m: nat, n: nat)
    requires |f0| == |f1| == |f2| && m <= n <= |f0| && f1[m..] == f0[m..] && f2[n..] == f1[n..]
    ensures f2[n..] == f0[n..]
  {
    assert f1[n..] == f1[m..][n - m..] && f0[n..] == f0[m..][n - m..];
  }

  /** A body as the network delivers it: pieces of the given lengths, and the remainder in one. */
  function Cut(body: File, cuts: seq<nat>): seq<File>
    decreases |cuts|
  {
    if cuts == [] then (if body == [] then [] else [body])
    else
      var n := Min(cuts[0], |body|);
      [body[..n]] + Cut(body[n..], cuts[1..])
  }

  lemma {:induction false} CutJoins(body: File, cuts: seq<nat>)
    ensures Concat(Cut(body, cuts)) == body
    decreases |cuts|
  {
    if cuts == [] {
      if body != [] { assert Concat([body]) == body + Concat([]); }
    } else {
      var n := Min(cuts[0], |body|);
      CutJoins(body[n..], cuts[1..]);
      var rest := Cut(body[n..], cuts[1..]);
      assert ([body[..n]] + rest)[1..] == rest;
    }
  }

  /** Every way to cut a body is one of these. */
  lemma {:induction false} EveryCut(chunks: seq<File>)
    ensures Cut(Concat(chunks), seq(|chunks|, i requires 0 <= i < |chunks| => |chunks[i]|)) == chunks
  {
    if chunks != [] {
      var c, rest := chunks[0], chunks[1..];
      var cuts := seq(|chunks|, i requires 0 <= i < |chunks| => |chunks[i]|);
      EveryCut(rest);
      assert cuts[1..] == seq(|rest|, i requires 0 <= i < |rest| => |rest[i]|);
      assert (c + Concat(rest))[..|c|] == c && (c + Concat(rest))[|c|..] == Concat(rest);
    }
  }

  /**
   * `download`: prints the range, has the server answer it, and collects the body however it is cut up. For a range
   * that starts at or below the end of the file the buffer holds exactly the bytes asked for that the file has. A
   * path that is no file, and a range that starts past the end, yield -1 and leave the buffer alone: libcurl is taken
   * to fail on an error status and on a negative Content-Length before it delivers any of the body. In every case
   * the positive part of the result is that of a positional read, which is all that the cache looks at.
   */
  method Download(file: Option<File>, dst: array<byte>, size: nat, off: nat, cuts: seq<nat>) returns (n: int)
    requires size <= dst.Length
    modifies dst
    ensures n == -1 <==> file.None? || (size > 0 && off > |file.value|)
    ensures n == -1 ==> dst[..] == old(dst[..])
    ensures file.Some? ==>
      && Max(n, 0) == |Pread(file.value, size, off)|
      && dst[..Max(n, 0)] == Pread(file.value, size, off)
      && dst[Max(n, 0)..] == old(dst[..])[Max(n, 0)..]
  {
    hide ParseRange, RangeHeader, Respond, Cut;
    var header := None;
    if size != 0 {
      header := Some(RangeHeader(off, size));
      ParsePrinted(off, size);
      HeaderNotEmpty(off, size);
    }
    var r := HandleDataRequest(file, header);
    if !r.Failed? && r.contentLength < 0 { return -1; }
    if r.status / 100 != 2 { return -1; }
    var sw := new SliceWriter(dst, size);
    sw.Collect(Cut(r.body, cuts));
    CutJoins(r.body, cuts);
    n := sw.pos;
  }

  lemma HeaderNotEmpty(off: nat, size: nat)
    requires size > 0
    ensures RangeHeader(off, size) != ""
  {
  }

  lemma {:induction false} ConcatAppend(chunks: seq<File>, c: File)
    ensures Concat(chunks + [c]) == Concat(chunks) + c
  {
    if chunks == [] {
      assert Concat([c]) == c + Concat([]);
    } else {
      ConcatAppend(chunks[1..], c);
      assert (chunks + [c])[1..] == chunks[1..] + [c];
    }
  }

  function Sum(ns: seq<nat>): nat { if ns == [] then 0 else Sum(ns[..|ns| - 1]) + ns[|ns| - 1] }

  /** `read_upload_cb`: hands out the next piece of the data, at most as much as was asked for. */
  class UploadBuf {
    const data: File
    var pos: nat

    ghost predicate Valid()
      reads this
    {
      pos <= |data|
    }

    constructor (data: File)
      ensures Valid() && this.data == data && pos == 0
    {
      this.data, pos := data, 0;
    }

    method ReadUpload(max: nat) returns (piece: File)
      requires Valid()
      modifies this
      ensures Valid() && pos == Min(|data|, old(pos) + max) && piece == data[old(pos)..pos]
    {
      var left := |data| - pos;
      var cpy := Min(left, max);
      piece := data[pos..pos + cpy];
      pos := pos + cpy;
    }

    /** The pieces are consecutive: together they are a prefix of the data, all of it once enough was asked for. */
    method Emit(requests: seq<nat>) returns (pieces: seq<File>)
      requires Valid() && pos == 0
      modifies this
      ensures Valid() && |pieces| == |requests| && Concat(pieces) == data[..Min(|data|, Sum(requests))]
    {
      pieces := [];
      var i := 0;
      assert requests[..0] == [];
      while i < |requests|
        invariant 0 <= i <= |requests| && Valid() && |pieces| == i
        invariant pos == Min(|data|, Sum(requests[..i])) && Concat(pieces) == data[..pos]
      {
        var piece := ReadUpload(requests[i]);
        ConcatAppend(pieces, piece);
        assert requests[..i + 1][..i] == requests[..i];
        pieces := pieces + [piece];
        i := i + 1;
      }
      assert requests[..|requests|] == requests;
    }
  }
}
