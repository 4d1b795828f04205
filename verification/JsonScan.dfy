/** The listing text the server prints and the two hand-written scanners that read it back. */
module JsonScan {
  import opened Posix
  import opened Text

  // ---- The server's printer ----

  datatype Record = Record(name: string, size: nat, mtime: int, isDirectory: bool)

  /** A character that `json.dumps` leaves as it is. */
  predicate PlainChar(c: char) { ' ' <= c <= '~' && c != '"' && c != '\\' }

  predicate Plain(s: string) { forall i :: 0 <= i < |s| ==> PlainChar(s[i]) }

  function Hex4(n: nat): string {
    [DIGITS[n / 4096 % 16], DIGITS[n / 256 % 16], DIGITS[n / 16 % 16], DIGITS[n % 16]]
  }

  function Escaped(c: char): string {
    if PlainChar(c) then [c]
    else if c == '"' then "\\\""
    else if c == '\\' then "\\\\"
    else if c == '\n' then "\\n"
    else if c == '\r' then "\\r"
    else if c == '\t' then "\\t"
    else if c as int == 12 then "\\f"
    else if c as int == 8 then "\\b"
    else if c as int < 0x1_0000 then "\\u" + Hex4(c as int)
    else
      var v := c as int - 0x1_0000;
      "\\u" + Hex4(0xd800 + v / 1024) + "\\u" + Hex4(0xdc00 + v % 1024)
  }

  function EscapeAll(s: string): string { if s == [] then [] else Escaped(s[0]) + EscapeAll(s[1..]) }

  function PrintInt(n: int): string { if n < 0 then "-" + Print(-n, 10) else Print(n, 10) }

  /** One member of a record after the first. */
  function Field(key: string, value: string): string { ", \"" + key + "\": " + value }

  function Fields(r: Record): string {
    Field("size", Print(r.size, 10)) + Field("mtime", PrintInt(r.mtime)) +
    Field("is_directory", if r.isDirectory then "true" else "false") + "}"
  }

  function RecordJson(r: Record): string { "{\"name\": \"" + EscapeAll(r.name) + "\"" + Fields(r) }

  /** The records from the second on, and the end of the list. */
  function MoreJson(rs: seq<Record>): string {
    if rs == [] then "]" else ", " + RecordJson(rs[0]) + MoreJson(rs[1..])
  }

  function ListJson(rs: seq<Record>): string {
    if rs == [] then "[]" else "[" + RecordJson(rs[0]) + MoreJson(rs[1..])
  }

  // ---- Escaping can be undone ----

  /** The value of four hexadecimal digits. */
  function Code(t: string): (v: Option<nat>)
    ensures v.Some? ==> v.value < 0x1_0000
  {
    if |t| == 4 && forall i :: 0 <= i < 4 ==> 0 <= DigitValue(t[i]) < 16 then
      Some(DigitValue(t[0]) * 4096 + DigitValue(t[1]) * 256 + DigitValue(t[2]) * 16 + DigitValue(t[3]))
    else None
  }

  /** The character an escape sequence starts with, and how long the sequence is (section 7 of RFC 8259). */
  function Unescaped(t: string): Option<(char, nat)> {
    if t == [] then None
    else if t[0] != '\\' then Some((t[0], 1))
    else if |t| < 2 then None
    else if t[1] == 'u' then UnicodeEscape(t)
    else if t[1] == '"' || t[1] == '\\' || t[1] == '/' then Some((t[1], 2))
    else if t[1] == 'n' then Some(('\n', 2))
    else if t[1] == 'r' then Some(('\r', 2))
    else if t[1] == 't' then Some(('\t', 2))
    else if t[1] == 'f' then Some((12 as char, 2))
    else if t[1] == 'b' then Some((8 as char, 2))
    else None
  }

  /** A code point of the basic plane, or a pair of surrogates. */
  function UnicodeEscape(t: string): Option<(char, nat)>
    requires |t| >= 2
  {
    var v := if |t| < 6 then None else Code(t[2..6]);
    if v.None? then None
    else if v.value < 0xd800 || 0xe000 <= v.value then Some((v.value as char, 6))
    else
      var w := if |t| < 12 || t[6..8] != "\\u" then None else Code(t[8..12]);
      if v.value >= 0xdc00 || w.None? || !(0xdc00 <= w.value < 0xe000) then None
      else Some(((0x1_0000 + (v.value - 0xd800) * 1024 + (w.value - 0xdc00)) as char, 12))
  }

  function UnescapeAll(t: string): Option<string>
    decreases |t|
  {
    if t == [] then Some([])
    else
      var c := Unescaped(t);
      if c.None? || c.value.1 == 0 || c.value.1 > |t| then None
      else
        var rest := UnescapeAll(t[c.value.1..]);
        if rest.None? then None else Some([c.value.0] + rest.value)
  }

  lemma Nibbles(n: nat)
    requires n < 0x1_0000
    ensures n / 4096 % 16 * 4096 + n / 256 % 16 * 256 + n / 16 % 16 * 16 + n % 16 == n
  {
    var q := n / 16;
    var r := q / 16;
    assert n / 256 == r && n / 4096 == r / 16;
  }

  lemma HexCode(n: nat, t: string)
    requires n < 0x1_0000
    ensures Code((Hex4(n) + t)[..4]) == Some(n)
  {
    hide DigitValue;
    var a, b, c, d := n / 4096 % 16, n / 256 % 16, n / 16 % 16, n % 16;
    assert (Hex4(n) + t)[..4] == [DIGITS[a], DIGITS[b], DIGITS[c], DIGITS[d]];
    DigitOf(a);
    DigitOf(b);
    DigitOf(c);
    DigitOf(d);
    Nibbles(n);
  }

  lemma EscapedIsUndone(c: char, t: string)
    ensures Unescaped(Escaped(c) + t) == Some((c, |Escaped(c)|))
  {
    hide Code, Hex4;
    var x := Escaped(c) + t;
    var n := c as int;
    if PlainChar(c) {
      assert x[0] == c;
    } else if x[1] == 'u' {
      if n < 0x1_0000 {
        HexLength(n);
        assert x == "\\u" + (Hex4(n) + t);
        assert x[2..6] == (Hex4(n) + t)[..4];
        HexCode(n, t);
      } else {
        SurrogatesUndone(c, t);
      }
    }
  }

  lemma SurrogatesUndone(c: char, t: string)
    requires c as int >= 0x1_0000
    ensures Unescaped(Escaped(c) + t) == Some((c, 12)) && |Escaped(c)| == 12
  {
    hide Code, Hex4;
    var v := c as int - 0x1_0000;
    var hi, lo := 0xd800 + v / 1024, 0xdc00 + v % 1024;
    var x := Escaped(c) + t;
    HexLength(hi);
    HexLength(lo);
    assert x == "\\u" + (Hex4(hi) + ("\\u" + (Hex4(lo) + t)));
    assert x[2..6] == (Hex4(hi) + ("\\u" + (Hex4(lo) + t)))[..4];
    assert x[6..8] == "\\u" && x[8..12] == (Hex4(lo) + t)[..4];
    HexCode(hi, "\\u" + (Hex4(lo) + t));
    HexCode(lo, t);
  }

  lemma HexLength(n: nat)
    ensures |Hex4(n)| == 4
  {
  }

  /** Every printed name reads back as the name. */
  lemma {:induction false} EscapingIsUndone(s: string)
    ensures UnescapeAll(EscapeAll(s)) == Some(s)
  {
    hide Escaped, Unescaped;
    if s != [] {
      EscapedChar(s[0]);
      var x := EscapeAll(s);
      EscapedIsUndone(s[0], EscapeAll(s[1..]));
      assert x[|Escaped(s[0])|..] == EscapeAll(s[1..]);
      EscapingIsUndone(s[1..]);
      assert [s[0]] + s[1..] == s;
    }
  }

  /** The text of a record in full, with `json.dumps` separators and the server's order of members. */
  lemma RecordText(r: Record)
    ensures RecordJson(r) ==
      "{\"name\": \"" + EscapeAll(r.name) + "\", \"size\": " + Print(r.size, 10) + ", \"mtime\": " + PrintInt(r.mtime) +
      ", \"is_directory\": " + (if r.isDirectory then "true" else "false") + "}"
  {
    hide EscapeAll, Print, PrintInt, Field;
    var s, m, d := Print(r.size, 10), PrintInt(r.mtime), if r.isDirectory then "true" else "false";
    FieldText("size", ", \"size\": ", s);
    FieldText("mtime", ", \"mtime\": ", m);
    FieldText("is_directory", ", \"is_directory\": ", d);
    var q := "\", \"size\": ";
    assert q == "\"" + ", \"size\": ";
    var head := "{\"name\": \"" + EscapeAll(r.name);
    Flatten(head, "\"", ", \"size\": ", s, ", \"mtime\": ", m, ", \"is_directory\": ", d);
  }

  lemma Flatten(a: string, q: string, ps: string, s: string, pm: string, m: string, pd: string, d: string)
    ensures a + q + ((ps + s) + (pm + m) + (pd + d) + "}") == a + (q + ps) + s + pm + m + pd + d + "}"
  {
  }

  lemma FieldText(key: string, prefix: string, value: string)
    requires prefix == ", \"" + key + "\": "
    ensures Field(key, value) == prefix + value
  {
  }

  // ---- Searching ----

  /** The text from the first occurrence of `pat` on. */
  function Seek(t: string, pat: string): (r: Option<string>)
    ensures r.Some? ==> |pat| <= |r.value| <= |t|
  {
    if pat <= t then Some(t) else if t == [] then None else Seek(t[1..], pat)
  }

  /** `std::string::find`. */
  function Find(s: string, pat: string, pos: nat): (k: Option<nat>)
    requires pos <= |s|
    ensures k.Some? ==> pos <= k.value && k.value + |pat| <= |s| && Seek(s[pos..], pat) == Some(s[k.value..])
    ensures k.None? ==> Seek(s[pos..], pat).None?
    decreases |s| - pos
  {
    if pat <= s[pos..] then Some(pos)
    else if pos == |s| then None
    else assert s[pos..][1..] == s[pos + 1..]; Find(s, pat, pos + 1)
  }

  function SkipSpaces(t: string): (r: string)
    ensures |r| <= |t|
  {
    if t != [] && IsSpace(t[0]) then SkipSpaces(t[1..]) else t
  }

  // ---- findJsonNames ----

  /** The names found in a text: the string value that follows each `"name"`. */
  function NamesIn(t: string): set<string>
    decreases |t|
  {
    var key := Seek(t, "\"name\"");
    if key.None? then {}
    else
      var colon := Seek(key.value, ":");
      if colon.None? then {}
      else
        var v := SkipSpaces(colon.value[1..]);
        if v == [] || v[0] != '"' then NamesIn(v)
        else
          var end := Seek(v[1..], "\"");
          if end.None? then {} else {v[1..|v| - |end.value|]} + NamesIn(end.value[1..])
  }

  /** The scan of the text from `pos` on found `"name"` at `k`, its colon at `c`, and the next non-space at `q`. */
  ghost predicate KeyAt(json: string, pos: nat, k: nat, c: nat, q: nat) {
    && pos <= k <= c < q <= |json|
    && Find(json, "\"name\"", pos) == Some(k) && Find(json, ":", k) == Some(c)
    && SkipSpaces(json[c + 1..]) == json[q..]
  }

  lemma NamesUnfold(json: string, pos: nat, k: nat, c: nat, q: nat)
    requires KeyAt(json, pos, k, c, q)
    ensures q == |json| || json[q] != '"' ==> NamesIn(json[pos..]) == NamesIn(json[q..])
    ensures q < |json| && json[q] == '"' && Find(json, "\"", q + 1).None? ==> NamesIn(json[pos..]) == {}
  {
    hide Seek, Find, SkipSpaces;
    assert json[c..][1..] == json[c + 1..];
    if q < |json| { assert json[q..][1..] == json[q + 1..]; }
  }

  lemma NamesFound(json: string, pos: nat, k: nat, c: nat, q: nat, e: nat)
    requires KeyAt(json, pos, k, c, q) && q < |json| && json[q] == '"' && Find(json, "\"", q + 1) == Some(e)
    ensures NamesIn(json[pos..]) == {json[q + 1..e]} + NamesIn(json[e + 1..])
  {
    hide Seek, Find, SkipSpaces;
    assert json[c..][1..] == json[c + 1..];
    var v := json[q..];
    assert v[1..] == json[q + 1..];
    assert v[1..|v| - |json[e..]|] == json[q + 1..e] && json[e..][1..] == json[e + 1..];
  }

  lemma NamesNone(json: string, pos: nat)
    requires pos <= |json|
    requires Find(json, "\"name\"", pos).None? ||
             Find(json, ":", Find(json, "\"name\"", pos).value).None?
    ensures NamesIn(json[pos..]) == {}
  {
    hide Seek, Find;
  }

  /** The inner loop over white space. */
  method ScanSpaces(json: string, from: nat) returns (pos: nat)
    requires from <= |json|
    ensures from <= pos <= |json| && SkipSpaces(json[from..]) == json[pos..]
  {
    pos := from;
    while pos < |json| && IsSpace(json[pos])
      invariant from <= pos <= |json|
      invariant SkipSpaces(json[pos..]) == SkipSpaces(json[from..])
    {
      assert json[pos..][1..] == json[pos + 1..];
      pos := pos + 1;
    }
  }

  /** Adds every name found to a set; it terminates on every text. */
  method FindJsonNames(json: string, given: set<string>) returns (out: set<string>)
    ensures out == given + NamesIn(json)
  {
    hide Seek, Find, NamesIn, SkipSpaces;
    out := given;
    var pos := 0;
    assert json[0..] == json;
    while true
      invariant 0 <= pos <= |json|
      invariant out + NamesIn(json[pos..]) == given + NamesIn(json)
      decreases |json| - pos
    {
      ghost var from := pos;
      var key := Find(json, "\"name\"", pos);
      if key.None? { NamesNone(json, from); break; }
      var colon := Find(json, ":", key.value);
      if colon.None? { NamesNone(json, from); break; }
      pos := colon.value + 1;
      pos := ScanSpaces(json, pos);
      ghost var q := pos;
      NamesUnfold(json, from, key.value, colon.value, q);
      if pos >= |json| || json[pos] != '"' { continue; }
      pos := pos + 1;
      var start := pos;
      var end := Find(json, "\"", pos);
      if end.None? { break; }
      NamesFound(json, from, key.value, colon.value, q, end.value);
      out := out + {json[start..end.value]};
      pos := end.value + 1;
    }
  }

  // ---- Searching in printed text ----

  const QUOTE := "\""
  const NAME_KEY := "\"name\""

  lemma {:induction false} SeekSkip(a: string, t: string, pat: string)
    requires pat != [] && pat[0] !in a
    ensures Seek(a + t, pat) == Seek(t, pat)
  {
    if a == [] {
      assert a + t == t;
    } else {
      SeekSkip(a[1..], t, pat);
      assert (a + t)[0] == a[0] && (a + t)[1..] == a[1..] + t;
    }
  }

  lemma SeekHere(t: string, pat: string)
    requires pat <= t
    ensures Seek(t, pat) == Some(t)
  {
  }

  /** At a quote that does not start the pattern the search goes on behind it. */
  lemma SeekMiss(t: string, pat: string)
    requires |pat| >= 2 && (t == [] || t[0] != pat[1])
    ensures Seek(QUOTE + t, pat) == Seek(t, pat)
  {
    assert (QUOTE + t)[1..] == t;
  }

  /** A member whose key starts differently holds no occurrence of a quoted pattern. */
  lemma SkipField(key: string, value: string, t: string, pat: string)
    requires |pat| >= 2 && pat[0] == '"' && pat[1] != ':' && key != [] && key[0] != pat[1]
    requires '"' !in key && '"' !in value
    ensures Seek(Field(key, value) + t, pat) == Seek(t, pat)
  {
    hide Seek;
    var t2 := ": " + value + t;
    var t1 := key + (QUOTE + t2);
    assert Field(key, value) + t == ", " + (QUOTE + t1);
    SeekSkip(", ", QUOTE + t1, pat);
    SeekMiss(t1, pat);
    SeekSkip(key, QUOTE + t2, pat);
    SeekMiss(t2, pat);
    SeekSkip(": " + value, t, pat);
  }

  lemma PrintedNumber(n: int)
    ensures PrintInt(n) != [] && forall i :: 0 <= i < |PrintInt(n)| ==> PrintInt(n)[i] == '-' || IsDecimal(PrintInt(n)[i])
  {
    hide Print;
    var m := if n < 0 then -n else n;
    PrintIsDecimal(m);
  }

  function DirText(r: Record): string { if r.isDirectory then "true" else "false" }

  /** The members after the size. */
  function TailFields(r: Record): string { Field("mtime", PrintInt(r.mtime)) + Field("is_directory", DirText(r)) + "}" }

  lemma SkipTailFields(r: Record, t: string)
    ensures Seek(TailFields(r) + t, NAME_KEY) == Seek(t, NAME_KEY)
  {
    hide Seek, PrintInt, Field;
    PrintedNumber(r.mtime);
    var dir := Field("is_directory", DirText(r)) + ("}" + t);
    assert TailFields(r) + t == Field("mtime", PrintInt(r.mtime)) + dir;
    SkipField("mtime", PrintInt(r.mtime), dir, NAME_KEY);
    SkipField("is_directory", DirText(r), "}" + t, NAME_KEY);
    SeekSkip("}", t, NAME_KEY);
  }

  lemma SkipFields(r: Record, t: string)
    ensures Fields(r) + t == Field("size", Print(r.size, 10)) + (TailFields(r) + t)
    ensures Seek(Fields(r) + t, NAME_KEY) == Seek(t, NAME_KEY)
  {
    hide Seek, Print, PrintInt, Field;
    PrintedNumber(r.size);
    assert PrintInt(r.size) == Print(r.size, 10) by { PrintIntNat(r.size); }
    SkipField("size", Print(r.size, 10), TailFields(r) + t, NAME_KEY);
    SkipTailFields(r, t);
  }

  lemma PrintIntNat(n: nat)
    ensures PrintInt(n) == Print(n, 10)
  {
  }

  // ---- What the scanner sees of a name ----

  /** The escaped name up to its first quote: what stands between the quotes the scanner looks for. */
  function Seen(s: string): string {
    if s == [] then [] else if s[0] == '"' then "\\" else Escaped(s[0]) + Seen(s[1..])
  }

  /** What follows the first quote of a name. */
  function AfterQuote(s: string): Option<string> {
    if s == [] then None else if s[0] == '"' then Some(s[1..]) else AfterQuote(s[1..])
  }

  lemma EscapedChar(c: char)
    ensures c != '"' ==> '"' !in Escaped(c)
    ensures |Escaped(c)| >= 1 && (PlainChar(c) ==> Escaped(c) == [c])
    ensures !PlainChar(c) ==> |Escaped(c)| >= 2 && Escaped(c)[0] == '\\'
  {
    assert forall d :: 0 <= d < 16 ==> DIGITS[d] != '"';
  }

  lemma {:induction false} SeenHasNoQuote(s: string)
    ensures '"' !in Seen(s)
  {
    hide Escaped;
    if s != [] {
      SeenHasNoQuote(s[1..]);
      EscapedChar(s[0]);
    }
  }

  /** The escaped text from the first quote of the name on. */
  function FromQuote(s: string): string {
    if AfterQuote(s).None? then "" else QUOTE + EscapeAll(AfterQuote(s).value)
  }

  lemma {:induction false} EscapeSplits(s: string)
    ensures EscapeAll(s) == Seen(s) + FromQuote(s)
  {
    hide Escaped;
    if s != [] {
      if s[0] == '"' {
        EscapedQuote();
        assert Escaped(s[0]) + EscapeAll(s[1..]) == "\\" + (QUOTE + EscapeAll(s[1..]));
      } else {
        EscapeSplits(s[1..]);
        assert FromQuote(s) == FromQuote(s[1..]);
        assert EscapeAll(s) == Escaped(s[0]) + Seen(s[1..]) + FromQuote(s);
      }
    }
  }

  lemma EscapedQuote()
    ensures Escaped('"') == "\\" + QUOTE
  {
  }

  /** Text that reads like an unescaped word up to the closing quote is that word. */
  lemma {:induction false} ReadsAsWord(m: string, w: string, t: string)
    requires Plain(w) && w + QUOTE <= EscapeAll(m) + (QUOTE + t)
    ensures m == w
  {
    hide Escaped;
    var x := EscapeAll(m) + (QUOTE + t);
    if m != [] {
      EscapedChar(m[0]);
      assert x[0] == Escaped(m[0])[0];
      assert (w + QUOTE)[0] == x[0];
      EscapedFirst(m[0]);
      if w != [] {
        assert PlainChar(w[0]);
        assert x[1..] == EscapeAll(m[1..]) + (QUOTE + t);
        assert w[1..] + QUOTE == (w + QUOTE)[1..];
        ReadsAsWord(m[1..], w[1..], t);
      }
    } else {
      assert x[0] == '"' && (w + QUOTE)[0] == x[0];
    }
  }

  lemma EscapedFirst(c: char)
    ensures Escaped(c)[0] != '"' && (PlainChar(Escaped(c)[0]) ==> Escaped(c) == [c])
  {
    EscapedChar(c);
  }

  // ---- The scanner on the printed list ----

  lemma NamesBySeek(t: string, u: string)
    requires Seek(t, NAME_KEY) == Seek(u, NAME_KEY)
    ensures NamesIn(t) == NamesIn(u)
  {
    hide Seek;
  }

  /** A key whose value is no string is passed over. */
  lemma KeyWithoutString(mid: string, rest: string)
    requires ':' !in mid && rest != [] && !IsSpace(rest[0]) && rest[0] != '"'
    ensures NamesIn(NAME_KEY + mid + (": " + rest)) == NamesIn(rest)
  {
    hide Seek, SkipSpaces;
    var text := NAME_KEY + mid + (": " + rest);
    SeekHere(text, NAME_KEY);
    SeekSkip(NAME_KEY + mid, ": " + rest, ":");
    SeekHere(": " + rest, ":");
    OneSpace(rest);
  }

  /** Behind a colon, the one blank is skipped. */
  lemma OneSpace(v: string)
    requires v != [] && !IsSpace(v[0])
    ensures SkipSpaces((": " + v)[1..]) == v
  {
    assert (": " + v)[1..] == " " + v && (" " + v)[1..] == v;
  }

  /** A `"name"` made up by quotes inside a file name leads to the size, which is no string. */
  lemma FalseKey(r: Record, t: string)
    ensures NamesIn(NAME_KEY + (Fields(r) + t)) == NamesIn(t)
  {
    hide Print, PrintInt, Fields, TailFields, NamesIn, Seek;
    SkipFields(r, t);
    PrintedNumber(r.size);
    PrintIntNat(r.size);
    SkipTailFields(r, t);
    var rest := Print(r.size, 10) + (TailFields(r) + t);
    assert NAME_KEY + (Fields(r) + t) == NAME_KEY + ", \"size\"" + (": " + rest);
    assert rest[0] == Print(r.size, 10)[0];
    KeyWithoutString(", \"size\"", rest);
    SeekSkip(Print(r.size, 10), TailFields(r) + t, NAME_KEY);
    NamesBySeek(rest, t);
  }

  /** What is left of a name behind its first quote contributes nothing. */
  lemma {:induction false} InnerSkip(m: string, r: Record, t: string)
    ensures NamesIn(EscapeAll(m) + (QUOTE + (Fields(r) + t))) == NamesIn(t)
  {
    hide Seek, Escaped, EscapeAll, Fields, NamesIn;
    var end := QUOTE + (Fields(r) + t);
    if m == [] {
      NoNameLeft(r, t);
      EscapeNone();
      assert EscapeAll(m) + end == end;
    } else {
      var more := EscapeAll(m[1..]) + end;
      InnerSkip(m[1..], r, t);
      EscapedChar(m[0]);
      EscapeFirst(m);
      if m[0] != '"' {
        assert EscapeAll(m) + end == Escaped(m[0]) + more;
        SeekSkip(Escaped(m[0]), more, NAME_KEY);
        NamesBySeek(EscapeAll(m) + end, more);
      } else {
        EscapedQuote();
        assert EscapeAll(m) + end == "\\" + (QUOTE + more);
        SeekSkip("\\", QUOTE + more, NAME_KEY);
        NamesBySeek(EscapeAll(m) + end, QUOTE + more);
        QuoteInName(m[1..], r, t);
      }
    }
  }

  lemma EscapeNone()
    ensures EscapeAll([]) == []
  {
  }

  lemma EscapeFirst(m: string)
    requires m != []
    ensures EscapeAll(m) == Escaped(m[0]) + EscapeAll(m[1..])
  {
  }

  lemma NoNameLeft(r: Record, t: string)
    ensures NamesIn(QUOTE + (Fields(r) + t)) == NamesIn(t)
  {
    hide Seek, Fields, NamesIn;
    FieldsStart(r, t);
    SeekMiss(Fields(r) + t, NAME_KEY);
    SkipFields(r, t);
    NamesBySeek(QUOTE + (Fields(r) + t), t);
  }

  lemma FieldsStart(r: Record, t: string)
    ensures Fields(r) != [] && Fields(r)[0] == ',' && (Fields(r) + t)[0] == ','
  {
  }

  lemma SeekNext(t: string, pat: string)
    requires !(pat <= QUOTE + t)
    ensures Seek(QUOTE + t, pat) == Seek(t, pat)
  {
    assert (QUOTE + t)[1..] == t;
  }

  lemma KeyBehindQuote(t: string)
    requires NAME_KEY <= QUOTE + t
    ensures "name" + QUOTE <= t && Plain("name")
  {
    assert NAME_KEY == QUOTE + ("name" + QUOTE);
    assert t == (QUOTE + t)[1..];
  }

  lemma QuoteInName(m: string, r: Record, t: string)
    requires NamesIn(EscapeAll(m) + (QUOTE + (Fields(r) + t))) == NamesIn(t)
    ensures NamesIn(QUOTE + (EscapeAll(m) + (QUOTE + (Fields(r) + t)))) == NamesIn(t)
  {
    hide Escaped, EscapeAll, Fields, NamesIn, Seek, Plain;
    var end := Fields(r) + t;
    var more := EscapeAll(m) + (QUOTE + end);
    if NAME_KEY <= QUOTE + more {
      KeyBehindQuote(more);
      ReadsAsWord(m, "name", end);
      EscapePlain("name");
      assert QUOTE + more == NAME_KEY + end;
      FalseKey(r, t);
    } else {
      SeekNext(more, NAME_KEY);
      NamesBySeek(QUOTE + more, more);
    }
  }

  lemma {:induction false} EscapePlain(s: string)
    requires Plain(s)
    ensures EscapeAll(s) == s && Seen(s) == s
  {
    if s != [] {
      EscapePlain(s[1..]);
      assert [s[0]] + s[1..] == s;
    }
  }

  /** One record: the scanner finds what it sees of the name, and is back in step behind the record. */
  lemma RecordScan(pre: string, r: Record, t: string)
    requires '"' !in pre
    ensures NamesIn(pre + RecordJson(r) + t) == {Seen(r.name)} + NamesIn(t)
  {
    hide Fields, EscapeAll, Seen, AfterQuote;
    EscapeSplits(r.name);
    SeenHasNoQuote(r.name);
    var end := Fields(r) + t;
    var behind := if AfterQuote(r.name).None? then end else EscapeAll(AfterQuote(r.name).value) + (QUOTE + end);
    var v := QUOTE + (Seen(r.name) + (QUOTE + behind));
    var text := NAME_KEY + (": " + v);
    assert pre + RecordJson(r) + t == (pre + "{") + text;
    ValueScan(pre + "{", v, Seen(r.name), behind);
    if AfterQuote(r.name).None? {
      SkipFields(r, t);
      NamesBySeek(end, t);
    } else {
      InnerSkip(AfterQuote(r.name).value, r, t);
    }
  }

  lemma ValueScan(pre: string, v: string, name: string, behind: string)
    requires '"' !in pre && '"' !in name && v == QUOTE + (name + (QUOTE + behind))
    ensures NamesIn(pre + (NAME_KEY + (": " + v))) == {name} + NamesIn(behind)
  {
    hide Seek, SkipSpaces;
    var text := NAME_KEY + (": " + v);
    SeekSkip(pre, text, NAME_KEY);
    SeekHere(text, NAME_KEY);
    SeekSkip(NAME_KEY, ": " + v, ":");
    SeekHere(": " + v, ":");
    OneSpace(v);
    assert v[1..] == name + (QUOTE + behind);
    SeekSkip(name, QUOTE + behind, QUOTE);
    SeekHere(QUOTE + behind, QUOTE);
    assert v[1..|v| - |QUOTE + behind|] == name && (QUOTE + behind)[1..] == behind;
  }

  function SeenNames(rs: seq<Record>): set<string> { set r | r in rs :: Seen(r.name) }

  lemma {:induction false} MoreScan(rs: seq<Record>)
    ensures NamesIn(MoreJson(rs)) == SeenNames(rs)
  {
    hide RecordJson, Seen;
    if rs == [] {
      assert Seek("]", NAME_KEY).None? by { assert "]"[1..] == []; }
    } else {
      MoreScan(rs[1..]);
      RecordScan(", ", rs[0], MoreJson(rs[1..]));
      assert rs == [rs[0]] + rs[1..];
    }
  }

  /** `findJsonNames` on a printed list finds what it sees of each name, and nothing else. */
  lemma ListScan(rs: seq<Record>)
    ensures NamesIn(ListJson(rs)) == SeenNames(rs)
  {
    hide RecordJson, Seen;
    if rs == [] {
      assert Seek("[]", NAME_KEY).None? by { assert "[]"[1..] == "]" && "]"[1..] == []; }
    } else {
      MoreScan(rs[1..]);
      RecordScan("[", rs[0], MoreJson(rs[1..]));
      assert rs == [rs[0]] + rs[1..];
    }
  }

  // ---- Exactly when the names come back ----

  function Names(rs: seq<Record>): set<string> { set r | r in rs :: r.name }

  lemma {:induction false} SeenLonger(s: string)
    requires '"' !in s
    ensures |Seen(s)| >= |s| && (!Plain(s) ==> |Seen(s)| > |s| && '\\' in Seen(s))
  {
    hide Escaped;
    if s != [] {
      EscapedChar(s[0]);
      SeenLonger(s[1..]);
      assert Plain(s) <==> PlainChar(s[0]) && Plain(s[1..]) by { assert s == [s[0]] + s[1..]; }
      if !PlainChar(s[0]) {
        assert Seen(s)[0] == '\\';
      }
    }
  }

  function MaxLength(rs: seq<Record>): (n: nat)
    ensures forall r :: r in rs ==> |r.name| <= n
  {
    if rs == [] then 0 else Max(|rs[0].name|, MaxLength(rs[1..]))
  }

  /** If the scanner returned the set of names, a name that needs escaping would force a longer one of its kind. */
  lemma {:induction false} NoEscapedName(rs: seq<Record>, s: string)
    requires SeenNames(rs) == Names(rs) && s in Names(rs)
    ensures Plain(s)
    decreases MaxLength(rs) - |s|
  {
    hide Seen, Plain;
    assert s in SeenNames(rs);
    var r :| r in rs && Seen(r.name) == s;
    SeenHasNoQuote(r.name);
    var r1 :| r1 in rs && r1.name == s;
    SeenLonger(s);
    if !Plain(s) {
      var s' := Seen(s);
      assert s' in Names(rs);
      var r2 :| r2 in rs && r2.name == s';
      NoEscapedName(rs, s');
      NotPlain(s');
    }
  }

  lemma NotPlain(s: string)
    requires '\\' in s
    ensures !Plain(s)
  {
  }

  /**
   * On every printed list, `findJsonNames` returns exactly the set of names if and only if no name needs JSON
   * escaping.
   */
  lemma NamesComeBack(rs: seq<Record>)
    ensures NamesIn(ListJson(rs)) == Names(rs) <==> forall r :: r in rs ==> Plain(r.name)
  {
    hide NamesIn, ListJson, Seen, Plain;
    ListScan(rs);
    if SeenNames(rs) == Names(rs) {
      forall r | r in rs ensures Plain(r.name) { NoEscapedName(rs, r.name); }
    }
    if forall r :: r in rs ==> Plain(r.name) {
      forall r | r in rs ensures Seen(r.name) == r.name { EscapePlain(r.name); }
    }
  }

  // ---- getFileInfo ----

  const INFO_BUFFER: nat := 1024
  const INT_MAX: nat := 0x7fff_ffff

  function SkipToDigit(t: string): string { if t != [] && !IsDecimal(t[0]) then SkipToDigit(t[1..]) else t }

  function TakeDigits(t: string): (d: string)
    ensures forall i :: 0 <= i < |d| ==> IsDecimal(d[i])
  {
    if t != [] && IsDecimal(t[0]) then [t[0]] + TakeDigits(t[1..]) else []
  }

  /** `stoi` on a digit string: it throws when there is no digit or the value does not fit an `int`. */
  function Stoi(d: string): Option<int> { if d == [] || Value(d, 10) > INT_MAX then None else Some(Value(d, 10)) }

  /** The size found in a text; `None` when `stoi` throws. */
  function SizeIn(t: string): Option<int> {
    var key := Seek(t, "\"size\"");
    if key.None? then Some(0)
    else
      var colon := Seek(key.value, ":");
      if colon.None? then Some(0) else Stoi(TakeDigits(SkipToDigit(colon.value[1..])))
  }

  predicate DirectoryIn(t: string) {
    var key := Seek(t, "\"is_directory\"");
    key.Some? && var colon := Seek(key.value, ":"); colon.Some? && Seek(colon.value, "true").Some?
  }

  /** Nothing downloaded, an exception from `stoi`, or size and directory flag. */
  datatype Info = NotFound | Throws | Info(size: int, isDirectory: bool)

  function InfoIn(t: string): Info {
    if SizeIn(t).None? then Throws else Info(SizeIn(t).value, DirectoryIn(t))
  }

  function Received(body: string): string { if |body| <= INFO_BUFFER then body else body[..INFO_BUFFER] }

  lemma DigitSteps(json: string, pos: nat)
    requires pos <= |json|
    ensures pos < |json| && !IsDecimal(json[pos]) ==> SkipToDigit(json[pos..]) == SkipToDigit(json[pos + 1..])
    ensures pos == |json| || IsDecimal(json[pos]) ==> SkipToDigit(json[pos..]) == json[pos..]
    ensures pos < |json| && IsDecimal(json[pos]) ==> TakeDigits(json[pos..]) == [json[pos]] + TakeDigits(json[pos + 1..])
    ensures pos == |json| || !IsDecimal(json[pos]) ==> TakeDigits(json[pos..]) == []
  {
    if pos < |json| { assert json[pos..][1..] == json[pos + 1..]; }
  }

  /** The digit run the two inner loops delimit. */
  method ScanNumber(json: string, from: nat) returns (digits: string)
    requires from <= |json|
    ensures digits == TakeDigits(SkipToDigit(json[from..]))
  {
    hide SkipToDigit, TakeDigits;
    var pos := from;
    while pos < |json| && !IsDecimal(json[pos])
      invariant from <= pos <= |json| && SkipToDigit(json[pos..]) == SkipToDigit(json[from..])
    {
      DigitSteps(json, pos);
      pos := pos + 1;
    }
    DigitSteps(json, pos);
    var start := pos;
    while pos < |json| && IsDecimal(json[pos])
      invariant start <= pos <= |json|
      invariant json[start..pos] + TakeDigits(json[pos..]) == TakeDigits(json[start..])
    {
      DigitSteps(json, pos);
      assert json[start..pos + 1] == json[start..pos] + [json[pos]];
      pos := pos + 1;
    }
    DigitSteps(json, pos);
    digits := json[start..pos];
  }

  method GetFileInfo(response: Option<string>) returns (info: Info)
    ensures info == if response.None? then NotFound else InfoIn(Received(response.value))
  {
    hide Seek, Find;
    if response.None? { return NotFound; }
    var json := Received(response.value);
    assert json[0..] == json;
    var size: Option<int> := Some(0);
    var key := Find(json, "\"size\"", 0);
    if key.Some? {
      var colon := Find(json, ":", key.value);
      if colon.Some? {
        assert json[colon.value..][1..] == json[colon.value + 1..];
        var digits := ScanNumber(json, colon.value + 1);
        size := Stoi(digits);
      }
    }
    assert size == SizeIn(json);
    if size.None? { return Throws; }
    var isDirectory := false;
    key := Find(json, "\"is_directory\"", 0);
    if key.Some? {
      var colon := Find(json, ":", key.value);
      if colon.Some? {
        var word := Find(json, "true", colon.value);
        isDirectory := word.Some?;
      }
    }
    info := Info(size.value, isDirectory);
  }

  function Key(w: string): string { QUOTE + (w + QUOTE) }

  /** Looking for a quoted key across the rest of a name: it is met at the end of the name, or else behind it. */
  lemma {:induction false} SeekAcrossName(m: string, w: string, t: string)
    requires Plain(w) && w != [] && w[0] != ',' && t != [] && t[0] == ','
    ensures Seek(EscapeAll(m) + (QUOTE + t), Key(w)) == Some(Key(w) + t) ||
            Seek(EscapeAll(m) + (QUOTE + t), Key(w)) == Seek(t, Key(w))
  {
    hide Escaped, Seek, Plain;
    var more := EscapeAll(m) + (QUOTE + t);
    if m == [] {
      SeekMiss(t, Key(w));
      assert more == QUOTE + t;
    } else {
      var rest := EscapeAll(m[1..]) + (QUOTE + t);
      SeekAcrossName(m[1..], w, t);
      EscapedChar(m[0]);
      if m[0] == '"' {
        EscapedQuote();
        assert more == "\\" + (QUOTE + rest);
        SeekSkip("\\", QUOTE + rest, Key(w));
        QuoteBeforeName(m[1..], w, t);
      } else {
        assert more == Escaped(m[0]) + rest;
        SeekSkip(Escaped(m[0]), rest, Key(w));
      }
    }
  }

  lemma QuoteBeforeName(m: string, w: string, t: string)
    requires Plain(w) && w != []
    ensures var more := EscapeAll(m) + (QUOTE + t);
            Seek(QUOTE + more, Key(w)) == Some(Key(w) + t) || Seek(QUOTE + more, Key(w)) == Seek(more, Key(w))
  {
    hide Escaped;
    var more := EscapeAll(m) + (QUOTE + t);
    assert (QUOTE + more)[1..] == more;
    if Key(w) <= QUOTE + more {
      assert w + QUOTE <= more by { assert Key(w)[1..] == w + QUOTE; }
      ReadsAsWord(m, w, t);
      EscapePlain(w);
      assert QUOTE + more == Key(w) + t;
    }
  }

  /** The text from the value of the size member on. */
  function SizeText(r: Record): string { ": " + Print(r.size, 10) + TailFields(r) }

  lemma SeekInRecord(r: Record, w: string)
    requires Plain(w) && w != [] && w[0] != ',' && w[0] != 'n' && w[0] != ':'
    ensures Seek(RecordJson(r), Key(w)) == Some(Key(w) + Fields(r)) ||
            Seek(RecordJson(r), Key(w)) == Seek(Fields(r), Key(w))
  {
    hide Seek, Fields, EscapeAll;
    var name := QUOTE + (EscapeAll(r.name) + (QUOTE + Fields(r)));
    var t := "name" + (QUOTE + (": " + name));
    assert RecordJson(r) == "{" + (QUOTE + t);
    SeekSkip("{", QUOTE + t, Key(w));
    SeekMiss(t, Key(w));
    SeekSkip("name", QUOTE + (": " + name), Key(w));
    SeekMiss(": " + name, Key(w));
    SeekSkip(": ", name, Key(w));
    FieldsStart(r, "");
    assert Fields(r) + "" == Fields(r);
    SeekAcrossName(r.name, w, Fields(r));
    QuoteBeforeName(r.name, w, Fields(r));
  }

  /** Whichever `"size"` is met first, its colon is the one in front of the size. */
  lemma SizeColon(r: Record)
    ensures var key := Seek(RecordJson(r), Key("size"));
            key.Some? && Seek(key.value, ":") == Some(SizeText(r))
  {
    hide RecordJson, Seek, SizeText, Fields;
    var text := SizeText(r);
    SeekInRecord(r, "size");
    FieldsText(r);
    var found := Key("size") + text;
    assert Fields(r) == ", " + found;
    SeekSkip(", ", found, Key("size"));
    SeekHere(found, Key("size"));
    SeekSkip(Key("size"), text, ":");
    assert Key("size") + Fields(r) == "\"size\", \"size\"" + text;
    SeekSkip("\"size\", \"size\"", text, ":");
    SizeTextStart(r);
    SeekHere(text, ":");
  }

  lemma SizeTextStart(r: Record)
    ensures ":" <= SizeText(r) && SizeText(r)[1..] == " " + (Print(r.size, 10) + TailFields(r))
  {
    hide Print, TailFields;
  }

  lemma {:induction false} DigitsEnd(d: string, t: string)
    requires (forall i :: 0 <= i < |d| ==> IsDecimal(d[i])) && t != [] && !IsDecimal(t[0])
    ensures TakeDigits(d + t) == d
  {
    if d == [] {
      assert d + t == t;
    } else {
      DigitsEnd(d[1..], t);
      assert (d + t)[1..] == d[1..] + t && [d[0]] + d[1..] == d;
    }
  }

  lemma NumberIn(d: string, t: string)
    requires d != [] && (forall i :: 0 <= i < |d| ==> IsDecimal(d[i])) && t != [] && !IsDecimal(t[0])
    ensures TakeDigits(SkipToDigit(" " + (d + t))) == d
  {
    assert (" " + (d + t))[1..] == d + t && (d + t)[0] == d[0];
    DigitsEnd(d, t);
  }

  lemma SizeComesBack(r: Record)
    ensures SizeIn(RecordJson(r)) == if r.size <= INT_MAX then Some(r.size) else None
  {
    hide Print, Seek, TailFields, RecordJson, TakeDigits, SkipToDigit, SizeText;
    SizeColon(r);
    SizeTextStart(r);
    var d := Print(r.size, 10);
    PrintValue(r.size, 10);
    PrintIsDecimal(r.size);
    TailStart(r);
    NumberIn(d, TailFields(r));
    assert Key("size") == "\"size\"";
  }

  lemma TailStart(r: Record)
    ensures TailFields(r) != [] && TailFields(r)[0] == ','
  {
  }

  lemma CutFields(m: string, d: string)
    ensures Field("mtime", m) == ", \"m" + ("t" + ("ime\": " + m))
    ensures Field("is_directory", d) == ", \"is_direc" + ("t" + ("ory\": " + d))
  {
  }

  /** The text behind the size, cut at its letters `t`. */
  lemma TailText(r: Record)
    ensures SizeText(r) == ": " + Print(r.size, 10) + ", \"m" +
      ("t" + (("ime\": " + PrintInt(r.mtime) + ", \"is_direc") + ("t" + ("ory\": " + (DirText(r) + "}")))))
  {
    hide Print, PrintInt, Field, DirText;
    var m, d := PrintInt(r.mtime), DirText(r);
    CutFields(m, d);
    Reassociate(": " + Print(r.size, 10), ", \"m", "ime\": " + m, ", \"is_direc", "ory\": ", d);
  }

  lemma Reassociate(a: string, b: string, c: string, e: string, f: string, d: string)
    ensures a + (b + ("t" + c) + (e + ("t" + (f + d))) + "}") == a + b + ("t" + ((c + e) + ("t" + (f + (d + "}")))))
  {
  }

  /** What a search for the word `true` finds: the last word of the record of a directory. */
  function TrueText(r: Record): Option<string> { if r.isDirectory then Some("true}") else None }

  /** Behind the size, the letters `true` stand only for a directory. */
  lemma TrueInTail(r: Record)
    ensures Seek(SizeText(r), "true") == TrueText(r) && Seek(": " + DirText(r) + "}", "true") == TrueText(r)
  {
    hide Seek, Print, PrintInt, SizeText, DirText;
    PrintedNumber(r.size);
    PrintIntNat(r.size);
    PrintedNumber(r.mtime);
    TailText(r);
    var last := DirText(r) + "}";
    var front := ": " + Print(r.size, 10) + ", \"m";
    var mid := "ime\": " + PrintInt(r.mtime) + ", \"is_direc";
    var end := "ory\": " + last;
    NoT(": ", Print(r.size, 10), ", \"m");
    SeekSkip(front, "t" + (mid + ("t" + end)), "true");
    NoTrueHere(mid + ("t" + end));
    NoT("ime\": ", PrintInt(r.mtime), ", \"is_direc");
    SeekSkip(mid, "t" + end, "true");
    NoTrueHere(end);
    SeekSkip("ory\": ", last, "true");
    assert ": " + DirText(r) + "}" == ": " + last;
    SeekSkip(": ", last, "true");
    LastWord(r);
  }

  lemma NoT(a: string, n: string, b: string)
    requires 't' !in a && 't' !in b && forall i :: 0 <= i < |n| ==> n[i] == '-' || IsDecimal(n[i])
    ensures 't' !in a + n + b
  {
  }

  lemma NoTrueHere(t: string)
    requires t != [] && t[0] != 'r'
    ensures Seek("t" + t, "true") == Seek(t, "true")
  {
    assert ("t" + t)[1..] == t && ("t" + t)[1] != "true"[1];
  }

  lemma LastWord(r: Record)
    ensures Seek(DirText(r) + "}", "true") == TrueText(r)
  {
    if r.isDirectory {
      assert DirText(r) + "}" == "true}";
    } else {
      assert DirText(r) + "}" + "" == DirText(r) + "}";
      SeekSkip(DirText(r) + "}", "", "true");
    }
  }

  /** Whichever `"is_directory"` is met first, behind its colon `true` stands only for a directory. */
  lemma DirectoryColon(r: Record, key: string)
    requires key == Key("is_directory") + Fields(r) || key == Key("is_directory") + (": " + DirText(r) + "}")
    ensures Seek(key, ":").Some? && Seek(Seek(key, ":").value, "true") == TrueText(r)
  {
    hide Seek, Fields, SizeText, DirText;
    TrueInTail(r);
    if key == Key("is_directory") + Fields(r) {
      FieldsText(r);
      assert key == "\"is_directory\", \"size\"" + SizeText(r);
      SeekSkip("\"is_directory\", \"size\"", SizeText(r), ":");
      SizeTextStart(r);
      SeekHere(SizeText(r), ":");
    } else {
      SeekSkip(Key("is_directory"), ": " + DirText(r) + "}", ":");
      SeekHere(": " + DirText(r) + "}", ":");
    }
  }

  lemma DirectoryComesBack(r: Record)
    ensures DirectoryIn(RecordJson(r)) <==> r.isDirectory
  {
    hide RecordJson, Seek, Fields, DirText, Key;
    SeekInRecord(r, "is_directory");
    DirectoryKey(r);
    assert Key("is_directory") == "\"is_directory\"" by { KeyText(); }
    DirectoryColon(r, Seek(RecordJson(r), Key("is_directory")).value);
  }

  lemma KeyText()
    ensures Key("size") == "\"size\"" && Key("is_directory") == "\"is_directory\""
  {
  }

  lemma FieldsText(r: Record)
    ensures Fields(r) == ", \"size\"" + SizeText(r)
  {
    hide Print, PrintInt;
  }

  lemma DirectoryKey(r: Record)
    ensures Seek(Fields(r), Key("is_directory")) == Some(Key("is_directory") + (": " + DirText(r) + "}"))
  {
    hide Print, PrintInt, Seek;
    PrintedNumber(r.size);
    PrintIntNat(r.size);
    PrintedNumber(r.mtime);
    var found := Key("is_directory") + (": " + DirText(r) + "}");
    assert Fields(r) == Field("size", Print(r.size, 10)) + (Field("mtime", PrintInt(r.mtime)) + (", " + found));
    SkipField("size", Print(r.size, 10), Field("mtime", PrintInt(r.mtime)) + (", " + found), Key("is_directory"));
    SkipField("mtime", PrintInt(r.mtime), ", " + found, Key("is_directory"));
    SeekSkip(", ", found, Key("is_directory"));
    SeekHere(found, Key("is_directory"));
  }

  /**
   * For every record whose text fits the buffer, whatever its name, `getFileInfo` recovers the directory flag and
   * the size; a size above the range of `int` makes it throw.
   */
  lemma InfoComesBack(r: Record)
    requires |RecordJson(r)| <= INFO_BUFFER
    ensures InfoIn(Received(RecordJson(r))) == if r.size <= INT_MAX then Info(r.size, r.isDirectory) else Throws
  {
    hide RecordJson, SizeIn, DirectoryIn;
    SizeComesBack(r);
    DirectoryComesBack(r);
  }

  // ---- A record that does not fit the buffer ----

  lemma SeekShort(t: string, pat: string)
    requires |t| < |pat|
    ensures Seek(t, pat).None?
  {
  }

  /** A search in the first `k` characters finds what the whole text has first, if it fits. */
  lemma {:induction false} SeekPrefix(t: string, pat: string, k: nat)
    requires k <= |t| && pat != []
    ensures Seek(t, pat).None? ==> Seek(t[..k], pat).None?
    ensures Seek(t, pat).Some? ==>
      var u := Seek(t, pat).value;
      var at := |t| - |u|;
      Seek(t[..k], pat) == if at + |pat| <= k then Some(u[..k - at]) else None
    decreases |t|
  {
    if pat <= t {
      if k < |pat| { SeekShort(t[..k], pat); } else { assert pat <= t[..k]; }
    } else if k == 0 {
      SeekShort(t[..k], pat);
    } else {
      assert !(pat <= t[..k]);
      assert t[..k][1..] == t[1..][..k - 1];
      SeekPrefix(t[1..], pat, k - 1);
    }
  }

  /** A colon that follows a key stands behind all of it. */
  lemma ColonBehind(u: string, key: string)
    requires key <= u && ':' !in key && Seek(u, ":").Some?
    ensures |Seek(u, ":").value| <= |u| - |key|
  {
    hide Seek;
    assert u == key + u[|key|..];
    SeekSkip(key, u[|key|..], ":");
  }

  lemma SeekFinds(t: string, pat: string)
    requires Seek(t, pat).Some?
    ensures pat <= Seek(t, pat).value
  {
  }

  /** A key and its colon, searched in the first `k` characters of a text that has both. */
  lemma KeyPrefix(t: string, key: string, k: nat)
    requires k <= |t| && key != [] && ':' !in key && Seek(t, key).Some? && Seek(Seek(t, key).value, ":").Some?
    ensures var v := Seek(Seek(t, key).value, ":").value;
            var at := |t| - |v|;
            var found := Seek(t[..k], key);
            if at < k then found.Some? && Seek(found.value, ":") == Some(v[..k - at])
            else found.None? || Seek(found.value, ":").None?
  {
    hide Seek;
    var u := Seek(t, key).value;
    SeekFinds(t, key);
    ColonBehind(u, key);
    SeekPrefix(t, key, k);
    if |t| - |u| + |key| <= k { SeekPrefix(u, ":", k - (|t| - |u|)); }
  }

  lemma {:induction false} DigitsOnly(d: string)
    requires forall i :: 0 <= i < |d| ==> IsDecimal(d[i])
    ensures TakeDigits(d) == d && SkipToDigit(" " + d) == d
  {
    assert (" " + d)[1..] == d;
    if d != [] {
      DigitsOnly(d[1..]);
      assert [d[0]] + d[1..] == d;
    }
  }

  /** The digits met in the first `m` characters of a blank, a number and what follows it. */
  lemma NumberPrefix(d: string, t: string, m: nat)
    requires d != [] && (forall i :: 0 <= i < |d| ==> IsDecimal(d[i])) && t != [] && !IsDecimal(t[0])
    requires m <= |" " + (d + t)|
    ensures TakeDigits(SkipToDigit((" " + (d + t))[..m])) == d[..Min(Max(m - 1, 0), |d|)]
  {
    hide TakeDigits, SkipToDigit;
    var text := " " + (d + t);
    if m == 0 {
      assert text[..m] == "";
      NoDigits();
    } else if m - 1 <= |d| {
      assert text[..m] == " " + d[..m - 1];
      DigitsOnly(d[..m - 1]);
    } else {
      assert text[..m] == " " + (d + t[..m - 1 - |d|]);
      NumberIn(d, t[..m - 1 - |d|]);
    }
  }

  lemma NoDigits()
    ensures TakeDigits(SkipToDigit("")) == ""
  {
  }

  /** Where the colon in front of the size stands. */
  function ColonAt(r: Record): nat { |EscapeAll(r.name)| + 19 }

  lemma ColonSplits(r: Record)
    ensures |RecordJson(r)| == ColonAt(r) + |SizeText(r)| && |SizeText(r)| >= |Print(r.size, 10)| + 10
  {
    hide Print, PrintInt, EscapeAll;
    FieldsText(r);
  }

  /** How many digits of the size are among the first `k` characters. */
  function DigitsReceived(r: Record, k: nat): nat { Min(Max(k - ColonAt(r) - 2, 0), |Print(r.size, 10)|) }

  lemma SizeCut(r: Record, k: nat)
    requires k <= |RecordJson(r)|
    ensures SizeIn(RecordJson(r)[..k]) ==
            if k <= ColonAt(r) then Some(0) else Stoi(Print(r.size, 10)[..DigitsReceived(r, k)])
  {
    hide RecordJson, Seek, Print, TailFields, TakeDigits, SkipToDigit, SizeText, Stoi;
    var t := RecordJson(r);
    SizeColon(r);
    ColonSplits(r);
    SizeTextStart(r);
    KeyText();
    KeyPrefix(t, Key("size"), k);
    if k > ColonAt(r) {
      var m := k - ColonAt(r) - 1;
      assert SizeText(r)[..k - ColonAt(r)][1..] == SizeText(r)[1..][..m];
      PrintIsDecimal(r.size);
      TailStart(r);
      NumberPrefix(Print(r.size, 10), TailFields(r), m);
    }
  }

  lemma DirectoryCut(r: Record, k: nat)
    requires k <= |RecordJson(r)|
    ensures DirectoryIn(RecordJson(r)[..k]) <==> r.isDirectory && k >= |RecordJson(r)| - 1
  {
    hide RecordJson, Seek, Fields, DirText, Key;
    var t := RecordJson(r);
    SeekInRecord(r, "is_directory");
    DirectoryKey(r);
    KeyText();
    var u := Seek(t, Key("is_directory")).value;
    DirectoryColon(r, u);
    var v := Seek(u, ":").value;
    KeyPrefix(t, "\"is_directory\"", k);
    if |t| - |v| < k { SeekPrefix(v, "true", k - (|t| - |v|)); }
  }

  /**
   * What `getFileInfo` makes of the first `k` characters of a record: an empty file when they end in front of the
   * size's colon, an exception when they end in front of its first digit, and else the digits received, with the
   * flag of a directory lost unless at most the closing brace is missing.
   */
  lemma InfoCut(r: Record, k: nat)
    requires k <= |RecordJson(r)|
    ensures InfoIn(RecordJson(r)[..k]) ==
            if k <= ColonAt(r) then Info(0, false)
            else
              var size := Stoi(Print(r.size, 10)[..DigitsReceived(r, k)]);
              if size.None? then Throws else Info(size.value, r.isDirectory && k >= |RecordJson(r)| - 1)
  {
    hide RecordJson, SizeIn, DirectoryIn, Print, SizeText, Stoi;
    SizeCut(r, k);
    DirectoryCut(r, k);
    ColonSplits(r);
  }

  /** A number that lost digits at its end is smaller. */
  lemma {:induction false} LostDigits(n: nat, i: nat)
    requires 0 < i < |Print(n, 10)|
    ensures 0 <= Value(Print(n, 10)[..i], 10) < n
    decreases n
  {
    hide Value, Print;
    PrintOne(n);
    var q, d := PrintStep(n, 10);
    var p := Print(q, 10);
    if i == |p| {
      assert Print(n, 10)[..i] == p;
      PrintValue(q, 10);
    } else {
      assert Print(n, 10)[..i] == p[..i];
      LostDigits(q, i);
    }
  }

  lemma PrintOne(n: nat)
    ensures n < 10 <==> |Print(n, 10)| == 1
  {
  }

  lemma DigitsReceivedRight(r: Record, i: nat)
    requires i <= |Print(r.size, 10)|
    ensures Stoi(Print(r.size, 10)[..i]) == Some(r.size) <==> i == |Print(r.size, 10)| && r.size <= INT_MAX
  {
    hide Print, Value;
    var d := Print(r.size, 10);
    PrintValue(r.size, 10);
    if i == |d| {
      assert d[..i] == d;
    } else if i > 0 {
      LostDigits(r.size, i);
    }
  }

  /**
   * Exactly when size and flag come back, for every record: the size fits an `int`, and the text fits the buffer up to
   * its closing brace; or it is no directory, and the size's digits fit or it is empty and its colon does not.
   */
  lemma InfoExact(r: Record)
    ensures InfoIn(Received(RecordJson(r))) == Info(r.size, r.isDirectory) <==>
            && r.size <= INT_MAX
            && (|| |RecordJson(r)| <= INFO_BUFFER + 1
                || (!r.isDirectory && (|| ColonAt(r) + 2 + |Print(r.size, 10)| <= INFO_BUFFER
                                       || (r.size == 0 && INFO_BUFFER <= ColonAt(r)))))
  {
    hide RecordJson, Print, SizeText, Stoi, InfoIn;
    var t := RecordJson(r);
    var k := Min(|t|, INFO_BUFFER);
    assert Received(t) == t[..k];
    InfoCut(r, k);
    ColonSplits(r);
    DigitsReceivedRight(r, DigitsReceived(r, k));
  }

  // ---- A listing that does not fit the buffer ----

  lemma {:induction false} SpacesPrefix(t: string, k: nat)
    requires k <= |t|
    ensures var at := |t| - |SkipSpaces(t)|; SkipSpaces(t[..k]) == if at <= k then SkipSpaces(t)[..k - at] else []
  {
    if t != [] && IsSpace(t[0]) && k > 0 {
      assert t[..k][1..] == t[1..][..k - 1];
      SpacesPrefix(t[1..], k - 1);
    }
  }

  /** One round of the scan: the text from the value of the first `"name"` on. */
  function ValueOf(t: string): (v: Option<string>)
    ensures v.Some? ==> |v.value| < |t|
  {
    var key := Seek(t, NAME_KEY);
    if key.None? then None
    else
      var colon := Seek(key.value, ":");
      if colon.None? then None else Some(SkipSpaces(colon.value[1..]))
  }

  lemma NamesByValue(t: string)
    ensures NamesIn(t) ==
      if ValueOf(t).None? then {}
      else
        var v := ValueOf(t).value;
        if v == [] || v[0] != '"' then NamesIn(v)
        else
          var end := Seek(v[1..], "\"");
          if end.None? then {} else {v[1..|v| - |end.value|]} + NamesIn(end.value[1..])
  {
    hide Seek, SkipSpaces;
  }

  lemma ValuePrefix(t: string, k: nat)
    requires k <= |t|
    ensures ValueOf(t).None? ==> ValueOf(t[..k]).None?
    ensures ValueOf(t).Some? && ValueOf(t[..k]).Some? ==>
      var v := ValueOf(t).value;
      var at := |t| - |v|;
      ValueOf(t[..k]).value == if at <= k then v[..k - at] else []
  {
    hide Seek, SkipSpaces;
    SeekPrefix(t, NAME_KEY, k);
    if Seek(t, NAME_KEY).Some? && Seek(t[..k], NAME_KEY).Some? {
      var u := Seek(t, NAME_KEY).value;
      var j := k - (|t| - |u|);
      SeekPrefix(u, ":", j);
      if Seek(u, ":").Some? && Seek(u[..j], ":").Some? {
        var c := Seek(u, ":").value;
        var i := j - (|u| - |c|);
        assert c[..i][1..] == c[1..][..i - 1];
        SpacesPrefix(c[1..], i - 1);
      }
    }
  }

  lemma NoNames()
    ensures NamesIn("") == {}
  {
    SeekShort("", NAME_KEY);
  }

  /** A text that was cut off loses names, but no name is invented. */
  lemma {:induction false} NamesCut(t: string, k: nat)
    requires k <= |t|
    ensures NamesIn(t[..k]) <= NamesIn(t)
    decreases |t|
  {
    hide Seek, NamesIn, ValueOf;
    NamesByValue(t);
    NamesByValue(t[..k]);
    ValuePrefix(t, k);
    if ValueOf(t[..k]).Some? {
      var v, v' := ValueOf(t).value, ValueOf(t[..k]).value;
      var at := |t| - |v|;
      if v' == [] {
        NoNames();
      } else {
        var j := k - at;
        assert v' == v[..j] && v'[0] == v[0];
        if v[0] != '"' {
          NamesCut(v, j);
        } else {
          assert v[..j][1..] == v[1..][..j - 1];
          SeekPrefix(v[1..], "\"", j - 1);
          if Seek(v[1..][..j - 1], "\"").Some? {
            var e := Seek(v[1..], "\"").value;
            var i := j - 1 - (|v[1..]| - |e|);
            assert v[1..|v| - |e|] == v'[1..|v'| - |e[..i]|];
            assert e[..i][1..] == e[1..][..i - 1];
            NamesCut(e[1..], i - 1);
          }
        }
      }
    }
  }
}
