/** A reader of JSON text by the grammar of RFC 8259 (sections 2 to 7, without whitespace,
    fractions and exponents) that also wants the keys of an object in code-point order. It gives
    back every value from its canonical text, so that text determines the value. */
module JsonReader {
  import opened Ordering
  import opened Text
  import opened CanonicalJson

  /** What was read off the front of a text, and the rest of it. */
  datatype Read<+T> = Got(value: T, rest: string) | Malformed

  // ------------------------------------------------------------------- strings

  /** One `\uXXXX`: sixteen bits of UTF-16. */
  function ReadUnit(s: string): (r: Read<int>)
    ensures r.Got? ==> 0 <= r.value < 0x10000 && |r.rest| < |s|
  {
    if |s| >= 6 && s[..2] == "\\u" && IsHex(s[2..6]) then
      ReadHexBound(s[2..6]);
      FourDigits();
      Got(ReadHex(s[2..6]), s[6..])
    else Malformed
  }

  lemma FourDigits()
    ensures Pow16(4) == 0x10000
  {
    assert Pow16(2) == 0x100;
  }

  /** The escapes of section 7 that name a character, given by their code points. */
  function ReadShort(c: char, rest: string): Read<char> {
    match c
    case '"' => Got(34 as char, rest)
    case '\\' => Got(92 as char, rest)
    case '/' => Got(47 as char, rest)
    case 'b' => Got(8 as char, rest)
    case 'f' => Got(12 as char, rest)
    case 'n' => Got(10 as char, rest)
    case 'r' => Got(13 as char, rest)
    case 't' => Got(9 as char, rest)
    case _ => Malformed
  }

  /** A character that is escaped by its code: beyond the basic plane, as a surrogate pair. */
  function ReadCode(s: string): (r: Read<char>)
    ensures r.Got? ==> |r.rest| < |s|
  {
    var a := ReadUnit(s);
    if a.Malformed? || 0xDC00 <= a.value < 0xE000 then Malformed
    else if a.value < 0xD800 || 0xE000 <= a.value then Got(a.value as char, a.rest)
    else
      var b := ReadUnit(a.rest);
      if b.Malformed? || b.value < 0xDC00 || 0xE000 <= b.value then Malformed
      else Got((0x10000 + 1024 * (a.value - 0xD800) + (b.value - 0xDC00)) as char, b.rest)
  }

  function ReadChar(s: string): (r: Read<char>)
    ensures r.Got? ==> |r.rest| < |s|
  {
    if s == "" || s[0] < ' ' then Malformed
    else if s[0] != '\\' then Got(s[0], s[1..])
    else if |s| == 1 then Malformed
    else if s[1] == 'u' then ReadCode(s)
    else ReadShort(s[1], s[2..])
  }

  /** The characters up to the closing quote. */
  function ReadChars(s: string): (r: Read<string>)
    ensures r.Got? ==> |r.rest| < |s|
  {
    if s == "" then Malformed
    else if s[0] == '"' then Got("", s[1..])
    else
      var c := ReadChar(s);
      if c.Malformed? then Malformed
      else
        var more := ReadChars(c.rest);
        if more.Malformed? then Malformed else Got([c.value] + more.value, more.rest)
  }

  lemma UnitReads(u: nat, s: string)
    requires u < 0x10000
    ensures ReadUnit(UnitEscape(u) + s) == Got(u, s)
  {
    FourDigits();
    HexTextReads(u, 4);
    var e := UnitEscape(u);
    assert e == "\\u" + HexText(u, 4);
    assert (e + s)[..2] == "\\u" && (e + s)[2..6] == HexText(u, 4) && (e + s)[6..] == s;
  }

  lemma SurrogatesJoin(code: nat)
    requires 0x10000 <= code < 0x110000
    ensures 0x10000 + 1024 * (HighSurrogate(code) - 0xD800) + (LowSurrogate(code) - 0xDC00) == code
  {}

  lemma CodeReads(c: char, s: string)
    requires !Plain(c) && ShortEscape(c) == '\0'
    ensures ReadCode(Escape(c) + s) == Got(c, s)
  {
    var code := c as int;
    if code < 0x10000 {
      UnitReads(code, s);
    } else {
      var a, b := UnitEscape(HighSurrogate(code)), UnitEscape(LowSurrogate(code));
      assert (a + b) + s == a + (b + s);
      UnitReads(HighSurrogate(code), b + s);
      UnitReads(LowSurrogate(code), s);
      SurrogatesJoin(code);
    }
  }

  /** Every character is read back from its escape. */
  lemma EscapeReads(c: char, s: string)
    ensures ReadChar(Escape(c) + s) == Got(c, s)
    ensures Escape(c) != "" && Escape(c)[0] != '"'
  {
    if Plain(c) {
      assert ([c] + s)[1..] == s;
    } else if ShortEscape(c) != '\0' {
      assert (Escape(c) + s)[2..] == s;
      ShortReads(c, s);
    } else {
      CodeReads(c, s);
      assert (Escape(c) + s)[0] == '\\' && (Escape(c) + s)[1] == 'u';
    }
  }

  lemma ShortReads(c: char, s: string)
    requires !Plain(c) && ShortEscape(c) != '\0'
    ensures ShortEscape(c) != 'u' && ReadShort(ShortEscape(c), s) == Got(c, s)
  {}

  lemma ShortCodes(c: char)
    ensures ShortEscape(c) != '\0' <==> c as int == 34 || c as int == 92 || 8 <= c as int <= 10 || 12 <= c as int <= 13
  {}

  /** Printable ASCII is written as it is, seven characters as a backslash and a letter, and the
      rest as one or two code units. */
  lemma EscapeLength(c: char, code: int)
    requires code == c as int
    ensures |Escape(c)| == 1 <==> 32 <= code <= 126 && code != 34 && code != 92
    ensures |Escape(c)| == 2 <==> code == 34 || code == 92 || 8 <= code <= 10 || 12 <= code <= 13
    ensures |Escape(c)| == 12 <==> code > 0xFFFF
  {
    ShortCodes(c);
  }

  predicate Printable(s: string) {
    forall i :: 0 <= i < |s| ==> 32 <= s[i] as int <= 126
  }

  lemma EscapeIsPrintable(c: char)
    ensures Printable(Escape(c))
  {}

  lemma {:induction false} EscapedIsPrintable(x: string)
    ensures Printable(Escaped(x))
  {
    if x != "" {
      EscapeIsPrintable(x[0]);
      EscapedIsPrintable(x[1..]);
    }
  }

  lemma CharsStep(e: string, c: char, t: string)
    requires e != "" && e[0] != '"' && ReadChar(e + t) == Got(c, t) && ReadChars(t).Got?
    ensures ReadChars(e + t) == Got([c] + ReadChars(t).value, ReadChars(t).rest)
  {
    assert (e + t)[0] == e[0];
  }

  /** Every string is read back from its escaped text, up to the closing quote. */
  lemma {:induction false} EscapedReads(x: string, s: string)
    ensures ReadChars(Escaped(x) + ("\"" + s)) == Got(x, s)
  {
    var u := "\"" + s;
    if x == "" {
      assert "" + u == u;
    } else {
      var e, r := Escape(x[0]), Escaped(x[1..]);
      assert (e + r) + u == e + (r + u);
      EscapeReads(x[0], r + u);
      EscapedReads(x[1..], s);
      CharsStep(e, x[0], r + u);
      assert x == [x[0]] + x[1..];
    }
  }

  lemma QuoteReads(x: string, s: string)
    ensures Quote(x) + s == "\"" + (Quote(x) + s)[1..] && ReadChars((Quote(x) + s)[1..]) == Got(x, s)
  {
    var e, u := Escaped(x), "\"" + s;
    assert ("\"" + e + "\"") + s == "\"" + (e + u);
    assert ("\"" + (e + u))[1..] == e + u;
    EscapedReads(x, s);
  }

  // ------------------------------------------------------------------- numbers

  function DigitCount(s: string): (n: nat)
    ensures n <= |s| && AllDigits(s[..n])
  {
    if s == "" || !IsDigit(s[0]) then 0
    else
      assert s[..1 + DigitCount(s[1..])] == [s[0]] + s[1..][..DigitCount(s[1..])];
      1 + DigitCount(s[1..])
  }

  /** An integer of section 6: digits without a leading zero, after an optional minus. */
  function ReadNumber(s: string): (r: Read<int>)
    ensures r.Got? ==> |r.rest| < |s|
  {
    var t := if s != "" && s[0] == '-' then s[1..] else s;
    var n := DigitCount(t);
    if n == 0 || (n > 1 && t[0] == '0') then Malformed
    else Got(if t == s then ReadNat(t[..n]) else -ReadNat(t[..n]), t[n..])
  }

  lemma {:induction false} DigitsEnd(a: string, s: string)
    requires AllDigits(a) && NotDigitNext(s)
    ensures DigitCount(a + s) == |a|
  {
    if a == "" {
      assert a + s == s;
    } else {
      assert (a + s)[1..] == a[1..] + s;
      DigitsEnd(a[1..], s);
    }
  }

  lemma {:induction false} NoLeadingZero(n: nat)
    ensures NatText(n)[0] == '0' ==> n == 0 && |NatText(n)| == 1
  {
    if n >= 10 {
      NoLeadingZero(n / 10);
    }
  }

  lemma NumberReads(n: int, s: string)
    requires NotDigitNext(s)
    ensures ReadNumber(IntText(n) + s) == Got(n, s)
    ensures IntText(n) != "" && (IntText(n)[0] == '-' || IsDigit(IntText(n)[0]))
  {
    var m := if n < 0 then -n else n;
    var a := NatText(m);
    DigitsEnd(a, s);
    NoLeadingZero(m);
    NatTextReads(m);
    assert (a + s)[..|a|] == a && (a + s)[|a|..] == s && (a + s)[0] == a[0];
    if n < 0 {
      assert (IntText(n) + s)[1..] == a + s;
    }
  }

  // ------------------------------------------------------------------- values

  datatype Pair = Pair(key: string, value: Json)

  ghost predicate InKeyOrder(ps: seq<Pair>) {
    forall i, j :: 0 <= i < j < |ps| ==> CodePointLess(ps[i].key, ps[j].key)
  }

  function FieldsOf(ps: seq<Pair>): map<string, Json> {
    if ps == [] then map[] else FieldsOf(ps[1..])[ps[0].key := ps[0].value]
  }

  function ReadLiteral(s: string): (r: Read<Json>)
    ensures r.Got? ==> |r.rest| < |s|
  {
    if |s| >= 4 && s[..4] == "null" then Got(Null, s[4..])
    else if |s| >= 4 && s[..4] == "true" then Got(Bool(true), s[4..])
    else if |s| >= 5 && s[..5] == "false" then Got(Bool(false), s[5..])
    else Malformed
  }

  ghost function ReadValue(s: string): (r: Read<Json>)
    ensures r.Got? ==> |r.rest| < |s|
    decreases |s|, 0
  {
    if s == "" then Malformed
    else if s[0] == '"' then
      var t := ReadChars(s[1..]);
      if t.Malformed? then Malformed else Got(Str(t.value), t.rest)
    else if s[0] == '[' then
      if |s| > 1 && s[1] == ']' then Got(Arr([]), s[2..])
      else
        var t := ReadItems(s[1..]);
        if t.Malformed? then Malformed else Got(Arr(t.value), t.rest)
    else if s[0] == '{' then
      if |s| > 1 && s[1] == '}' then Got(Obj(map[]), s[2..])
      else
        var t := ReadPairs(s[1..]);
        if t.Malformed? || !InKeyOrder(t.value) then Malformed else Got(Obj(FieldsOf(t.value)), t.rest)
    else if s[0] == '-' || IsDigit(s[0]) then
      var t := ReadNumber(s);
      if t.Malformed? then Malformed else Got(Num(t.value), t.rest)
    else ReadLiteral(s)
  }

  /** Values separated by commas, up to the closing bracket. */
  ghost function ReadItems(s: string): (r: Read<seq<Json>>)
    ensures r.Got? ==> |r.rest| < |s|
    decreases |s|, 1
  {
    var x := ReadValue(s);
    if x.Malformed? || x.rest == "" then Malformed
    else if x.rest[0] == ']' then Got([x.value], x.rest[1..])
    else if x.rest[0] != ',' then Malformed
    else
      var more := ReadItems(x.rest[1..]);
      if more.Malformed? then Malformed else Got([x.value] + more.value, more.rest)
  }

  /** A string, a colon and a value. */
  ghost function ReadPair(s: string): (r: Read<Pair>)
    ensures r.Got? ==> |r.rest| < |s|
    decreases |s|, 0
  {
    if s == "" || s[0] != '"' then Malformed
    else
      var k := ReadChars(s[1..]);
      if k.Malformed? || k.rest == "" || k.rest[0] != ':' then Malformed
      else
        var x := ReadValue(k.rest[1..]);
        if x.Malformed? then Malformed else Got(Pair(k.value, x.value), x.rest)
  }

  ghost function ReadPairs(s: string): (r: Read<seq<Pair>>)
    ensures r.Got? ==> |r.rest| < |s|
    decreases |s|, 1
  {
    var p := ReadPair(s);
    if p.Malformed? || p.rest == "" then Malformed
    else if p.rest[0] == '}' then Got([p.value], p.rest[1..])
    else if p.rest[0] != ',' then Malformed
    else
      var more := ReadPairs(p.rest[1..]);
      if more.Malformed? then Malformed else Got([p.value] + more.value, more.rest)
  }

  // --------------------------------------------------------------- reading back

  /** The text of an array or object after its opening bracket. */
  function Body(parts: seq<string>, close: char, s: string): string
    decreases |parts|, 0
  {
    if parts == [] then [close] + s else parts[0] + After(parts[1..], close, s)
  }

  /** ... and after one of its parts: the closing bracket, or a comma and more parts. */
  function After(parts: seq<string>, close: char, s: string): string
    decreases |parts|, 1
  {
    if parts == [] then [close] + s else "," + Body(parts, close, s)
  }

  lemma {:induction false} RestAsBody(parts: seq<string>, close: char, s: string)
    ensures JoinRest(parts) + ([close] + s) == After(parts, close, s)
  {
    var u := [close] + s;
    if parts == [] {
      assert "" + u == u;
    } else {
      RestAsBody(parts[1..], close, s);
      var x, r := parts[0], JoinRest(parts[1..]);
      assert ("," + x + r) + u == "," + (x + (r + u));
    }
  }

  lemma JoinAsBody(open: char, parts: seq<string>, close: char, s: string)
    ensures ([open] + Join(parts) + [close]) + s == [open] + Body(parts, close, s)
  {
    var u := [close] + s;
    if parts == [] {
      assert [open] + "" + [close] + s == [open] + u;
    } else {
      RestAsBody(parts[1..], close, s);
      var x, r := parts[0], JoinRest(parts[1..]);
      assert ([open] + (x + r) + [close]) + s == [open] + (x + (r + u));
    }
  }

  lemma AfterEnds(parts: seq<string>, close: char, s: string)
    requires close == ']' || close == '}'
    ensures NotDigitNext(After(parts, close, s))
  {}

  lemma {:induction false} ItemsRead(v: Json, xs: seq<Json>, s: string)
    requires xs != [] && forall i :: 0 <= i < |xs| ==> xs[i] < v
    ensures ReadItems(Body(Texts(xs), ']', s)) == Got(xs, s)
    decreases v, 0, |xs|
  {
    var rest := xs[1..];
    var after := After(Texts(rest), ']', s);
    assert Texts(xs)[1..] == Texts(rest);
    AfterEnds(Texts(rest), ']', s);
    ValueReads(xs[0], after);
    assert xs == [xs[0]] + rest && Body(Texts(xs), ']', s) == Canonical(xs[0]) + after;
    if rest == [] {
      assert Texts(rest) == [] && after == [']'] + s && xs == [xs[0]];
      ItemsEnd(Canonical(xs[0]), xs[0], s);
    } else {
      ItemsRead(v, rest, s);
      ItemsStep(Canonical(xs[0]), xs[0], Body(Texts(rest), ']', s));
    }
  }

  lemma ItemsEnd(text: string, x: Json, s: string)
    requires ReadValue(text + ([']'] + s)) == Got(x, [']'] + s)
    ensures ReadItems(text + ([']'] + s)) == Got([x], s)
  {}

  lemma ItemsStep(text: string, x: Json, t: string)
    requires ReadValue(text + ("," + t)) == Got(x, "," + t) && ReadItems(t).Got?
    ensures ReadItems(text + ("," + t)) == Got([x] + ReadItems(t).value, ReadItems(t).rest)
  {
    assert ("," + t)[1..] == t;
  }

  function PairsOf(ks: seq<string>, f: map<string, Json>): (r: seq<Pair>)
    requires KeysOf(ks, f)
    ensures |r| == |ks|
  {
    seq(|ks|, i requires 0 <= i < |ks| => Pair(ks[i], f[ks[i]]))
  }

  lemma Reassociate(a: string, b: string, c: string, s: string)
    ensures (a + b + c) + s == a + (b + (c + s))
  {}

  lemma PairReads(v: Json, k: string, x: Json, s: string)
    requires x < v && NotDigitNext(s)
    ensures ReadPair(PairText(k, x) + s) == Got(Pair(k, x), s)
    decreases v, 0, 0
  {
    var c := Canonical(x);
    var t := ":" + (c + s);
    Reassociate(Quote(k), ":", c, s);
    QuoteReads(k, t);
    ValueReads(x, s);
    PairStep(Quote(k) + t, k, c + s);
  }

  lemma PairStep(text: string, k: string, t: string)
    requires text != "" && text[0] == '"' && ReadChars(text[1..]) == Got(k, ":" + t) && ReadValue(t).Got?
    ensures ReadPair(text) == Got(Pair(k, ReadValue(t).value), ReadValue(t).rest)
  {
    assert (":" + t)[1..] == t;
  }

  lemma {:induction false} PairsRead(v: Json, ks: seq<string>, f: map<string, Json>, s: string)
    requires ks != [] && KeysOf(ks, f) && forall k :: k in f ==> f[k] < v
    ensures ReadPairs(Body(PairTexts(ks, f), '}', s)) == Got(PairsOf(ks, f), s)
    decreases v, 0, |ks|
  {
    var k, rest := ks[0], ks[1..];
    var after := After(PairTexts(rest, f), '}', s);
    assert PairTexts(ks, f)[1..] == PairTexts(rest, f);
    AfterEnds(PairTexts(rest, f), '}', s);
    PairReads(v, k, f[k], after);
    assert PairsOf(ks, f) == [Pair(k, f[k])] + PairsOf(rest, f);
    assert Body(PairTexts(ks, f), '}', s) == PairText(k, f[k]) + after;
    if rest == [] {
      assert PairTexts(rest, f) == [] && after == ['}'] + s && PairsOf(ks, f) == [Pair(k, f[k])];
      PairsEnd(PairText(k, f[k]), Pair(k, f[k]), s);
    } else {
      PairsRead(v, rest, f, s);
      PairsStep(PairText(k, f[k]), Pair(k, f[k]), Body(PairTexts(rest, f), '}', s));
    }
  }

  lemma PairsEnd(text: string, p: Pair, s: string)
    requires ReadPair(text + (['}'] + s)) == Got(p, ['}'] + s)
    ensures ReadPairs(text + (['}'] + s)) == Got([p], s)
  {}

  lemma PairsStep(text: string, p: Pair, t: string)
    requires ReadPair(text + ("," + t)) == Got(p, "," + t) && ReadPairs(t).Got?
    ensures ReadPairs(text + ("," + t)) == Got([p] + ReadPairs(t).value, ReadPairs(t).rest)
  {
    assert ("," + t)[1..] == t;
  }

  lemma {:induction false} FieldsOfPairs(ks: seq<string>, f: map<string, Json>)
    requires KeysOf(ks, f)
    ensures FieldsOf(PairsOf(ks, f)) == map k | k in f && k in ks :: f[k]
  {
    if ks != [] {
      FieldsOfPairs(ks[1..], f);
      assert PairsOf(ks, f)[1..] == PairsOf(ks[1..], f);
      assert forall k :: k in ks <==> k == ks[0] || k in ks[1..];
    }
  }

  lemma AllFields(f: map<string, Json>, ks: seq<string>)
    requires ks == SortedStrings(f.Keys)
    ensures KeysOf(ks, f) && FieldsOf(PairsOf(ks, f)) == f && InKeyOrder(PairsOf(ks, f))
    ensures ks == [] ==> f == map[]
  {
    assert forall i :: 0 <= i < |ks| ==> ks[i] in f.Keys;
    FieldsOfPairs(ks, f);
    assert (map k | k in f && k in ks :: f[k]) == f;
  }

  lemma ObjectReads(v: Json, f: map<string, Json>, s: string)
    requires forall k :: k in f ==> f[k] < v
    ensures ReadValue(Canonical(Obj(f)) + s) == Got(Obj(f), s)
    decreases v, 1
  {
    var ks := SortedStrings(f.Keys);
    AllFields(f, ks);
    ObjectText(f);
    JoinAsBody('{', PairTexts(ks, f), '}', s);
    if ks == [] {
      assert (['{'] + (['}'] + s))[2..] == s;
    } else {
      PairsRead(v, ks, f, s);
      BracesRead(Body(PairTexts(ks, f), '}', s), PairsOf(ks, f), s);
    }
  }

  lemma BracesRead(t: string, ps: seq<Pair>, s: string)
    requires ReadPairs(t) == Got(ps, s) && InKeyOrder(ps)
    ensures ReadValue(['{'] + t) == Got(Obj(FieldsOf(ps)), s)
  {
    assert (['{'] + t)[1..] == t;
    assert ReadPair(t).Got?;
  }

  lemma ArrayReads(v: Json, xs: seq<Json>, s: string)
    requires forall i :: 0 <= i < |xs| ==> xs[i] < v
    ensures ReadValue(Canonical(Arr(xs)) + s) == Got(Arr(xs), s)
    decreases v, 1
  {
    ArrayText(xs);
    JoinAsBody('[', Texts(xs), ']', s);
    var text := ['['] + Body(Texts(xs), ']', s);
    assert text[1..] == Body(Texts(xs), ']', s);
    if xs == [] {
      assert text[2..] == s;
    } else {
      ItemsRead(v, xs, s);
      assert ReadValue(text[1..]).Got?;
      assert text[1] != ']';
    }
  }

  lemma IntegerReads(n: int, s: string)
    requires NotDigitNext(s)
    ensures ReadValue(IntText(n) + s) == Got(Num(n), s)
  {
    NumberReads(n, s);
    assert (IntText(n) + s)[0] == IntText(n)[0];
  }

  lemma StringReads(x: string, s: string)
    ensures ReadValue(Quote(x) + s) == Got(Str(x), s)
  {
    QuoteReads(x, s);
  }

  lemma LiteralReads(v: Json, s: string)
    requires v.Null? || v.Bool?
    ensures ReadValue(Canonical(v) + s) == Got(v, s)
  {
    var t := Canonical(v) + s;
    assert t[..|Canonical(v)|] == Canonical(v) && t[|Canonical(v)|..] == s;
  }

  /** Every value is read back from the front of a text that starts with its canonical text, as
      long as the rest does not continue a number. */
  lemma {:induction false} ValueReads(v: Json, s: string)
    requires NotDigitNext(s)
    ensures ReadValue(Canonical(v) + s) == Got(v, s)
    decreases v, 2
  {
    match v
    case Num(n) => IntegerReads(n, s);
    case Str(x) => StringReads(x, s);
    case Arr(items) => ArrayReads(v, items, s);
    case Obj(fields) => ObjectReads(v, fields, s);
    case _ => LiteralReads(v, s);
  }

  /** A canonical text can be read off the front of a longer one: the value and the rest are
      determined, as long as the rest does not continue a number. */
  lemma Decodes(v: Json, w: Json, s: string, t: string)
    requires NotDigitNext(s) && NotDigitNext(t)
    requires Canonical(v) + s == Canonical(w) + t
    ensures v == w && s == t
  {
    ValueReads(v, s);
    ValueReads(w, t);
  }

  /** Equal canonical texts mean equal values. */
  lemma UniquelyDecodable(v: Json, w: Json)
    requires Canonical(v) == Canonical(w)
    ensures v == w
  {
    Decodes(v, w, "", "");
  }
}
