/** The canonical serializer of sdk/python/vrl/hashing.py: keys in code-point order, no
    whitespace, ASCII text. */
module CanonicalJson {
  import opened Ordering
  import opened Text

  /** JSON values without floats. A dictionary is a map: Python's equality and the
      serializer both ignore insertion order. */
  datatype Json =
    | Null
    | Bool(b: bool)
    | Num(n: int)
    | Str(s: string)
    | Arr(items: seq<Json>)
    | Obj(fields: map<string, Json>)

  // ------------------------------------------------------------------- strings

  predicate Plain(c: char) {
    ' ' <= c <= '~' && c != '"' && c != '\\'
  }

  /** The escapes with a letter of their own; 0 stands for none. */
  function ShortEscape(c: char): char {
    if c == '"' then '"'
    else if c == '\\' then '\\'
    else if c == '\n' then 'n'
    else if c == '\r' then 'r'
    else if c == '\t' then 't'
    else if c as int == 12 then 'f'
    else if c as int == 8 then 'b'
    else '\0'
  }

  function UnitEscape(u: nat): (s: string)
    requires u < 0x10000
    ensures |s| == 6 && s[0] == '\\' && s[1] == 'u' && s[2..] == HexText(u, 4)
  {
    "\\u" + HexText(u, 4)
  }

  function HighSurrogate(code: nat): (u: nat)
    requires 0x10000 <= code < 0x110000
    ensures 0xD800 <= u < 0xDC00
  {
    0xD800 + (code - 0x10000) / 0x400
  }

  function LowSurrogate(code: nat): (u: nat)
    requires 0x10000 <= code < 0x110000
    ensures 0xDC00 <= u < 0xE000
  {
    0xDC00 + (code - 0x10000) % 0x400
  }

  /** What `json.dumps(..., ensure_ascii=True)` writes for one character. */
  function Escape(c: char): string {
    var code := c as int;
    if Plain(c) then [c]
    else if ShortEscape(c) != '\0' then ['\\', ShortEscape(c)]
    else if code < 0x10000 then UnitEscape(code)
    else UnitEscape(HighSurrogate(code)) + UnitEscape(LowSurrogate(code))
  }

  function Escaped(s: string): string {
    if s == "" then "" else Escape(s[0]) + Escaped(s[1..])
  }

  function Quote(s: string): string {
    "\"" + Escaped(s) + "\""
  }

  // ------------------------------------------------------------------ serializer

  /** Python's `','.join(parts)`. */
  function Join(parts: seq<string>): string {
    if parts == [] then "" else parts[0] + JoinRest(parts[1..])
  }

  function JoinRest(parts: seq<string>): string {
    if parts == [] then "" else "," + parts[0] + JoinRest(parts[1..])
  }

  function PairText(k: string, v: Json): string
    decreases v, 1
  {
    Quote(k) + ":" + Canonical(v)
  }

  function Canonical(v: Json): string
    decreases v, 0
  {
    match v
    case Null => "null"
    case Bool(b) => if b then "true" else "false"
    case Num(n) => IntText(n)
    case Str(s) => Quote(s)
    case Arr(items) =>
      "[" + Join(seq(|items|, i requires 0 <= i < |items| => Canonical(items[i]))) + "]"
    case Obj(fields) =>
      var keys := SortedStrings(fields.Keys);
      "{" + Join(seq(|keys|, i requires 0 <= i < |keys| =>
        assert keys[i] in fields.Keys;
        PairText(keys[i], fields[keys[i]]))) + "}"
  }

  function Texts(items: seq<Json>): seq<string> {
    seq(|items|, i requires 0 <= i < |items| => Canonical(items[i]))
  }

  ghost predicate KeysOf(ks: seq<string>, f: map<string, Json>) {
    forall i :: 0 <= i < |ks| ==> ks[i] in f
  }

  function PairTexts(ks: seq<string>, f: map<string, Json>): (r: seq<string>)
    requires KeysOf(ks, f)
    ensures |r| == |ks|
  {
    seq(|ks|, i requires 0 <= i < |ks| => PairText(ks[i], f[ks[i]]))
  }

  lemma ArrayText(items: seq<Json>)
    ensures Canonical(Arr(items)) == "[" + Join(Texts(items)) + "]"
  {}

  lemma ObjectText(fields: map<string, Json>)
    ensures KeysOf(SortedStrings(fields.Keys), fields)
    ensures Canonical(Obj(fields)) == "{" + Join(PairTexts(SortedStrings(fields.Keys), fields)) + "}"
  {
    var keys := SortedStrings(fields.Keys);
    assert forall i :: 0 <= i < |keys| ==> keys[i] in fields.Keys;
    assert PairTexts(keys, fields) == seq(|keys|, i requires 0 <= i < |keys| =>
      assert keys[i] in fields.Keys;
      PairText(keys[i], fields[keys[i]]));
  }

  /** The serializer as the source writes it: recursion, with a loop over the sorted items
      of an object that appends to a list of pairs. */
  method CanonicalText(v: Json) returns (text: string)
    ensures text == Canonical(v)
    decreases v, 1
  {
    match v
    case Obj(fields) => text := CanonicalObject(v, fields);
    case Arr(items) => text := CanonicalArray(v, items);
    case Str(s) => text := Quote(s);
    case Bool(b) => text := if b then "true" else "false";
    case Null => text := "null";
    case Num(n) => text := IntText(n);
  }

  method CanonicalObject(v: Json, fields: map<string, Json>) returns (text: string)
    requires v == Obj(fields)
    ensures text == Canonical(v)
    decreases v, 0, 1
  {
    var keys := SortedStrings(fields.Keys);
    ObjectText(fields);
    var pairs := CanonicalPairs(v, fields, keys);
    text := "{" + Join(pairs) + "}";
  }

  method CanonicalPairs(ghost v: Json, fields: map<string, Json>, keys: seq<string>) returns (pairs: seq<string>)
    requires KeysOf(keys, fields) && forall k :: k in fields ==> fields[k] < v
    ensures pairs == PairTexts(keys, fields)
    decreases v, 0, 0
  {
    pairs := [];
    for i := 0 to |keys|
      invariant |pairs| == i && forall k :: 0 <= k < i ==> pairs[k] == PairTexts(keys, fields)[k]
    {
      var value := CanonicalText(fields[keys[i]]);
      pairs := pairs + [Quote(keys[i]) + ":" + value];
    }
  }

  method CanonicalArray(v: Json, items: seq<Json>) returns (text: string)
    requires v == Arr(items)
    ensures text == Canonical(v)
    decreases v, 0
  {
    var texts: seq<string> := [];
    for i := 0 to |items|
      invariant texts == Texts(items)[..i]
    {
      var item := CanonicalText(items[i]);
      texts := texts + [item];
    }
    ArrayText(items);
    assert texts == Texts(items);
    text := "[" + Join(texts) + "]";
  }
}
