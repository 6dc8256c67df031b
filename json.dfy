/**
 * The JSON text of the envelope (RFC 8259, section 2 for the grammar).
 *
 * `Json` is the value a Python program hands to `json.dumps` or gets back
 * from `json.loads`: objects are key/value members in insertion order, as a
 * Python dict keeps them. `Serialize` writes what `json.dumps` writes with its
 * default separators (", " and ": ") and its default `ensure_ascii`, which
 * writes every character outside printable ASCII as a \u escape; `Parse`
 * reads RFC 8259 text the way `json.loads` does, folding repeated keys of
 * an object into one member as `dict(pairs)` does.
 * Numbers are integers only.
 */
module Json {
  import opened Wrappers

  datatype Json =
    | Null
    | Bool(b: bool)
    | Int(i: int)
    | Str(s: string)
    | Arr(items: seq<Json>)
    | Obj(fields: seq<Member>)

  datatype Member = Member(key: string, value: Json)

  // ---------------------------------------------------------------------
  // Objects as Python dicts
  // ---------------------------------------------------------------------

  predicate DistinctKeys(fields: seq<Member>) {
    forall i, j :: 0 <= i < j < |fields| ==> fields[i].key != fields[j].key
  }

  predicate HasKey(fields: seq<Member>, k: string) {
    exists i :: 0 <= i < |fields| && fields[i].key == k
  }

  /** `d.get(k)`: the value of the first member named `k`. */
  function Lookup(fields: seq<Member>, k: string): (r: Option<Json>)
    ensures r.Some? <==> HasKey(fields, k)
    ensures r.Some? ==> exists i :: 0 <= i < |fields| && fields[i] == Member(k, r.value)
  {
    if fields == [] then None
    else if fields[0].key == k then Some(fields[0].value)
    else
      var r := Lookup(fields[1..], k);
      assert forall i :: 0 <= i < |fields[1..]| ==> fields[1..][i] == fields[i + 1];
      assert HasKey(fields, k) ==> HasKey(fields[1..], k) by {
        if HasKey(fields, k) {
          var i :| 0 <= i < |fields| && fields[i].key == k;
          assert fields[1..][i - 1].key == k;
        }
      }
      r
  }

  /** The value the last member named `k` carries: what a dict built from the pairs keeps. */
  function LastValue(pairs: seq<Member>, k: string): Option<Json> {
    if pairs == [] then None
    else
      match LastValue(pairs[1..], k)
      case Some(v) => Some(v)
      case None => if pairs[0].key == k then Some(pairs[0].value) else None
  }

  /** Every object inside the value has distinct keys: the value is one a Python program can hold. */
  predicate WellFormed(v: Json) {
    match v
    case Arr(items) => forall i :: 0 <= i < |items| ==> WellFormed(items[i])
    case Obj(fields) => DistinctKeys(fields) && forall i :: 0 <= i < |fields| ==> WellFormed(fields[i].value)
    case _ => true
  }

  /** `d[m.key] = m.value`: an existing key keeps its position and takes the new value. */
  function Upsert(fields: seq<Member>, m: Member): (r: seq<Member>)
    ensures forall k :: Lookup(r, k) == if k == m.key then Some(m.value) else Lookup(fields, k)
    ensures DistinctKeys(fields) ==> DistinctKeys(r)
    ensures !HasKey(fields, m.key) ==> r == fields + [m]
    ensures forall i :: 0 <= i < |r| ==> r[i] == m || r[i] in fields
  {
    if fields == [] then [m]
    else if fields[0].key == m.key then [m] + fields[1..]
    else
      var tail := Upsert(fields[1..], m);
      UpsertKeepsHead(fields, m, tail);
      UpsertDistinct(fields, m, tail);
      UpsertAppends(fields, m, tail);
      [fields[0]] + tail
  }

  /** Putting back a head member whose key is not the one written keeps every lookup of the tail's update. */
  lemma UpsertKeepsHead(fields: seq<Member>, m: Member, tail: seq<Member>)
    requires fields != [] && fields[0].key != m.key
    requires forall k :: Lookup(tail, k) == if k == m.key then Some(m.value) else Lookup(fields[1..], k)
    ensures forall k :: Lookup([fields[0]] + tail, k) == if k == m.key then Some(m.value) else Lookup(fields, k)
  {
    forall k ensures Lookup([fields[0]] + tail, k) == if k == m.key then Some(m.value) else Lookup(fields, k) {
      assert ([fields[0]] + tail)[1..] == tail;
    }
  }

  lemma UpsertDistinct(fields: seq<Member>, m: Member, tail: seq<Member>)
    requires fields != [] && fields[0].key != m.key
    requires DistinctKeys(fields[1..]) ==> DistinctKeys(tail)
    requires forall i :: 0 <= i < |tail| ==> tail[i] == m || tail[i] in fields[1..]
    ensures DistinctKeys(fields) ==> DistinctKeys([fields[0]] + tail)
  {
    if DistinctKeys(fields) {
      assert DistinctKeys(fields[1..]) by {
        forall i, j | 0 <= i < j < |fields[1..]| ensures fields[1..][i].key != fields[1..][j].key {
          assert fields[1..][i] == fields[i + 1] && fields[1..][j] == fields[j + 1];
        }
      }
      forall i | 0 <= i < |tail| ensures tail[i].key != fields[0].key {
        if tail[i] != m {
          var j :| 0 <= j < |fields[1..]| && fields[1..][j] == tail[i];
          assert fields[j + 1] == tail[i];
        }
      }
      var r := [fields[0]] + tail;
      forall i, j | 0 <= i < j < |r| ensures r[i].key != r[j].key {
        if i == 0 {
          assert r[j] == tail[j - 1];
        } else {
          assert r[i] == tail[i - 1] && r[j] == tail[j - 1];
        }
      }
    }
  }

  lemma UpsertAppends(fields: seq<Member>, m: Member, tail: seq<Member>)
    requires fields != []
    requires !HasKey(fields[1..], m.key) ==> tail == fields[1..] + [m]
    ensures !HasKey(fields, m.key) ==> [fields[0]] + tail == fields + [m]
  {
    if !HasKey(fields, m.key) {
      forall i | 0 <= i < |fields[1..]| ensures fields[1..][i].key != m.key {
        assert fields[1..][i] == fields[i + 1];
      }
      assert [fields[0]] + (fields[1..] + [m]) == fields + [m];
    }
  }

  /** `dict(pairs)` starting from the members already in `acc`. */
  function Collapse(acc: seq<Member>, pairs: seq<Member>): (r: seq<Member>)
    ensures forall k :: Lookup(r, k) == (if LastValue(pairs, k).Some? then LastValue(pairs, k) else Lookup(acc, k))
    ensures DistinctKeys(acc) ==> DistinctKeys(r)
    ensures forall i :: 0 <= i < |r| ==> r[i] in acc || r[i] in pairs
    decreases |pairs|
  {
    if pairs == [] then acc
    else
      var r := Collapse(Upsert(acc, pairs[0]), pairs[1..]);
      assert forall m :: m in pairs[1..] ==> m in pairs;
      r
  }

  /** Folding members whose keys are already distinct changes nothing. */
  lemma {:induction false} CollapseDistinct(acc: seq<Member>, pairs: seq<Member>)
    requires DistinctKeys(acc + pairs)
    ensures Collapse(acc, pairs) == acc + pairs
    decreases |pairs|
  {
    if pairs != [] {
      var all := acc + pairs;
      forall i | 0 <= i < |acc| ensures acc[i].key != pairs[0].key {
        assert all[i] == acc[i] && all[|acc|] == pairs[0];
      }
      assert Upsert(acc, pairs[0]) == acc + [pairs[0]];
      assert (acc + [pairs[0]]) + pairs[1..] == all;
      CollapseDistinct(acc + [pairs[0]], pairs[1..]);
    }
  }

  // ---------------------------------------------------------------------
  // Serialisation (json.dumps)
  // ---------------------------------------------------------------------

  predicate IsDigit(c: char) {
    '0' <= c <= '9'
  }

  predicate IsWhitespace(c: char) {
    c == ' ' || c == '\t' || c == '\n' || c == '\r'
  }

  function DigitChar(d: nat): (c: char)
    requires d < 10
    ensures IsDigit(c) && c as int - '0' as int == d
  {
    ('0' as int + d) as char
  }

  /** Decimal digits of `n`, most significant first, without leading zeros. */
  function NatText(n: nat): (s: string)
    ensures |s| > 0 && (s[0] == '0' ==> n == 0)
    ensures forall i :: 0 <= i < |s| ==> IsDigit(s[i])
  {
    if n < 10 then [DigitChar(n)] else NatText(n / 10) + [DigitChar(n % 10)]
  }

  /** What `repr` writes for a Python int. */
  function IntText(i: int): string {
    if i < 0 then "-" + NatText(-i) else NatText(i)
  }

  /** A lower-case hexadecimal digit, as Python writes in \u escapes. */
  function HexDigit(d: nat): char
    requires d < 16
  {
    if d < 10 then ('0' as int + d) as char else ('a' as int + d - 10) as char
  }

  /** `\uXXXX` with four lower-case hexadecimal digits, for one UTF-16 code unit. */
  function UnicodeEscape(u: nat): string
    requires u < 0x1_0000
  {
    "\\u" + HexDigits(u, 4)
  }

  /** The last `count` hexadecimal digits of `u`, most significant first. */
  function HexDigits(u: nat, count: nat): (s: string)
    ensures |s| == count
  {
    if count == 0 then [] else HexDigits(u / 16, count - 1) + [HexDigit(u % 16)]
  }

  /**
   * One character inside a JSON string, as `json.dumps` writes it by default
   * (`ensure_ascii`): quote and backslash are escaped, the five control
   * characters with a short form use it, printable ASCII is written as is, and
   * every other character becomes a \u escape of its UTF-16 code units (a
   * surrogate pair above U+FFFF).
   */
  function EscapeChar(c: char): string {
    if c == '"' then "\\\""
    else if c == '\\' then "\\\\"
    else if c == '\n' then "\\n"
    else if c == '\r' then "\\r"
    else if c == '\t' then "\\t"
    else if c == '\U{0008}' then "\\b"
    else if c == '\U{000C}' then "\\f"
    else if ' ' <= c <= '~' then [c]
    else EscapeUnits(CodeUnits(c))
  }

  /** The UTF-16 code units of `c`: itself, or a surrogate pair above U+FFFF. */
  function CodeUnits(c: char): (us: seq<nat>)
    ensures forall i :: 0 <= i < |us| ==> us[i] < 0x1_0000
  {
    if c as int < 0x1_0000 then [c as int]
    else
      var v := c as int - 0x1_0000;
      [0xD800 + v / 0x400, 0xDC00 + v % 0x400]
  }

  /** One \u escape per code unit. */
  function EscapeUnits(us: seq<nat>): string
    requires forall i :: 0 <= i < |us| ==> us[i] < 0x1_0000
  {
    if us == [] then [] else UnicodeEscape(us[0]) + EscapeUnits(us[1..])
  }

  function Escape(s: string): string {
    if s == [] then "" else EscapeChar(s[0]) + Escape(s[1..])
  }

  function Quote(s: string): string {
    "\"" + Escape(s) + "\""
  }

  /**
   * `json.dumps(v)` with its defaults: the text's first character names the
   * kind of value, which is how the parser chooses a production.
   */
  function Serialize(v: Json): (r: string)
    ensures r != []
    ensures r[0] == '[' <==> v.Arr?
    ensures r[0] == '{' <==> v.Obj?
    ensures r[0] == '"' <==> v.Str?
    ensures r[0] == '-' || IsDigit(r[0]) <==> v.Int?
  {
    match v
    case Null => "null"
    case Bool(b) => if b then "true" else "false"
    case Int(i) => IntText(i)
    case Str(s) => Quote(s)
    case Arr(items) => "[" + SerializeItems(items) + "]"
    case Obj(fields) => "{" + SerializeMembers(fields) + "}"
  }

  function SerializeItems(items: seq<Json>): string {
    if items == [] then ""
    else if |items| == 1 then Serialize(items[0])
    else Serialize(items[0]) + ", " + SerializeItems(items[1..])
  }

  function SerializeMembers(fields: seq<Member>): string {
    if fields == [] then ""
    else if |fields| == 1 then MemberText(fields[0])
    else MemberText(fields[0]) + ", " + SerializeMembers(fields[1..])
  }

  function MemberText(m: Member): string {
    Quote(m.key) + ": " + Serialize(m.value)
  }

  // ---------------------------------------------------------------------
  // The serialised text is ASCII
  // ---------------------------------------------------------------------

  predicate Ascii(s: string) {
    forall i :: 0 <= i < |s| ==> s[i] as int < 0x80
  }

  lemma AsciiConcat(a: string, b: string)
    requires Ascii(a) && Ascii(b)
    ensures Ascii(a + b)
  {
    forall i | 0 <= i < |a + b| ensures (a + b)[i] as int < 0x80 {
      if i >= |a| {
        assert (a + b)[i] == b[i - |a|];
      }
    }
  }

  lemma {:induction false} HexDigitsAscii(u: nat, count: nat)
    ensures Ascii(HexDigits(u, count))
  {
    if count > 0 {
      HexDigitsAscii(u / 16, count - 1);
      AsciiConcat(HexDigits(u / 16, count - 1), [HexDigit(u % 16)]);
    }
  }

  lemma {:induction false} EscapeUnitsAscii(us: seq<nat>)
    requires forall i :: 0 <= i < |us| ==> us[i] < 0x1_0000
    ensures Ascii(EscapeUnits(us))
  {
    if us != [] {
      HexDigitsAscii(us[0], 4);
      AsciiConcat("\\u", HexDigits(us[0], 4));
      EscapeUnitsAscii(us[1..]);
      AsciiConcat(UnicodeEscape(us[0]), EscapeUnits(us[1..]));
    }
  }

  lemma EscapeCharAscii(c: char)
    ensures Ascii(EscapeChar(c))
  {
    if !(' ' <= c <= '~') {
      EscapeUnitsAscii(CodeUnits(c));
    }
  }

  lemma {:induction false} EscapeAscii(s: string)
    ensures Ascii(Escape(s))
  {
    if s != [] {
      EscapeCharAscii(s[0]);
      EscapeAscii(s[1..]);
      AsciiConcat(EscapeChar(s[0]), Escape(s[1..]));
    }
  }

  lemma QuoteAscii(s: string)
    ensures Ascii(Quote(s))
  {
    EscapeAscii(s);
    AsciiConcat("\"", Escape(s));
    AsciiConcat("\"" + Escape(s), "\"");
  }

  /** With `ensure_ascii`, `json.dumps` writes only ASCII characters. */
  lemma {:induction false} SerializeAscii(v: Json)
    ensures Ascii(Serialize(v))
    decreases v, 1
  {
    match v
    case Null =>
    case Bool(_) =>
    case Int(i) =>
      assert Ascii(NatText(if i < 0 then -i else i));
      if i < 0 {
        AsciiConcat("-", NatText(-i));
      }
    case Str(text) => QuoteAscii(text);
    case Arr(items) =>
      ItemsAscii(items);
      AsciiConcat("[", SerializeItems(items));
      AsciiConcat("[" + SerializeItems(items), "]");
    case Obj(fields) =>
      MembersAscii(fields);
      AsciiConcat("{", SerializeMembers(fields));
      AsciiConcat("{" + SerializeMembers(fields), "}");
  }

  lemma {:induction false} ItemsAscii(items: seq<Json>)
    ensures Ascii(SerializeItems(items))
    decreases items, 0
  {
    if items != [] {
      SerializeAscii(items[0]);
      if |items| > 1 {
        ItemsAscii(items[1..]);
        AsciiConcat(Serialize(items[0]), ", ");
        AsciiConcat(Serialize(items[0]) + ", ", SerializeItems(items[1..]));
      }
    }
  }

  lemma {:induction false} MembersAscii(fields: seq<Member>)
    ensures Ascii(SerializeMembers(fields))
    decreases fields, 0
  {
    if fields != [] {
      var m := fields[0];
      assert m.value < m;
      SerializeAscii(m.value);
      QuoteAscii(m.key);
      AsciiConcat(Quote(m.key), ": ");
      AsciiConcat(Quote(m.key) + ": ", Serialize(m.value));
      if |fields| > 1 {
        MembersAscii(fields[1..]);
        AsciiConcat(MemberText(m), ", ");
        AsciiConcat(MemberText(m) + ", ", SerializeMembers(fields[1..]));
      }
    }
  }

  // ---------------------------------------------------------------------
  // Parsing (json.loads)
  // ---------------------------------------------------------------------

  /** Drops leading insignificant whitespace (space, tab, line feed, carriage return). */
  function SkipWs(s: string): (r: string)
    ensures |r| <= |s|
  {
    if s != [] && IsWhitespace(s[0]) then SkipWs(s[1..]) else s
  }

  /** The length of the run of decimal digits at the head of `s`. */
  function DigitCount(s: string): (n: nat)
    ensures n <= |s|
    ensures forall i :: 0 <= i < n ==> IsDigit(s[i])
    ensures n < |s| ==> !IsDigit(s[n])
  {
    if s != [] && IsDigit(s[0]) then 1 + DigitCount(s[1..]) else 0
  }

  function DigitsValue(ds: string): nat
    requires forall i :: 0 <= i < |ds| ==> IsDigit(ds[i])
  {
    if ds == [] then 0
    else
      var last := ds[|ds| - 1];
      assert IsDigit(last);
      10 * DigitsValue(ds[..|ds| - 1]) + (last as int - '0' as int)
  }

  /** `0` or a digit run not starting with `0` (the int production of section 6 of RFC 8259). */
  function ParseNat(s: string): (r: Option<(nat, string)>)
    ensures r.Some? ==> |r.value.1| < |s|
  {
    if s == [] || !IsDigit(s[0]) then None
    else if s[0] == '0' then Some((0, s[1..]))
    else
      var n := DigitCount(s);
      Some((DigitsValue(s[..n]), s[n..]))
  }

  function ParseInt(s: string): (r: Option<(Json, string)>)
    ensures r.Some? ==> |r.value.1| < |s|
  {
    if s != [] && s[0] == '-' then
      match ParseNat(s[1..])
      case None => None
      case Some((n, rest)) => Some((Int(-(n as int)), rest))
    else
      match ParseNat(s)
      case None => None
      case Some((n, rest)) => Some((Int(n), rest))
  }

  function HexValue(c: char): Option<nat> {
    if '0' <= c <= '9' then Some(c as int - '0' as int)
    else if 'a' <= c <= 'f' then Some(c as int - 'a' as int + 10)
    else if 'A' <= c <= 'F' then Some(c as int - 'A' as int + 10)
    else None
  }

  /** The code unit written by the four hex digits of a \u escape. */
  function Hex4(s: string): (r: Option<nat>)
    requires |s| == 4
    ensures r.Some? ==> r.value < 0x1_0000
  {
    match (HexValue(s[0]), HexValue(s[1]), HexValue(s[2]), HexValue(s[3]))
    case (Some(a), Some(b), Some(c), Some(d)) =>
      if a < 16 && b < 16 && c < 16 && d < 16 then Some(((a * 16 + b) * 16 + c) * 16 + d) else None
    case _ => None
  }

  /**
   * One character of a string body, with the number of text characters it
   * took. A high surrogate escape must be followed by a low one; the pair
   * stands for one character. A lone surrogate cannot be a `char`.
   */
  function CharToken(s: string): (r: Option<(char, nat)>)
    requires s != [] && s[0] != '"'
    ensures r.Some? ==> 1 <= r.value.1 <= |s|
  {
    if s[0] == '\\' then
      if |s| < 2 then None
      else if s[1] == '"' then Some(('"', 2))
      else if s[1] == '\\' then Some(('\\', 2))
      else if s[1] == '/' then Some(('/', 2))
      else if s[1] == 'b' then Some(('\U{0008}', 2))
      else if s[1] == 'f' then Some(('\U{000C}', 2))
      else if s[1] == 'n' then Some(('\n', 2))
      else if s[1] == 'r' then Some(('\r', 2))
      else if s[1] == 't' then Some(('\t', 2))
      else if s[1] == 'u' && |s| >= 6 then
        match Hex4(s[2..6])
        case None => None
        case Some(u) =>
          if u < 0xD800 || 0xE000 <= u then Some((u as char, 6))
          else if 0xDC00 <= u || |s| < 12 || s[6..8] != "\\u" then None
          else
            match Hex4(s[8..12])
            case None => None
            case Some(lo) =>
              if 0xDC00 <= lo < 0xE000 then
                Some(((0x1_0000 + (u - 0xD800) * 0x400 + (lo - 0xDC00)) as char, 12))
              else None
      else None
    else if s[0] < ' ' then None
    else Some((s[0], 1))
  }

  /** The body of a string whose opening quote is consumed, and the text after its closing quote. */
  function ParseChars(s: string): (r: Option<(string, string)>)
    ensures r.Some? ==> |r.value.1| < |s|
    decreases |s|
  {
    if s == [] then None
    else if s[0] == '"' then Some(([], s[1..]))
    else
      match CharToken(s)
      case None => None
      case Some((c, n)) =>
        match ParseChars(s[n..])
        case None => None
        case Some((cs, rest)) => Some(([c] + cs, rest))
  }

  function ParseLiteral(s: string, word: string, v: Json): (r: Option<(Json, string)>)
    requires |word| > 0
    ensures r.Some? ==> |r.value.1| < |s|
  {
    if |s| >= |word| && s[..|word|] == word then Some((v, s[|word|..])) else None
  }

  /** One value after optional whitespace, and the text after it. */
  function ParseValue(s: string): (r: Option<(Json, string)>)
    ensures r.Some? ==> |r.value.1| < |s|
    decreases |s|, 1
  {
    ParseToken(SkipWs(s))
  }

  /** One value starting right at the head of `t`; its first character selects the production. */
  function ParseToken(t: string): (r: Option<(Json, string)>)
    ensures r.Some? ==> |r.value.1| < |t|
    decreases |t|, 0
  {
    if t == [] then None
    else if t[0] == 'n' then ParseLiteral(t, "null", Null)
    else if t[0] == 't' then ParseLiteral(t, "true", Bool(true))
    else if t[0] == 'f' then ParseLiteral(t, "false", Bool(false))
    else if t[0] == '"' then ParseString(t[1..])
    else if t[0] == '[' then ParseArray(t[1..])
    else if t[0] == '{' then ParseObject(t[1..])
    else ParseInt(t)
  }

  function ParseString(s: string): (r: Option<(Json, string)>)
    ensures r.Some? ==> |r.value.1| < |s|
  {
    match ParseChars(s)
    case None => None
    case Some((cs, rest)) => Some((Str(cs), rest))
  }

  /** The rest of an array whose `[` is consumed. */
  function ParseArray(s: string): (r: Option<(Json, string)>)
    ensures r.Some? ==> |r.value.1| < |s|
    decreases |s|, 3
  {
    var t := SkipWs(s);
    if t != [] && t[0] == ']' then Some((Arr([]), t[1..]))
    else ParseElements(t, [])
  }

  /** Elements after `[` or `,`, appended to the ones already read. */
  function ParseElements(s: string, acc: seq<Json>): (r: Option<(Json, string)>)
    ensures r.Some? ==> |r.value.1| < |s|
    decreases |s|, 2
  {
    match ParseValue(s)
    case None => None
    case Some((v, rest)) =>
      var t := SkipWs(rest);
      if t == [] then None
      else if t[0] == ',' then ParseElements(t[1..], acc + [v])
      else if t[0] == ']' then Some((Arr(acc + [v]), t[1..]))
      else None
  }

  /** The rest of an object whose `{` is consumed. */
  function ParseObject(s: string): (r: Option<(Json, string)>)
    ensures r.Some? ==> |r.value.1| < |s|
    decreases |s|, 4
  {
    var t := SkipWs(s);
    if t != [] && t[0] == '}' then Some((Obj([]), t[1..]))
    else ParseMembers(t, [])
  }

  /** One `"key": value` member. */
  function ParseMember(s: string): (r: Option<(Member, string)>)
    ensures r.Some? ==> |r.value.1| < |s|
    decreases |s|, 2
  {
    var t := SkipWs(s);
    if t == [] || t[0] != '"' then None
    else
      match ParseChars(t[1..])
      case None => None
      case Some((key, afterKey)) =>
        match ParseColonValue(afterKey)
        case None => None
        case Some((v, rest)) => Some((Member(key, v), rest))
  }

  /** The `: value` part of a member. */
  function ParseColonValue(s: string): (r: Option<(Json, string)>)
    ensures r.Some? ==> |r.value.1| < |s|
    decreases |s|, 2
  {
    var u := SkipWs(s);
    if u == [] || u[0] != ':' then None else ParseValue(u[1..])
  }

  /** Members after `{` or `,`; the pairs read so far are folded into a dict at the closing brace. */
  function ParseMembers(s: string, acc: seq<Member>): (r: Option<(Json, string)>)
    ensures r.Some? ==> |r.value.1| < |s|
    decreases |s|, 3
  {
    match ParseMember(s)
    case None => None
    case Some((m, rest)) =>
      var pairs := acc + [m];
      var w := SkipWs(rest);
      if w == [] then None
      else if w[0] == ',' then ParseMembers(w[1..], pairs)
      else if w[0] == '}' then
        var fields := Collapse([], pairs);
        assert forall i :: 0 <= i < |fields| ==> fields[i] in pairs;
        Some((Obj(fields), w[1..]))
      else None
  }

  /** `json.loads`: one value, with nothing but whitespace around it. */
  function Parse(s: string): (r: Option<Json>) {
    match ParseValue(s)
    case None => None
    case Some((v, rest)) => if SkipWs(rest) == [] then Some(v) else None
  }

  /** `json.loads` builds dicts: every object it returns, at any depth, has distinct keys. */
  lemma ParseWellFormed(s: string)
    ensures Parse(s).Some? ==> WellFormed(Parse(s).value)
  {
    ValueWellFormed(s);
  }

  lemma {:induction false} ValueWellFormed(s: string)
    ensures ParseValue(s).Some? ==> WellFormed(ParseValue(s).value.0)
    decreases |s|, 1
  {
    TokenWellFormed(SkipWs(s));
  }

  lemma {:induction false} TokenWellFormed(t: string)
    ensures ParseToken(t).Some? ==> WellFormed(ParseToken(t).value.0)
    decreases |t|, 0
  {
    if t != [] && t[0] == '[' {
      ArrayWellFormed(t[1..]);
    } else if t != [] && t[0] == '{' {
      ObjectWellFormed(t[1..]);
    }
  }

  lemma {:induction false} ArrayWellFormed(s: string)
    ensures ParseArray(s).Some? ==> WellFormed(ParseArray(s).value.0)
    decreases |s|, 3
  {
    ElementsWellFormed(SkipWs(s), []);
  }

  lemma {:induction false} ElementsWellFormed(s: string, acc: seq<Json>)
    requires forall i :: 0 <= i < |acc| ==> WellFormed(acc[i])
    ensures ParseElements(s, acc).Some? ==> WellFormed(ParseElements(s, acc).value.0)
    decreases |s|, 2
  {
    ValueWellFormed(s);
    match ParseValue(s)
    case None =>
    case Some((v, rest)) =>
      var items := acc + [v];
      assert forall i :: 0 <= i < |items| ==> WellFormed(items[i]) by {
        forall i | 0 <= i < |items| ensures WellFormed(items[i]) {
          if i < |acc| {
            assert items[i] == acc[i];
          }
        }
      }
      var t := SkipWs(rest);
      if t != [] && t[0] == ',' {
        ElementsWellFormed(t[1..], items);
      }
  }

  lemma {:induction false} ObjectWellFormed(s: string)
    ensures ParseObject(s).Some? ==> WellFormed(ParseObject(s).value.0)
    decreases |s|, 4
  {
    MembersWellFormed(SkipWs(s), []);
  }

  lemma {:induction false} MembersWellFormed(s: string, acc: seq<Member>)
    requires forall i :: 0 <= i < |acc| ==> WellFormed(acc[i].value)
    ensures ParseMembers(s, acc).Some? ==> WellFormed(ParseMembers(s, acc).value.0)
    decreases |s|, 3
  {
    MemberWellFormed(s);
    match ParseMember(s)
    case None =>
    case Some((m, rest)) =>
      var pairs := acc + [m];
      assert forall i :: 0 <= i < |pairs| ==> WellFormed(pairs[i].value) by {
        forall i | 0 <= i < |pairs| ensures WellFormed(pairs[i].value) {
          if i < |acc| {
            assert pairs[i] == acc[i];
          }
        }
      }
      var w := SkipWs(rest);
      if w != [] && w[0] == ',' {
        MembersWellFormed(w[1..], pairs);
      } else if w != [] && w[0] == '}' {
        var fields := Collapse([], pairs);
        forall i | 0 <= i < |fields| ensures WellFormed(fields[i].value) {
          var j :| 0 <= j < |pairs| && pairs[j] == fields[i];
        }
        assert WellFormed(Obj(fields));
      }
  }

  lemma {:induction false} MemberWellFormed(s: string)
    ensures ParseMember(s).Some? ==> WellFormed(ParseMember(s).value.0.value)
    decreases |s|, 2
  {
    var t := SkipWs(s);
    if t != [] && t[0] == '"' {
      match ParseChars(t[1..])
      case None =>
      case Some((key, afterKey)) => ColonWellFormed(afterKey);
    }
  }

  lemma {:induction false} ColonWellFormed(s: string)
    ensures ParseColonValue(s).Some? ==> WellFormed(ParseColonValue(s).value.0)
    decreases |s|, 2
  {
    var u := SkipWs(s);
    if u != [] && u[0] == ':' {
      ValueWellFormed(u[1..]);
    }
  }

  // ---------------------------------------------------------------------
  // Round trip: Parse(Serialize(v)) == v
  // ---------------------------------------------------------------------

  /** What may follow a serialised value without being read as part of it. */
  predicate Delimits(rest: string) {
    rest == [] || !IsDigit(rest[0])
  }

  lemma {:induction false} DigitsValueNatText(n: nat)
    ensures DigitsValue(NatText(n)) == n
  {
    var ds := NatText(n);
    if n >= 10 {
      assert ds[..|ds| - 1] == NatText(n / 10);
      DigitsValueNatText(n / 10);
    }
  }

  lemma {:induction false} DigitCountDigits(ds: string, rest: string)
    requires forall i :: 0 <= i < |ds| ==> IsDigit(ds[i])
    requires Delimits(rest)
    ensures DigitCount(ds + rest) == |ds|
  {
    if ds != [] {
      assert (ds + rest)[1..] == ds[1..] + rest;
      DigitCountDigits(ds[1..], rest);
    }
  }

  lemma ParseNatText(n: nat, rest: string)
    requires Delimits(rest)
    ensures ParseNat(NatText(n) + rest) == Some((n, rest))
  {
    var ds := NatText(n);
    var s := ds + rest;
    assert s[0] == ds[0];
    if n == 0 {
      assert ds == "0";
    } else {
      DigitCountDigits(ds, rest);
      assert s[..|ds|] == ds && s[|ds|..] == rest;
      DigitsValueNatText(n);
    }
  }

  lemma ParseIntText(i: int, rest: string)
    requires Delimits(rest)
    ensures ParseInt(IntText(i) + rest) == Some((Int(i), rest))
  {
    if i < 0 {
      assert IntText(i) + rest == "-" + (NatText(-i) + rest);
      ParseNatText(-i, rest);
      ParseNegative(NatText(-i) + rest, -i, rest);
    } else {
      ParseNatText(i, rest);
      ParseUnsigned(NatText(i) + rest, i, rest);
    }
  }

  lemma ParseNegative(y: string, n: nat, rest: string)
    requires ParseNat(y) == Some((n, rest))
    ensures ParseInt("-" + y) == Some((Int(-(n as int)), rest))
  {
    assert ("-" + y)[1..] == y;
  }

  lemma ParseUnsigned(y: string, n: nat, rest: string)
    requires ParseNat(y) == Some((n, rest))
    ensures ParseInt(y) == Some((Int(n), rest))
  {
  }

  lemma HexValueDigit(d: nat)
    requires d < 16
    ensures HexValue(HexDigit(d)) == Some(d)
  {
  }

  /** The four digits of a \\u escape read back as the code unit they were written for. */
  lemma Hex4Escape(u: nat, tail: string)
    requires u < 0x1_0000
    ensures var s := UnicodeEscape(u) + tail; |s| >= 6 && s[0] == '\\' && s[1] == 'u' && Hex4(s[2..6]) == Some(u)
  {
    var s := UnicodeEscape(u) + tail;
    assert s[2..6] == HexDigits(u, 4);
    HexDigitsRead(u);
  }

  /** Four hexadecimal digits read back as the code unit they were written for. */
  lemma HexDigitsRead(u: nat)
    requires u < 0x1_0000
    ensures Hex4(HexDigits(u, 4)) == Some(u)
  {
    var u1, u2, u3 := u / 16, u / 16 / 16, u / 16 / 16 / 16;
    var a, b, c, d := u3 % 16, u2 % 16, u1 % 16, u % 16;
    HexDigitsFour(u);
    HexPlaces(u);
    HexFourOf(a, b, c, d, u);
  }

  lemma HexFourOf(a: nat, b: nat, c: nat, d: nat, v: nat)
    requires a < 16 && b < 16 && c < 16 && d < 16
    requires v == ((a * 16 + b) * 16 + c) * 16 + d
    ensures Hex4([HexDigit(a), HexDigit(b), HexDigit(c), HexDigit(d)]) == Some(v)
  {
    HexValueDigit(a);
    HexValueDigit(b);
    HexValueDigit(c);
    HexValueDigit(d);
  }

  lemma HexPlaces(u: nat)
    requires u < 0x1_0000
    ensures u == ((u / 16 / 16 / 16 % 16 * 16 + u / 16 / 16 % 16) * 16 + u / 16 % 16) * 16 + u % 16
  {
    var u1 := u / 16;
    var u2 := u1 / 16;
    var u3 := u2 / 16;
    assert u3 < 16;
    assert u2 == u3 * 16 + u2 % 16;
    assert u1 == u2 * 16 + u1 % 16;
    assert u == u1 * 16 + u % 16;
  }

  lemma HexDigitsFour(u: nat)
    requires u < 0x1_0000
    ensures HexDigits(u, 4) == [HexDigit(u / 16 / 16 / 16 % 16), HexDigit(u / 16 / 16 % 16), HexDigit(u / 16 % 16), HexDigit(u % 16)]
  {
    var u1, u2, u3 := u / 16, u / 16 / 16, u / 16 / 16 / 16;
    assert HexDigits(u3, 1) == [HexDigit(u3 % 16)] by {
      assert HexDigits(u3 / 16, 0) == [];
    }
    assert HexDigits(u2, 2) == [HexDigit(u3 % 16), HexDigit(u2 % 16)];
    assert HexDigits(u1, 3) == [HexDigit(u3 % 16), HexDigit(u2 % 16), HexDigit(u1 % 16)];
  }

  /** Above U+FFFF the escape is the surrogate pair's two \u escapes. */
  lemma PairText(c: char)
    requires 0x1_0000 <= c as int
    ensures var v := c as int - 0x1_0000;
      EscapeChar(c) == UnicodeEscape(0xD800 + v / 0x400) + UnicodeEscape(0xDC00 + v % 0x400)
  {
    var v := c as int - 0x1_0000;
    var hi, lo := 0xD800 + v / 0x400, 0xDC00 + v % 0x400;
    assert CodeUnits(c) == [hi, lo];
    assert [hi, lo][1..] == [lo] && [lo][1..] == [];
    assert EscapeUnits([lo]) == UnicodeEscape(lo) + EscapeUnits([]);
  }

  /** A character above U+FFFF written as a surrogate pair reads back as itself. */
  lemma PairEscape(c: char, tail: string)
    requires 0x1_0000 <= c as int
    ensures |EscapeChar(c)| == 12 && CharToken(EscapeChar(c) + tail) == Some((c, 12))
  {
    var v := c as int - 0x1_0000;
    var hi, lo := 0xD800 + v / 0x400, 0xDC00 + v % 0x400;
    PairText(c);
    PairToken(hi, lo, tail);
    assert v == v / 0x400 * 0x400 + v % 0x400;
  }

  /** Two escapes, a high surrogate then a low one, read as the character they pair up to. */
  lemma PairToken(hi: nat, lo: nat, tail: string)
    requires 0xD800 <= hi < 0xDC00 && 0xDC00 <= lo < 0xE000
    ensures var s := UnicodeEscape(hi) + UnicodeEscape(lo) + tail;
      |s| >= 12 && s[0] != '"'
      && CharToken(s) == Some(((0x1_0000 + (hi - 0xD800) * 0x400 + (lo - 0xDC00)) as char, 12))
  {
    var s := UnicodeEscape(hi) + UnicodeEscape(lo) + tail;
    var after := UnicodeEscape(lo) + tail;
    assert s == UnicodeEscape(hi) + after;
    Hex4Escape(hi, after);
    Hex4Escape(lo, tail);
    assert s[6..] == after;
    assert s[6..8] == after[..2] && s[8..12] == after[2..6];
  }

  lemma CharTokenEscape(c: char, tail: string)
    ensures (EscapeChar(c) + tail)[0] != '"'
    ensures CharToken(EscapeChar(c) + tail) == Some((c, |EscapeChar(c)|))
  {
    var e := EscapeChar(c);
    var s := e + tail;
    assert s[..|e|] == e;
    if c != '"' && c != '\\' && c != '\n' && c != '\r' && c != '\t' && c != '\U{0008}' && c != '\U{000C}' && !(' ' <= c <= '~') {
      if c as int < 0x1_0000 {
        assert EscapeUnits([c as int]) == UnicodeEscape(c as int);
        Hex4Escape(c as int, tail);
      } else {
        PairEscape(c, tail);
      }
    }
  }

  lemma {:induction false} ParseCharsEscape(text: string, rest: string)
    ensures ParseChars(Escape(text) + "\"" + rest) == Some((text, rest))
  {
    if text != [] {
      var e := EscapeChar(text[0]);
      var tail := Escape(text[1..]) + "\"" + rest;
      assert Escape(text) + "\"" + rest == e + tail;
      CharTokenEscape(text[0], tail);
      assert (e + tail)[|e|..] == tail;
      ParseCharsEscape(text[1..], rest);
      assert [text[0]] + text[1..] == text;
    }
  }

  /** A serialised value starts with the character that selects its branch of `ParseValue`. */
  lemma SerializeStart(v: Json)
    ensures Serialize(v) != []
    ensures var c := Serialize(v)[0];
      !IsWhitespace(c) && c != ']' && c != '}' && c != ',' && c != ':'
  {
    if v.Int? {
      assert Serialize(v)[0] == '-' || Serialize(v)[0] == NatText(v.i)[0];
    }
  }

  lemma ValueSkipsSpace(x: string)
    ensures ParseValue(" " + x) == ParseValue(x)
  {
    assert SkipWs(" " + x) == SkipWs(x);
  }

  lemma ElementsSkipSpace(x: string, acc: seq<Json>)
    ensures ParseElements(" " + x, acc) == ParseElements(x, acc)
  {
    ValueSkipsSpace(x);
  }

  lemma MembersSkipSpace(x: string, acc: seq<Member>)
    ensures ParseMembers(" " + x, acc) == ParseMembers(x, acc)
  {
    assert SkipWs(" " + x) == SkipWs(x);
  }

  lemma ValueOfArray(x: string)
    requires x != [] && x[0] == '['
    ensures ParseValue(x) == ParseArray(x[1..])
  {
    assert SkipWs(x) == x;
  }

  lemma ValueOfObject(x: string)
    requires x != [] && x[0] == '{'
    ensures ParseValue(x) == ParseObject(x[1..])
  {
    assert SkipWs(x) == x;
  }

  lemma ValueOfString(text: string, rest: string)
    ensures ParseValue(Quote(text) + rest) == Some((Str(text), rest))
  {
    var x := Quote(text) + rest;
    assert SkipWs(x) == x;
    assert x[1..] == Escape(text) + "\"" + rest;
    ParseCharsEscape(text, rest);
  }

  /** Text that starts with a sign or a digit is read as an integer. */
  lemma ValueStartingNumeric(x: string)
    requires x != [] && (x[0] == '-' || IsDigit(x[0]))
    ensures ParseValue(x) == ParseInt(x)
  {
    NoLeadingSpace(x);
    TokenStartingNumeric(x);
  }

  lemma NoLeadingSpace(x: string)
    requires x != [] && !IsWhitespace(x[0])
    ensures SkipWs(x) == x
  {
  }

  lemma TokenStartingNumeric(t: string)
    requires t != [] && (t[0] == '-' || IsDigit(t[0]))
    ensures ParseToken(t) == ParseInt(t)
  {
  }

  lemma IntTextHead(i: int, rest: string)
    ensures var x := IntText(i) + rest; x != [] && (x[0] == '-' || IsDigit(x[0]))
  {
    if i >= 0 {
      assert (IntText(i) + rest)[0] == NatText(i)[0];
    }
  }

  lemma ValueOfInt(i: int, rest: string)
    requires Delimits(rest)
    ensures ParseValue(IntText(i) + rest) == Some((Int(i), rest))
  {
    IntTextHead(i, rest);
    ValueStartingNumeric(IntText(i) + rest);
    ParseIntText(i, rest);
  }

  lemma ValueOfLiteral(v: Json, rest: string)
    requires v.Null? || v.Bool?
    ensures ParseValue(Serialize(v) + rest) == Some((v, rest))
  {
    var w := Serialize(v);
    var x := w + rest;
    assert SkipWs(x) == x;
    assert x[..|w|] == w && x[|w|..] == rest;
  }

  /** After one element, a comma hands the rest of the text to the next element. */
  lemma ElementsStep(x: string, acc: seq<Json>, v: Json, tailText: string)
    requires ParseValue(x) == Some((v, ", " + tailText))
    ensures ParseElements(x, acc) == ParseElements(tailText, acc + [v])
  {
    var t := ", " + tailText;
    assert SkipWs(t) == t && t[1..] == " " + tailText;
    ElementsSkipSpace(tailText, acc + [v]);
  }

  lemma ElementsLast(x: string, acc: seq<Json>, v: Json, rest: string)
    requires ParseValue(x) == Some((v, "]" + rest))
    ensures ParseElements(x, acc) == Some((Arr(acc + [v]), rest))
  {
    var t := "]" + rest;
    assert SkipWs(t) == t && t[1..] == rest;
  }

  lemma MembersStep(x: string, acc: seq<Member>, m: Member, tailText: string)
    requires ParseMember(x) == Some((m, ", " + tailText))
    ensures ParseMembers(x, acc) == ParseMembers(tailText, acc + [m])
  {
    var t := ", " + tailText;
    assert SkipWs(t) == t && t[1..] == " " + tailText;
    MembersSkipSpace(tailText, acc + [m]);
  }

  lemma MembersLast(x: string, acc: seq<Member>, m: Member, rest: string)
    requires ParseMember(x) == Some((m, "}" + rest))
    requires DistinctKeys(acc + [m])
    ensures ParseMembers(x, acc) == Some((Obj(acc + [m]), rest))
  {
    MembersClose(x, acc, m, rest);
    assert [] + (acc + [m]) == acc + [m];
    CollapseDistinct([], acc + [m]);
  }

  /** A closing brace after a member folds all the members read into a dict. */
  lemma MembersClose(x: string, acc: seq<Member>, m: Member, rest: string)
    requires ParseMember(x) == Some((m, "}" + rest))
    ensures ParseMembers(x, acc) == Some((Obj(Collapse([], acc + [m])), rest))
  {
    var t := "}" + rest;
    assert SkipWs(t) == t && t[1..] == rest;
  }

  /** The parser reads back exactly the value serialised, and stops right after it. */
  lemma {:induction false} ValueRoundTrip(v: Json, rest: string)
    requires WellFormed(v) && Delimits(rest)
    ensures ParseValue(Serialize(v) + rest) == Some((v, rest))
    decreases v, 2
  {
    match v
    case Null => ValueOfLiteral(v, rest);
    case Bool(_) => ValueOfLiteral(v, rest);
    case Int(i) => ValueOfInt(i, rest);
    case Str(text) => ValueOfString(text, rest);
    case Arr(items) => ArrRoundTrip(items, rest);
    case Obj(fields) => ObjRoundTrip(fields, rest);
  }

  lemma {:induction false} ArrRoundTrip(items: seq<Json>, rest: string)
    requires forall i :: 0 <= i < |items| ==> WellFormed(items[i])
    requires Delimits(rest)
    ensures ParseValue(Serialize(Arr(items)) + rest) == Some((Arr(items), rest))
    decreases items, 1
  {
    var inner := SerializeItems(items) + "]" + rest;
    Bracketed("[", SerializeItems(items), "]", rest);
    ValueOfArray("[" + inner);
    if items == [] {
      assert inner == "]" + rest;
      ArrayOpen(inner);
    } else {
      SerializeStart(items[0]);
      assert inner[0] == Serialize(items[0])[0];
      ArrayOpen(inner);
      ItemsRoundTrip(items, [], rest);
      assert [] + items == items;
    }
  }

  /** An opening bracket followed by `inner`: what follows the bracket is `inner`. */
  lemma Bracketed(open: string, body: string, close: string, rest: string)
    requires |open| == 1
    ensures (open + body + close) + rest == open + (body + close + rest)
    ensures (open + (body + close + rest))[1..] == body + close + rest
  {
  }

  lemma ArrayOpen(inner: string)
    requires inner != [] && !IsWhitespace(inner[0])
    ensures ParseArray(inner) == if inner[0] == ']' then Some((Arr([]), inner[1..])) else ParseElements(inner, [])
  {
    NoLeadingSpace(inner);
  }

  lemma {:induction false} ObjRoundTrip(fields: seq<Member>, rest: string)
    requires DistinctKeys(fields)
    requires forall i :: 0 <= i < |fields| ==> WellFormed(fields[i].value)
    requires Delimits(rest)
    ensures ParseValue(Serialize(Obj(fields)) + rest) == Some((Obj(fields), rest))
    decreases fields, 1
  {
    var inner := SerializeMembers(fields) + "}" + rest;
    Bracketed("{", SerializeMembers(fields), "}", rest);
    ValueOfObject("{" + inner);
    if fields == [] {
      assert inner == "}" + rest;
      ObjectOpen(inner);
    } else {
      MembersStart(fields);
      assert inner[0] == '"';
      ObjectOpen(inner);
      assert [] + fields == fields;
      MembersRoundTrip(fields, [], rest);
    }
  }

  lemma ObjectOpen(inner: string)
    requires inner != [] && !IsWhitespace(inner[0])
    ensures ParseObject(inner) == if inner[0] == '}' then Some((Obj([]), inner[1..])) else ParseMembers(inner, [])
  {
    NoLeadingSpace(inner);
  }

  lemma {:induction false} ItemsRoundTrip(items: seq<Json>, acc: seq<Json>, rest: string)
    requires items != [] && Delimits(rest)
    requires forall i :: 0 <= i < |items| ==> WellFormed(items[i])
    ensures ParseElements(SerializeItems(items) + "]" + rest, acc) == Some((Arr(acc + items), rest))
    decreases items, 0
  {
    var head := items[0];
    if |items| == 1 {
      OneItemText(items, rest);
      ValueRoundTrip(head, "]" + rest);
      ElementsLast(Serialize(head) + ("]" + rest), acc, head, rest);
      AppendFirst(acc, items);
    } else {
      var tailText := SerializeItems(items[1..]) + "]" + rest;
      MoreItemsText(items, rest);
      ValueRoundTrip(head, ", " + tailText);
      ElementsStep(Serialize(head) + (", " + tailText), acc, head, tailText);
      ItemsRoundTrip(items[1..], acc + [head], rest);
      AppendFirst(acc, items);
    }
  }

  /** Appending the first item, then the others, appends them all. */
  lemma AppendFirst<T>(acc: seq<T>, items: seq<T>)
    requires items != []
    ensures (acc + [items[0]]) + items[1..] == acc + items
    ensures |items| == 1 ==> acc + [items[0]] == acc + items
  {
    assert items == [items[0]] + items[1..];
  }

  lemma OneItemText(items: seq<Json>, rest: string)
    requires |items| == 1
    ensures SerializeItems(items) + "]" + rest == Serialize(items[0]) + ("]" + rest)
  {
  }

  lemma MoreItemsText(items: seq<Json>, rest: string)
    requires |items| > 1
    ensures SerializeItems(items) + "]" + rest == Serialize(items[0]) + (", " + (SerializeItems(items[1..]) + "]" + rest))
  {
    var a, c := Serialize(items[0]), SerializeItems(items[1..]);
    assert SerializeItems(items) == a + ", " + c;
    Regroup5(a, ", ", c, "]", rest);
  }

  lemma ColonValue(y: string)
    ensures ParseColonValue(": " + y) == ParseValue(y)
  {
    var x := ": " + y;
    assert SkipWs(x) == x && x[1..] == " " + y;
    ValueSkipsSpace(y);
  }

  lemma MemberParts(key: string, x: string)
    requires ParseColonValue(x).Some?
    ensures ParseMember(Quote(key) + x) == Some((Member(key, ParseColonValue(x).value.0), ParseColonValue(x).value.1))
  {
    var s := Quote(key) + x;
    Bracketed("\"", Escape(key), "\"", x);
    NoLeadingSpace(s);
    ParseCharsEscape(key, x);
  }

  lemma MembersStart(fields: seq<Member>)
    requires fields != []
    ensures SerializeMembers(fields) != [] && SerializeMembers(fields)[0] == '"'
  {
    var mt := MemberText(fields[0]);
    assert mt[0] == '"';
    if |fields| > 1 {
      assert SerializeMembers(fields) == mt + (", " + SerializeMembers(fields[1..]));
    }
  }

  lemma {:induction false} MemberRoundTrip(m: Member, after: string)
    requires WellFormed(m.value) && Delimits(after)
    ensures ParseMember(MemberText(m) + after) == Some((m, after))
    decreases m, 1
  {
    var q, sv := Quote(m.key), Serialize(m.value);
    var y := sv + after;
    ValueRoundTrip(m.value, after);
    ColonValue(y);
    MemberParts(m.key, ": " + y);
    Regroup(q, ": ", sv, after);
  }

  lemma Regroup(a: string, b: string, c: string, d: string)
    ensures (a + b + c) + d == a + (b + (c + d))
  {
  }

  lemma OneMemberText(fields: seq<Member>, rest: string)
    requires |fields| == 1
    ensures SerializeMembers(fields) + "}" + rest == MemberText(fields[0]) + ("}" + rest)
  {
  }

  lemma MoreMembersText(fields: seq<Member>, rest: string)
    requires |fields| > 1
    ensures SerializeMembers(fields) + "}" + rest == MemberText(fields[0]) + (", " + (SerializeMembers(fields[1..]) + "}" + rest))
  {
    var a, c := MemberText(fields[0]), SerializeMembers(fields[1..]);
    assert SerializeMembers(fields) == a + ", " + c;
    Regroup5(a, ", ", c, "}", rest);
  }

  lemma Regroup5(a: string, b: string, c: string, d: string, e: string)
    ensures (a + b + c) + d + e == a + (b + (c + d + e))
  {
  }

  lemma {:induction false} MembersRoundTrip(fields: seq<Member>, acc: seq<Member>, rest: string)
    requires fields != [] && Delimits(rest)
    requires DistinctKeys(acc + fields)
    requires forall i :: 0 <= i < |fields| ==> WellFormed(fields[i].value)
    ensures ParseMembers(SerializeMembers(fields) + "}" + rest, acc) == Some((Obj(acc + fields), rest))
    decreases fields, 0
  {
    var m := fields[0];
    assert acc + [m] + fields[1..] == acc + fields;
    if |fields| == 1 {
      OneMemberText(fields, rest);
      MemberRoundTrip(m, "}" + rest);
      assert acc + [m] == acc + fields;
      MembersLast(MemberText(m) + ("}" + rest), acc, m, rest);
    } else {
      var tailText := SerializeMembers(fields[1..]) + "}" + rest;
      MoreMembersText(fields, rest);
      MemberRoundTrip(m, ", " + tailText);
      MembersStep(MemberText(m) + (", " + tailText), acc, m, tailText);
      MembersRoundTrip(fields[1..], acc + [m], rest);
    }
  }

  /** `json.loads(json.dumps(v)) == v` for every value a Python program can hold. */
  lemma ParseSerialize(v: Json)
    requires WellFormed(v)
    ensures Parse(Serialize(v)) == Some(v)
  {
    assert Serialize(v) + [] == Serialize(v);
    ValueRoundTrip(v, []);
  }
}
