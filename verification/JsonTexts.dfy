/** Canonical JSON as text: integers, strings escaped as in section 7 of RFC 8259, arrays, and objects
    whose members come in a given order. Every text can be read back in one way only. */
module JsonTexts {
  import opened Outcomes
  import opened Text

  datatype Member = Member(key: string, value: Value)

  /** `Float` stands for the numbers that fit neither an unsigned nor a signed 64-bit integer. */
  datatype Value =
    | Null
    | Bool(b: bool)
    | Number(n: int)
    | Float(text: string)
    | Str(s: string)
    | Arr(items: seq<Value>)
    | Obj(members: seq<Member>)

  // ---- leaves -----------------------------------------------------------------------------

  /** The JSON escape of one character, as `serde_json` writes it: short escapes where they exist,
      `\u00xx` for the other control characters, everything else as it is. */
  function Escape(c: char): (r: string)
    ensures r != "" && r[0] != '"'
  {
    if c == '"' then "\\\""
    else if c == '\\' then "\\\\"
    else if c == 8 as char then "\\b"
    else if c == 9 as char then "\\t"
    else if c == 10 as char then "\\n"
    else if c == 12 as char then "\\f"
    else if c == 13 as char then "\\r"
    else if c < ' ' then "\\u00" + [HexDigit((c as nat) / 16), HexDigit((c as nat) % 16)]
    else [c]
  }

  function Body(s: string): string {
    if s == "" then "" else Escape(s[0]) + Body(s[1..])
  }

  function EncodeString(s: string): string { "\"" + Body(s) + "\"" }

  function EncodeNumber(n: int): (r: string)
    ensures r != "" && (r[0] == '-' || IsDigit(r[0]))
  {
    if n < 0 then "-" + Decimal(-n) else Decimal(n)
  }

  /** What may follow a value: nothing, a comma or a closing bracket. */
  predicate Delimited(rest: string) { rest == "" || rest[0] in ",]}" }

  // ---- values -----------------------------------------------------------------------------

  /** The text of a value, members in their given order. A `Float` has no text. */
  function Encode(v: Value): string
    decreases v
  {
    match v
    case Null => "null"
    case Bool(b) => if b then "true" else "false"
    case Number(n) => EncodeNumber(n)
    case Float(_) => ""
    case Str(s) => EncodeString(s)
    case Arr(items) => "[" + EncodeItems(items, 0) + "]"
    case Obj(members) => "{" + EncodeMembers(members, 0) + "}"
  }

  /** The items from the k-th on, each but the very first after a comma. */
  function EncodeItems(items: seq<Value>, k: nat): string
    requires k <= |items|
    decreases items, |items| - k
  {
    if k == |items| then "" else Comma(k) + Encode(items[k]) + EncodeItems(items, k + 1)
  }

  function EncodeMembers(members: seq<Member>, k: nat): string
    requires k <= |members|
    decreases members, |members| - k
  {
    if k == |members| then ""
    else Comma(k) + EncodeString(members[k].key) + ":" + Encode(members[k].value) + EncodeMembers(members, k + 1)
  }

  function Comma(k: nat): string { if k == 0 then "" else "," }

  predicate NoFloat(v: Value)
    decreases v
  {
    match v
    case Float(_) => false
    case Arr(items) => forall i :: 0 <= i < |items| ==> NoFloat(items[i])
    case Obj(members) => forall i :: 0 <= i < |members| ==> NoFloat(members[i].value)
    case _ => true
  }

  // ---- an independent reader --------------------------------------------------------------

  /** A value and the text after it, or None. */
  type Read<T> = Option<(T, string)>

  /** A hexadecimal digit in either case. */
  function HexValue(c: char): (r: Option<nat>)
    ensures r.Some? ==> r.value < 16
  {
    if '0' <= c <= '9' then Some((c - '0') as nat)
    else if 'a' <= c <= 'f' then Some((c - 'a') as nat + 10)
    else if 'A' <= c <= 'F' then Some((c - 'A') as nat + 10)
    else None
  }

  /** The code unit of four hexadecimal digits. */
  function CodeUnit(s: string): Option<nat>
    requires |s| == 4
  {
    var a, b, c, d := HexValue(s[0]), HexValue(s[1]), HexValue(s[2]), HexValue(s[3]);
    if a.None? || b.None? || c.None? || d.None? then None
    else Some(4096 * a.value + 256 * b.value + 16 * c.value + d.value)
  }

  /** What follows a backslash, section 7 of RFC 8259. Escapes of characters beyond ASCII, which are more
      than one byte, are not read. */
  function ReadEscape(s: string): (r: Read<char>)
    ensures r.Some? ==> |r.value.1| < |s|
  {
    if s == "" then None
    else match s[0]
      case '"' => Some(('"', s[1..]))
      case '\\' => Some(('\\', s[1..]))
      case '/' => Some(('/', s[1..]))
      case 'b' => Some((8 as char, s[1..]))
      case 'f' => Some((12 as char, s[1..]))
      case 'n' => Some((10 as char, s[1..]))
      case 'r' => Some((13 as char, s[1..]))
      case 't' => Some((9 as char, s[1..]))
      case 'u' =>
        if |s| < 5 then None
        else
          var unit := CodeUnit(s[1..5]);
          if unit.None? || unit.value >= 128 then None else Some((unit.value as char, s[5..]))
      case _ => None
  }

  /** A string after its opening quote. */
  function ReadString(s: string): (r: Read<string>)
    ensures r.Some? ==> |r.value.1| < |s|
    decreases |s|
  {
    if s == "" || s[0] < ' ' then None
    else if s[0] == '"' then Some(("", s[1..]))
    else
      var first := if s[0] == '\\' then ReadEscape(s[1..]) else Some((s[0], s[1..]));
      if first.None? then None
      else
        var rest := ReadString(first.value.1);
        if rest.None? then None else Some(([first.value.0] + rest.value.0, rest.value.1))
  }

  /** The digits at the start of a text. */
  function Digits(s: string): (n: nat)
    ensures n <= |s| && AllDigits(s[..n]) && (n < |s| ==> !IsDigit(s[n]))
  {
    if s == "" || !IsDigit(s[0]) then 0
    else
      var n := Digits(s[1..]);
      assert s[..n + 1] == [s[0]] + s[1..][..n];
      n + 1
  }

  /** An integer without a leading zero. */
  function ReadNumber(s: string): (r: Read<int>)
    ensures r.Some? ==> |r.value.1| < |s|
  {
    var negative := s != "" && s[0] == '-';
    var t := if negative then s[1..] else s;
    var n := Digits(t);
    if n == 0 || (n > 1 && t[0] == '0') then None
    else
      var m: int := DecimalValue(t[..n]);
      Some((if negative then -m else m, t[n..]))
  }

  /** A JSON value in the grammar of RFC 8259, without insignificant whitespace and with integers only. */
  function ReadValue(s: string): (r: Read<Value>)
    ensures r.Some? ==> |r.value.1| < |s|
    decreases |s|, 0
  {
    if s == "" then None
    else if s[0] == '"' then
      var text := ReadString(s[1..]);
      if text.None? then None else Some((Str(text.value.0), text.value.1))
    else if s[0] == '[' then
      if |s| > 1 && s[1] == ']' then Some((Arr([]), s[2..]))
      else
        var items := ReadItems(s[1..]);
        if items.None? then None else Some((Arr(items.value.0), items.value.1))
    else if s[0] == '{' then
      if |s| > 1 && s[1] == '}' then Some((Obj([]), s[2..]))
      else
        var members := ReadMembers(s[1..]);
        if members.None? then None else Some((Obj(members.value.0), members.value.1))
    else if "null" <= s then Some((Null, s[4..]))
    else if "true" <= s then Some((Bool(true), s[4..]))
    else if "false" <= s then Some((Bool(false), s[5..]))
    else
      var number := ReadNumber(s);
      if number.None? then None else Some((Number(number.value.0), number.value.1))
  }

  /** At least one item, and the closing bracket. */
  function ReadItems(s: string): (r: Read<seq<Value>>)
    ensures r.Some? ==> |r.value.1| < |s|
    decreases |s|, 1
  {
    var first := ReadValue(s);
    if first.None? || first.value.1 == "" then None
    else if first.value.1[0] == ']' then Some(([first.value.0], first.value.1[1..]))
    else if first.value.1[0] == ',' then
      var rest := ReadItems(first.value.1[1..]);
      if rest.None? then None else Some(([first.value.0] + rest.value.0, rest.value.1))
    else None
  }

  /** One member: its key, a colon and its value. */
  function ReadMember(s: string): (r: Read<Member>)
    ensures r.Some? ==> |r.value.1| < |s|
    decreases |s|, 1
  {
    if s == "" || s[0] != '"' then None
    else
      var key := ReadString(s[1..]);
      if key.None? || key.value.1 == "" || key.value.1[0] != ':' then None
      else
        var value := ReadValue(key.value.1[1..]);
        if value.None? then None else Some((Member(key.value.0, value.value.0), value.value.1))
  }

  /** At least one member, and the closing brace. */
  function ReadMembers(s: string): (r: Read<seq<Member>>)
    ensures r.Some? ==> |r.value.1| < |s|
    decreases |s|, 2
  {
    var first := ReadMember(s);
    if first.None? || first.value.1 == "" then None
    else if first.value.1[0] == '}' then Some(([first.value.0], first.value.1[1..]))
    else if first.value.1[0] == ',' then
      var rest := ReadMembers(first.value.1[1..]);
      if rest.None? then None else Some(([first.value.0] + rest.value.0, rest.value.1))
    else None
  }

  // ---- the texts are read back ------------------------------------------------------------

  lemma Dropped(a: string, b: string)
    ensures (a + b)[|a|..] == b && (a + b)[..|a|] == a
    ensures a != "" ==> (a + b)[0] == a[0]
    ensures a == "" ==> a + b == b
  {}

  lemma HexDigitReadsBack(d: nat)
    requires d < 16
    ensures HexValue(HexDigit(d)) == Some(d)
  {}

  /** The escape of a character is that character to the reader. */
  lemma EscapeReadsBack(c: char, x: string)
    ensures var s := Escape(c) + x;
      && s[0] != '"' && s[0] >= ' '
      && (if s[0] == '\\' then ReadEscape(s[1..]) else Some((s[0], s[1..]))) == Some((c, x))
  {
    var s := Escape(c) + x;
    Dropped(Escape(c), x);
    if |Escape(c)| == 6 {
      HexDigitReadsBack((c as nat) / 16);
      HexDigitReadsBack((c as nat) % 16);
      var digits := ['0', '0', HexDigit((c as nat) / 16), HexDigit((c as nat) % 16)];
      assert Escape(c) == "\\u" + digits;
      assert s[1..] == "u" + (digits + x);
      Dropped("u", digits + x);
      Dropped(digits, x);
      assert s[1..][1..5] == digits && s[1..][5..] == x;
    } else if |Escape(c)| == 2 {
      assert s[1..][0] == Escape(c)[1] && s[1..][1..] == x;
    } else {
      assert s[1..] == x;
    }
  }

  lemma {:induction false} StringReadsBack(s: string, x: string)
    ensures ReadString(Body(s) + "\"" + x) == Some((s, x))
  {
    var whole := Body(s) + "\"" + x;
    if s == "" {
      assert whole == "\"" + x;
    } else {
      var rest := Body(s[1..]) + "\"" + x;
      assert whole == Escape(s[0]) + rest;
      EscapeReadsBack(s[0], rest);
      StringReadsBack(s[1..], x);
      assert s == [s[0]] + s[1..];
    }
  }

  /** A string literal ends at one place only. */
  lemma StringReadsOnce(s: string, t: string, x: string, y: string)
    requires Body(s) + "\"" + x == Body(t) + "\"" + y
    ensures s == t && x == y
  {
    StringReadsBack(s, x);
    StringReadsBack(t, y);
  }

  lemma {:induction false} DigitsOfJoined(a: string, x: string)
    requires AllDigits(a) && Delimited(x)
    ensures Digits(a + x) == |a|
  {
    if a != "" {
      assert (a + x)[1..] == a[1..] + x;
      DigitsOfJoined(a[1..], x);
    } else {
      assert a + x == x;
    }
  }

  lemma {:induction false} NoLeadingZero(n: nat)
    ensures n > 0 ==> Decimal(n)[0] != '0'
    ensures |Decimal(n)| > 1 ==> n > 0
  {
    if n >= 10 { NoLeadingZero(n / 10); }
  }

  lemma NaturalReadsBack(n: nat, x: string)
    requires Delimited(x)
    ensures ReadNumber(Decimal(n) + x) == Some((n, x))
    ensures var m: int := n; n > 0 ==> ReadNumber("-" + (Decimal(n) + x)) == Some((-m, x))
  {
    var t := Decimal(n) + x;
    DigitsOfJoined(Decimal(n), x);
    DecimalValueOfDecimal(n);
    NoLeadingZero(n);
    Dropped(Decimal(n), x);
    Dropped("-", t);
    assert IsDigit(t[0]);
  }

  lemma NumberReadsBack(n: int, x: string)
    requires Delimited(x)
    ensures ReadNumber(EncodeNumber(n) + x) == Some((n, x))
  {
    if n < 0 {
      NaturalReadsBack(-n, x);
      assert EncodeNumber(n) + x == "-" + (Decimal(-n) + x);
    } else {
      NaturalReadsBack(n, x);
    }
  }

  /** The first character of a text, which decides how it is read. */
  lemma FirstCharacter(v: Value)
    requires !v.Float?
    ensures Encode(v) != "" && Encode(v)[0] !in ",]}:"
    ensures Encode(v)[0] == '"' <==> v.Str?
    ensures Encode(v)[0] == '[' <==> v.Arr?
    ensures Encode(v)[0] == '{' <==> v.Obj?
    ensures v.Number? ==> Encode(v)[0] !in "ntf"
  {}

  lemma LiteralReadsBack(v: Value, x: string)
    requires v.Null? || v.Bool?
    ensures ReadValue(Encode(v) + x) == Some((v, x))
  {
    Dropped(Encode(v), x);
  }

  lemma LeafReadsBack(v: Value, x: string)
    requires (v.Number? && Delimited(x)) || v.Str?
    ensures ReadValue(Encode(v) + x) == Some((v, x))
  {
    var s := Encode(v) + x;
    FirstCharacter(v);
    Dropped(Encode(v), x);
    if v.Number? {
      NumberReadsBack(v.n, x);
      assert "null"[0] == 'n' && "true"[0] == 't' && "false"[0] == 'f';
    } else {
      StringReadsBack(v.s, x);
      assert s[1..] == Body(v.s) + "\"" + x;
    }
  }

  /** What is left of an array from its k-th item on, without the comma before it. */
  function ItemsFrom(a: seq<Value>, k: nat, x: string): string
    requires k < |a|
  {
    Encode(a[k]) + (EncodeItems(a, k + 1) + "]" + x)
  }

  lemma ItemsStep(a: seq<Value>, k: nat, x: string)
    requires 0 < k <= |a|
    ensures EncodeItems(a, k) + "]" + x == (if k == |a| then "]" + x else "," + ItemsFrom(a, k, x))
    ensures Delimited(EncodeItems(a, k) + "]" + x)
  {
    if k < |a| {
      var tail := EncodeItems(a, k + 1) + "]" + x;
      assert Comma(k) + Encode(a[k]) + EncodeItems(a, k + 1) + "]" + x == "," + (Encode(a[k]) + tail);
    } else {
      assert "" + "]" + x == "]" + x;
    }
  }

  lemma ArrayStep(a: seq<Value>, x: string)
    ensures Encode(Arr(a)) + x == (if a == [] then "[]" + x else "[" + ItemsFrom(a, 0, x))
  {
    if a != [] {
      var tail := EncodeItems(a, 1) + "]" + x;
      assert "[" + ("" + Encode(a[0]) + EncodeItems(a, 1)) + "]" + x == "[" + (Encode(a[0]) + tail);
    }
  }

  function MembersFrom(a: seq<Member>, k: nat, x: string): string
    requires k < |a|
  {
    EncodeString(a[k].key) + (":" + (Encode(a[k].value) + (EncodeMembers(a, k + 1) + "}" + x)))
  }

  lemma RegroupMember(a: string, key: string, b: string, c: string, d: string)
    ensures a + key + ":" + b + c + "}" + d == a + (key + (":" + (b + (c + "}" + d))))
  {
    var tail := c + "}" + d;
    assert a + key + ":" + b + c + "}" + d == a + key + ":" + b + tail;
    assert a + key + ":" + b + tail == a + key + (":" + (b + tail));
  }

  lemma RegroupObject(key: string, b: string, c: string, d: string)
    ensures "{" + ("" + key + ":" + b + c) + "}" + d == "{" + (key + (":" + (b + (c + "}" + d))))
  {
    RegroupMember("{", key, b, c, d);
    assert "" + key == key;
    assert "{" + (key + ":" + b + c) + "}" + d == "{" + key + ":" + b + c + "}" + d;
  }

  lemma MembersStep(a: seq<Member>, k: nat, x: string)
    requires 0 < k <= |a|
    ensures EncodeMembers(a, k) + "}" + x == (if k == |a| then "}" + x else "," + MembersFrom(a, k, x))
    ensures Delimited(EncodeMembers(a, k) + "}" + x)
  {
    if k < |a| {
      RegroupMember(Comma(k), EncodeString(a[k].key), Encode(a[k].value), EncodeMembers(a, k + 1), x);
    } else {
      assert "" + "}" + x == "}" + x;
    }
  }

  lemma ObjectStep(a: seq<Member>, x: string)
    ensures Encode(Obj(a)) + x == (if a == [] then "{}" + x else "{" + MembersFrom(a, 0, x))
  {
    if a != [] {
      RegroupObject(EncodeString(a[0].key), Encode(a[0].value), EncodeMembers(a, 1), x);
    }
  }

  /** The reader reads every value text as its value, whatever follows it. */
  lemma {:induction false} ValueReadsBack(v: Value, x: string)
    requires NoFloat(v) && Delimited(x)
    ensures ReadValue(Encode(v) + x) == Some((v, x))
    decreases v
  {
    match v {
      case Arr(items) =>
        ArrayStep(items, x);
        if items != [] {
          ItemsReadBack(items, 0, x);
          FirstCharacter(items[0]);
          Dropped("[", ItemsFrom(items, 0, x));
          assert items[0..] == items;
        } else {
          Dropped("[]", x);
        }
      case Obj(members) =>
        ObjectStep(members, x);
        if members != [] {
          MembersReadBack(members, 0, x);
          Dropped("{", MembersFrom(members, 0, x));
          assert members[0..] == members;
        } else {
          Dropped("{}", x);
        }
      case Number(_) => LeafReadsBack(v, x);
      case Str(_) => LeafReadsBack(v, x);
      case Null => LiteralReadsBack(v, x);
      case Bool(_) => LiteralReadsBack(v, x);
      case Float(_) =>
    }
  }

  lemma KeyText(key: string, rest: string)
    ensures EncodeString(key) + rest == "\"" + (Body(key) + "\"" + rest)
  {}

  /** How the reader goes on after an item, a member's key and a member. */
  lemma ItemStep(s: string, v: Value, rest: string, more: string)
    requires ReadValue(s) == Some((v, rest))
    ensures rest == "]" + more ==> ReadItems(s) == Some(([v], more))
    ensures forall items, end :: rest == "," + more && ReadItems(more) == Some((items, end)) ==> ReadItems(s) == Some(([v] + items, end))
  {
    Dropped("]", more);
    Dropped(",", more);
  }

  lemma MemberStep(s: string, body: string, m: Member, after: string, rest: string)
    requires s == "\"" + body && ReadString(body) == Some((m.key, ":" + after)) && ReadValue(after) == Some((m.value, rest))
    ensures ReadMember(s) == Some((m, rest))
  {
    Dropped("\"", body);
    Dropped(":", after);
  }

  lemma NextMember(s: string, m: Member, rest: string, more: string)
    requires ReadMember(s) == Some((m, rest))
    ensures rest == "}" + more ==> ReadMembers(s) == Some(([m], more))
    ensures forall members, end ::
              rest == "," + more && ReadMembers(more) == Some((members, end)) ==> ReadMembers(s) == Some(([m] + members, end))
  {
    Dropped("}", more);
    Dropped(",", more);
  }

  lemma {:induction false} ItemsReadBack(a: seq<Value>, k: nat, x: string)
    requires k < |a| && forall i :: 0 <= i < |a| ==> NoFloat(a[i])
    ensures ReadItems(ItemsFrom(a, k, x)) == Some((a[k..], x))
    decreases a, |a| - k
  {
    var rest := EncodeItems(a, k + 1) + "]" + x;
    ItemsStep(a, k + 1, x);
    ValueReadsBack(a[k], rest);
    assert a[k..] == [a[k]] + a[k + 1..];
    if k + 1 < |a| {
      ItemsReadBack(a, k + 1, x);
      ItemStep(ItemsFrom(a, k, x), a[k], rest, ItemsFrom(a, k + 1, x));
    } else {
      assert a[k..] == [a[k]];
      ItemStep(ItemsFrom(a, k, x), a[k], rest, x);
    }
  }

  lemma {:induction false} MemberReadsBack(a: seq<Member>, k: nat, x: string)
    requires k < |a| && forall i :: 0 <= i < |a| ==> NoFloat(a[i].value)
    ensures ReadMember(MembersFrom(a, k, x)) == Some((a[k], EncodeMembers(a, k + 1) + "}" + x))
    decreases a, |a| - k, 0
  {
    var rest := EncodeMembers(a, k + 1) + "}" + x;
    var value := Encode(a[k].value) + rest;
    var body := Body(a[k].key) + "\"" + (":" + value);
    MembersStep(a, k + 1, x);
    ValueReadsBack(a[k].value, rest);
    StringReadsBack(a[k].key, ":" + value);
    KeyText(a[k].key, ":" + value);
    MemberStep(MembersFrom(a, k, x), body, a[k], value, rest);
  }

  lemma {:induction false} MembersReadBack(a: seq<Member>, k: nat, x: string)
    requires k < |a| && forall i :: 0 <= i < |a| ==> NoFloat(a[i].value)
    ensures ReadMembers(MembersFrom(a, k, x)) == Some((a[k..], x))
    decreases a, |a| - k, 1
  {
    MemberReadsBack(a, k, x);
    MembersStep(a, k + 1, x);
    assert a[k..] == [a[k]] + a[k + 1..];
    if k + 1 < |a| {
      MembersReadBack(a, k + 1, x);
      NextMember(MembersFrom(a, k, x), a[k], EncodeMembers(a, k + 1) + "}" + x, MembersFrom(a, k + 1, x));
    } else {
      assert a[k..] == [a[k]];
      NextMember(MembersFrom(a, k, x), a[k], EncodeMembers(a, k + 1) + "}" + x, x);
    }
  }

  /** Every value text is read in one way, whatever follows it. */
  lemma ValueReadsOnce(v: Value, w: Value, x: string, y: string)
    requires NoFloat(v) && NoFloat(w) && Delimited(x) && Delimited(y) && Encode(v) + x == Encode(w) + y
    ensures v == w && x == y
  {
    ValueReadsBack(v, x);
    ValueReadsBack(w, y);
  }
}
