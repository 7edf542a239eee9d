/**
 * The JSON values the JSON converter handles and the text `serde_json`
 * writes for them: compact (`Value::to_string`) or pretty with a given
 * indent string (`PrettyFormatter::with_indent`). Numbers are integers.
 */
module JsonValue {
  import opened Wrappers
  import Decimal

  datatype Value =
    | Null
    | Bool(b: bool)
    | Number(n: int)
    | Str(s: string)
    | Array(items: seq<Value>)
    | Object(members: seq<Member>)

  datatype Member = Member(key: string, value: Value)

  /** Compact output, or pretty output that repeats `indent` once per nesting level. */
  datatype Layout = Compact | Pretty(indent: string)

  /** `indent` written `level` times: the whitespace in front of a line at depth `level`. */
  function Repeat(indent: string, level: nat): (r: string)
    ensures |r| == |indent| * level
  {
    if level == 0 then "" else indent + Repeat(indent, level - 1)
  }

  function IntText(n: int): string {
    if n < 0 then "-" + Decimal.Text(-n) else Decimal.Text(n)
  }

  function HexDigit(d: nat): (c: char)
    requires d < 16
  {
    if d < 10 then ('0' as int + d) as char else ('a' as int + (d - 10)) as char
  }

  /**
   * How `serde_json` writes one character inside a string literal: `"` and
   * `\` are escaped, the control characters below U+0020 become `\b`, `\t`,
   * `\n`, `\f`, `\r` or `\u00XX` (lower-case hex), everything else is kept.
   */
  function EscapeChar(c: char): (r: string)
    ensures forall i :: 0 <= i < |r| ==> r[i] >= ' '
    ensures |r| > 0
  {
    if c == '"' then "\\\""
    else if c == '\\' then "\\\\"
    else if c == '\U{8}' then "\\b"
    else if c == '\t' then "\\t"
    else if c == '\n' then "\\n"
    else if c == '\U{C}' then "\\f"
    else if c == '\r' then "\\r"
    else if c < ' ' then ['\\', 'u', '0', '0', HexDigit(c as int / 16), HexDigit(c as int % 16)]
    else [c]
  }

  /** The escaped contents of a string literal: no control character survives. */
  function Escape(s: string): (r: string)
    ensures forall i :: 0 <= i < |r| ==> r[i] >= ' '
  {
    if s == [] then "" else EscapeChar(s[0]) + Escape(s[1..])
  }

  /** A character that a string literal can hold as it is. */
  predicate Unescaped(c: char) {
    c >= ' ' && c != '"' && c != '\\'
  }

  /** Text made only of characters that need no escape is written unchanged. */
  lemma {:induction false} EscapeKeepsPlain(s: string)
    requires forall i :: 0 <= i < |s| ==> Unescaped(s[i])
    ensures Escape(s) == s
  {
    if s != [] {
      EscapeKeepsPlain(s[1..]);
      assert s == [s[0]] + s[1..];
    }
  }

  /** The value of a hexadecimal digit in either case. */
  function HexValue(c: char): (r: Option<nat>)
    ensures r.Some? ==> r.value < 16
  {
    if '0' <= c <= '9' then Some(c as int - '0' as int)
    else if 'a' <= c <= 'f' then Some(c as int - 'a' as int + 10)
    else if 'A' <= c <= 'F' then Some(c as int - 'A' as int + 10)
    else None
  }

  /** The character a `\uXXXX` escape names, when its four digits name one on their own (no surrogate halves). */
  function Hex4(a: char, b: char, c: char, d: char): Option<char> {
    match (HexValue(a), HexValue(b), HexValue(c), HexValue(d))
    case (Some(x), Some(y), Some(z), Some(w)) =>
      var n := ((x * 16 + y) * 16 + z) * 16 + w;
      if 0xD800 <= n < 0xE000 then None else Some(n as char)
    case _ => None
  }

  /** The character a two-character escape `\c` stands for. */
  function ShortEscape(c: char): Option<char> {
    if c == '"' then Some('"')
    else if c == '\\' then Some('\\')
    else if c == '/' then Some('/')
    else if c == 'b' then Some('\U{8}')
    else if c == 'f' then Some('\U{C}')
    else if c == 'n' then Some('\n')
    else if c == 'r' then Some('\r')
    else if c == 't' then Some('\t')
    else None
  }

  /**
   * Reading the contents of a string literal back, as section 7 of RFC 8259
   * defines them: unescaped characters stand for themselves, a backslash
   * starts an escape, a bare quote or control character is an error.
   * (A surrogate pair written as two escapes is not read.)
   */
  function Unescape(s: string): (r: Option<string>)
    decreases |s|
  {
    if s == [] then Some("")
    else if s[0] == '\\' then
      if |s| >= 2 && ShortEscape(s[1]).Some? then
        match Unescape(s[2..])
        case Some(rest) => Some([ShortEscape(s[1]).value] + rest)
        case None => None
      else if |s| >= 6 && s[1] == 'u' && Hex4(s[2], s[3], s[4], s[5]).Some? then
        match Unescape(s[6..])
        case Some(rest) => Some([Hex4(s[2], s[3], s[4], s[5]).value] + rest)
        case None => None
      else None
    else if Unescaped(s[0]) then
      match Unescape(s[1..])
      case Some(rest) => Some([s[0]] + rest)
      case None => None
    else None
  }

  /** Reading an escaped character back gives the character, whatever follows it. */
  lemma UnescapeChar(c: char, t: string)
    ensures Unescape(EscapeChar(c) + t)
         == match Unescape(t)
            case Some(rest) => Some([c] + rest)
            case None => None
  {
    if c < ' ' && c != '\U{8}' && c != '\t' && c != '\n' && c != '\U{C}' && c != '\r' {
      UnescapeHex(c, t);
    } else if |EscapeChar(c)| == 2 {
      var s := EscapeChar(c) + t;
      assert s[..2] == EscapeChar(c) && s[2..] == t;
    } else {
      assert (EscapeChar(c) + t)[1..] == t;
    }
  }

  /** A control character without a short form comes back from its `\u00xx` form. */
  lemma UnescapeHex(c: char, t: string)
    requires c < ' ' && c != '\U{8}' && c != '\t' && c != '\n' && c != '\U{C}' && c != '\r'
    ensures Unescape(EscapeChar(c) + t)
         == match Unescape(t)
            case Some(rest) => Some([c] + rest)
            case None => None
  {
    var e := EscapeChar(c);
    var s := e + t;
    var hi, lo := c as int / 16, c as int % 16;
    assert e == ['\\', 'u', '0', '0', HexDigit(hi), HexDigit(lo)];
    assert HexValue(HexDigit(hi)) == Some(hi);
    assert HexValue(HexDigit(lo)) == Some(lo);
    assert HexValue('0') == Some(0);
    assert s[..6] == e && s[6..] == t;
    assert Hex4(s[2], s[3], s[4], s[5]) == Some(c);
  }

  /** Every string survives escaping: reading the escaped contents back gives the original. */
  lemma {:induction false} UnescapeEscape(s: string)
    ensures Unescape(Escape(s)) == Some(s)
  {
    if s != [] {
      UnescapeEscape(s[1..]);
      UnescapeChar(s[0], Escape(s[1..]));
      assert [s[0]] + s[1..] == s;
    }
  }

  function Quote(s: string): string {
    "\"" + Escape(s) + "\""
  }

  /** The separator in front of an array element or object member at depth `level`. */
  function Sep(layout: Layout, level: nat, first: bool): string {
    match layout
    case Compact => if first then "" else ","
    case Pretty(indent) => (if first then "\n" else ",\n") + Repeat(indent, level)
  }

  /** What precedes the closing bracket of a non-empty container at depth `level`. */
  function Close(layout: Layout, level: nat): string {
    match layout
    case Compact => ""
    case Pretty(indent) => "\n" + Repeat(indent, level)
  }

  function Colon(layout: Layout): string {
    if layout.Compact? then ":" else ": "
  }

  /** The text of `v` written at depth `level`. */
  function Text(v: Value, layout: Layout, level: nat): string
    decreases v, 1
  {
    match v
    case Null => "null"
    case Bool(b) => if b then "true" else "false"
    case Number(n) => IntText(n)
    case Str(s) => Quote(s)
    case Array(items) =>
      if items == [] then "[]"
      else "[" + ItemsText(items, layout, level + 1, true) + Close(layout, level) + "]"
    case Object(members) =>
      if members == [] then "{}"
      else "{" + MembersText(members, layout, level + 1, true) + Close(layout, level) + "}"
  }

  /** The elements of an array in order, each after its separator, at depth `level`. */
  function ItemsText(items: seq<Value>, layout: Layout, level: nat, first: bool): string
    decreases items, 0
  {
    if items == [] then ""
    else Sep(layout, level, first) + Text(items[0], layout, level) + ItemsText(items[1..], layout, level, false)
  }

  /** The members of an object in order, `"key": value`, each after its separator. */
  function MembersText(members: seq<Member>, layout: Layout, level: nat, first: bool): string
    decreases members, 0
  {
    if members == [] then ""
    else
      Sep(layout, level, first) + Quote(members[0].key) + Colon(layout) + Text(members[0].value, layout, level)
      + MembersText(members[1..], layout, level, false)
  }

  /** An object with one member: the member after the first separator, then the closing bracket. */
  lemma SingleMemberText(key: string, v: Value, layout: Layout, level: nat)
    ensures Text(Object([Member(key, v)]), layout, level)
         == "{" + (Sep(layout, level + 1, true) + Quote(key) + Colon(layout) + Text(v, layout, level + 1))
          + Close(layout, level) + "}"
  {
    SingleMembersText(key, v, layout, level + 1);
  }

  lemma SingleMembersText(key: string, v: Value, layout: Layout, level: nat)
    ensures MembersText([Member(key, v)], layout, level, true)
         == Sep(layout, level, true) + Quote(key) + Colon(layout) + Text(v, layout, level)
  {
    var members := [Member(key, v)];
    assert members[1..] == [];
  }

  /**
   * Array elements are written in order: the text of a concatenation is the
   * text of the first part followed by the text of the second.
   */
  lemma {:induction false} ItemsTextAppend(a: seq<Value>, b: seq<Value>, layout: Layout, level: nat, first: bool)
    ensures ItemsText(a + b, layout, level, first)
         == ItemsText(a, layout, level, first) + ItemsText(b, layout, level, first && a == [])
  {
    if a == [] {
      assert a + b == b;
    } else {
      assert (a + b)[0] == a[0] && (a + b)[1..] == a[1..] + b;
      ItemsTextAppend(a[1..], b, layout, level, false);
      var head := Sep(layout, level, first) + Text(a[0], layout, level);
      var rest, tail := ItemsText(a[1..], layout, level, false), ItemsText(b, layout, level, false);
      assert ItemsText(a + b, layout, level, first) == head + (rest + tail);
      assert ItemsText(a, layout, level, first) == head + rest;
      Regroup(head, rest, tail);
    }
  }

  lemma Regroup(x: string, y: string, z: string)
    ensures x + (y + z) == (x + y) + z
  {
  }

  /** Printable: no character below U+0020 at all, line breaks included. */
  predicate Printable(s: string) {
    forall i :: 0 <= i < |s| ==> s[i] >= ' '
  }

  /**
   * Compact text is a single printable line: strings cannot bring a line break
   * or any other control character with them, since `Escape` removes them all.
   */
  lemma {:induction false} CompactIsPrintable(v: Value, level: nat)
    ensures Printable(Text(v, Compact, level))
    decreases v, 1
  {
    match v
    case Null =>
    case Bool(_) =>
    case Number(n) =>
      NumberPrintable(n);
    case Str(s) =>
    case Array(items) =>
      if items != [] {
        ItemsCompactIsPrintable(items, level + 1, true);
        BracketedPrintable("[", ItemsText(items, Compact, level + 1, true), "]");
      }
    case Object(members) =>
      if members != [] {
        MembersCompactIsPrintable(members, level + 1, true);
        BracketedPrintable("{", MembersText(members, Compact, level + 1, true), "}");
      }
  }

  lemma NumberPrintable(n: int)
    ensures Printable(IntText(n))
  {
    var d := Decimal.Text(if n < 0 then -n else n);
    assert forall i :: 0 <= i < |d| ==> Decimal.IsDigit(d[i]);
  }

  lemma PrintableConcat(a: string, b: string)
    requires Printable(a) && Printable(b)
    ensures Printable(a + b)
  {
    forall i | 0 <= i < |a + b|
      ensures (a + b)[i] >= ' '
    {
      if i >= |a| {
        assert (a + b)[i] == b[i - |a|];
      }
    }
  }

  lemma BracketedPrintable(open: string, inside: string, close: string)
    requires Printable(open) && Printable(inside) && Printable(close)
    ensures Printable(open + inside + "" + close)
  {
    PrintableConcat(open, inside);
    assert open + inside + "" == open + inside;
    PrintableConcat(open + inside, close);
  }

  lemma {:induction false} ItemsCompactIsPrintable(items: seq<Value>, level: nat, first: bool)
    ensures Printable(ItemsText(items, Compact, level, first))
    decreases items, 0
  {
    if items != [] {
      var sep, head := Sep(Compact, level, first), Text(items[0], Compact, level);
      CompactIsPrintable(items[0], level);
      ItemsCompactIsPrintable(items[1..], level, false);
      PrintableConcat(sep, head);
      PrintableConcat(sep + head, ItemsText(items[1..], Compact, level, false));
    }
  }

  lemma {:induction false} MembersCompactIsPrintable(members: seq<Member>, level: nat, first: bool)
    ensures Printable(MembersText(members, Compact, level, first))
    decreases members, 0
  {
    if members != [] {
      var sep, key, head := Sep(Compact, level, first), Quote(members[0].key), Text(members[0].value, Compact, level);
      CompactIsPrintable(members[0].value, level);
      MembersCompactIsPrintable(members[1..], level, false);
      PrintableConcat("\"" + Escape(members[0].key), "\"");
      PrintableConcat(sep, key);
      PrintableConcat(sep + key, ":");
      PrintableConcat(sep + key + ":", head);
      PrintableConcat(sep + key + ":" + head, MembersText(members[1..], Compact, level, false));
    }
  }

  /** `s` with `indent` inserted after every line break. */
  function Reindent(s: string, indent: string): (r: string)
    ensures '\n' !in s ==> r == s
  {
    if s == [] then ""
    else if s[0] == '\n' then "\n" + indent + Reindent(s[1..], indent)
    else [s[0]] + Reindent(s[1..], indent)
  }

  lemma {:induction false} ReindentConcat(a: string, b: string, indent: string)
    ensures Reindent(a + b, indent) == Reindent(a, indent) + Reindent(b, indent)
  {
    if a != [] {
      var ab := a + b;
      assert ab[0] == a[0] && ab[1..] == a[1..] + b;
      ReindentConcat(a[1..], b, indent);
      var head := if a[0] == '\n' then "\n" + indent else [a[0]];
      assert Reindent(a, indent) == head + Reindent(a[1..], indent);
      assert Reindent(ab, indent) == head + Reindent(ab[1..], indent);
    } else {
      assert a + b == b;
    }
  }

  lemma ReindentLine(indent: string, level: nat)
    requires '\n' !in indent
    ensures Reindent("\n" + Repeat(indent, level), indent) == "\n" + Repeat(indent, level + 1)
  {
    RepeatHasNoBreak(indent, level);
    ReindentNewline(Repeat(indent, level), indent);
  }

  lemma {:induction false} RepeatHasNoBreak(indent: string, level: nat)
    requires '\n' !in indent
    ensures '\n' !in Repeat(indent, level)
  {
    if level > 0 {
      RepeatHasNoBreak(indent, level - 1);
    }
  }

  lemma ReindentSep(indent: string, level: nat, first: bool)
    requires '\n' !in indent
    ensures Reindent(Sep(Pretty(indent), level, first), indent) == Sep(Pretty(indent), level + 1, first)
  {
    RepeatHasNoBreak(indent, level);
    ReindentBreak(if first then "\n" else ",\n", Repeat(indent, level), indent);
  }

  /** A separator's line break gains one more indent; the whitespace after it has no break. */
  lemma ReindentBreak(sep: string, rest: string, indent: string)
    requires sep == "\n" || sep == ",\n"
    requires '\n' !in rest
    ensures Reindent(sep + rest, indent) == sep + (indent + rest)
  {
    ReindentNewline(rest, indent);
    if sep == ",\n" {
      var s := sep + rest;
      assert s[0] == ',' && s[1..] == "\n" + rest;
      assert Reindent(s, indent) == [','] + ("\n" + (indent + rest));
    }
  }

  lemma ReindentNewline(rest: string, indent: string)
    requires '\n' !in rest
    ensures Reindent("\n" + rest, indent) == "\n" + (indent + rest)
  {
    assert ("\n" + rest)[1..] == rest;
    assert Reindent("\n" + rest, indent) == "\n" + indent + rest;
  }

  /** Brackets hold no line break, so only the inside and the closing line are reindented. */
  lemma ReindentBracket(open: string, inside: string, close: string, bracket: string, indent: string)
    requires '\n' !in open && '\n' !in bracket
    ensures Reindent(open + inside + close + bracket, indent)
         == open + Reindent(inside, indent) + Reindent(close, indent) + bracket
  {
    ReindentConcat(open + inside + close, bracket, indent);
    ReindentConcat(open + inside, close, indent);
    ReindentConcat(open, inside, indent);
  }

  lemma PrintableHasNoBreak(s: string)
    requires Printable(s)
    ensures '\n' !in s
  {
  }

  /**
   * Each nesting level adds exactly one indent: the pretty text of a value one
   * level deeper is its text with one more indent after every line break.
   */
  lemma {:induction false} PrettyNesting(v: Value, indent: string, level: nat)
    requires '\n' !in indent
    ensures Reindent(Text(v, Pretty(indent), level), indent) == Text(v, Pretty(indent), level + 1)
    decreases v, 1
  {
    match v
    case Null =>
    case Bool(_) =>
    case Number(_) =>
      ScalarNesting(v, indent, level);
    case Str(_) =>
      ScalarNesting(v, indent, level);
    case Array(items) =>
      if items != [] {
        ItemsNesting(items, indent, level + 1, true);
        ContainerNesting(v, indent, level);
      }
    case Object(members) =>
      if members != [] {
        MembersNesting(members, indent, level + 1, true);
        ContainerNesting(v, indent, level);
      }
  }

  /** Numbers and strings are one printable line at every depth. */
  lemma ScalarNesting(v: Value, indent: string, level: nat)
    requires v.Number? || v.Str?
    ensures Reindent(Text(v, Pretty(indent), level), indent) == Text(v, Pretty(indent), level + 1)
  {
    CompactIsPrintable(v, level);
    PrintableHasNoBreak(Text(v, Compact, level));
  }

  /** A non-empty container reindents as its inside and its closing line do. */
  lemma ContainerNesting(v: Value, indent: string, level: nat)
    requires '\n' !in indent
    requires (v.Array? && v.items != []) || (v.Object? && v.members != [])
    requires v.Array? ==>
      Reindent(ItemsText(v.items, Pretty(indent), level + 1, true), indent)
      == ItemsText(v.items, Pretty(indent), level + 2, true)
    requires v.Object? ==>
      Reindent(MembersText(v.members, Pretty(indent), level + 1, true), indent)
      == MembersText(v.members, Pretty(indent), level + 2, true)
    ensures Reindent(Text(v, Pretty(indent), level), indent) == Text(v, Pretty(indent), level + 1)
  {
    var layout := Pretty(indent);
    ReindentLine(indent, level);
    if v.Array? {
      var inside := ItemsText(v.items, layout, level + 1, true);
      BracketNesting("[", inside, ItemsText(v.items, layout, level + 2, true), "]", indent, level);
    } else {
      var inside := MembersText(v.members, layout, level + 1, true);
      BracketNesting("{", inside, MembersText(v.members, layout, level + 2, true), "}", indent, level);
    }
  }

  lemma BracketNesting(open: string, inside: string, inside': string, bracket: string, indent: string, level: nat)
    requires '\n' !in open && '\n' !in bracket
    requires Reindent(inside, indent) == inside'
    requires Reindent(Close(Pretty(indent), level), indent) == Close(Pretty(indent), level + 1)
    ensures Reindent(open + inside + Close(Pretty(indent), level) + bracket, indent)
         == open + inside' + Close(Pretty(indent), level + 1) + bracket
  {
    ReindentBracket(open, inside, Close(Pretty(indent), level), bracket, indent);
  }

  lemma {:induction false} ItemsNesting(items: seq<Value>, indent: string, level: nat, first: bool)
    requires '\n' !in indent
    ensures Reindent(ItemsText(items, Pretty(indent), level, first), indent)
         == ItemsText(items, Pretty(indent), level + 1, first)
    decreases items, 0
  {
    var layout := Pretty(indent);
    if items != [] {
      var sep, head, tail := Sep(layout, level, first), Text(items[0], layout, level), ItemsText(items[1..], layout, level, false);
      ReindentSep(indent, level, first);
      PrettyNesting(items[0], indent, level);
      ItemsNesting(items[1..], indent, level, false);
      ReindentConcat(sep + head, tail, indent);
      ReindentConcat(sep, head, indent);
    }
  }

  lemma {:induction false} MembersNesting(members: seq<Member>, indent: string, level: nat, first: bool)
    requires '\n' !in indent
    ensures Reindent(MembersText(members, Pretty(indent), level, first), indent)
         == MembersText(members, Pretty(indent), level + 1, first)
    decreases members, 0
  {
    var layout := Pretty(indent);
    if members != [] {
      var key := Quote(members[0].key);
      KeyHasNoBreak(members[0].key);
      ReindentSep(indent, level, first);
      PrettyNesting(members[0].value, indent, level);
      MembersNesting(members[1..], indent, level, false);
      ReindentMember(Sep(layout, level, first), key, ": ", Text(members[0].value, layout, level),
                     MembersText(members[1..], layout, level, false), Sep(layout, level + 1, first),
                     Text(members[0].value, layout, level + 1), MembersText(members[1..], layout, level + 1, false), indent);
    }
  }

  /** One member's pieces reindent piece by piece; the key and the colon hold no line break. */
  lemma ReindentMember(sep: string, key: string, colon: string, head: string, tail: string,
                       sep': string, head': string, tail': string, indent: string)
    requires '\n' !in key && '\n' !in colon
    requires Reindent(sep, indent) == sep' && Reindent(head, indent) == head' && Reindent(tail, indent) == tail'
    ensures Reindent(sep + key + colon + head + tail, indent) == sep' + key + colon + head' + tail'
  {
    ReindentConcat(sep + key + colon + head, tail, indent);
    ReindentConcat(sep + key + colon, head, indent);
    ReindentConcat(sep + key, colon, indent);
    ReindentConcat(sep, key, indent);
  }

  lemma KeyHasNoBreak(key: string)
    ensures '\n' !in Quote(key)
  {
    CompactIsPrintable(Str(key), 0);
    PrintableHasNoBreak(Quote(key));
  }
}
