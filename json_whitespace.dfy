/**
 * The whitespace JSON text may carry between its tokens (section 2 of
 * RFC 8259), and what is left once it is removed. A reader of the text is
 * either between tokens, inside a string literal, or just after a backslash
 * in one; only whitespace met between tokens is insignificant.
 */
module JsonWhitespace {
  import opened JsonValue
  import Decimal

  datatype Place = Between | InString | AfterBackslash

  /** Space, tab, line feed and carriage return: the insignificant whitespace of RFC 8259. */
  predicate IsWhitespace(c: char) {
    c == ' ' || c == '\t' || c == '\n' || c == '\r'
  }

  /** Where the reader is after one more character. */
  function Step(c: char, at: Place): Place {
    match at
    case Between => if c == '"' then InString else Between
    case InString => if c == '\\' then AfterBackslash else if c == '"' then Between else InString
    case AfterBackslash => InString
  }

  /** Where the reader is after `s`, starting at `at`. */
  function After(s: string, at: Place): Place
    decreases |s|
  {
    if s == [] then at else After(s[1..], Step(s[0], at))
  }

  /** `s` read from `at`, with the whitespace between tokens dropped and everything else kept. */
  function Strip(s: string, at: Place): string
    decreases |s|
  {
    if s == [] then ""
    else if at.Between? && IsWhitespace(s[0]) then Strip(s[1..], at)
    else [s[0]] + Strip(s[1..], Step(s[0], at))
  }

  /** JSON text with its insignificant whitespace removed. */
  function Minify(s: string): string {
    Strip(s, Between)
  }

  /** `s` is a whole number of tokens that strips to `t`: the reader ends between tokens again. */
  predicate Reduces(s: string, t: string) {
    Strip(s, Between) == t && After(s, Between) == Between
  }

  /** Reading `a + b` is reading `a`, then reading `b` from where `a` left off. */
  lemma {:induction false} StripConcat(a: string, b: string, at: Place)
    ensures Strip(a + b, at) == Strip(a, at) + Strip(b, After(a, at))
    ensures After(a + b, at) == After(b, After(a, at))
    decreases |a|
  {
    if a == [] {
      assert a + b == b;
    } else {
      assert (a + b)[0] == a[0] && (a + b)[1..] == a[1..] + b;
      StripConcat(a[1..], b, Step(a[0], at));
      if !(at.Between? && IsWhitespace(a[0])) {
        Regroup([a[0]], Strip(a[1..], Step(a[0], at)), Strip(b, After(a, at)));
      }
    }
  }

  lemma ReducesConcat(a: string, a': string, b: string, b': string)
    requires Reduces(a, a') && Reduces(b, b')
    ensures Reduces(a + b, a' + b')
  {
    StripConcat(a, b, Between);
  }

  /** Text with no quote and no whitespace is kept as it is. */
  lemma {:induction false} PlainReduces(s: string)
    requires forall i :: 0 <= i < |s| ==> s[i] != '"' && !IsWhitespace(s[i])
    ensures Reduces(s, s)
    decreases |s|
  {
    if s != [] {
      PlainReduces(s[1..]);
    }
  }

  /** Whitespace alone strips to nothing. */
  lemma {:induction false} WhitespaceReduces(s: string)
    requires forall i :: 0 <= i < |s| ==> IsWhitespace(s[i])
    ensures Reduces(s, "")
    decreases |s|
  {
    if s != [] {
      WhitespaceReduces(s[1..]);
    }
  }

  lemma {:induction false} RepeatIsWhitespace(indent: string, level: nat)
    requires forall i :: 0 <= i < |indent| ==> IsWhitespace(indent[i])
    ensures forall i :: 0 <= i < |Repeat(indent, level)| ==> IsWhitespace(Repeat(indent, level)[i])
  {
    if level > 0 {
      RepeatIsWhitespace(indent, level - 1);
      var r := Repeat(indent, level - 1);
      assert forall i :: |indent| <= i < |indent + r| ==> (indent + r)[i] == r[i - |indent|];
    }
  }

  /** Layouts whose indent is whitespace, so that all their layout text is insignificant. */
  predicate WhitespaceLayout(layout: Layout) {
    layout.Pretty? ==> forall i :: 0 <= i < |layout.indent| ==> IsWhitespace(layout.indent[i])
  }

  /** A separator strips to the compact separator; the text closing a container strips to nothing. */
  lemma SeparatorsReduce(layout: Layout, level: nat, first: bool)
    requires WhitespaceLayout(layout)
    ensures Reduces(Sep(layout, level, first), Sep(Compact, level, first))
    ensures Reduces(Close(layout, level), Close(Compact, level))
    ensures Reduces(Colon(layout), Colon(Compact))
  {
    if layout.Pretty? {
      var r := Repeat(layout.indent, level);
      RepeatIsWhitespace(layout.indent, level);
      WhitespaceReduces(r);
      WhitespaceReduces("\n");
      ReducesConcat("\n", "", r, "");
      if !first {
        PlainReduces(",");
        ReducesConcat(",", ",", "\n", "");
        ReducesConcat(",\n", ",", r, "");
      }
      PlainReduces(":");
      WhitespaceReduces(" ");
      ReducesConcat(":", ":", " ", "");
    } else {
      PlainReduces(Sep(layout, level, first));
      PlainReduces(":");
      PlainReduces("");
    }
  }

  /** Inside a string literal, text with no quote and no backslash is kept and ends inside. */
  lemma {:induction false} PlainInString(s: string)
    requires forall i :: 0 <= i < |s| ==> s[i] != '"' && s[i] != '\\'
    ensures Strip(s, InString) == s && After(s, InString) == InString
    decreases |s|
  {
    if s != [] {
      PlainInString(s[1..]);
    }
  }

  /** Inside a string literal every escaped character is kept, and the reader stays inside. */
  lemma EscapeCharInString(c: char)
    ensures Strip(EscapeChar(c), InString) == EscapeChar(c)
    ensures After(EscapeChar(c), InString) == InString
  {
    var e := EscapeChar(c);
    if c < ' ' && c != '\U{8}' && c != '\t' && c != '\n' && c != '\U{C}' && c != '\r' {
      var digits := ['0', '0', HexDigit(c as int / 16), HexDigit(c as int % 16)];
      PlainInString(digits);
      assert e == "\\u" + digits;
      StripConcat("\\u", digits, InString);
    } else if c == '"' || c == '\\' || c < ' ' {
      EscapedPairInString(e[1]);
      assert e == ['\\', e[1]];
    } else {
      PlainInString([c]);
    }
  }

  /** A backslash and the character it escapes, read inside a string literal. */
  lemma EscapedPairInString(x: char)
    ensures Strip(['\\', x], InString) == ['\\', x]
    ensures After(['\\', x], InString) == InString
  {
    assert ['\\', x][1..] == [x];
    assert Strip([x], AfterBackslash) == [x] + Strip([], InString);
    assert After([x], AfterBackslash) == After([], InString);
  }

  lemma {:induction false} EscapeInString(s: string)
    ensures Strip(Escape(s), InString) == Escape(s)
    ensures After(Escape(s), InString) == InString
  {
    if s != [] {
      EscapeCharInString(s[0]);
      EscapeInString(s[1..]);
      StripConcat(EscapeChar(s[0]), Escape(s[1..]), InString);
    }
  }

  /** A string literal is kept whole, whitespace inside it included. */
  lemma QuoteReduces(s: string)
    ensures Reduces(Quote(s), Quote(s))
  {
    EscapeInString(s);
    StripConcat("\"", Escape(s), Between);
    StripConcat("\"" + Escape(s), "\"", Between);
  }

  lemma NumberReduces(n: int)
    ensures Reduces(IntText(n), IntText(n))
  {
    var digits := Decimal.Text(if n < 0 then -n else n);
    assert forall i :: 0 <= i < |digits| ==> Decimal.IsDigit(digits[i]);
    PlainReduces(digits);
    if n < 0 {
      PlainReduces("-");
      ReducesConcat("-", "-", digits, digits);
    }
  }

  /**
   * Removing the insignificant whitespace from the text of `v` in any
   * whitespace layout gives its compact text.
   */
  lemma {:induction false} TextReduces(v: Value, layout: Layout, level: nat)
    requires WhitespaceLayout(layout)
    ensures Reduces(Text(v, layout, level), Text(v, Compact, level))
    decreases v, 1
  {
    match v
    case Null => PlainReduces("null");
    case Bool(b) => PlainReduces(if b then "true" else "false");
    case Number(n) => NumberReduces(n);
    case Str(s) => QuoteReduces(s);
    case Array(items) =>
      if items == [] {
        PlainReduces("[]");
      } else {
        ItemsReduce(items, layout, level + 1, true);
        ContainerReduces("[", ItemsText(items, layout, level + 1, true), ItemsText(items, Compact, level + 1, true),
                         "]", layout, level);
      }
    case Object(members) =>
      if members == [] {
        PlainReduces("{}");
      } else {
        MembersReduce(members, layout, level + 1, true);
        ContainerReduces("{", MembersText(members, layout, level + 1, true), MembersText(members, Compact, level + 1, true),
                         "}", layout, level);
      }
  }

  lemma ContainerReduces(open: string, inside: string, inside': string, close: string, layout: Layout, level: nat)
    requires WhitespaceLayout(layout)
    requires open == "[" || open == "{"
    requires close == "]" || close == "}"
    requires Reduces(inside, inside')
    ensures Reduces(open + inside + Close(layout, level) + close, open + inside' + Close(Compact, level) + close)
  {
    PlainReduces(open);
    PlainReduces(close);
    SeparatorsReduce(layout, level, true);
    ReducesConcat(open, open, inside, inside');
    ReducesConcat(open + inside, open + inside', Close(layout, level), Close(Compact, level));
    ReducesConcat(open + inside + Close(layout, level), open + inside' + Close(Compact, level), close, close);
  }

  lemma {:induction false} ItemsReduce(items: seq<Value>, layout: Layout, level: nat, first: bool)
    requires WhitespaceLayout(layout)
    ensures Reduces(ItemsText(items, layout, level, first), ItemsText(items, Compact, level, first))
    decreases items, 0
  {
    if items == [] {
      PlainReduces("");
    } else {
      var sep, head, tail := Sep(layout, level, first), Text(items[0], layout, level), ItemsText(items[1..], layout, level, false);
      var sep', head', tail' := Sep(Compact, level, first), Text(items[0], Compact, level), ItemsText(items[1..], Compact, level, false);
      SeparatorsReduce(layout, level, first);
      TextReduces(items[0], layout, level);
      ItemsReduce(items[1..], layout, level, false);
      ReducesConcat(sep, sep', head, head');
      ReducesConcat(sep + head, sep' + head', tail, tail');
    }
  }

  lemma {:induction false} MembersReduce(members: seq<Member>, layout: Layout, level: nat, first: bool)
    requires WhitespaceLayout(layout)
    ensures Reduces(MembersText(members, layout, level, first), MembersText(members, Compact, level, first))
    decreases members, 0
  {
    if members == [] {
      PlainReduces("");
    } else {
      var sep, key, colon := Sep(layout, level, first), Quote(members[0].key), Colon(layout);
      var head, tail := Text(members[0].value, layout, level), MembersText(members[1..], layout, level, false);
      var sep', colon' := Sep(Compact, level, first), Colon(Compact);
      var head', tail' := Text(members[0].value, Compact, level), MembersText(members[1..], Compact, level, false);
      SeparatorsReduce(layout, level, first);
      QuoteReduces(members[0].key);
      TextReduces(members[0].value, layout, level);
      MembersReduce(members[1..], layout, level, false);
      ReducesConcat(sep, sep', key, key);
      ReducesConcat(sep + key, sep' + key, colon, colon');
      ReducesConcat(sep + key + colon, sep' + key + colon', head, head');
      ReducesConcat(sep + key + colon + head, sep' + key + colon' + head', tail, tail');
    }
  }

  /**
   * Compaction is minification: the pretty text with its insignificant
   * whitespace removed is the compact text, and the compact text has no
   * insignificant whitespace left to remove.
   */
  lemma CompactIsMinified(v: Value, indent: string, level: nat)
    requires forall i :: 0 <= i < |indent| ==> IsWhitespace(indent[i])
    ensures Minify(Text(v, Pretty(indent), level)) == Text(v, Compact, level)
    ensures Minify(Text(v, Compact, level)) == Text(v, Compact, level)
  {
    TextReduces(v, Pretty(indent), level);
    TextReduces(v, Compact, level);
  }
}
