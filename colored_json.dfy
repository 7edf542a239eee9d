/**
 * The text `colored_json` writes with its default styler: the same
 * characters as the `serde_json` text, cut into pieces, some of which are
 * wrapped in ANSI SGR escape sequences (ESC `[` parameters `m` ... ESC `[0m`).
 * Object and array brackets are bold, keys bold blue, string values green;
 * separators, colons, numbers, booleans and null are written plain. A
 * bracket that closes a non-empty container carries the line break and the
 * indent in front of it inside its painted piece.
 */
module ColoredJson {
  import opened JsonValue

  const Esc: char := '\U{1B}'

  datatype Style = Plain | Bracket | Key | StringValue

  datatype Piece = Piece(style: Style, text: string)

  /** The SGR parameters of a style; `Plain` is never wrapped. */
  function Sgr(style: Style): (code: string)
    ensures style.Plain? <==> code == ""
    ensures forall i :: 0 <= i < |code| ==> IsParam(code[i])
  {
    match style
    case Plain => ""
    case Bracket => "1"
    case Key => "1;34"
    case StringValue => "32"
  }

  predicate IsParam(c: char) {
    '0' <= c <= '9' || c == ';'
  }

  /** One piece as written: plain text, or `ESC[<code>m` text `ESC[0m`. */
  function Paint(p: Piece): string {
    if p.style.Plain? then p.text
    else [Esc] + "[" + Sgr(p.style) + "m" + p.text + [Esc] + "[0m"
  }

  /** The default styles: bold brackets, bold blue keys, green string values, plain everything else. */
  lemma StyleCodes(t: string)
    ensures Paint(Piece(Bracket, t)) == "\U{1B}[1m" + t + "\U{1B}[0m"
    ensures Paint(Piece(Key, t)) == "\U{1B}[1;34m" + t + "\U{1B}[0m"
    ensures Paint(Piece(StringValue, t)) == "\U{1B}[32m" + t + "\U{1B}[0m"
    ensures Paint(Piece(Plain, t)) == t
  {
    StyleCode(Bracket, t, "\U{1B}[1m");
    StyleCode(Key, t, "\U{1B}[1;34m");
    StyleCode(StringValue, t, "\U{1B}[32m");
  }

  lemma StyleCode(style: Style, t: string, open: string)
    requires !style.Plain? && open == [Esc] + "[" + Sgr(style) + "m"
    ensures Paint(Piece(style, t)) == open + t + "\U{1B}[0m"
  {
    assert [Esc] + "[0m" == "\U{1B}[0m";
  }

  function Render(ps: seq<Piece>): string {
    if ps == [] then "" else Paint(ps[0]) + Render(ps[1..])
  }

  lemma RenderStep(ps: seq<Piece>, i: nat)
    requires i < |ps|
    ensures Render(ps[i..]) == Paint(ps[i]) + Render(ps[i + 1..])
  {
    assert ps[i..][1..] == ps[i + 1..];
  }

  /** The characters of the pieces with no styling at all. */
  function PlainText(ps: seq<Piece>): string {
    if ps == [] then "" else ps[0].text + PlainText(ps[1..])
  }

  /** A string literal: opening quote, escaped contents if there are any, closing quote, all in one style. */
  function StringPieces(style: Style, s: string): seq<Piece> {
    [Piece(style, "\"")] + (if Escape(s) == [] then [] else [Piece(style, Escape(s))]) + [Piece(style, "\"")]
  }

  /** The pieces of `v` written at depth `level`. */
  function Tokens(v: Value, layout: Layout, level: nat): seq<Piece>
    decreases v, 1
  {
    match v
    case Null => [Piece(Plain, "null")]
    case Bool(b) => [Piece(Plain, if b then "true" else "false")]
    case Number(n) => [Piece(Plain, IntText(n))]
    case Str(s) => StringPieces(StringValue, s)
    case Array(items) =>
      if items == [] then [Piece(Bracket, "["), Piece(Bracket, "]")]
      else [Piece(Bracket, "[")] + ItemTokens(items, layout, level + 1, true) + [Piece(Bracket, Close(layout, level) + "]")]
    case Object(members) =>
      if members == [] then [Piece(Bracket, "{"), Piece(Bracket, "}")]
      else [Piece(Bracket, "{")] + MemberTokens(members, layout, level + 1, true) + [Piece(Bracket, Close(layout, level) + "}")]
  }

  function ItemTokens(items: seq<Value>, layout: Layout, level: nat, first: bool): seq<Piece>
    decreases items, 0
  {
    if items == [] then []
    else [Piece(Plain, Sep(layout, level, first))] + Tokens(items[0], layout, level)
         + ItemTokens(items[1..], layout, level, false)
  }

  function MemberTokens(members: seq<Member>, layout: Layout, level: nat, first: bool): seq<Piece>
    decreases members, 0
  {
    if members == [] then []
    else [Piece(Plain, Sep(layout, level, first))] + StringPieces(Key, members[0].key) + [Piece(Plain, Colon(layout))]
         + Tokens(members[0].value, layout, level) + MemberTokens(members[1..], layout, level, false)
  }

  /** The coloured text of `v`, as `to_colored_json` writes it when colour is on. */
  function Colored(v: Value, layout: Layout): string {
    Render(Tokens(v, layout, 0))
  }

  /** How many SGR parameter characters `s` starts with. */
  function ParamsLength(s: string): (n: nat)
    ensures n <= |s|
    ensures forall i :: 0 <= i < n ==> IsParam(s[i])
    ensures n < |s| ==> !IsParam(s[n])
  {
    if s != [] && IsParam(s[0]) then 1 + ParamsLength(s[1..]) else 0
  }

  /** `s` with every SGR sequence `ESC [ params m` removed and everything else kept in order. */
  function StripAnsi(s: string): string
    decreases |s|
  {
    if s == [] then ""
    else if |s| >= 2 && s[0] == Esc && s[1] == '[' && 2 + ParamsLength(s[2..]) < |s|
            && s[2 + ParamsLength(s[2..])] == 'm' then
      StripAnsi(s[3 + ParamsLength(s[2..])..])
    else [s[0]] + StripAnsi(s[1..])
  }

  predicate NoEsc(s: string) {
    forall i :: 0 <= i < |s| ==> s[i] != Esc
  }

  predicate CleanPieces(ps: seq<Piece>) {
    forall i :: 0 <= i < |ps| ==> NoEsc(ps[i].text)
  }

  /** Text with no escape character passes through `StripAnsi` untouched. */
  lemma {:induction false} StripPrefix(a: string, b: string)
    requires NoEsc(a)
    ensures StripAnsi(a + b) == a + StripAnsi(b)
  {
    if a != [] {
      var ab := a + b;
      assert ab[0] == a[0] && ab[1..] == a[1..] + b;
      StripPrefix(a[1..], b);
      assert a == [a[0]] + a[1..];
    } else {
      assert a + b == b;
    }
  }

  lemma StripClean(text: string)
    requires NoEsc(text)
    ensures StripAnsi(text) == text
  {
    StripPrefix(text, "");
    assert text + "" == text;
  }

  lemma ParamsLengthOf(code: string, rest: string)
    requires forall i :: 0 <= i < |code| ==> IsParam(code[i])
    ensures ParamsLength(code + "m" + rest) == |code|
    decreases |code|
  {
    if code != [] {
      assert (code + "m" + rest)[1..] == code[1..] + "m" + rest;
      ParamsLengthOf(code[1..], rest);
    }
  }

  /** One SGR sequence at the front is removed whole. */
  lemma StripSgr(code: string, rest: string)
    requires forall i :: 0 <= i < |code| ==> IsParam(code[i])
    ensures StripAnsi([Esc] + "[" + code + "m" + rest) == StripAnsi(rest)
  {
    var s := [Esc] + "[" + code + "m" + rest;
    assert s[2..] == code + "m" + rest;
    ParamsLengthOf(code, rest);
    assert s[2 + |code|] == 'm';
    assert s[3 + |code|..] == rest;
  }

  lemma StripPaint(p: Piece, rest: string)
    requires NoEsc(p.text)
    ensures StripAnsi(Paint(p) + rest) == p.text + StripAnsi(rest)
  {
    if p.style.Plain? {
      StripPrefix(p.text, rest);
    } else {
      StripStyled(Sgr(p.style), p.text, rest);
    }
  }

  /** A styled piece loses its opening sequence and its reset, and keeps its text. */
  lemma StripStyled(code: string, text: string, rest: string)
    requires forall i :: 0 <= i < |code| ==> IsParam(code[i])
    requires NoEsc(text)
    ensures StripAnsi([Esc] + "[" + code + "m" + text + [Esc] + "[0m" + rest) == text + StripAnsi(rest)
  {
    var reset := [Esc] + "[" + "0" + "m" + rest;
    assert [Esc] + "[" + code + "m" + text + [Esc] + "[0m" + rest == [Esc] + "[" + code + "m" + (text + reset);
    StripSgr(code, text + reset);
    StripPrefix(text, reset);
    StripSgr("0", rest);
  }

  /** Stripping the escapes from rendered pieces leaves exactly their plain text. */
  lemma {:induction false} StripRender(ps: seq<Piece>)
    requires CleanPieces(ps)
    ensures StripAnsi(Render(ps)) == PlainText(ps)
  {
    if ps == [] {
    } else {
      StripRender(ps[1..]);
      StripPaint(ps[0], Render(ps[1..]));
    }
  }

  lemma {:induction false} PlainTextConcat(a: seq<Piece>, b: seq<Piece>)
    ensures PlainText(a + b) == PlainText(a) + PlainText(b)
  {
    if a == [] {
      assert a + b == b;
    } else {
      assert (a + b)[0] == a[0] && (a + b)[1..] == a[1..] + b;
      PlainTextConcat(a[1..], b);
    }
  }

  lemma StringPiecesText(style: Style, s: string)
    ensures PlainText(StringPieces(style, s)) == Quote(s)
    ensures CleanPieces(StringPieces(style, s))
  {
    var e := Escape(s);
    if e == [] {
      assert PlainText(StringPieces(style, s)) == "\"" + PlainText([Piece(style, "\"")]);
    } else {
      var ps := StringPieces(style, s);
      assert ps[1..] == [Piece(style, e), Piece(style, "\"")];
      assert ps[2..] == [Piece(style, "\"")];
      assert PlainText(ps[2..]) == "\"";
      assert PlainText(ps[1..]) == e + "\"";
      assert PlainText(ps) == "\"" + (e + "\"");
    }
  }

  /**
   * Removing the colour gives the `serde_json` text: the pieces of a value,
   * laid end to end, are its text.
   */
  lemma {:induction false} TokensText(v: Value, layout: Layout, level: nat)
    ensures PlainText(Tokens(v, layout, level)) == Text(v, layout, level)
    decreases v, 1
  {
    match v
    case Null =>
    case Bool(_) =>
    case Number(_) =>
    case Str(s) =>
      StringPiecesText(StringValue, s);
    case Array(items) =>
      if items == [] {
        assert PlainText([Piece(Bracket, "]")]) == "]";
      } else {
        ItemTokensText(items, layout, level + 1, true);
        ArrayText(items, layout, level);
      }
    case Object(members) =>
      if members == [] {
        assert PlainText([Piece(Bracket, "}")]) == "}";
      } else {
        MemberTokensText(members, layout, level + 1, true);
        ObjectText(members, layout, level);
      }
  }

  lemma ArrayText(items: seq<Value>, layout: Layout, level: nat)
    requires items != []
    requires PlainText(ItemTokens(items, layout, level + 1, true)) == ItemsText(items, layout, level + 1, true)
    ensures PlainText(Tokens(Array(items), layout, level)) == Text(Array(items), layout, level)
  {
    ContainerText(Piece(Bracket, "["), ItemTokens(items, layout, level + 1, true), Piece(Bracket, Close(layout, level) + "]"));
  }

  lemma ObjectText(members: seq<Member>, layout: Layout, level: nat)
    requires members != []
    requires PlainText(MemberTokens(members, layout, level + 1, true)) == MembersText(members, layout, level + 1, true)
    ensures PlainText(Tokens(Object(members), layout, level)) == Text(Object(members), layout, level)
  {
    ContainerText(Piece(Bracket, "{"), MemberTokens(members, layout, level + 1, true), Piece(Bracket, Close(layout, level) + "}"));
  }

  lemma ContainerText(open: Piece, inside: seq<Piece>, close: Piece)
    ensures PlainText([open] + inside + [close]) == open.text + PlainText(inside) + close.text
  {
    PlainTextConcat([open] + inside, [close]);
    PlainTextConcat([open], inside);
  }

  lemma {:induction false} ItemTokensText(items: seq<Value>, layout: Layout, level: nat, first: bool)
    ensures PlainText(ItemTokens(items, layout, level, first)) == ItemsText(items, layout, level, first)
    decreases items, 0
  {
    if items != [] {
      var sep := [Piece(Plain, Sep(layout, level, first))];
      var head := Tokens(items[0], layout, level);
      var tail := ItemTokens(items[1..], layout, level, false);
      TokensText(items[0], layout, level);
      ItemTokensText(items[1..], layout, level, false);
      PlainTextConcat(sep + head, tail);
      PlainTextConcat(sep, head);
    }
  }

  lemma {:induction false} MemberTokensText(members: seq<Member>, layout: Layout, level: nat, first: bool)
    ensures PlainText(MemberTokens(members, layout, level, first)) == MembersText(members, layout, level, first)
    decreases members, 0
  {
    if members != [] {
      var sep := [Piece(Plain, Sep(layout, level, first))];
      var key := StringPieces(Key, members[0].key);
      var colon := [Piece(Plain, Colon(layout))];
      var head := Tokens(members[0].value, layout, level);
      var tail := MemberTokens(members[1..], layout, level, false);
      assert MemberTokens(members, layout, level, first) == sep + key + colon + head + tail;
      StringPiecesText(Key, members[0].key);
      TokensText(members[0].value, layout, level);
      MemberTokensText(members[1..], layout, level, false);
      PlainTextConcat5(sep, key, colon, head, tail);
      PlainTextSingle(sep[0]);
      PlainTextSingle(colon[0]);
    }
  }

  lemma PlainTextSingle(p: Piece)
    ensures PlainText([p]) == p.text
  {
    assert [p][1..] == [];
  }

  lemma PlainTextConcat5(a: seq<Piece>, b: seq<Piece>, c: seq<Piece>, d: seq<Piece>, e: seq<Piece>)
    ensures PlainText(a + b + c + d + e) == PlainText(a) + PlainText(b) + PlainText(c) + PlainText(d) + PlainText(e)
  {
    PlainTextConcat(a + b + c + d, e);
    PlainTextConcat(a + b + c, d);
    PlainTextConcat(a + b, c);
    PlainTextConcat(a, b);
  }

  /** Layouts whose own whitespace holds no escape character. */
  predicate CleanLayout(layout: Layout) {
    layout.Pretty? ==> NoEsc(layout.indent)
  }

  lemma {:induction false} RepeatClean(indent: string, level: nat)
    requires NoEsc(indent)
    ensures NoEsc(Repeat(indent, level))
  {
    if level > 0 {
      RepeatClean(indent, level - 1);
    }
  }

  lemma LayoutPiecesClean(layout: Layout, level: nat, first: bool)
    requires CleanLayout(layout)
    ensures NoEsc(Sep(layout, level, first)) && NoEsc(Close(layout, level))
  {
    if layout.Pretty? {
      RepeatClean(layout.indent, level);
    }
  }

  lemma CleanConcat(a: seq<Piece>, b: seq<Piece>)
    requires CleanPieces(a) && CleanPieces(b)
    ensures CleanPieces(a + b)
  {
    forall i | 0 <= i < |a + b|
      ensures NoEsc((a + b)[i].text)
    {
      if i >= |a| {
        assert (a + b)[i] == b[i - |a|];
      }
    }
  }

  /** The text inside the pieces never holds an escape character of its own. */
  lemma {:induction false} TokensClean(v: Value, layout: Layout, level: nat)
    requires CleanLayout(layout)
    ensures CleanPieces(Tokens(v, layout, level))
    decreases v, 1
  {
    match v
    case Null =>
    case Bool(_) =>
    case Number(_) =>
      CompactIsPrintable(v, level);
    case Str(s) =>
      StringPiecesText(StringValue, s);
    case Array(items) =>
      if items != [] {
        ArrayTokensClean(items, layout, level);
      }
    case Object(members) =>
      if members != [] {
        ObjectTokensClean(members, layout, level);
      }
  }

  lemma {:induction false} ArrayTokensClean(items: seq<Value>, layout: Layout, level: nat)
    requires CleanLayout(layout) && items != []
    ensures CleanPieces(Tokens(Array(items), layout, level))
    decreases items, 1
  {
    var inner := ItemTokens(items, layout, level + 1, true);
    ItemTokensClean(items, layout, level + 1, true);
    BracketsClean(layout, level, "[", inner, "]");
  }

  lemma {:induction false} ObjectTokensClean(members: seq<Member>, layout: Layout, level: nat)
    requires CleanLayout(layout) && members != []
    ensures CleanPieces(Tokens(Object(members), layout, level))
    decreases members, 1
  {
    var inner := MemberTokens(members, layout, level + 1, true);
    MemberTokensClean(members, layout, level + 1, true);
    BracketsClean(layout, level, "{", inner, "}");
  }

  /** Clean pieces between an opening bracket and the closing one stay clean. */
  lemma BracketsClean(layout: Layout, level: nat, open: string, inner: seq<Piece>, close: string)
    requires CleanLayout(layout) && NoEsc(open) && NoEsc(close) && CleanPieces(inner)
    ensures CleanPieces([Piece(Bracket, open)] + inner + [Piece(Bracket, Close(layout, level) + close)])
  {
    LayoutPiecesClean(layout, level, true);
    var last := Close(layout, level) + close;
    assert NoEsc(last) by {
      forall i | 0 <= i < |last|
        ensures last[i] != Esc
      {
        if i >= |Close(layout, level)| {
          assert last[i] == close[i - |Close(layout, level)|];
        }
      }
    }
    CleanConcat([Piece(Bracket, open)], inner);
    CleanConcat([Piece(Bracket, open)] + inner, [Piece(Bracket, last)]);
  }

  lemma {:induction false} ItemTokensClean(items: seq<Value>, layout: Layout, level: nat, first: bool)
    requires CleanLayout(layout)
    ensures CleanPieces(ItemTokens(items, layout, level, first))
    decreases items, 0
  {
    if items != [] {
      var sep := [Piece(Plain, Sep(layout, level, first))];
      LayoutPiecesClean(layout, level, first);
      TokensClean(items[0], layout, level);
      ItemTokensClean(items[1..], layout, level, false);
      CleanConcat(sep, Tokens(items[0], layout, level));
      CleanConcat(sep + Tokens(items[0], layout, level), ItemTokens(items[1..], layout, level, false));
    }
  }

  lemma {:induction false} MemberTokensClean(members: seq<Member>, layout: Layout, level: nat, first: bool)
    requires CleanLayout(layout)
    ensures CleanPieces(MemberTokens(members, layout, level, first))
    decreases members, 0
  {
    if members != [] {
      var sep := [Piece(Plain, Sep(layout, level, first))];
      var key := StringPieces(Key, members[0].key);
      var colon := [Piece(Plain, Colon(layout))];
      var head := Tokens(members[0].value, layout, level);
      LayoutPiecesClean(layout, level, first);
      StringPiecesText(Key, members[0].key);
      TokensClean(members[0].value, layout, level);
      MemberTokensClean(members[1..], layout, level, false);
      CleanConcat(sep, key);
      CleanConcat(sep + key, colon);
      CleanConcat(sep + key + colon, head);
      CleanConcat(sep + key + colon + head, MemberTokens(members[1..], layout, level, false));
    }
  }

  lemma {:induction false} PlainTextClean(ps: seq<Piece>)
    requires CleanPieces(ps)
    ensures NoEsc(PlainText(ps))
  {
    if ps != [] {
      PlainTextClean(ps[1..]);
      var t := PlainText(ps);
      assert t == ps[0].text + PlainText(ps[1..]);
      forall i | 0 <= i < |t|
        ensures t[i] != Esc
      {
        if i >= |ps[0].text| {
          assert t[i] == PlainText(ps[1..])[i - |ps[0].text|];
        }
      }
    }
  }

  /** The uncoloured text holds no escape character when its indent holds none. */
  lemma TextClean(v: Value, layout: Layout, level: nat)
    requires CleanLayout(layout)
    ensures NoEsc(Text(v, layout, level))
  {
    TokensClean(v, layout, level);
    TokensText(v, layout, level);
    PlainTextClean(Tokens(v, layout, level));
  }

  /**
   * Removing the ANSI escape sequences from the coloured text gives the
   * uncoloured text of the same value in the same layout.
   */
  lemma StripColored(v: Value, layout: Layout)
    requires CleanLayout(layout)
    ensures StripAnsi(Colored(v, layout)) == Text(v, layout, 0)
  {
    TokensClean(v, layout, 0);
    StripRender(Tokens(v, layout, 0));
    TokensText(v, layout, 0);
  }
}
