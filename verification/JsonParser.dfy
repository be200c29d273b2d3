/** A byte-level parser for JSON texts as RFC 8259, sections 2 to 7, defines
    them, and the proof that it undoes rendering. A number with a fraction or
    an exponent has no Tree value, so the parser rejects it. */
module JsonParser {
  import opened Wrappers
  import opened Bytes
  import opened JsonTree

  // ----- whitespace and digits -----

  predicate Whitespace(b: byte) { b == 0x20 || b == 0x09 || b == 0x0a || b == 0x0d }

  function SkipWhitespace(s: seq<byte>): (r: seq<byte>)
    ensures |r| <= |s|
    ensures r != [] ==> !Whitespace(r[0])
  {
    if s != [] && Whitespace(s[0]) then SkipWhitespace(s[1..]) else s
  }

  predicate IsDigit(b: byte) { ZERO <= b < ZERO + 10 }

  function TakeDigits(s: seq<byte>): (r: seq<byte>)
    ensures r <= s && forall i :: 0 <= i < |r| ==> IsDigit(r[i])
  {
    if s != [] && IsDigit(s[0]) then [s[0]] + TakeDigits(s[1..]) else []
  }

  function DigitsValue(ds: seq<byte>): nat
    requires forall i :: 0 <= i < |ds| ==> IsDigit(ds[i])
  {
    if ds == [] then 0
    else
      assert IsDigit(ds[|ds| - 1]);
      10 * DigitsValue(ds[..|ds| - 1]) + (ds[|ds| - 1] as int - 0x30)
  }

  // ----- strings (section 7) -----

  function HexValue(b: byte): Option<nat> {
    if 0x30 <= b <= 0x39 then Some(b as nat - 0x30)
    else if 0x41 <= b <= 0x46 then Some(b as nat - 0x37)
    else if 0x61 <= b <= 0x66 then Some(b as nat - 0x57)
    else None
  }

  /** The code unit of four hexadecimal digits. */
  function CodeUnit(s: seq<byte>): (r: Option<nat>)
    ensures r.Some? ==> |s| >= 4 && r.value < 0x1_0000
  {
    if |s| < 4 then None
    else
      var (a, b, c, d) := (HexValue(s[0]), HexValue(s[1]), HexValue(s[2]), HexValue(s[3]));
      if a.None? || b.None? || c.None? || d.None? then None
      else Some(4096 * a.value + 256 * b.value + 16 * c.value + d.value)
  }

  function Utf8(code: nat): seq<byte>
    requires code < 0x11_0000
  {
    if code < 0x80 then [code]
    else if code < 0x800 then [0xc0 + code / 0x40, 0x80 + code % 0x40]
    else if code < 0x1_0000 then
      [0xe0 + code / 0x1000, 0x80 + code / 0x40 % 0x40, 0x80 + code % 0x40]
    else
      [0xf0 + code / 0x4_0000, 0x80 + code / 0x1000 % 0x40, 0x80 + code / 0x40 % 0x40,
       0x80 + code % 0x40]
  }

  /** The bytes an escape after the backslash stands for, and what follows it.
      A code unit above the basic plane must come as a surrogate pair. */
  function ParseEscape(s: seq<byte>): (r: Option<(seq<byte>, seq<byte>)>)
    ensures r.Some? ==> |r.value.1| < |s|
  {
    if s == [] then None
    else if s[0] == QUOTE || s[0] == BACKSLASH || s[0] == 0x2f then Some(([s[0]], s[1..]))
    else if s[0] == 0x62 then Some(([0x08], s[1..]))
    else if s[0] == 0x66 then Some(([0x0c], s[1..]))
    else if s[0] == 0x6e then Some(([0x0a], s[1..]))
    else if s[0] == 0x72 then Some(([0x0d], s[1..]))
    else if s[0] == 0x74 then Some(([0x09], s[1..]))
    else if s[0] == LOWER_U then
      var unit := CodeUnit(s[1..]);
      if unit.None? || 0xdc00 <= unit.value < 0xe000 then None
      else if 0xd800 <= unit.value < 0xdc00 then
        if |s| < 11 || s[5] != BACKSLASH || s[6] != LOWER_U then None
        else
          var low := CodeUnit(s[7..]);
          if low.None? || !(0xdc00 <= low.value < 0xe000) then None
          else Some((Utf8(0x1_0000 + 0x400 * (unit.value - 0xd800) + (low.value - 0xdc00)), s[11..]))
      else Some((Utf8(unit.value), s[5..]))
    else None
  }

  /** The characters after an opening quote up to the closing one. */
  function ParseChars(s: seq<byte>): (r: Option<(seq<byte>, seq<byte>)>)
    ensures r.Some? ==> |r.value.1| < |s|
    decreases |s|
  {
    if s == [] || s[0] < 0x20 then None
    else if s[0] == QUOTE then Some(([], s[1..]))
    else if s[0] == BACKSLASH then
      var e := ParseEscape(s[1..]);
      if e.None? then None
      else
        var more := ParseChars(e.value.1);
        if more.None? then None else Some((e.value.0 + more.value.0, more.value.1))
    else
      var more := ParseChars(s[1..]);
      if more.None? then None else Some(([s[0]] + more.value.0, more.value.1))
  }

  // ----- values (sections 2 to 6) -----

  /** An integer without leading zeros that no fraction or exponent follows. */
  function ParseInteger(body: seq<byte>, negative: bool): (r: Option<(Tree, seq<byte>)>)
    ensures r.Some? ==> |r.value.1| < |body|
  {
    var digits := TakeDigits(body);
    var rest := body[|digits|..];
    if digits == [] || (|digits| > 1 && digits[0] == ZERO) then None
    else if rest != [] && (rest[0] == 0x2e || rest[0] == 0x65 || rest[0] == 0x45) then None
    else
      var value: int := DigitsValue(digits);
      Some((Number(if negative then -value else value), rest))
  }

  function ParseNumber(s: seq<byte>): (r: Option<(Tree, seq<byte>)>)
    ensures r.Some? ==> |r.value.1| < |s|
  {
    if s != [] && s[0] == MINUS then ParseInteger(s[1..], true) else ParseInteger(s, false)
  }

  function ParseValue(text: seq<byte>): (r: Option<(Tree, seq<byte>)>)
    ensures r.Some? ==> |r.value.1| < |text|
    decreases |text|, 0
  {
    var s := SkipWhitespace(text);
    if s == [] then None
    else if s[0] == QUOTE then
      var chars := ParseChars(s[1..]);
      if chars.None? then None else Some((Text(chars.value.0), chars.value.1))
    else if s[0] == OPEN_ARRAY then
      var inside := SkipWhitespace(s[1..]);
      if inside != [] && inside[0] == CLOSE_ARRAY then Some((Array([]), inside[1..]))
      else
        var items := ParseItems(inside);
        if items.None? then None else Some((Array(items.value.0), items.value.1))
    else if s[0] == OPEN_OBJECT then
      var inside := SkipWhitespace(s[1..]);
      if inside != [] && inside[0] == CLOSE_OBJECT then Some((Object([]), inside[1..]))
      else
        var members := ParseMembers(inside);
        if members.None? then None else Some((Object(members.value.0), members.value.1))
    else if TRUE <= s then Some((Bool(true), s[4..]))
    else if FALSE <= s then Some((Bool(false), s[5..]))
    else if NULL <= s then Some((Null, s[4..]))
    else ParseNumber(s)
  }

  /** One or more values, and the closing bracket. */
  function ParseItems(s: seq<byte>): (r: Option<(seq<Tree>, seq<byte>)>)
    ensures r.Some? ==> |r.value.1| < |s|
    decreases |s|, 1
  {
    var first := ParseValue(s);
    if first.None? then None
    else
      var rest := SkipWhitespace(first.value.1);
      if rest != [] && rest[0] == CLOSE_ARRAY then Some(([first.value.0], rest[1..]))
      else if rest != [] && rest[0] == COMMA then
        var more := ParseItems(rest[1..]);
        if more.None? then None else Some(([first.value.0] + more.value.0, more.value.1))
      else None
  }

  /** A name, a colon and a value. */
  function ParseMember(text: seq<byte>): (r: Option<(Member, seq<byte>)>)
    ensures r.Some? ==> |r.value.1| < |text|
    decreases |text|, 1
  {
    var s := SkipWhitespace(text);
    if s == [] || s[0] != QUOTE then None
    else
      var key := ParseChars(s[1..]);
      if key.None? then None
      else
        var after := SkipWhitespace(key.value.1);
        if after == [] || after[0] != COLON then None
        else
          var value := ParseValue(after[1..]);
          if value.None? then None
          else Some((Member(key.value.0, value.value.0), value.value.1))
  }

  /** One or more members, and the closing brace. */
  function ParseMembers(s: seq<byte>): (r: Option<(seq<Member>, seq<byte>)>)
    ensures r.Some? ==> |r.value.1| < |s|
    decreases |s|, 2
  {
    var first := ParseMember(s);
    if first.None? then None
    else
      var rest := SkipWhitespace(first.value.1);
      if rest != [] && rest[0] == CLOSE_OBJECT then Some(([first.value.0], rest[1..]))
      else if rest != [] && rest[0] == COMMA then
        var more := ParseMembers(rest[1..]);
        if more.None? then None else Some(([first.value.0] + more.value.0, more.value.1))
      else None
  }

  function ParseText(text: seq<byte>): Option<Tree> {
    var v := ParseValue(text);
    if v.Some? && SkipWhitespace(v.value.1) == [] then Some(v.value.0) else None
  }

  // ----- strings round trip -----

  /** Escape a string from its front. */
  lemma {:induction false} EscapeFront(s: seq<byte>)
    requires s != []
    ensures Escape(s) == EscapeByte(s[0]) + Escape(s[1..])
    decreases |s|
  {
    hide EscapeByte;
    var front, last := s[..|s| - 1], s[|s| - 1];
    if |s| == 1 {
      assert front == [] && s[1..] == [];
    } else {
      EscapeFront(front);
      assert front[1..] == s[1..][..|s| - 2];
      assert Escape(s[1..]) == Escape(front[1..]) + EscapeByte(last);
    }
  }

  lemma EscapeByteParses(b: byte, rest: seq<byte>)
    ensures var e := EscapeByte(b) + rest;
            if e[0] == BACKSLASH then ParseEscape(e[1..]) == Some(([b], rest))
            else e == [b] + rest && 0x20 <= b && b != QUOTE
  {
    if b < 0x20 && b !in [0x08, 0x09, 0x0a, 0x0c, 0x0d] {
      var e := EscapeByte(b) + rest;
      assert e[1..][1..][..4] == [ZERO, ZERO, HexDigit(b / 16), HexDigit(b % 16)];
      assert e[1..][5..] == rest;
      assert CodeUnit(e[1..][1..]) == Some(16 * (b / 16) + b % 16);
    } else if EscapeByte(b) != [b] {
      assert (EscapeByte(b) + rest)[1..][1..] == rest;
    }
  }

  /** Reading back an escaped string returns it and stops at the closing
      quote, so no quote inside the literal is taken for the end. */
  lemma {:induction false} CharsInvertEscape(s: seq<byte>, rest: seq<byte>)
    ensures ParseChars(Escape(s) + [QUOTE] + rest) == Some((s, rest))
    decreases |s|
  {
    if s == [] {
      assert Escape(s) + [QUOTE] + rest == [QUOTE] + rest;
    } else {
      var tail := Escape(s[1..]) + [QUOTE] + rest;
      EscapeFront(s);
      CharsInvertEscape(s[1..], rest);
      hide Escape, EscapeByte, ParseChars;
      assert Escape(s) + [QUOTE] + rest == EscapeByte(s[0]) + tail;
      CharInverts(s[0], tail);
      assert [s[0]] + s[1..] == s;
    }
  }

  lemma CharInverts(c: byte, tail: seq<byte>)
    requires ParseChars(tail).Some?
    ensures ParseChars(EscapeByte(c) + tail) == Some(([c] + ParseChars(tail).value.0, ParseChars(tail).value.1))
  {
    EscapeByteParses(c, tail);
    hide EscapeByte, ParseEscape;
    assert (EscapeByte(c) + tail)[0] != BACKSLASH ==> (EscapeByte(c) + tail)[1..] == tail;
  }

  /** Escaping is injective. */
  lemma EscapeInjective(a: seq<byte>, b: seq<byte>)
    requires Escape(a) == Escape(b)
    ensures a == b
  {
    CharsInvertEscape(a, []);
    CharsInvertEscape(b, []);
  }

  /** An escaped string holds no control byte, and each quote in it is the
      second byte of the escape of a quote. */
  lemma {:induction false} EscapeIsClean(s: seq<byte>, i: nat)
    requires i < |Escape(s)|
    ensures Escape(s)[i] >= 0x20
    ensures Escape(s)[i] == QUOTE ==> exists k: nat :: QuoteEscaped(s, k, i)
    decreases |s|
  {
    var last := |s| - 1;
    var front := s[..last];
    if i < |Escape(front)| {
      EscapeIsClean(front, i);
      hide EscapeByte;
      assert Escape(s)[i] == Escape(front)[i];
      if k: nat :| QuoteEscaped(front, k, i) {
        assert s[..k] == front[..k];
        assert QuoteEscaped(s, k, i);
      }
    } else {
      var e := EscapeByte(s[last]);
      var o := i - |Escape(front)|;
      assert Escape(s)[i] == e[o] && (o > 0 ==> Escape(s)[i - 1] == e[o - 1]);
      hide Escape;
      if e[o] == QUOTE { assert QuoteEscaped(s, last, i); }
    }
  }

  /** The k-th byte of the string is a quote, and its escape, a backslash and a
      quote, stands in the text with the quote at i. */
  ghost predicate QuoteEscaped(s: seq<byte>, k: nat, i: nat) {
    && k < |s| && s[k] == QUOTE && EscapeByte(s[k]) == [BACKSLASH, QUOTE]
    && i == |Escape(s[..k])| + 1
  }

  // ----- numbers round trip -----

  lemma {:induction false} DigitsInvert(n: nat)
    ensures forall i :: 0 <= i < |Digits(n)| ==> IsDigit(Digits(n)[i])
    ensures DigitsValue(Digits(n)) == n
    ensures |Digits(n)| > 1 ==> Digits(n)[0] != ZERO
  {
    if n >= 10 {
      DigitsInvert(n / 10);
      assert Digits(n)[..|Digits(n)| - 1] == Digits(n / 10);
    }
  }

  lemma {:induction false} TakeDigitsStops(ds: seq<byte>, rest: seq<byte>)
    requires forall i :: 0 <= i < |ds| ==> IsDigit(ds[i])
    requires rest != [] ==> !IsDigit(rest[0])
    ensures TakeDigits(ds + rest) == ds
  {
    if ds == [] {
      assert ds + rest == rest;
    } else {
      assert (ds + rest)[1..] == ds[1..] + rest;
      TakeDigitsStops(ds[1..], rest);
    }
  }

  /** What may follow a value inside a rendering. */
  ghost predicate Delimited(rest: seq<byte>) {
    rest != [] ==> rest[0] == COMMA || rest[0] == CLOSE_ARRAY || rest[0] == CLOSE_OBJECT
  }

  lemma NumberInverts(n: int, rest: seq<byte>)
    requires Delimited(rest)
    ensures ParseNumber(Decimal(n) + rest) == Some((Number(n), rest))
  {
    hide ParseNumber, ParseInteger, Decimal, Digits;
    var m := if n < 0 then -n else n;
    DigitsInvert(m);
    TakeDigitsStops(Digits(m), rest);
    IntegerFromDigits(Digits(m), rest, n < 0);
    DecimalShape(n, rest);
    SignDispatch(Digits(m) + rest);
  }

  lemma DecimalShape(n: int, rest: seq<byte>)
    ensures var body := Digits(if n < 0 then -n else n) + rest;
            body != [] && IsDigit(body[0]) && Decimal(n) + rest == if n < 0 then [MINUS] + body else body
  {
    var m := if n < 0 then -n else n;
    DigitsInvert(m);
    assert [MINUS] + Digits(m) + rest == [MINUS] + (Digits(m) + rest);
  }

  lemma SignDispatch(body: seq<byte>)
    requires body != [] && IsDigit(body[0])
    ensures ParseNumber([MINUS] + body) == ParseInteger(body, true)
    ensures ParseNumber(body) == ParseInteger(body, false)
  {
    hide ParseInteger;
    assert ([MINUS] + body)[1..] == body;
  }

  lemma IntegerFromDigits(ds: seq<byte>, rest: seq<byte>, negative: bool)
    requires ds != [] && (|ds| > 1 ==> ds[0] != ZERO) && Delimited(rest)
    requires forall i :: 0 <= i < |ds| ==> IsDigit(ds[i])
    requires TakeDigits(ds + rest) == ds
    ensures ParseInteger(ds + rest, negative)
         == Some((Number(if negative then -(DigitsValue(ds) as int) else DigitsValue(ds)), rest))
  {
    assert rest != [] ==> rest[0] != 0x2e && rest[0] != 0x65 && rest[0] != 0x45;
    hide TakeDigits, DigitsValue, Delimited;
    assert (ds + rest)[|ds|..] == rest;
  }

  // ----- values round trip -----

  /** Rendering a list from its front. */
  lemma {:induction false} ItemsFront(items: seq<Tree>)
    requires items != []
    ensures RenderItems(items)
         == Render(items[0]) + if |items| == 1 then [] else [COMMA] + RenderItems(items[1..])
    decreases |items|
  {
    hide Render;
    var front, last := items[..|items| - 1], items[|items| - 1];
    if |items| > 1 {
      ItemsFront(front);
      var tail := items[1..];
      assert tail[..|tail| - 1] == front[1..] && tail[|tail| - 1] == last;
      assert RenderItems(tail) == RenderItems(front[1..]) + Separator(|tail| - 1) + Render(last);
      Reassociate(Render(items[0]), RenderItems(front[1..]), Render(last), |front|);
    }
  }

  lemma Reassociate(first: seq<byte>, middle: seq<byte>, last: seq<byte>, count: nat)
    requires count > 0 && (count == 1 ==> middle == [])
    ensures first + (if count == 1 then [] else [COMMA] + middle) + [COMMA] + last
         == first + ([COMMA] + (middle + Separator(count - 1) + last))
  {
  }

  function RenderMember(m: Member): seq<byte> { Literal(m.key) + [COLON] + Render(m.value) }

  lemma {:induction false} MembersFront(members: seq<Member>)
    requires members != []
    ensures RenderMembers(members)
         == RenderMember(members[0]) + if |members| == 1 then [] else [COMMA] + RenderMembers(members[1..])
    decreases |members|
  {
    MembersBack(members);
    hide RenderMember, Render;
    var front, last := members[..|members| - 1], members[|members| - 1];
    if |members| > 1 {
      MembersFront(front);
      var tail := members[1..];
      assert tail[..|tail| - 1] == front[1..] && tail[|tail| - 1] == last;
      MembersBack(tail);
      hide RenderMembers;
      Reassociate(RenderMember(members[0]), RenderMembers(front[1..]), RenderMember(last), |front|);
    } else {
      assert front == [];
    }
  }

  lemma MembersBack(members: seq<Member>)
    requires members != []
    ensures RenderMembers(members)
         == RenderMembers(members[..|members| - 1]) + Separator(|members| - 1)
            + RenderMember(members[|members| - 1])
  {
    hide Render, Literal, Separator;
  }

  /** No rendering starts with whitespace or with a closing bracket. */
  lemma RenderStart(t: Tree)
    ensures Render(t) != [] && !Whitespace(Render(t)[0])
    ensures Render(t)[0] != CLOSE_ARRAY && Render(t)[0] != CLOSE_OBJECT
  {
  }

  /** Parsing the rendering of a value, in any context a rendering occurs in,
      returns the value and the context. */
  lemma {:induction false} ValueRoundTrip(t: Tree, rest: seq<byte>)
    requires Delimited(rest)
    ensures ParseValue(Render(t) + rest) == Some((t, rest))
    decreases t, 1
  {
    match t
    case Null => WordValue(NULL, t, rest);
    case Bool(b) => WordValue(if b then TRUE else FALSE, t, rest);
    case Number(n) => NumberValue(n, rest);
    case Text(s) => TextValue(s, rest);
    case Array(items) =>
      if items != [] {
        ItemsRoundTrip(items, rest);
      }
      ArrayValue(items, rest);
    case Object(members) =>
      if members != [] {
        MembersRoundTrip(members, rest);
      }
      ObjectValue(members, rest);
  }

  lemma WordValue(word: seq<byte>, t: Tree, rest: seq<byte>)
    requires (word == NULL && t == Null) || (word == TRUE && t == Bool(true))
          || (word == FALSE && t == Bool(false))
    ensures ParseValue(word + rest) == Some((t, rest))
  {
    hide ParseItems, ParseMembers, ParseNumber, ParseChars;
    var text := word + rest;
    assert SkipWhitespace(text) == text;
    assert text[|word|..] == rest;
  }

  lemma TextValue(s: seq<byte>, rest: seq<byte>)
    ensures ParseValue(Literal(s) + rest) == Some((Text(s), rest))
  {
    hide ParseItems, ParseMembers, ParseNumber, ParseChars;
    CharsInvertEscape(s, rest);
    var text := Literal(s) + rest;
    assert text[0] == QUOTE && SkipWhitespace(text) == text;
    assert text[1..] == Escape(s) + [QUOTE] + rest;
  }

  lemma ArrayValue(items: seq<Tree>, rest: seq<byte>)
    requires items == []
          || ParseItems(RenderItems(items) + [CLOSE_ARRAY] + rest) == Some((items, rest))
    ensures ParseValue(Render(Array(items)) + rest) == Some((Array(items), rest))
  {
    var inside := RenderItems(items) + [CLOSE_ARRAY] + rest;
    assert Render(Array(items)) + rest == [OPEN_ARRAY] + inside;
    if items == [] {
      assert inside == [CLOSE_ARRAY] + rest;
    } else {
      ItemsFront(items);
      RenderStart(items[0]);
      assert inside[0] == Render(items[0])[0];
    }
    hide RenderItems, ParseItems, Render;
    ArrayCase(inside, items, rest);
  }

  lemma ArrayCase(inside: seq<byte>, items: seq<Tree>, rest: seq<byte>)
    requires if items == [] then inside == [CLOSE_ARRAY] + rest
             else inside != [] && !Whitespace(inside[0]) && inside[0] != CLOSE_ARRAY
                  && ParseItems(inside) == Some((items, rest))
    ensures ParseValue([OPEN_ARRAY] + inside) == Some((Array(items), rest))
  {
    hide ParseItems, ParseMembers, ParseNumber, ParseChars;
    var text := [OPEN_ARRAY] + inside;
    assert SkipWhitespace(text) == text && text[1..] == inside && SkipWhitespace(inside) == inside;
    if items == [] {
      assert inside[1..] == rest;
    }
  }

  lemma ObjectValue(members: seq<Member>, rest: seq<byte>)
    requires members == []
          || ParseMembers(RenderMembers(members) + [CLOSE_OBJECT] + rest) == Some((members, rest))
    ensures ParseValue(Render(Object(members)) + rest) == Some((Object(members), rest))
  {
    var inside := RenderMembers(members) + [CLOSE_OBJECT] + rest;
    assert Render(Object(members)) + rest == [OPEN_OBJECT] + inside;
    if members == [] {
      assert inside == [CLOSE_OBJECT] + rest;
    } else {
      MembersFront(members);
      assert inside[0] == RenderMember(members[0])[0] == QUOTE;
    }
    hide RenderMembers, ParseMembers, Render;
    ObjectCase(inside, members, rest);
  }

  lemma ObjectCase(inside: seq<byte>, members: seq<Member>, rest: seq<byte>)
    requires if members == [] then inside == [CLOSE_OBJECT] + rest
             else inside != [] && !Whitespace(inside[0]) && inside[0] != CLOSE_OBJECT
                  && ParseMembers(inside) == Some((members, rest))
    ensures ParseValue([OPEN_OBJECT] + inside) == Some((Object(members), rest))
  {
    hide ParseItems, ParseMembers, ParseNumber, ParseChars;
    var text := [OPEN_OBJECT] + inside;
    assert SkipWhitespace(text) == text && text[1..] == inside && SkipWhitespace(inside) == inside;
    if members == [] {
      assert inside[1..] == rest;
    }
  }

  lemma NumberValue(n: int, rest: seq<byte>)
    requires Delimited(rest)
    ensures ParseValue(Decimal(n) + rest) == Some((Number(n), rest))
  {
    var text := Decimal(n) + rest;
    assert text[0] == MINUS || IsDigit(text[0]);
    assert SkipWhitespace(text) == text;
    assert TRUE[0] != text[0] && FALSE[0] != text[0] && NULL[0] != text[0];
    NumberInverts(n, rest);
  }

  lemma LastItem(r: seq<byte>, t: Tree, rest: seq<byte>)
    requires ParseValue(r + ([CLOSE_ARRAY] + rest)) == Some((t, [CLOSE_ARRAY] + rest))
    ensures ParseItems(r + [CLOSE_ARRAY] + rest) == Some(([t], rest))
  {
    hide ParseValue;
    var after := [CLOSE_ARRAY] + rest;
    assert r + [CLOSE_ARRAY] + rest == r + after;
    assert SkipWhitespace(after) == after && after[1..] == rest;
  }

  lemma NextItem(r: seq<byte>, t: Tree, more: seq<byte>, ts: seq<Tree>, rest: seq<byte>)
    requires ParseValue(r + ([COMMA] + more)) == Some((t, [COMMA] + more))
    requires ParseItems(more) == Some((ts, rest))
    ensures ParseItems(r + ([COMMA] + more)) == Some(([t] + ts, rest))
  {
    hide ParseValue;
    var after := [COMMA] + more;
    assert SkipWhitespace(after) == after && after[1..] == more;
  }

  lemma {:induction false} ItemsRoundTrip(items: seq<Tree>, rest: seq<byte>)
    requires items != []
    ensures ParseItems(RenderItems(items) + [CLOSE_ARRAY] + rest) == Some((items, rest))
    decreases items, 0
  {
    hide ParseItems, ParseValue, Render, RenderItems;
    ItemsFront(items);
    var first := Render(items[0]);
    if |items| == 1 {
      ValueRoundTrip(items[0], [CLOSE_ARRAY] + rest);
      LastItem(first, items[0], rest);
      assert items == [items[0]] && RenderItems(items) == first;
    } else {
      var more := RenderItems(items[1..]) + [CLOSE_ARRAY] + rest;
      ValueRoundTrip(items[0], [COMMA] + more);
      ItemsRoundTrip(items[1..], rest);
      NextItem(first, items[0], more, items[1..], rest);
      assert [items[0]] + items[1..] == items;
      assert RenderItems(items) + [CLOSE_ARRAY] + rest == first + ([COMMA] + more);
    }
  }

  lemma {:induction false} MemberRoundTrip(m: Member, rest: seq<byte>)
    requires Delimited(rest)
    ensures ParseMember(RenderMember(m) + rest) == Some((m, rest))
    decreases m.value, 2
  {
    hide ParseMember, ParseValue, Render, ParseChars;
    var afterKey := [COLON] + (Render(m.value) + rest);
    CharsInvertEscape(m.key, afterKey);
    ValueRoundTrip(m.value, rest);
    assert RenderMember(m) + rest == [QUOTE] + (Escape(m.key) + [QUOTE] + afterKey);
    MemberCase(Escape(m.key) + [QUOTE] + afterKey, Render(m.value) + rest, m, rest);
  }

  lemma MemberCase(chars: seq<byte>, value: seq<byte>, m: Member, rest: seq<byte>)
    requires ParseChars(chars) == Some((m.key, [COLON] + value))
    requires ParseValue(value) == Some((m.value, rest))
    ensures ParseMember([QUOTE] + chars) == Some((m, rest))
  {
    hide ParseValue, ParseChars;
    var text, after := [QUOTE] + chars, [COLON] + value;
    assert SkipWhitespace(text) == text && text[1..] == chars;
    assert SkipWhitespace(after) == after && after[1..] == value;
  }

  lemma LastMember(r: seq<byte>, m: Member, rest: seq<byte>)
    requires ParseMember(r + ([CLOSE_OBJECT] + rest)) == Some((m, [CLOSE_OBJECT] + rest))
    ensures ParseMembers(r + [CLOSE_OBJECT] + rest) == Some(([m], rest))
  {
    hide ParseMember;
    var after := [CLOSE_OBJECT] + rest;
    assert r + [CLOSE_OBJECT] + rest == r + after;
    assert SkipWhitespace(after) == after && after[1..] == rest;
  }

  lemma NextMember(r: seq<byte>, m: Member, more: seq<byte>, ms: seq<Member>, rest: seq<byte>)
    requires ParseMember(r + ([COMMA] + more)) == Some((m, [COMMA] + more))
    requires ParseMembers(more) == Some((ms, rest))
    ensures ParseMembers(r + ([COMMA] + more)) == Some(([m] + ms, rest))
  {
    hide ParseMember;
    var after := [COMMA] + more;
    assert SkipWhitespace(after) == after && after[1..] == more;
  }

  lemma {:induction false} MembersRoundTrip(members: seq<Member>, rest: seq<byte>)
    requires members != []
    ensures ParseMembers(RenderMembers(members) + [CLOSE_OBJECT] + rest) == Some((members, rest))
    decreases members, 3
  {
    hide ParseMembers, ParseMember, RenderMember, RenderMembers;
    MembersFront(members);
    var first := RenderMember(members[0]);
    if |members| == 1 {
      MemberRoundTrip(members[0], [CLOSE_OBJECT] + rest);
      LastMember(first, members[0], rest);
      assert members == [members[0]] && RenderMembers(members) == first;
    } else {
      var more := RenderMembers(members[1..]) + [CLOSE_OBJECT] + rest;
      MemberRoundTrip(members[0], [COMMA] + more);
      MembersRoundTrip(members[1..], rest);
      NextMember(first, members[0], more, members[1..], rest);
      assert [members[0]] + members[1..] == members;
      assert RenderMembers(members) + [CLOSE_OBJECT] + rest == first + ([COMMA] + more);
    }
  }

  /** Parsing a rendered value returns it; so rendering is injective. */
  lemma TextRoundTrip(t: Tree)
    ensures ParseText(Render(t)) == Some(t)
  {
    ValueRoundTrip(t, []);
    assert Render(t) + [] == Render(t);
  }
}
