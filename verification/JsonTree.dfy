/** JSON values, the text they are rendered to, and the value a sequence of
    writer calls describes (the specification of src/json.c). */
module JsonTree {
  import opened Wrappers
  import opened Bytes

  datatype Tree =
    | Null
    | Bool(b: bool)
    | Number(n: int)
    | Text(s: seq<byte>)
    | Array(items: seq<Tree>)
    | Object(members: seq<Member>)

  datatype Member = Member(key: seq<byte>, value: Tree)

  // ----- rendering -----

  const QUOTE: byte := 0x22
  const BACKSLASH: byte := 0x5c
  const COMMA: byte := 0x2c
  const COLON: byte := 0x3a
  const MINUS: byte := 0x2d
  const ZERO: byte := 0x30
  const OPEN_ARRAY: byte := 0x5b
  const CLOSE_ARRAY: byte := 0x5d
  const OPEN_OBJECT: byte := 0x7b
  const CLOSE_OBJECT: byte := 0x7d
  const LOWER_U: byte := 0x75
  const TRUE: seq<byte> := [0x74, 0x72, 0x75, 0x65]
  const FALSE: seq<byte> := [0x66, 0x61, 0x6c, 0x73, 0x65]
  const NULL: seq<byte> := [0x6e, 0x75, 0x6c, 0x6c]

  /** Lower-case hexadecimal digit. */
  function HexDigit(d: nat): byte
    requires d < 16
  {
    if d < 10 then 0x30 + d else 0x57 + d
  }

  function EscapeByte(b: byte): seq<byte> {
    if b == QUOTE then [BACKSLASH, QUOTE]
    else if b == BACKSLASH then [BACKSLASH, BACKSLASH]
    else if b == 0x08 then [BACKSLASH, 0x62]
    else if b == 0x0c then [BACKSLASH, 0x66]
    else if b == 0x0a then [BACKSLASH, 0x6e]
    else if b == 0x0d then [BACKSLASH, 0x72]
    else if b == 0x09 then [BACKSLASH, 0x74]
    else if b < 0x20 then [BACKSLASH, LOWER_U, ZERO, ZERO, HexDigit(b / 16), HexDigit(b % 16)]
    else [b]
  }

  function Escape(s: seq<byte>): seq<byte> {
    if s == [] then [] else Escape(s[..|s| - 1]) + EscapeByte(s[|s| - 1])
  }

  function Literal(s: seq<byte>): seq<byte> { [QUOTE] + Escape(s) + [QUOTE] }

  function Digits(n: nat): (r: seq<byte>)
    ensures |r| > 0 && forall i :: 0 <= i < |r| ==> ZERO <= r[i] < ZERO + 10
    ensures r[0] == ZERO ==> n == 0
    ensures n < 10 ==> |r| == 1
  {
    if n < 10 then [ZERO + n] else Digits(n / 10) + [ZERO + n % 10]
  }

  function Decimal(n: int): seq<byte> {
    if n < 0 then [MINUS] + Digits(-n) else Digits(n)
  }

  function Render(t: Tree): seq<byte>
    decreases t, 1
  {
    match t
    case Null => NULL
    case Bool(b) => if b then TRUE else FALSE
    case Number(n) => Decimal(n)
    case Text(s) => Literal(s)
    case Array(items) => [OPEN_ARRAY] + RenderItems(items) + [CLOSE_ARRAY]
    case Object(members) => [OPEN_OBJECT] + RenderMembers(members) + [CLOSE_OBJECT]
  }

  function Separator(count: nat): seq<byte> { if count > 0 then [COMMA] else [] }

  function RenderItems(items: seq<Tree>): seq<byte>
    decreases items, 0
  {
    if items == [] then []
    else
      var last := |items| - 1;
      RenderItems(items[..last]) + Separator(last) + Render(items[last])
  }

  function RenderMembers(members: seq<Member>): seq<byte>
    decreases members, 0
  {
    if members == [] then []
    else
      var last := |members| - 1;
      RenderMembers(members[..last]) + Separator(last)
      + Literal(members[last].key) + [COLON] + Render(members[last].value)
  }

  // ----- the calls of the writer -----

  /** m65_json_uint and m65_json_int are both the call Num. A string argument
      may be a null pointer. */
  datatype Call =
    | BeginArray | EndArray | BeginObject | EndObject
    | Key(key: Option<seq<byte>>)
    | Str(value: Option<seq<byte>>)
    | Num(number: int)
    | Boolean(b: bool)
    | NullValue

  const MAX_DEPTH: nat := 16

  /** A container that is still open: the values it holds so far and, in an
      object, the key that waits for its value. */
  datatype Frame =
    | ArrayFrame(items: seq<Tree>)
    | ObjectFrame(members: seq<Member>, pending: Option<seq<byte>>)

  /** What the calls so far describe: the open containers, outermost first,
      and the finished root. A misuse breaks the document for good. */
  datatype Doc = Broken | Doc(stack: seq<Frame>, root: Option<Tree>)

  const EMPTY_DOC := Doc([], None)

  function Top(doc: Doc): Frame
    requires doc.Doc? && doc.stack != []
  {
    doc.stack[|doc.stack| - 1]
  }

  function WithTop(doc: Doc, f: Frame): Doc
    requires doc.Doc? && doc.stack != []
  {
    Doc(doc.stack[..|doc.stack| - 1] + [f], doc.root)
  }

  /** A value may come next. */
  predicate Accepts(doc: Doc) {
    doc.Doc? &&
    if doc.stack == [] then doc.root.None?
    else Top(doc).ArrayFrame? || Top(doc).pending.Some?
  }

  function AddToFrame(f: Frame, t: Tree): Frame
    requires f.ObjectFrame? ==> f.pending.Some?
  {
    match f
    case ArrayFrame(items) => ArrayFrame(items + [t])
    case ObjectFrame(members, pending) => ObjectFrame(members + [Member(pending.value, t)], None)
  }

  function AddValue(doc: Doc, t: Tree): Doc {
    if !Accepts(doc) then Broken
    else if doc.stack == [] then Doc([], Some(t))
    else WithTop(doc, AddToFrame(Top(doc), t))
  }

  function Begin(doc: Doc, f: Frame): Doc {
    if !Accepts(doc) || |doc.stack| >= MAX_DEPTH then Broken
    else Doc(doc.stack + [f], doc.root)
  }

  function Closed(f: Frame): Tree {
    match f
    case ArrayFrame(items) => Array(items)
    case ObjectFrame(members, _) => Object(members)
  }

  function End(doc: Doc, isArray: bool): Doc
    requires doc.Doc? && doc.stack != []
  {
    if Top(doc).ArrayFrame? != isArray || (Top(doc).ObjectFrame? && Top(doc).pending.Some?) then Broken
    else AddValue(Doc(doc.stack[..|doc.stack| - 1], doc.root), Closed(Top(doc)))
  }

  /** Calls the writer drops without a trace: a null string, a key or an end
      outside every container. */
  predicate Ignored(doc: Doc, call: Call)
    requires doc.Doc?
  {
    match call
    case Str(s) => s.None?
    case Key(k) => k.None? || doc.stack == []
    case EndArray => doc.stack == []
    case EndObject => doc.stack == []
    case _ => false
  }

  function Scalar(call: Call): Tree
    requires call.Num? || call.Boolean? || call.NullValue? || (call.Str? && call.value.Some?)
  {
    match call
    case Num(n) => Number(n)
    case Boolean(b) => Bool(b)
    case NullValue => Null
    case Str(s) => Text(s.value)
  }

  function Apply(doc: Doc, call: Call): Doc {
    if doc.Broken? then Broken
    else if Ignored(doc, call) then doc
    else
      match call
      case BeginArray => Begin(doc, ArrayFrame([]))
      case BeginObject => Begin(doc, ObjectFrame([], None))
      case EndArray => End(doc, true)
      case EndObject => End(doc, false)
      case Key(k) =>
        if Top(doc).ArrayFrame? || Top(doc).pending.Some? then Broken
        else WithTop(doc, Top(doc).(pending := k))
      case _ => AddValue(doc, Scalar(call))
  }

  function Run(doc: Doc, calls: seq<Call>): Doc {
    if calls == [] then doc else Apply(Run(doc, calls[..|calls| - 1]), calls[|calls| - 1])
  }

  // ----- the text of an unfinished document -----

  /** What an open container has written. */
  function FrameText(f: Frame): seq<byte> {
    match f
    case ArrayFrame(items) => [OPEN_ARRAY] + RenderItems(items)
    case ObjectFrame(members, pending) =>
      [OPEN_OBJECT] + RenderMembers(members)
      + if pending.None? then [] else Separator(|members|) + Literal(pending.value) + [COLON]
  }

  /** What stands between an open container's text and its next value. */
  function ValueSeparator(f: Frame): seq<byte> {
    match f
    case ArrayFrame(items) => Separator(|items|)
    case ObjectFrame(_, _) => []
  }

  function OuterText(stack: seq<Frame>): seq<byte> {
    if stack == [] then []
    else OuterText(stack[..|stack| - 1]) + FrameText(stack[|stack| - 1]) + ValueSeparator(stack[|stack| - 1])
  }

  function DocText(doc: Doc): seq<byte>
    requires doc.Doc?
  {
    if doc.stack == [] then (if doc.root.Some? then Render(doc.root.value) else [])
    else OuterText(doc.stack[..|doc.stack| - 1]) + FrameText(Top(doc))
  }

  function Before(doc: Doc): seq<byte>
    requires doc.Doc?
  {
    if doc.stack == [] then [] else ValueSeparator(Top(doc))
  }

  /** Every open container below the top waits for the one above it. */
  ghost predicate Nested(doc: Doc) {
    doc.Doc? ==>
      && |doc.stack| <= MAX_DEPTH
      && (doc.stack != [] ==> doc.root.None?)
      && forall i :: 0 <= i < |doc.stack| - 1 ==>
           doc.stack[i].ArrayFrame? || doc.stack[i].pending.Some?
  }

  lemma NestedStep(doc: Doc, call: Call)
    requires Nested(doc)
    ensures Nested(Apply(doc, call))
  {
  }

  lemma ItemsAppend(items: seq<Tree>, t: Tree)
    ensures RenderItems(items + [t]) == RenderItems(items) + Separator(|items|) + Render(t)
  {
    assert (items + [t])[..|items|] == items;
    hide Render, Separator;
  }

  lemma MembersAppend(members: seq<Member>, m: Member)
    ensures RenderMembers(members + [m])
         == RenderMembers(members) + Separator(|members|) + Literal(m.key) + [COLON] + Render(m.value)
  {
    assert (members + [m])[..|members|] == members;
    hide Render, Separator, Literal;
  }

  lemma AddToFrameText(f: Frame, t: Tree)
    requires f.ObjectFrame? ==> f.pending.Some?
    ensures FrameText(AddToFrame(f, t)) == FrameText(f) + ValueSeparator(f) + Render(t)
  {
    hide Render, RenderMembers, RenderItems, Literal, Separator;
    match f
    case ArrayFrame(items) =>
      ItemsAppend(items, t);
    case ObjectFrame(members, pending) =>
      MembersAppend(members, Member(pending.value, t));
  }

  /** Adding a value appends exactly its separator and its rendering. */
  lemma AddValueText(doc: Doc, t: Tree)
    requires Accepts(doc)
    ensures DocText(AddValue(doc, t)) == DocText(doc) + Before(doc) + Render(t)
  {
    hide FrameText, ValueSeparator, Render, OuterText, AddToFrame;
    if doc.stack != [] {
      AddToFrameText(Top(doc), t);
      var after := AddValue(doc, t);
      assert after.stack[..|doc.stack| - 1] == doc.stack[..|doc.stack| - 1];
      assert Top(after) == AddToFrame(Top(doc), t);
    }
  }

  /** Opening a container appends its separator and its bracket. */
  lemma BeginText(doc: Doc, f: Frame)
    requires Accepts(doc) && |doc.stack| < MAX_DEPTH
    requires Nested(doc) && (f == ArrayFrame([]) || f == ObjectFrame([], None))
    ensures DocText(Begin(doc, f))
         == DocText(doc) + Before(doc) + [if f.ArrayFrame? then OPEN_ARRAY else OPEN_OBJECT]
  {
    OuterTextOf(doc);
    EmptyFrameText(f);
    hide FrameText, ValueSeparator, Render, OuterText;
    var after := Begin(doc, f);
    assert after.stack[..|doc.stack|] == doc.stack && Top(after) == f;
  }

  lemma EmptyFrameText(f: Frame)
    requires f == ArrayFrame([]) || f == ObjectFrame([], None)
    ensures FrameText(f) == [if f.ArrayFrame? then OPEN_ARRAY else OPEN_OBJECT]
  {
  }

  /** Closing a container appends its bracket, and the text is then that of
      the parent with the finished container as a value. */
  lemma EndText(doc: Doc, isArray: bool)
    requires Nested(doc) && doc.Doc? && doc.stack != []
    requires Top(doc).ArrayFrame? == isArray
    requires Top(doc).ObjectFrame? ==> Top(doc).pending.None?
    ensures Accepts(Doc(doc.stack[..|doc.stack| - 1], doc.root)) && End(doc, isArray).Doc?
    ensures DocText(End(doc, isArray)) == DocText(doc) + [if isArray then CLOSE_ARRAY else CLOSE_OBJECT]
  {
    var f := Top(doc);
    var parent := Doc(doc.stack[..|doc.stack| - 1], doc.root);
    assert parent.stack != [] ==> Top(parent) == doc.stack[|doc.stack| - 2];
    assert Accepts(parent) && End(doc, isArray) == AddValue(parent, Closed(f));
    ClosedText(f);
    AddValueText(parent, Closed(f));
    OuterTextOf(parent);
    hide FrameText, ValueSeparator, Render, OuterText, AddValue;
  }

  lemma ClosedText(f: Frame)
    requires f.ObjectFrame? ==> f.pending.None?
    ensures Render(Closed(f)) == FrameText(f) + [if f.ArrayFrame? then CLOSE_ARRAY else CLOSE_OBJECT]
  {
  }

  lemma OuterTextOf(doc: Doc)
    requires doc.Doc? && (doc.stack == [] ==> doc.root.None?)
    ensures OuterText(doc.stack) == DocText(doc) + Before(doc)
  {
  }

  /** A key appends its separator, its literal and the colon. */
  lemma KeyText(doc: Doc, k: seq<byte>)
    requires doc.Doc? && doc.stack != [] && Top(doc).ObjectFrame? && Top(doc).pending.None?
    ensures DocText(WithTop(doc, Top(doc).(pending := Some(k))))
         == DocText(doc) + Separator(|Top(doc).members|) + Literal(k) + [COLON]
  {
    hide Render, RenderMembers, Literal, Separator, OuterText;
    var after := WithTop(doc, Top(doc).(pending := Some(k)));
    assert after.stack[..|doc.stack| - 1] == doc.stack[..|doc.stack| - 1];
    assert FrameText(Top(after)) == FrameText(Top(doc))
        + Separator(|Top(doc).members|) + Literal(k) + [COLON];
    hide FrameText;
  }
}
