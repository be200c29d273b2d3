/** The value a finished document holds is the one its calls describe: up to
    the calls the writer drops, the calls are the serialisation of that value,
    and every value of at most sixteen nested containers is written this way. */
module JsonCalls {
  import opened Wrappers
  import opened Bytes
  import opened JsonTree

  // ----- the calls that write a value -----

  function CallsOf(t: Tree): seq<Call>
    decreases t, 1
  {
    match t
    case Null => [NullValue]
    case Bool(b) => [Boolean(b)]
    case Number(n) => [Num(n)]
    case Text(s) => [Str(Some(s))]
    case Array(items) => [BeginArray] + CallsOfItems(items) + [EndArray]
    case Object(members) => [BeginObject] + CallsOfMembers(members) + [EndObject]
  }

  function CallsOfItems(items: seq<Tree>): seq<Call>
    decreases items, 0
  {
    if items == [] then []
    else CallsOfItems(items[..|items| - 1]) + CallsOf(items[|items| - 1])
  }

  function CallsOfMembers(members: seq<Member>): seq<Call>
    decreases members, 0
  {
    if members == [] then []
    else
      var last := members[|members| - 1];
      CallsOfMembers(members[..|members| - 1]) + [Key(Some(last.key))] + CallsOf(last.value)
  }

  function FrameCalls(f: Frame): seq<Call> {
    match f
    case ArrayFrame(items) => [BeginArray] + CallsOfItems(items)
    case ObjectFrame(members, pending) =>
      [BeginObject] + CallsOfMembers(members) + if pending.None? then [] else [Key(pending)]
  }

  function StackCalls(stack: seq<Frame>): seq<Call> {
    if stack == [] then [] else StackCalls(stack[..|stack| - 1]) + FrameCalls(stack[|stack| - 1])
  }

  function DocCalls(doc: Doc): seq<Call>
    requires doc.Doc?
  {
    StackCalls(doc.stack) + if doc.root.Some? then CallsOf(doc.root.value) else []
  }

  /** The calls that were not dropped. */
  ghost function Effective(calls: seq<Call>): seq<Call> {
    if calls == [] then []
    else
      var front := calls[..|calls| - 1];
      var doc := Run(EMPTY_DOC, front);
      if doc.Doc? && Ignored(doc, calls[|calls| - 1]) then Effective(front)
      else Effective(front) + [calls[|calls| - 1]]
  }

  lemma RunKeepsNested(calls: seq<Call>)
    ensures Nested(Run(EMPTY_DOC, calls))
  {
    if calls != [] {
      RunKeepsNested(calls[..|calls| - 1]);
      NestedStep(Run(EMPTY_DOC, calls[..|calls| - 1]), calls[|calls| - 1]);
    }
  }

  lemma ItemsCallsAppend(items: seq<Tree>, t: Tree)
    ensures CallsOfItems(items + [t]) == CallsOfItems(items) + CallsOf(t)
  {
    assert (items + [t])[..|items|] == items;
    hide CallsOf;
  }

  lemma MembersCallsAppend(members: seq<Member>, m: Member)
    ensures CallsOfMembers(members + [m]) == CallsOfMembers(members) + ([Key(Some(m.key))] + CallsOf(m.value))
  {
    assert (members + [m])[..|members|] == members;
    hide CallsOf;
  }

  lemma AddToFrameCalls(f: Frame, t: Tree)
    requires f.ObjectFrame? ==> f.pending.Some?
    ensures FrameCalls(AddToFrame(f, t)) == FrameCalls(f) + CallsOf(t)
  {
    hide CallsOf, CallsOfItems, CallsOfMembers;
    match f
    case ArrayFrame(items) =>
      ItemsCallsAppend(items, t);
    case ObjectFrame(members, pending) =>
      MembersCallsAppend(members, Member(pending.value, t));
  }

  lemma AddValueCalls(doc: Doc, t: Tree)
    requires Nested(doc) && Accepts(doc)
    ensures DocCalls(AddValue(doc, t)) == DocCalls(doc) + CallsOf(t)
  {
    hide FrameCalls, CallsOf, AddToFrame;
    if doc.stack != [] {
      AddToFrameCalls(Top(doc), t);
      var after := AddValue(doc, t);
      assert after.stack[..|doc.stack| - 1] == doc.stack[..|doc.stack| - 1];
      assert Top(after) == AddToFrame(Top(doc), t);
    }
  }

  lemma ClosedCalls(f: Frame)
    requires f.ObjectFrame? ==> f.pending.None?
    ensures CallsOf(Closed(f)) == FrameCalls(f) + [if f.ArrayFrame? then EndArray else EndObject]
  {
  }

  lemma EndCalls(doc: Doc, isArray: bool)
    requires Nested(doc) && doc.Doc? && doc.stack != [] && End(doc, isArray).Doc?
    ensures DocCalls(End(doc, isArray)) == DocCalls(doc) + [if isArray then EndArray else EndObject]
  {
    var parent := Doc(doc.stack[..|doc.stack| - 1], doc.root);
    ClosedCalls(Top(doc));
    AddValueCalls(parent, Closed(Top(doc)));
    assert DocCalls(parent) == StackCalls(parent.stack);
    hide FrameCalls, CallsOf, AddValue;
  }

  lemma KeyCalls(doc: Doc, k: seq<byte>)
    requires Nested(doc) && doc.Doc? && doc.stack != []
    requires Top(doc).ObjectFrame? && Top(doc).pending.None?
    ensures DocCalls(WithTop(doc, Top(doc).(pending := Some(k)))) == DocCalls(doc) + [Key(Some(k))]
  {
    hide FrameCalls, CallsOf;
    var f := Top(doc);
    var after := WithTop(doc, f.(pending := Some(k)));
    assert after.stack[..|doc.stack| - 1] == doc.stack[..|doc.stack| - 1];
    FrameKeyCalls(f, k);
  }

  lemma FrameKeyCalls(f: Frame, k: seq<byte>)
    requires f.ObjectFrame? && f.pending.None?
    ensures FrameCalls(f.(pending := Some(k))) == FrameCalls(f) + [Key(Some(k))]
  {
    hide CallsOfMembers;
  }

  /** One call that is not dropped adds itself. */
  lemma ApplyCalls(doc: Doc, call: Call)
    requires Nested(doc) && doc.Doc? && !Ignored(doc, call) && Apply(doc, call).Doc?
    ensures DocCalls(Apply(doc, call)) == DocCalls(doc) + [call]
  {
    match call
    case BeginArray => BeginCalls(doc, ArrayFrame([]));
    case BeginObject => BeginCalls(doc, ObjectFrame([], None));
    case EndArray => EndCalls(doc, true);
    case EndObject => EndCalls(doc, false);
    case Key(k) => KeyCalls(doc, k.value);
    case _ => AddValueCalls(doc, Scalar(call));
  }

  lemma BeginCalls(doc: Doc, f: Frame)
    requires Nested(doc) && Begin(doc, f).Doc? && (f == ArrayFrame([]) || f == ObjectFrame([], None))
    ensures DocCalls(Begin(doc, f))
         == DocCalls(doc) + [if f.ArrayFrame? then BeginArray else BeginObject]
  {
    assert (doc.stack + [f])[..|doc.stack|] == doc.stack;
    assert FrameCalls(f) == [if f.ArrayFrame? then BeginArray else BeginObject];
    hide FrameCalls, CallsOf;
  }

  lemma {:induction false} EffectiveIsDocCalls(calls: seq<Call>)
    requires Run(EMPTY_DOC, calls).Doc?
    ensures Effective(calls) == DocCalls(Run(EMPTY_DOC, calls))
  {
    if calls != [] {
      var front := calls[..|calls| - 1];
      EffectiveIsDocCalls(front);
      RunKeepsNested(front);
      if !Ignored(Run(EMPTY_DOC, front), calls[|calls| - 1]) {
        ApplyCalls(Run(EMPTY_DOC, front), calls[|calls| - 1]);
      }
    }
  }

  /** The calls of a finished document, less the dropped ones, are exactly the
      serialisation of the value it holds. */
  lemma FinishedCallsSerialise(calls: seq<Call>, t: Tree)
    requires Run(EMPTY_DOC, calls) == Doc([], Some(t))
    ensures Effective(calls) == CallsOf(t)
  {
    EffectiveIsDocCalls(calls);
  }

  // ----- which values can be written -----

  /** The value nests at most `depth` containers. */
  ghost predicate Fits(t: Tree, depth: int)
    decreases t
  {
    match t
    case Array(items) => depth > 0 && forall i :: 0 <= i < |items| ==> Fits(items[i], depth - 1)
    case Object(members) =>
      depth > 0 && forall i :: 0 <= i < |members| ==> Fits(members[i].value, depth - 1)
    case _ => true
  }

  ghost predicate FrameFits(f: Frame, depth: int) {
    match f
    case ArrayFrame(items) => forall i :: 0 <= i < |items| ==> Fits(items[i], depth)
    case ObjectFrame(members, _) => forall i :: 0 <= i < |members| ==> Fits(members[i].value, depth)
  }

  ghost predicate DocFits(doc: Doc) {
    doc.Doc? ==>
      && (doc.root.Some? ==> Fits(doc.root.value, MAX_DEPTH))
      && forall i :: 0 <= i < |doc.stack| ==> FrameFits(doc.stack[i], MAX_DEPTH - i - 1)
  }

  lemma AddValueFits(doc: Doc, t: Tree)
    requires DocFits(doc) && doc.Doc? && Fits(t, MAX_DEPTH - |doc.stack|)
    ensures DocFits(AddValue(doc, t))
  {
  }

  lemma ApplyFits(doc: Doc, call: Call)
    requires DocFits(doc) && Nested(doc)
    ensures DocFits(Apply(doc, call))
  {
    if doc.Doc? && !Ignored(doc, call) && (call.EndArray? || call.EndObject?) {
      var parent := Doc(doc.stack[..|doc.stack| - 1], doc.root);
      assert FrameFits(doc.stack[|doc.stack| - 1], MAX_DEPTH - |doc.stack|);
      assert DocFits(parent);
      assert Fits(Closed(Top(doc)), MAX_DEPTH - |parent.stack|);
      AddValueFits(parent, Closed(Top(doc)));
    }
  }

  lemma RunFits(calls: seq<Call>)
    ensures DocFits(Run(EMPTY_DOC, calls))
  {
    if calls != [] {
      RunFits(calls[..|calls| - 1]);
      RunKeepsNested(calls[..|calls| - 1]);
      ApplyFits(Run(EMPTY_DOC, calls[..|calls| - 1]), calls[|calls| - 1]);
    }
  }

  lemma {:induction false} RunConcat(doc: Doc, a: seq<Call>, b: seq<Call>)
    ensures Run(doc, a + b) == Run(Run(doc, a), b)
    decreases |b|
  {
    if b == [] {
      assert a + b == a;
    } else {
      assert (a + b)[..|a + b| - 1] == a + b[..|b| - 1];
      RunConcat(doc, a, b[..|b| - 1]);
    }
  }

  lemma RunThrough(doc: Doc, a: seq<Call>, mid: Doc, b: seq<Call>, end: Doc)
    requires Run(doc, a) == mid && Run(mid, b) == end
    ensures Run(doc, a + b) == end
  {
    RunConcat(doc, a, b);
  }

  lemma RunOne(doc: Doc, call: Call)
    ensures Run(doc, [call]) == Apply(doc, call)
  {
    assert [call][..0] == [];
  }

  /** A bracket pair around calls that fill the new container adds it. */
  lemma ContainerAddsValue(doc: Doc, empty: Frame, full: Frame, body: seq<Call>)
    requires Nested(doc) && Accepts(doc) && |doc.stack| < MAX_DEPTH
    requires empty == ArrayFrame([]) || empty == ObjectFrame([], None)
    requires full.ArrayFrame? == empty.ArrayFrame? && (full.ObjectFrame? ==> full.pending.None?)
    requires Run(Begin(doc, empty), body) == WithTop(Begin(doc, empty), full)
    ensures Run(doc, [if empty.ArrayFrame? then BeginArray else BeginObject] + body
                     + [if empty.ArrayFrame? then EndArray else EndObject])
         == AddValue(doc, Closed(full))
  {
    var begin := if empty.ArrayFrame? then BeginArray else BeginObject;
    var end := if empty.ArrayFrame? then EndArray else EndObject;
    RunOne(doc, begin);
    RunConcat(doc, [begin], body);
    var filled := WithTop(Begin(doc, empty), full);
    RunOne(filled, end);
    RunConcat(doc, [begin] + body, [end]);
    assert filled.stack[..|doc.stack|] == doc.stack;
    hide Run;
  }

  /** Wherever a value may come next, its serialisation adds that value. */
  lemma {:induction false} CallsAddValue(doc: Doc, t: Tree)
    requires Nested(doc) && Accepts(doc) && Fits(t, MAX_DEPTH - |doc.stack|)
    ensures Run(doc, CallsOf(t)) == AddValue(doc, t)
    decreases t, 1
  {
    match t
    case Array(items) =>
      var open := Begin(doc, ArrayFrame([]));
      CallsAddItems(open, items);
      assert [] + items == items;
      ContainerAddsValue(doc, ArrayFrame([]), ArrayFrame(items), CallsOfItems(items));
    case Object(members) =>
      var open := Begin(doc, ObjectFrame([], None));
      CallsAddMembers(open, members);
      assert [] + members == members;
      ContainerAddsValue(doc, ObjectFrame([], None), ObjectFrame(members, None), CallsOfMembers(members));
    case Null => RunOne(doc, NullValue);
    case Bool(b) => RunOne(doc, Boolean(b));
    case Number(n) => RunOne(doc, Num(n));
    case Text(s) => RunOne(doc, Str(Some(s)));
  }

  lemma {:induction false} CallsAddItems(doc: Doc, items: seq<Tree>)
    requires Nested(doc) && doc.Doc? && doc.stack != [] && Top(doc).ArrayFrame?
    requires FrameFits(ArrayFrame(items), MAX_DEPTH - |doc.stack|)
    ensures Run(doc, CallsOfItems(items)) == WithTop(doc, ArrayFrame(Top(doc).items + items))
    decreases items, 0
  {
    var base := Top(doc).items;
    if items == [] {
      assert base + items == base && WithTop(doc, Top(doc)) == doc;
    } else {
      var front, last := items[..|items| - 1], items[|items| - 1];
      assert FrameFits(ArrayFrame(front), MAX_DEPTH - |doc.stack|);
      assert Fits(last, MAX_DEPTH - |doc.stack|);
      var mid := WithTop(doc, ArrayFrame(base + front));
      assert Accepts(mid);
      ReplaceTop(doc, ArrayFrame(base + front), ArrayFrame(base + items));
      assert base + front + [last] == base + items;
      assert AddValue(mid, last) == WithTop(doc, ArrayFrame(base + items));
      hide FrameFits, Fits, Run, AddValue, CallsOf, WithTop, Nested;
      CallsAddItems(doc, front);
      CallsAddValue(mid, last);
      RunThrough(doc, CallsOfItems(front), mid, CallsOf(last), AddValue(mid, last));
    }
  }

  lemma {:induction false} CallsAddMembers(doc: Doc, members: seq<Member>)
    requires Nested(doc) && doc.Doc? && doc.stack != []
    requires Top(doc).ObjectFrame? && Top(doc).pending.None?
    requires FrameFits(ObjectFrame(members, None), MAX_DEPTH - |doc.stack|)
    ensures Run(doc, CallsOfMembers(members)) == WithTop(doc, ObjectFrame(Top(doc).members + members, None))
    decreases members, 0
  {
    var base := Top(doc).members;
    if members == [] {
      assert base + members == base && WithTop(doc, Top(doc)) == doc;
    } else {
      var front, last := members[..|members| - 1], members[|members| - 1];
      assert FrameFits(ObjectFrame(front, None), MAX_DEPTH - |doc.stack|);
      assert Fits(last.value, MAX_DEPTH - |doc.stack|);
      var mid := WithTop(doc, ObjectFrame(base + front, None));
      ReplaceTop(doc, ObjectFrame(base + front, None), ObjectFrame(base + members, None));
      assert base + front + [last] == base + members;
      hide FrameFits, Fits, Run, CallsOf, WithTop, Nested, Top;
      CallsAddMembers(doc, front);
      CallsAddMember(mid, last);
      assert members == front + [last];
      MembersCallsAppend(front, last);
      hide CallsOfMembers;
      RunThrough(doc, CallsOfMembers(front), mid, [Key(Some(last.key))] + CallsOf(last.value),
                 WithTop(doc, ObjectFrame(base + members, None)));
    }
  }

  lemma ReplaceTop(doc: Doc, f: Frame, g: Frame)
    requires Nested(doc) && doc.Doc? && doc.stack != []
    ensures Nested(WithTop(doc, f)) && WithTop(doc, f).Doc?
    ensures |WithTop(doc, f).stack| == |doc.stack| && WithTop(doc, f).stack != []
    ensures Top(WithTop(doc, f)) == f && WithTop(WithTop(doc, f), g) == WithTop(doc, g)
  {
    assert WithTop(doc, f).stack[..|doc.stack| - 1] == doc.stack[..|doc.stack| - 1];
  }

  lemma {:induction false} CallsAddMember(doc: Doc, m: Member)
    requires Nested(doc) && doc.Doc? && doc.stack != []
    requires Top(doc).ObjectFrame? && Top(doc).pending.None?
    requires Fits(m.value, MAX_DEPTH - |doc.stack|)
    ensures Run(doc, [Key(Some(m.key))] + CallsOf(m.value))
         == WithTop(doc, ObjectFrame(Top(doc).members + [m], None))
    decreases m.value, 2
  {
    var keyed := WithTop(doc, ObjectFrame(Top(doc).members, Some(m.key)));
    RunOne(doc, Key(Some(m.key)));
    CallsAddValue(keyed, m.value);
    RunConcat(doc, [Key(Some(m.key))], CallsOf(m.value));
    assert keyed.stack[..|doc.stack| - 1] == doc.stack[..|doc.stack| - 1];
  }

  /** A value can be written exactly when it nests at most sixteen
      containers, and its serialisation then writes it. */
  lemma WritableExactlyWhenFits(t: Tree)
    ensures (exists calls :: Run(EMPTY_DOC, calls) == Doc([], Some(t))) <==> Fits(t, 16)
    ensures Fits(t, 16) ==> Run(EMPTY_DOC, CallsOf(t)) == Doc([], Some(t))
  {
    if calls :| Run(EMPTY_DOC, calls) == Doc([], Some(t)) {
      RunFits(calls);
    }
    if Fits(t, MAX_DEPTH) {
      CallsAddValue(EMPTY_DOC, t);
    }
  }
}
