/** The streaming JSON writer (src/json.c): an object whose every public method
    may fail to allocate, and whose callers ignore what it returns. */
module JsonWriter {
  import opened Wrappers
  import opened Bytes
  import opened JsonTree
  import opened JsonCalls
  import opened JsonParser
  import opened Memory

  const SIZE_MAX: nat := 0xffff_ffff_ffff_ffff
  const INITIAL_CAPACITY: nat := 256

  /** The largest capacity that doubling reaches below SIZE_MAX. */
  const MAX_CAPACITY: nat := 0x8000_0000_0000_0000

  datatype Container = ObjectContainer | ArrayContainer

  /** 256 times a power of two. */
  ghost predicate Doubled(capacity: nat) {
    capacity == INITIAL_CAPACITY
    || (capacity > INITIAL_CAPACITY && capacity % 2 == 0 && Doubled(capacity / 2))
  }

  /** The capacities a buffer has had, in order: 256 first, each 256 times a
      power of two and at least twice the one before. */
  ghost predicate Growth(capacities: seq<nat>) {
    && capacities != [] && capacities[0] == INITIAL_CAPACITY
    && forall i :: 0 <= i < |capacities| ==>
         Doubled(capacities[i]) && (i > 0 ==> capacities[i] >= 2 * capacities[i - 1])
  }

  lemma {:induction false} DoubledBound(c: nat, m: nat)
    requires Doubled(c) && Doubled(m) && c < 2 * m
    ensures c <= m
    decreases m
  {
    if c > INITIAL_CAPACITY {
      assert m > INITIAL_CAPACITY;
      DoubledBound(c / 2, m / 2);
    }
  }

  function Power(n: nat): nat { if n == 0 then 1 else 2 * Power(n - 1) }

  lemma {:induction false} PowerIsDoubled(n: nat)
    ensures Power(n) >= 1 && Doubled(INITIAL_CAPACITY * Power(n))
  {
    if n > 0 {
      PowerIsDoubled(n - 1);
      assert INITIAL_CAPACITY * Power(n) / 2 == INITIAL_CAPACITY * Power(n - 1);
    }
  }

  lemma {:induction false} PowerAdds(a: nat, b: nat)
    ensures Power(a + b) == Power(a) * Power(b)
  {
    if a > 0 {
      PowerAdds(a - 1, b);
    }
  }

  lemma MaxIsDoubled()
    ensures Doubled(MAX_CAPACITY)
  {
    PowerIsDoubled(55);
    hide Doubled;
    assert Power(11) == 2048;
    PowerAdds(11, 11);
    PowerAdds(22, 22);
    PowerAdds(44, 11);
  }

  ghost function Sum(s: seq<nat>): nat { if s == [] then 0 else Sum(s[..|s| - 1]) + s[|s| - 1] }

  /** All the capacities a buffer has given up are together less than the one
      it has: growing costs less than the final size. */
  lemma {:induction false} EarlierSumBelowLast(capacities: seq<nat>)
    requires Growth(capacities)
    ensures var n := |capacities| - 1;
            Sum(capacities[..n]) + INITIAL_CAPACITY <= capacities[n]
    decreases |capacities|
  {
    var n := |capacities| - 1;
    if n > 0 {
      EarlierSumBelowLast(capacities[..n]);
      assert capacities[..n][..n - 1] == capacities[..n - 1];
    }
  }

  lemma GrowthAppends(capacities: seq<nat>, next: nat)
    requires Growth(capacities) && Doubled(next) && next >= 2 * capacities[|capacities| - 1]
    ensures Growth(capacities + [next])
  {
    hide Doubled;
  }

  /** What a finished document amounts to: its text is the rendering of the
      value its effective calls serialise, the parser returns that value from
      the text, and no other value has these calls. */
  lemma FinishedDocument(calls: seq<Call>, t: Tree)
    requires Run(EMPTY_DOC, calls) == Doc([], Some(t))
    ensures DocText(Run(EMPTY_DOC, calls)) == Render(t)
    ensures ParseText(Render(t)) == Some(t)
    ensures Effective(calls) == CallsOf(t)
    ensures forall u :: CallsOf(u) == Effective(calls) && Fits(u, MAX_DEPTH) ==> u == t
  {
    TextRoundTrip(t);
    FinishedCallsSerialise(calls, t);
    RunFits(calls);
    WritableExactlyWhenFits(t);
    forall u | CallsOf(u) == Effective(calls) && Fits(u, MAX_DEPTH) ensures u == t {
      WritableExactlyWhenFits(u);
    }
  }

  lemma RunExtended(calls: seq<Call>, call: Call)
    ensures Run(EMPTY_DOC, calls + [call]) == Apply(Run(EMPTY_DOC, calls), call)
  {
    assert (calls + [call])[..|calls|] == calls;
  }

  lemma ScalarApplied(doc: Doc, call: Call)
    requires call.Num? || call.Boolean? || call.NullValue? || (call.Str? && call.value.Some?)
    ensures Apply(doc, call) == AddValue(doc, Scalar(call))
    ensures Apply(doc, call).Broken? <==> !Accepts(doc)
    ensures doc.Broken? ==> Apply(doc, call).Broken?
    ensures Accepts(doc) ==>
              DocText(Apply(doc, call)) == DocText(doc) + Before(doc) + Render(Scalar(call))
  {
    if Accepts(doc) {
      AddValueText(doc, Scalar(call));
    }
  }

  function BeginCall(c: Container): Call { if c.ArrayContainer? then BeginArray else BeginObject }

  function EndCall(c: Container): Call { if c.ArrayContainer? then EndArray else EndObject }

  function BeginToken(c: Container): byte { if c.ArrayContainer? then OPEN_ARRAY else OPEN_OBJECT }

  function EndToken(c: Container): byte { if c.ArrayContainer? then CLOSE_ARRAY else CLOSE_OBJECT }

  function EmptyFrame(c: Container): Frame {
    if c.ArrayContainer? then ArrayFrame([]) else ObjectFrame([], None)
  }

  lemma BeginApplied(doc: Doc, c: Container)
    requires Nested(doc)
    ensures Apply(doc, BeginCall(c)).Broken? <==> !Accepts(doc) || |doc.stack| >= MAX_DEPTH
    ensures Accepts(doc) ==> doc.Doc?
    ensures doc.Doc? ==> Apply(doc, BeginCall(c)) == Begin(doc, EmptyFrame(c))
    ensures Apply(doc, BeginCall(c)).Doc? ==>
              DocText(Apply(doc, BeginCall(c))) == DocText(doc) + Before(doc) + [BeginToken(c)]
  {
    hide DocText, Before;
    if doc.Doc? && Accepts(doc) && |doc.stack| < MAX_DEPTH {
      BeginText(doc, EmptyFrame(c));
    }
  }

  /** An end fits the container and no key waits for its value. */
  ghost predicate EndFits(doc: Doc, c: Container)
    requires doc.Doc? && doc.stack != []
  {
    match Top(doc)
    case ArrayFrame(_) => c.ArrayContainer?
    case ObjectFrame(_, pending) => c.ObjectContainer? && pending.None?
  }

  lemma EndApplied(doc: Doc, c: Container)
    requires Nested(doc)
    ensures doc.Broken? ==> Apply(doc, EndCall(c)).Broken?
    ensures doc.Doc? && doc.stack == [] ==> Apply(doc, EndCall(c)) == doc
    ensures doc.Doc? && doc.stack != [] ==>
              && Apply(doc, EndCall(c)) == End(doc, c.ArrayContainer?)
              && (Apply(doc, EndCall(c)).Broken? <==> !EndFits(doc, c))
              && (EndFits(doc, c) ==>
                  && Apply(doc, EndCall(c)) != doc
                  && DocText(Apply(doc, EndCall(c))) == DocText(doc) + [EndToken(c)])
  {
    hide DocText;
    if doc.Doc? && doc.stack != [] && EndFits(doc, c) {
      EndText(doc, c.ArrayContainer?);
      assert |End(doc, c.ArrayContainer?).stack| == |doc.stack| - 1;
    }
  }

  /** A key may come next. */
  ghost predicate KeyFits(doc: Doc)
    requires doc.Doc? && doc.stack != []
  {
    Top(doc).ObjectFrame? && Top(doc).pending.None?
  }

  lemma KeyApplied(doc: Doc, key: Option<seq<byte>>)
    ensures doc.Broken? ==> Apply(doc, Key(key)).Broken?
    ensures doc.Doc? && (doc.stack == [] || key.None?) ==> Apply(doc, Key(key)) == doc
    ensures doc.Doc? && doc.stack != [] && key.Some? ==>
              && (Apply(doc, Key(key)).Broken? <==> !KeyFits(doc))
              && (KeyFits(doc) ==>
                  && Apply(doc, Key(key)) != doc
                  && DocText(Apply(doc, Key(key)))
                     == DocText(doc) + Separator(|Top(doc).members|) + Literal(key.value) + [COLON])
  {
    if doc.Doc? && doc.stack != [] && key.Some? && KeyFits(doc) {
      var after := WithTop(doc, Top(doc).(pending := key));
      assert Apply(doc, Key(key)) == after && Top(after).pending == key;
      hide DocText, Apply, Literal, Separator;
      KeyText(doc, key.value);
    }
  }

  lemma {:induction false} EscapeGrows(s: seq<byte>, n: nat)
    requires n <= |s|
    ensures |Escape(s[..n])| <= |Escape(s)|
    decreases |s|
  {
    hide EscapeByte;
    if n < |s| {
      EscapeGrows(s[..|s| - 1], n);
      assert s[..|s| - 1][..n] == s[..n];
    } else {
      assert s[..n] == s;
    }
  }

  /** The growing buffer: the fields of the writer that reserve and the append
      functions use. `failed` is the writer's one failure flag. */
  class Buffer {
    var data: array?<byte>
    var length: nat
    var capacity: nat
    var failed: bool

    const heap: Heap

    /** The capacities given up by reallocation. */
    ghost var earlier: seq<nat>

    /** The allocator refused one of this buffer's requests. */
    ghost predicate Refused()
      reads heap
    {
      heap.refusals > 0
    }

    ghost function Capacities(): seq<nat>
      reads this`earlier, this`capacity
    {
      earlier + [capacity]
    }

    ghost predicate Valid()
      reads this, data, heap
    {
      && length + 1 <= capacity <= MAX_CAPACITY
      && Growth(Capacities())
      && (data == null ==> failed)
      && (data != null ==> data.Length == capacity && data[length] == 0)
      && (Refused() ==> failed)
    }

    ghost function Written(): seq<byte>
      reads this, data, heap
      requires Valid()
    {
      if data == null then [] else data[..length]
    }

    constructor ()
      ensures Valid() && fresh(heap) && (data != null ==> fresh(data))
      ensures Written() == [] && failed == Refused() && Capacities() == [INITIAL_CAPACITY]
    {
      length, capacity, earlier := 0, INITIAL_CAPACITY, [];
      var allocator := new Heap();
      var granted := allocator.Ask(INITIAL_CAPACITY);
      heap := allocator;
      if granted {
        data := new byte[INITIAL_CAPACITY](i => 0);
      } else {
        data := null;
      }
      failed := !granted;
    }

    /** Latches the failure flag: the calls misuse the writer. */
    method Fail()
      requires Valid()
      modifies this`failed
      ensures Valid() && failed && Written() == old(Written())
    {
      failed := true;
    }

    /** Makes room for `extra` bytes and a NUL, by doubling. */
    method Reserve(extra: nat) returns (ok: bool)
      requires Valid()
      modifies this, heap
      ensures Valid() && Written() == old(Written()) && length == old(length)
      ensures data == old(data) || fresh(data)
      ensures Capacities() == old(Capacities()) + if data == old(data) then [] else [capacity]
      ensures ok <==> !failed
      ensures ok ==> !old(failed) && length + extra + 1 <= capacity
      ensures !ok ==> old(failed) || Refused() || |Written()| + extra + 1 > MAX_CAPACITY
      ensures old(heap.refusals) <= heap.refusals
    {
      if failed || extra > SIZE_MAX - length - 1 {
        failed := true;
        return false;
      }
      var required := length + extra + 1;
      if required <= capacity {
        return true;
      }
      var newCapacity := capacity;
      assert Capacities()[|earlier|] == capacity;
      while newCapacity < required
        invariant capacity <= newCapacity <= MAX_CAPACITY && Doubled(newCapacity)
        invariant newCapacity > capacity ==> newCapacity >= 2 * capacity
        invariant unchanged(this) && unchanged(heap)
        decreases SIZE_MAX - newCapacity
      {
        if newCapacity > SIZE_MAX / 2 {
          failed := true;
          return false;
        }
        assert 2 * newCapacity / 2 == newCapacity;
        MaxIsDoubled();
        DoubledBound(2 * newCapacity, MAX_CAPACITY);
        newCapacity := 2 * newCapacity;
      }
      var granted := heap.Ask(newCapacity);
      if !granted {
        failed := true;
        return false;
      }
      var replacement := new byte[newCapacity](i => 0);
      forall i | 0 <= i <= length {
        replacement[i] := data[i];
      }
      GrowthAppends(Capacities(), newCapacity);
      earlier := Capacities();
      data := replacement;
      capacity := newCapacity;
      return true;
    }

    method AppendBytes(bytes: seq<byte>) returns (ok: bool)
      requires Valid()
      modifies this, data, heap
      ensures Valid() && (data == old(data) || fresh(data))
      ensures Capacities() == old(Capacities()) + if data == old(data) then [] else [capacity]
      ensures ok <==> !failed
      ensures ok ==> !old(failed) && Written() == old(Written()) + bytes
      ensures !ok ==> old(failed) || Refused() || |old(Written())| + |bytes| + 1 > MAX_CAPACITY
      ensures old(heap.refusals) <= heap.refusals
    {
      hide Growth;
      ok := Reserve(|bytes|);
      if !ok {
        return;
      }
      ghost var before := data[..length];
      forall i | 0 <= i < |bytes| {
        data[length + i] := bytes[i];
      }
      length := length + |bytes|;
      data[length] := 0;
      assert data[..length] == before + bytes;
    }

    /** A string literal, byte by byte. */
    method AppendEscaped(value: seq<byte>) returns (ok: bool)
      requires Valid() && 0 !in value
      modifies this, data, heap
      ensures Valid() && (data == old(data) || fresh(data))
      ensures if data == old(data) then Capacities() == old(Capacities()) else old(Capacities()) < Capacities()
      ensures ok <==> !failed
      ensures ok ==> !old(failed) && Written() == old(Written()) + Literal(value)
      ensures !ok ==> old(failed) || Refused() || |old(Written())| + |Literal(value)| + 1 > MAX_CAPACITY
      ensures old(heap.refusals) <= heap.refusals
    {
      hide EscapeByte, Valid, Written;
      ok := AppendBytes([QUOTE]);
      if !ok {
        return;
      }
      var cursor := 0;
      while cursor < |value|
        invariant cursor <= |value| && Valid() && (data == old(data) || fresh(data))
        invariant if data == old(data) then Capacities() == old(Capacities()) else old(Capacities()) < Capacities()
        invariant !failed && !old(failed) && old(heap.refusals) <= heap.refusals
        invariant Written() == old(Written()) + ([QUOTE] + Escape(value[..cursor]))
      {
        assert value[..cursor + 1][..cursor] == value[..cursor];
        EscapeGrows(value, cursor + 1);
        ok := AppendBytes(EscapeByte(value[cursor]));
        if !ok {
          return;
        }
        cursor := cursor + 1;
      }
      assert value[..cursor] == value;
      ok := AppendBytes([QUOTE]);
    }

    /** The comma, the literal and the colon of a key. */
    method AppendKey(key: seq<byte>, count: nat) returns (ok: bool)
      requires Valid() && 0 !in key
      modifies this, data, heap
      ensures Valid() && (data == old(data) || fresh(data))
      ensures if data == old(data) then Capacities() == old(Capacities()) else old(Capacities()) < Capacities()
      ensures ok <==> !failed
      ensures ok ==> !old(failed) && Written() == old(Written()) + Separator(count) + Literal(key) + [COLON]
      ensures !ok ==> old(failed) || Refused() || |old(Written())| + |Separator(count) + Literal(key)| + 1 + 1 > MAX_CAPACITY
      ensures old(heap.refusals) <= heap.refusals
    {
      hide Valid, Written, Literal;
      ok := !failed;
      if count > 0 {
        ok := AppendBytes([COMMA]);
      }
      if ok {
        ok := AppendEscaped(key);
      }
      if ok {
        ok := AppendBytes([COLON]);
      }
    }
  }

  class Writer {
    const buffer: Buffer
    var containers: seq<Container>
    var counts: seq<nat>
    var expectingValue: seq<bool>
    var depth: nat
    var rootWritten: bool

    /** Every call so far. */
    ghost var calls: seq<Call>

    ghost predicate StacksValid()
      reads `containers, `counts, `expectingValue, `depth
    {
      |containers| == |counts| == |expectingValue| == MAX_DEPTH && depth <= MAX_DEPTH
    }

    ghost function Document(): Doc
      reads `calls
    {
      Run(EMPTY_DOC, calls)
    }

    ghost predicate MirrorsFrame(i: nat, f: Frame, claimed: nat)
      reads `containers, `counts, `expectingValue, `depth
      requires i < MAX_DEPTH && StacksValid()
    {
      match f
      case ArrayFrame(items) =>
        containers[i].ArrayContainer? && !expectingValue[i] && counts[i] == |items| + claimed
      case ObjectFrame(members, pending) =>
        && containers[i].ObjectContainer? && counts[i] == |members| + claimed
        && expectingValue[i] == (pending.Some? && claimed == 0)
    }

    /** The fields agree with the document; `claimed` is one when the place of
        the next value has been taken but the value is not yet written. */
    ghost predicate Mirrors(doc: Doc, claimed: nat)
      reads `containers, `counts, `expectingValue, `depth, `rootWritten
      requires StacksValid()
    {
      && doc.Doc? && Nested(doc) && depth == |doc.stack|
      && rootWritten == (doc.stack != [] || doc.root.Some? || claimed > 0)
      && forall i :: 0 <= i < depth ==>
           MirrorsFrame(i, doc.stack[i], if i < depth - 1 then 1 else claimed)
    }

    /** The fields and the buffer hold `doc`, or the writer has failed, because
        `doc` is broken, the allocator refused, or the text has no room in the
        largest buffer. */
    ghost predicate Holds(doc: Doc)
      reads this, buffer, buffer.data, buffer.heap
    {
      && buffer.Valid() && StacksValid()
      && (doc.Broken? ==> buffer.failed)
      && (buffer.failed ==> doc.Broken? || buffer.Refused() || |DocText(doc)| + 1 > MAX_CAPACITY)
      && (!buffer.failed ==> Mirrors(doc, 0) && buffer.Written() == DocText(doc))
    }

    /** The writer has failed only if the calls misuse it or memory does not
        suffice; until then the buffer holds the text of the open document. */
    ghost predicate Valid()
      reads this, buffer, buffer.data, buffer.heap
    {
      Holds(Document())
    }

    constructor ()
      ensures Valid() && fresh(buffer) && fresh(buffer.heap) && (buffer.data != null ==> fresh(buffer.data))
      ensures calls == [] && buffer.failed == buffer.Refused() && buffer.Capacities() == [INITIAL_CAPACITY]
    {
      buffer := new Buffer();
      containers := seq(MAX_DEPTH, i => ObjectContainer);
      counts := seq(MAX_DEPTH, i => 0);
      expectingValue := seq(MAX_DEPTH, i => false);
      depth, rootWritten := 0, false;
      calls := [];
    }

    /** Ends a call: the writer holds the document after it. */
    ghost method Commit(call: Call)
      requires Holds(Apply(Document(), call))
      modifies this`calls
      ensures Valid() && calls == old(calls) + [call] && Document() == old(Apply(Document(), call))
      ensures buffer.data == old(buffer.data)
    {
      RunExtended(calls, call);
      hide Run, Apply, DocText, Mirrors, MirrorsFrame, StacksValid, Buffer.Valid, Buffer.Written;
      calls := calls + [call];
    }

    /** Latches the failure flag for a call that breaks the document. */
    method Misuse(ghost doc: Doc, ghost call: Call)
      requires Holds(doc) && (doc.Broken? ==> Apply(doc, call).Broken?)
      requires !buffer.failed ==> Apply(doc, call).Broken?
      requires doc.Doc? && Apply(doc, call).Doc? ==> |DocText(doc)| <= |DocText(Apply(doc, call))|
      modifies buffer`failed
      ensures Holds(Apply(doc, call)) && buffer.failed
    {
      hide Apply, Mirrors, MirrorsFrame, DocText, Buffer.Valid, Buffer.Written;
      buffer.Fail();
    }

    /** Takes the place of the next value and writes the comma before it. */
    method BeforeValue(ghost doc: Doc) returns (ok: bool)
      requires Holds(doc)
      modifies this, buffer, buffer.data, buffer.heap
      ensures buffer.Valid() && StacksValid() && calls == old(calls)
      ensures buffer.data == old(buffer.data) || fresh(buffer.data)
      ensures ok <==> !buffer.failed
      ensures ok ==> !old(buffer.failed) && Accepts(doc) && Mirrors(doc, 1)
                     && buffer.Written() == DocText(doc) + Before(doc)
      ensures buffer.failed ==>
                !Accepts(doc) || buffer.Refused() || |DocText(doc) + Before(doc)| + 1 > MAX_CAPACITY
      ensures old(buffer.heap.refusals) <= buffer.heap.refusals
      ensures depth == old(depth)
    {
      hide DocText, Buffer.Valid, Buffer.Written;
      if buffer.failed {
        return false;
      }
      if depth == 0 {
        if rootWritten {
          buffer.Fail();
          return false;
        }
        rootWritten := true;
        return true;
      }
      var index := depth - 1;
      assert MirrorsFrame(index, Top(doc), 0);
      if containers[index] == ObjectContainer {
        if !expectingValue[index] {
          buffer.Fail();
          return false;
        }
        expectingValue := expectingValue[index := false];
        counts := counts[index := counts[index] + 1];
        return true;
      }
      if counts[index] > 0 {
        ok := buffer.AppendBytes([COMMA]);
        if !ok {
          return;
        }
      }
      counts := counts[index := counts[index] + 1];
      ok := true;
    }

    /** Takes the place of the next value and writes `text` there. */
    method AppendInPlace(ghost doc: Doc, text: seq<byte>) returns (ok: bool)
      requires Holds(doc)
      modifies this, buffer, buffer.data, buffer.heap
      ensures buffer.Valid() && StacksValid() && calls == old(calls) && depth == old(depth)
      ensures buffer.data == old(buffer.data) || fresh(buffer.data)
      ensures ok <==> !buffer.failed
      ensures ok ==> !old(buffer.failed) && Accepts(doc) && Mirrors(doc, 1)
                     && buffer.Written() == DocText(doc) + Before(doc) + text
      ensures buffer.failed ==>
                !Accepts(doc) || buffer.Refused() || |DocText(doc) + Before(doc) + text| + 1 > MAX_CAPACITY
      ensures old(buffer.heap.refusals) <= buffer.heap.refusals
    {
      hide Holds, Accepts, Mirrors, MirrorsFrame, StacksValid, DocText, Before, Buffer.Valid, Buffer.Written;
      ok := BeforeValue(doc);
      if ok {
        ok := buffer.AppendBytes(text);
      }
    }

    /** A written value turns the taken place into the value's. */
    lemma MirrorsValue(doc: Doc, t: Tree)
      requires StacksValid() && Mirrors(doc, 1) && Accepts(doc)
      ensures Mirrors(AddValue(doc, t), 0)
    {
    }

    /** Writes a value's text in the place BeforeValue took. */
    method WriteScalar(call: Call, text: seq<byte>) returns (ok: bool)
      requires Valid() && (call.Num? || call.Boolean? || call.NullValue?)
      requires text == Render(Scalar(call))
      modifies this, buffer, buffer.data, buffer.heap
      ensures Valid() && (buffer.data == old(buffer.data) || fresh(buffer.data))
      ensures calls == old(calls) + [call] && (ok <==> !buffer.failed)
      ensures old(buffer.heap.refusals) <= buffer.heap.refusals
    {
      ghost var doc := Document();
      ScalarApplied(doc, call);
      hide Apply, AddValue, Accepts, Run, Mirrors, MirrorsFrame, DocText, Render, Scalar, Before,
           Buffer.Valid, Buffer.Written;
      ok := AppendInPlace(doc, text);
      if ok {
        MirrorsValue(doc, Scalar(call));
      }
      Commit(call);
    }

    method WriteUint(value: nat) returns (ok: bool)
      requires Valid() && value < 0x1_0000_0000_0000_0000
      modifies this, buffer, buffer.data, buffer.heap
      ensures Valid() && (buffer.data == old(buffer.data) || fresh(buffer.data))
      ensures calls == old(calls) + [Num(value)] && (ok <==> !buffer.failed)
      ensures old(buffer.heap.refusals) <= buffer.heap.refusals
    {
      hide Valid;
      ok := WriteScalar(Num(value), Decimal(value));
    }

    method WriteInt(value: int) returns (ok: bool)
      requires Valid() && -0x8000_0000_0000_0000 <= value < 0x8000_0000_0000_0000
      modifies this, buffer, buffer.data, buffer.heap
      ensures Valid() && (buffer.data == old(buffer.data) || fresh(buffer.data))
      ensures calls == old(calls) + [Num(value)] && (ok <==> !buffer.failed)
      ensures old(buffer.heap.refusals) <= buffer.heap.refusals
    {
      hide Valid;
      ok := WriteScalar(Num(value), Decimal(value));
    }

    method WriteBool(value: bool) returns (ok: bool)
      requires Valid()
      modifies this, buffer, buffer.data, buffer.heap
      ensures Valid() && (buffer.data == old(buffer.data) || fresh(buffer.data))
      ensures calls == old(calls) + [Boolean(value)] && (ok <==> !buffer.failed)
      ensures old(buffer.heap.refusals) <= buffer.heap.refusals
    {
      hide Valid;
      ok := WriteScalar(Boolean(value), if value then TRUE else FALSE);
    }

    method WriteNull() returns (ok: bool)
      requires Valid()
      modifies this, buffer, buffer.data, buffer.heap
      ensures Valid() && (buffer.data == old(buffer.data) || fresh(buffer.data))
      ensures calls == old(calls) + [NullValue] && (ok <==> !buffer.failed)
      ensures old(buffer.heap.refusals) <= buffer.heap.refusals
    {
      hide Valid;
      ok := WriteScalar(NullValue, NULL);
    }

    method WriteString(value: Option<seq<byte>>) returns (ok: bool)
      requires Valid() && (value.Some? ==> 0 !in value.value)
      modifies this, buffer, buffer.data, buffer.heap
      ensures Valid() && (buffer.data == old(buffer.data) || fresh(buffer.data))
      ensures calls == old(calls) + [Str(value)] && (ok <==> !buffer.failed && value.Some?)
      ensures old(buffer.heap.refusals) <= buffer.heap.refusals
    {
      ghost var doc := Document();
      ghost var call := Str(value);
      if value.None? {
        assert Apply(doc, call) == doc;
        hide Apply, Run, Mirrors, MirrorsFrame, StacksValid, DocText, Buffer.Valid, Buffer.Written;
        Commit(call);
        return false;
      }
      hide Valid;
      ok := WriteText(value.value);
    }

    /** Takes the place of the next value and writes a string literal there. */
    method LiteralInPlace(ghost doc: Doc, value: seq<byte>) returns (ok: bool)
      requires Holds(doc) && 0 !in value
      modifies this, buffer, buffer.data, buffer.heap
      ensures buffer.Valid() && StacksValid() && calls == old(calls) && depth == old(depth)
      ensures buffer.data == old(buffer.data) || fresh(buffer.data)
      ensures ok <==> !buffer.failed
      ensures ok ==> !old(buffer.failed) && Accepts(doc) && Mirrors(doc, 1)
                     && buffer.Written() == DocText(doc) + Before(doc) + Literal(value)
      ensures buffer.failed ==>
                !Accepts(doc) || buffer.Refused()
                || |DocText(doc) + Before(doc) + Literal(value)| + 1 > MAX_CAPACITY
      ensures old(buffer.heap.refusals) <= buffer.heap.refusals
    {
      hide Holds, Accepts, Mirrors, MirrorsFrame, StacksValid, DocText, Before, Literal,
           Buffer.Valid, Buffer.Written;
      ok := BeforeValue(doc);
      if ok {
        ok := buffer.AppendEscaped(value);
      }
    }

    method WriteText(value: seq<byte>) returns (ok: bool)
      requires Valid() && 0 !in value
      modifies this, buffer, buffer.data, buffer.heap
      ensures Valid() && (buffer.data == old(buffer.data) || fresh(buffer.data))
      ensures calls == old(calls) + [Str(Some(value))] && (ok <==> !buffer.failed)
      ensures old(buffer.heap.refusals) <= buffer.heap.refusals
    {
      ghost var doc := Document();
      ghost var call := Str(Some(value));
      ScalarApplied(doc, call);
      assert Render(Scalar(call)) == Literal(value);
      hide Apply, AddValue, Accepts, Run, Mirrors, MirrorsFrame, DocText, Render, Scalar, Before, Literal,
           Buffer.Valid, Buffer.Written;
      ok := LiteralInPlace(doc, value);
      if ok {
        MirrorsValue(doc, Scalar(call));
      }
      Commit(call);
    }

    method BeginContainer(container: Container) returns (ok: bool)
      requires Valid()
      modifies this, buffer, buffer.data, buffer.heap
      ensures Valid() && (buffer.data == old(buffer.data) || fresh(buffer.data))
      ensures calls == old(calls) + [BeginCall(container)] && (ok <==> !buffer.failed)
      ensures old(buffer.heap.refusals) <= buffer.heap.refusals
    {
      ghost var doc, call := Document(), BeginCall(container);
      RunKeepsNested(calls);
      BeginApplied(doc, container);
      assert !buffer.failed ==> depth == |doc.stack|;
      assert depth <= MAX_DEPTH;
      hide Holds, Apply, BeginCall, BeginToken, EmptyFrame, Accepts, Run, Nested;
      if depth >= MAX_DEPTH {
        Misuse(doc, call);
        ok := false;
      } else {
        ok := OpenInPlace(container, doc);
      }
      Commit(call);
    }

    method OpenInPlace(container: Container, ghost doc: Doc) returns (ok: bool)
      requires Holds(doc) && Nested(doc) && depth < MAX_DEPTH
      requires !buffer.failed ==> depth == |doc.stack|
      modifies this, buffer, buffer.data, buffer.heap
      ensures Holds(Apply(doc, BeginCall(container))) && calls == old(calls)
      ensures buffer.data == old(buffer.data) || fresh(buffer.data)
      ensures ok <==> !buffer.failed
      ensures old(buffer.heap.refusals) <= buffer.heap.refusals
    {
      hide Apply, BeginCall, BeginToken, EmptyFrame, Accepts, Run, Mirrors, MirrorsFrame, DocText,
           Before, Nested, Buffer.Valid, Buffer.Written;
      BeginApplied(doc, container);
      ok := AppendInPlace(doc, [BeginToken(container)]);
      if ok {
        PushFrame(container, doc);
      } else {
        buffer.Fail();
      }
    }

    /** The fields of a container that was just opened. */
    method PushFrame(container: Container, ghost doc: Doc)
      requires StacksValid() && depth < MAX_DEPTH && Mirrors(doc, 1) && Accepts(doc)
      modifies this`containers, this`counts, this`expectingValue, this`depth
      ensures StacksValid() && Mirrors(Apply(doc, BeginCall(container)), 0)
    {
      containers := containers[depth := container];
      counts := counts[depth := 0];
      expectingValue := expectingValue[depth := false];
      depth := depth + 1;
      ghost var after := Apply(doc, BeginCall(container));
      assert after == Begin(doc, EmptyFrame(container));
      assert forall i :: 0 <= i < depth - 1 ==> after.stack[i] == doc.stack[i];
    }

    /** A call that is dropped leaves the writer holding the document. */
    lemma Dropped(doc: Doc, call: Call)
      requires Holds(doc) && (doc.Broken? ==> Apply(doc, call).Broken?)
      requires !buffer.failed ==> Apply(doc, call) == doc
      requires doc.Doc? && Apply(doc, call).Doc? ==> |DocText(doc)| <= |DocText(Apply(doc, call))|
      ensures Holds(Apply(doc, call))
    {
      hide Apply, DocText, Mirrors, Buffer.Valid, Buffer.Written;
    }

    /** What a writer that has not failed knows of the innermost container. */
    lemma TopMirrored(doc: Doc)
      requires Holds(doc)
      ensures StacksValid() && (doc.Broken? ==> buffer.failed)
      ensures !buffer.failed ==> doc.Doc? && depth == |doc.stack|
      ensures !buffer.failed && depth > 0 ==> MirrorsFrame(depth - 1, Top(doc), 0)
    {
    }

    method EndContainer(container: Container) returns (ok: bool)
      requires Valid()
      modifies this, buffer, buffer.data, buffer.heap
      ensures Valid() && (buffer.data == old(buffer.data) || fresh(buffer.data))
      ensures calls == old(calls) + [EndCall(container)]
      ensures ok <==> !buffer.failed && Document() != old(Document())
      ensures old(buffer.heap.refusals) <= buffer.heap.refusals
    {
      hide Holds, Mirrors, Apply, EndCall, EndToken, DocText, Run, Nested, Buffer.Valid;
      ghost var doc, call := Document(), EndCall(container);
      RunKeepsNested(calls);
      EndApplied(doc, container);
      TopMirrored(doc);
      if depth == 0 {
        Dropped(doc, call);
        Commit(call);
        return false;
      }
      var index := depth - 1;
      if containers[index] != container || expectingValue[index] {
        Misuse(doc, call);
        ok := false;
      } else {
        ok := CloseInPlace(container, doc);
      }
      Commit(call);
    }

    method CloseInPlace(container: Container, ghost doc: Doc) returns (ok: bool)
      requires Holds(doc) && Nested(doc) && depth > 0
      requires !buffer.failed ==> doc.Doc? && doc.stack != [] && EndFits(doc, container)
      modifies this, buffer, buffer.data, buffer.heap
      ensures Holds(Apply(doc, EndCall(container))) && calls == old(calls)
      ensures buffer.data == old(buffer.data) || fresh(buffer.data)
      ensures ok <==> !buffer.failed
      ensures ok ==> !old(buffer.failed)
      ensures old(buffer.heap.refusals) <= buffer.heap.refusals
    {
      hide Apply, EndCall, EndFits, EndToken, Nested, DocText, Mirrors, MirrorsFrame,
           Buffer.Valid, Buffer.Written;
      EndApplied(doc, container);
      PopFrame(doc, container);
      ok := buffer.AppendBytes([EndToken(container)]);
    }

    /** The parent's place holds the container that was just closed. */
    method PopFrame(ghost doc: Doc, ghost container: Container)
      requires StacksValid() && depth > 0
      requires !buffer.failed ==> Mirrors(doc, 0) && doc.stack != [] && EndFits(doc, container)
      modifies this`depth
      ensures StacksValid() && depth == old(depth) - 1
      ensures !buffer.failed ==> Mirrors(Apply(doc, EndCall(container)), 0)
    {
      ghost var mirrored := !buffer.failed;
      depth := depth - 1;
      if mirrored {
        ghost var parent := Doc(doc.stack[..depth], doc.root);
        assert Accepts(parent);
        assert Apply(doc, EndCall(container)) == AddValue(parent, Closed(Top(doc)));
        assert forall i :: 0 <= i < depth ==> parent.stack[i] == doc.stack[i];
        assert Mirrors(parent, 1);
        MirrorsValue(parent, Closed(Top(doc)));
      }
    }

    method WriteKey(key: Option<seq<byte>>) returns (ok: bool)
      requires Valid() && (key.Some? ==> 0 !in key.value)
      modifies this, buffer, buffer.data, buffer.heap
      ensures Valid() && (buffer.data == old(buffer.data) || fresh(buffer.data))
      ensures calls == old(calls) + [Key(key)]
      ensures ok <==> !buffer.failed && Document() != old(Document())
      ensures old(buffer.heap.refusals) <= buffer.heap.refusals
    {
      hide Holds, Mirrors, Apply, Run, Nested, DocText, Buffer.Valid;
      ghost var doc := Document();
      RunKeepsNested(calls);
      KeyApplied(doc, key);
      TopMirrored(doc);
      if key.None? || depth == 0 {
        Dropped(doc, Key(key));
        Commit(Key(key));
        return false;
      }
      var index := depth - 1;
      if containers[index] != ObjectContainer || expectingValue[index] {
        Misuse(doc, Key(key));
        ok := false;
      } else {
        ok := KeyInPlace(key, doc);
      }
      Commit(Key(key));
    }

    method KeyInPlace(key: Option<seq<byte>>, ghost doc: Doc) returns (ok: bool)
      requires Holds(doc) && StacksValid() && depth > 0 && key.Some? && 0 !in key.value
      requires !buffer.failed ==>
                 doc.Doc? && doc.stack != [] && KeyFits(doc) && counts[depth - 1] == |Top(doc).members|
      modifies this, buffer, buffer.data, buffer.heap
      ensures Holds(Apply(doc, Key(key))) && calls == old(calls)
      ensures buffer.data == old(buffer.data) || fresh(buffer.data)
      ensures ok <==> !buffer.failed
      ensures ok ==> !old(buffer.failed)
      ensures old(buffer.heap.refusals) <= buffer.heap.refusals
    {
      hide Apply, DocText, KeyFits, Separator, Literal, Mirrors, MirrorsFrame, Buffer.Valid, Buffer.Written;
      KeyApplied(doc, key);
      ok := buffer.AppendKey(key.value, counts[depth - 1]);
      if ok {
        SetExpecting(doc, key);
      }
    }

    /** The key of the open object now waits for its value. */
    method SetExpecting(ghost doc: Doc, ghost key: Option<seq<byte>>)
      requires StacksValid() && depth > 0 && Mirrors(doc, 0) && key.Some?
      requires doc.stack != [] && KeyFits(doc)
      modifies this`expectingValue
      ensures StacksValid() && Mirrors(Apply(doc, Key(key)), 0)
    {
      expectingValue := expectingValue[depth - 1 := true];
      ghost var after := WithTop(doc, Top(doc).(pending := key));
      assert Apply(doc, Key(key)) == after;
      assert forall i :: 0 <= i < depth - 1 ==> after.stack[i] == doc.stack[i];
    }

    /** m65_json_finish: true exactly when no allocation was refused and the
        calls describe one value whose text has room; the NUL-terminated buffer is then its rendering,
        and parsing it returns that value. */
    method Finish() returns (ok: bool)
      requires Valid()
      ensures ok <==> !buffer.Refused()
                      && exists t :: Document() == Doc([], Some(t)) && |Render(t)| + 1 <= MAX_CAPACITY
      ensures ok ==> buffer.data != null && buffer.length < buffer.data.Length
                     && buffer.data[buffer.length] == 0
      ensures ok ==> exists t :: Document() == Doc([], Some(t)) && Effective(calls) == CallsOf(t)
                                 && buffer.data[..buffer.length] == Render(t)
                                 && ParseText(buffer.data[..buffer.length]) == Some(t)
    {
      ok := !buffer.failed && rootWritten && depth == 0;
      if ok {
        ghost var t := Document().root.value;
        assert Document() == Doc([], Some(t));
        FinishedDocument(calls, t);
        assert buffer.data[..buffer.length] == Render(t);
      }
    }
  }
}
