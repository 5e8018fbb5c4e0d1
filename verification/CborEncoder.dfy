/** The buffer-writing encoder with its self-popping container stack. */
module CborEncoder {
  import opened Bytes
  import opened CborHead
  import opened CborValue
  import opened CborDecoder
  import opened CborLog

  datatype Result = Done | BufferFull | TooDeep | Reserved

  /** A container on the encoder's stack: announced and written item counts. */
  datatype Level = Level(isMap: bool, count: nat, written: nat)

  function LevelOf(f: Frame): Level { Level(f.isMap, f.count, |f.children|) }

  ghost predicate StackOf(stack: seq<Level>, open: seq<Frame>)
  {
    |stack| == |open| && forall i | 0 <= i < |stack| :: stack[i] == LevelOf(open[i])
  }

  /** The stack just after the top container's written count went up for an item being delivered. */
  ghost predicate Bumped(stack: seq<Level>, open: seq<Frame>)
  {
    && |stack| == |open|
    && forall i | 0 <= i < |stack| ::
         stack[i] == if i < |stack| - 1 then LevelOf(open[i])
                     else Level(open[i].isMap, open[i].count, |open[i].children| + 1)
  }

  function BumpTop(stack: seq<Level>): seq<Level>
    requires stack != []
  {
    var top := |stack| - 1;
    stack[top := stack[top].(written := stack[top].written + 1)]
  }

  lemma DeliveredStack(stack: seq<Level>, done: seq<Value>, open: seq<Frame>, v: Value)
    requires Bumped(stack, open)
    requires open != [] ==> |open[|open| - 1].children| + 1 < open[|open| - 1].count
    ensures StackOf(stack, Deliver(done, open, v).open)
  {
  }

  lemma PushBounded(log: Log, isMap: bool, count: nat)
    requires count > 0 && |log.open| < MAX_DEPTH
    ensures Bounded(log) ==> Bounded(OpenContainer(log, isMap, count))
  {
  }

  class Encoder {
    const buf: array<byte>
    var offset: nat
    var error: bool
    var stack: seq<Level>
    ghost var log: Log
    ghost var tagged: bool

    ghost predicate InBuffer()
      reads this
    {
      offset <= buf.Length <= PTRDIFF_MAX
    }

    /** Unless an error occurred, the buffer holds exactly the bytes of the log and the stack is the
        log's list of open containers. */
    ghost predicate Valid()
      reads this, buf
    {
      && InBuffer()
      && |stack| <= MAX_DEPTH
      && (!error ==>
            && LogOk(log)
            && buf[..offset] == LogBytes(log)
            && StackOf(stack, log.open)
            && (!tagged ==> Bounded(log)))
    }

    constructor (buffer: array<byte>)
      requires buffer.Length <= PTRDIFF_MAX
      ensures buf == buffer && offset == 0 && !error && !tagged && stack == [] && log == EMPTY && Valid()
    {
      buf, offset, error, stack := buffer, 0, false, [];
      log, tagged := EMPTY, false;
    }

    /** After an error there is nothing to use; otherwise the reported bytes are exactly those of all
        items, open containers and tags written so far. */
    method Length() returns (n: nat)
      requires Valid()
      ensures n <= buf.Length
      ensures error ==> n == 0
      ensures !error ==> n == |LogBytes(log)| && buf[..n] == LogBytes(log)
    {
      n := if error then 0 else offset;
    }

    method Write(data: seq<byte>) returns (ok: bool)
      requires InBuffer()
      modifies this`offset, this`error, buf
      ensures InBuffer()
      ensures ok == (!old(error) && old(offset) + |data| <= buf.Length)
      ensures ok ==> !error && offset == old(offset) + |data| && buf[..offset] == old(buf[..offset]) + data
      ensures !ok ==> error && offset == old(offset)
    {
      if error {
        return false;
      }
      if offset + |data| > buf.Length {
        error := true;
        return false;
      }
      forall i | 0 <= i < |data| {
        buf[offset + i] := data[i];
      }
      offset := offset + |data|;
      ok := true;
    }

    method WriteHead(major: Major, value: u64) returns (ok: bool)
      requires InBuffer()
      modifies this`offset, this`error, buf
      ensures InBuffer()
      ensures ok == (!old(error) && old(offset) + |EncodeHead(major, value)| <= buf.Length)
      ensures ok ==> !error && offset == old(offset) + |EncodeHead(major, value)|
      ensures ok ==> buf[..offset] == old(buf[..offset]) + EncodeHead(major, value)
      ensures !ok ==> error
    {
      if value <= 23 {
        ok := Write([32 * major + value]);
      } else if value <= 0xFF {
        ok := WriteInitialAndWord(major, 24, value, 1);
      } else if value <= 0xFFFF {
        ok := WriteInitialAndWord(major, 25, value, 2);
      } else if value <= 0xFFFF_FFFF {
        ok := WriteInitialAndWord(major, 26, value, 4);
      } else {
        ok := WriteInitialAndWord(major, 27, value, 8);
      }
    }

    /** The initial byte and then the big-endian argument, as two separate writes. */
    method WriteInitialAndWord(major: Major, info: byte, value: u64, n: nat) returns (ok: bool)
      requires InBuffer() && 24 <= info <= 27
      modifies this`offset, this`error, buf
      ensures InBuffer()
      ensures ok == (!old(error) && old(offset) + 1 + n <= buf.Length)
      ensures ok ==> !error && offset == old(offset) + 1 + n
      ensures ok ==> buf[..offset] == old(buf[..offset]) + ([32 * major + info] + BigEndian(value, n))
      ensures !ok ==> error
    {
      ok := Write([32 * major + info]);
      if !ok {
        return;
      }
      ok := Write(BigEndian(value, n));
    }

    /** Counts the item just written and pops every container it completes. */
    method TrackItem(ghost v: Value)
      requires |stack| <= MAX_DEPTH && StackOf(stack, log.open)
      requires forall i | 0 <= i < |log.open| :: FrameOk(log.open[i])
      modifies this`stack, this`log
      ensures log == Deliver(old(log).done, old(log).open, v)
      ensures StackOf(stack, log.open) && |stack| <= MAX_DEPTH
    {
      ghost var done, open, item := log.done, log.open, v;
      if |stack| == 0 {
        log := Deliver(done, open, item);
        return;
      }
      stack := BumpTop(stack);
      while |stack| > 0
        invariant |stack| == |open| <= MAX_DEPTH
        invariant forall i | 0 <= i < |open| :: FrameOk(open[i])
        invariant Bumped(stack, open)
        invariant log == old(log) && Deliver(log.done, log.open, v) == Deliver(done, open, item)
        decreases |stack|
      {
        ghost var f := open[|open| - 1];
        if stack[|stack| - 1].written >= stack[|stack| - 1].count {
          stack := stack[..|stack| - 1];
          open, item := open[..|open| - 1], Close(f, item);
          if |stack| > 0 {
            stack := BumpTop(stack);
          }
        } else {
          break;
        }
      }
      DeliveredStack(stack, done, open, item);
      log := Deliver(done, open, item);
    }

    /** Records a complete item whose bytes have just been appended. */
    method Finish(ghost v: Value, ghost before: seq<byte>)
      requires InBuffer() && !error && LogOk(log) && StackOf(stack, log.open) && |stack| <= MAX_DEPTH
      requires !tagged ==> Bounded(log) && Height(v) == 0
      requires Encodable(v) && before == LogBytes(log) && buf[..offset] == before + Encode(v)
      modifies this`stack, this`log
      ensures Valid() && log == AddItem(old(log), v)
    {
      AddItemBytes(log, v);
      if !tagged {
        DeliverBounded(log.done, log.open, Wrap(log.pending, v));
      }
      TrackItem(Wrap(log.pending, v));
    }

    method EncodeScalar(major: Major, value: u64, ghost v: Value) returns (rc: Result)
      requires Valid() && Encodable(v) && Height(v) == 0 && Encode(v) == EncodeHead(major, value)
      modifies this, buf
      ensures Valid() && tagged == old(tagged)
      ensures rc == if !old(error) && old(offset) + |Encode(v)| <= buf.Length then Done else BufferFull
      ensures rc == Done ==> !error && offset == old(offset) + |Encode(v)| && log == AddItem(old(log), v)
      ensures rc != Done ==> error
    {
      ghost var before := buf[..offset];
      var ok := WriteHead(major, value);
      if !ok {
        return BufferFull;
      }
      Finish(v, before);
      return Done;
    }

    method EncodeUInt(value: u64) returns (rc: Result)
      requires Valid()
      modifies this, buf
      ensures Valid() && tagged == old(tagged)
      ensures rc == if !old(error) && old(offset) + |Encode(UInt(value))| <= buf.Length then Done else BufferFull
      ensures rc == Done ==> !error && log == AddItem(old(log), UInt(value))
      ensures rc == Done ==> offset == old(offset) + |Encode(UInt(value))|
      ensures rc != Done ==> error
    {
      rc := EncodeScalar(UINT, value, UInt(value));
    }

    method EncodeNegInt(value: u64) returns (rc: Result)
      requires Valid()
      modifies this, buf
      ensures Valid() && tagged == old(tagged)
      ensures rc == if !old(error) && old(offset) + |Encode(NegInt(value))| <= buf.Length then Done else BufferFull
      ensures rc == Done ==> !error && log == AddItem(old(log), NegInt(value))
      ensures rc == Done ==> offset == old(offset) + |Encode(NegInt(value))|
      ensures rc != Done ==> error
    {
      rc := EncodeScalar(NEGINT, value, NegInt(value));
    }

    /** Any signed 64-bit integer, INT64_MIN included: the argument of a negative one is -(value + 1). */
    method EncodeInt(value: int) returns (rc: Result)
      requires Valid() && INT64_MIN <= value <= INT64_MAX
      modifies this, buf
      ensures Valid() && tagged == old(tagged)
      ensures rc == if !old(error) && old(offset) + |Encode(IntValue(value))| <= buf.Length then Done else BufferFull
      ensures rc == Done ==> !error && log == AddItem(old(log), IntValue(value))
      ensures rc == Done ==> offset == old(offset) + |Encode(IntValue(value))|
      ensures rc == Done ==> WroteInt(buf[..offset], old(offset), value)
      ensures rc != Done ==> error
    {
      ghost var was, start := log, offset;
      if value >= 0 {
        rc := EncodeUInt(value);
      } else {
        rc := EncodeNegInt(-(value + 1));
      }
      if rc == Done {
        IntWritten(was, value, buf[..offset], start);
      }
    }

    method EncodeString(major: Major, data: seq<byte>, ghost v: Value) returns (rc: Result)
      requires Valid() && |data| <= PTRDIFF_MAX && (v == ByteString(data) || v == TextString(data))
      requires Encode(v) == EncodeHead(major, |data|) + data
      modifies this, buf
      ensures Valid() && tagged == old(tagged)
      ensures rc == if !old(error) && old(offset) + |Encode(v)| <= buf.Length then Done else BufferFull
      ensures rc == Done ==> !error && offset == old(offset) + |Encode(v)| && log == AddItem(old(log), v)
      ensures rc != Done ==> error
    {
      ghost var before := buf[..offset];
      var ok := WriteHead(major, |data|);
      if !ok {
        return BufferFull;
      }
      if |data| > 0 {
        ok := Write(data);
        if !ok {
          return BufferFull;
        }
      }
      ConcatAssoc(before, EncodeHead(major, |data|), data);
      Finish(v, before);
      return Done;
    }

    method EncodeByteString(data: seq<byte>) returns (rc: Result)
      requires Valid() && |data| <= PTRDIFF_MAX
      modifies this, buf
      ensures Valid() && tagged == old(tagged)
      ensures rc == if !old(error) && old(offset) + |Encode(ByteString(data))| <= buf.Length then Done else BufferFull
      ensures rc == Done ==> !error && log == AddItem(old(log), ByteString(data))
      ensures rc == Done ==> offset == old(offset) + |Encode(ByteString(data))|
      ensures rc != Done ==> error
    {
      rc := EncodeString(BSTR, data, ByteString(data));
    }

    method EncodeTextString(data: seq<byte>) returns (rc: Result)
      requires Valid() && |data| <= PTRDIFF_MAX
      modifies this, buf
      ensures Valid() && tagged == old(tagged)
      ensures rc == if !old(error) && old(offset) + |Encode(TextString(data))| <= buf.Length then Done else BufferFull
      ensures rc == Done ==> !error && log == AddItem(old(log), TextString(data))
      ensures rc == Done ==> offset == old(offset) + |Encode(TextString(data))|
      ensures rc != Done ==> error
    {
      rc := EncodeString(TSTR, data, TextString(data));
    }

    /** Simple values 24..31 are reserved: they are refused without touching the encoder. */
    method EncodeSimple(value: byte) returns (rc: Result)
      requires Valid()
      modifies this, buf
      ensures Valid() && tagged == old(tagged)
      ensures 24 <= value <= 31 ==>
                rc == Reserved && log == old(log) && offset == old(offset) && error == old(error) && stack == old(stack)
      ensures !(24 <= value <= 31) ==>
                var end := old(offset) + |Encode(Simple(value))|;
                && rc == (if !old(error) && end <= buf.Length then Done else BufferFull)
                && (rc == Done ==> !error && log == AddItem(old(log), Simple(value)) && offset == end)
                && (rc != Done ==> error)
    {
      hide LogBytes, StackOf, Bounded, EncodeHead, AddItem;
      if 24 <= value <= 31 {
        return Reserved;
      }
      if value <= 23 {
        rc := EncodeScalar(SIMPLE, value, Simple(value));
        return;
      }
      LongSimple(value);
      ghost var before := buf[..offset];
      var ok := Write([0xF8]);
      if !ok {
        return BufferFull;
      }
      ok := Write([value]);
      if !ok {
        return BufferFull;
      }
      ConcatAssoc(before, [0xF8], [value]);
      Finish(Simple(value), before);
      return Done;
    }

    /** A single or double precision float, given by its raw bits. */
    method EncodeFloat(info: byte, bits: u64) returns (rc: Result)
      requires Valid() && 26 <= info <= 27 && bits < ArgBound(ArgBytes(info))
      modifies this, buf
      ensures Valid() && tagged == old(tagged)
      ensures rc == if !old(error) && old(offset) + |Encode(Float(info, bits))| <= buf.Length then Done else BufferFull
      ensures rc == Done ==> !error && log == AddItem(old(log), Float(info, bits))
      ensures rc == Done ==> offset == old(offset) + |Encode(Float(info, bits))|
      ensures rc != Done ==> error
    {
      ghost var before := buf[..offset];
      var ok := WriteInitialAndWord(SIMPLE, info, bits, ArgBytes(info));
      if !ok {
        return BufferFull;
      }
      Finish(Float(info, bits), before);
      return Done;
    }

    /** Announces `count` pairs or items. Refused 16 containers deep, and for a map whose item count
        would not fit a `size_t`. */
    method EncodeContainer(isMap: bool, count: u64) returns (rc: Result)
      requires Valid()
      modifies this, buf
      ensures Valid() && tagged == old(tagged)
      ensures var end := old(offset) + |EncodeHead(if isMap then MAP else ARRAY, count)|;
              rc == if |old(stack)| >= 16 || (isMap && count > SIZE_MAX / 2) then TooDeep
                    else if !old(error) && end <= buf.Length then Done
                    else BufferFull
      ensures rc == Done ==> !error && log == OpenContainer(old(log), isMap, if isMap then 2 * count else count)
      ensures rc == Done ==> offset == old(offset) + |EncodeHead(if isMap then MAP else ARRAY, count)|
      ensures rc != Done ==> error
    {
      hide LogBytes, EncodeHead, StackOf, Bounded, OpenContainer;
      if |stack| >= MAX_DEPTH {
        error := true;
        return TooDeep;
      }
      if isMap && count > SIZE_MAX / 2 {
        error := true;
        return TooDeep;
      }
      ghost var before := buf[..offset];
      var ok := WriteHead(if isMap then MAP else ARRAY, count);
      if !ok {
        return BufferFull;
      }
      Push(isMap, if isMap then 2 * count else count, before);
      return Done;
    }

    /** Records a container whose head has just been appended; an empty one is complete at once. */
    method Push(isMap: bool, items: nat, ghost before: seq<byte>)
      requires InBuffer() && !error && LogOk(log) && StackOf(stack, log.open) && |stack| < MAX_DEPTH
      requires !tagged ==> Bounded(log)
      requires items <= SIZE_MAX && (isMap ==> items % 2 == 0) && before == LogBytes(log)
      requires buf[..offset] == before + EncodeHead(if isMap then MAP else ARRAY, if isMap then items / 2 else items)
      modifies this`stack, this`log
      ensures Valid() && log == OpenContainer(old(log), isMap, items)
    {
      hide EncodeHead;
      if items == 0 {
        ghost var v := if isMap then Map([]) else Array([]);
        assert Encode(v) == EncodeHead(if isMap then MAP else ARRAY, 0) + [];
        Finish(v, before);
      } else {
        OpenContainerBytes(log, isMap, items);
        PushBounded(log, isMap, items);
        stack := stack + [Level(isMap, items, 0)];
        log := OpenContainer(log, isMap, items);
      }
    }

    /** A tag is not an item of its container; the item that follows it is. */
    method EncodeTag(tag: u64) returns (rc: Result)
      requires Valid()
      modifies this, buf
      ensures Valid()
      ensures rc == if !old(error) && old(offset) + |EncodeHead(TAG, tag)| <= buf.Length then Done else BufferFull
      ensures rc == Done ==> !error && log == AddTag(old(log), tag) && stack == old(stack)
      ensures rc == Done ==> offset == old(offset) + |EncodeHead(TAG, tag)|
      ensures rc != Done ==> error
    {
      var ok := WriteHead(TAG, tag);
      if !ok {
        return BufferFull;
      }
      AddTagBytes(log, tag);
      log, tagged := AddTag(log, tag), true;
      return Done;
    }

    /** Any one call: without an error it adds to the log exactly what it stands for; an error, once set,
        stays. */
    method Perform(c: Call) returns (rc: Result)
      requires Valid() && CallOk(c)
      modifies this, buf
      ensures Valid() && (c.CallTag? || tagged == old(tagged))
      ensures old(error) ==> error
      ensures rc == Done ==> !error
      ensures rc == Reserved <==> IsReserved(c)
      ensures rc == Reserved ==> error == old(error) && stack == old(stack)
      ensures rc != Done && rc != Reserved ==> error
      ensures !error ==> log == Apply(old(log), c)
    {
      hide EncodeHead, Encode, LogBytes, StackOf, AddItem, OpenContainer, AddTag;
      match c
      case CallUInt(n) => rc := EncodeUInt(n);
      case CallNegInt(n) => rc := EncodeNegInt(n);
      case CallInt(value) => rc := EncodeInt(value);
      case CallBytes(data) => rc := EncodeByteString(data);
      case CallText(data) => rc := EncodeTextString(data);
      case CallSimple(value) => rc := EncodeSimple(value);
      case CallFloat(info, bits) => rc := EncodeFloat(info, bits);
      case CallContainer(isMap, count) => rc := EncodeContainer(isMap, count);
      case CallTag(tag) => rc := EncodeTag(tag);
    }

    /** Any sequence of calls. From the first error on the reported length is 0, whatever follows. Without
        an error it covers exactly what the calls stand for, one after the other; and for tag-free calls
        repeated skipping consumes it to the end if and only if no container is open. */
    method PerformAll(calls: seq<Call>) returns (n: nat)
      requires Valid() && forall c | c in calls :: CallOk(c)
      modifies this, buf
      ensures Valid()
      ensures old(error) ==> error
      ensures error ==> n == 0
      ensures !error ==> log == ApplyAll(old(log), calls)
      ensures !error ==> n == |LogBytes(log)| && buf[..n] == LogBytes(log)
      ensures !error && !old(tagged) && (forall c | c in calls :: !c.CallTag?) ==>
                (SkipsToEnd(buf[..n], 0, MAX_DEPTH) <==> stack == [])
    {
      hide LogBytes, StackOf, Bounded, CallOk, SkipsToEnd, Apply;
      assert calls[..0] == [];
      for i := 0 to |calls|
        invariant Valid() && (old(error) ==> error)
        invariant !error ==> log == ApplyAll(old(log), calls[..i])
        invariant !old(tagged) && (forall j | 0 <= j < i :: !calls[j].CallTag?) ==> !tagged
      {
        assert calls[i] in calls;
        var _ := Perform(calls[i]);
        assert calls[..i + 1][..i] == calls[..i];
      }
      assert calls[..|calls|] == calls;
      n := Length();
      if !error {
        DepthZeroIffSkippable();
        assert buf[..n] == buf[..offset];
      }
    }

    /** Without tags, an empty stack is exactly what makes the buffer a run of complete items that
        repeated skipping consumes to the end. */
    lemma DepthZeroIffSkippable()
      requires Valid() && !error
      ensures SkipsToEnd(buf[..offset], 0, MAX_DEPTH)
         <==> stack == [] && log.pending == [] && HeightOfAll(log.done) <= MAX_DEPTH
      ensures !tagged ==> (SkipsToEnd(buf[..offset], 0, MAX_DEPTH) <==> stack == [])
    {
      CompleteIffSkippable(log, MAX_DEPTH);
    }
  }

  /** What stands at `off` is an integer head with the value's sign and argument, and decodes to the value. */
  predicate WroteInt(d: seq<byte>, off: nat, value: int)
    requires INT64_MIN <= value <= INT64_MAX
  {
    && off < |d| && HeadAt(d, off).Head?
    && d[off] / 32 == (if value >= 0 then 0 else 1)
    && HeadAt(d, off).arg == (if value >= 0 then value else -1 - value)
    && NextAt(d, off) == Next(if value >= 0 then DUInt(value) else DNegInt(-1 - value, value), |d|)
  }

  lemma IntWritten(was: Log, value: int, d: seq<byte>, off: nat)
    requires LogOk(was) && |LogBytes(was)| == off && INT64_MIN <= value <= INT64_MAX
    requires LogOk(AddItem(was, IntValue(value))) && d == LogBytes(AddItem(was, IntValue(value)))
    ensures WroteInt(d, off, value)
  {
    hide EncodeHead, HeadAt, LogBytes, AddItem, At;
    var v := IntValue(value);
    AddItemBytes(was, v);
    var (major, arg) := if value >= 0 then (UINT, value) else (NEGINT, -1 - value);
    assert d == LogBytes(was) + EncodeHead(major, arg);
    AtSlice(d, 0, d);
    AtConcat(d, 0, LogBytes(was), EncodeHead(major, arg));
    HeadRoundTrip(d, off, major, arg);
    NextMajor(d, off);
  }

  lemma LongSimple(value: byte)
    requires value >= 32
    ensures Encode(Simple(value)) == [0xF8] + [value]
  {
    assert Encode(Simple(value)) == [0xF8] + BigEndian(value, 1);
  }

  /** A call to the encoder. */
  datatype Call =
    | CallUInt(n: u64)
    | CallNegInt(arg: u64)
    | CallInt(value: int)
    | CallBytes(bytes: seq<byte>)
    | CallText(text: seq<byte>)
    | CallSimple(simple: byte)
    | CallFloat(info: byte, bits: u64)
    | CallContainer(isMap: bool, count: u64)
    | CallTag(tag: u64)

  /** The arguments have the types of the source's parameters. */
  predicate CallOk(c: Call)
  {
    match c
    case CallInt(value) => INT64_MIN <= value <= INT64_MAX
    case CallBytes(data) => |data| <= PTRDIFF_MAX
    case CallText(data) => |data| <= PTRDIFF_MAX
    case CallFloat(info, bits) => 26 <= info <= 27 && bits < ArgBound(ArgBytes(info))
    case _ => true
  }

  predicate IsReserved(c: Call)
  {
    c.CallSimple? && 24 <= c.simple <= 31
  }

  /** What a call adds to the log; a reserved value is refused and adds nothing. */
  function Apply(log: Log, c: Call): Log
    requires CallOk(c)
  {
    match c
    case CallUInt(n) => AddItem(log, UInt(n))
    case CallNegInt(n) => AddItem(log, NegInt(n))
    case CallInt(value) => AddItem(log, IntValue(value))
    case CallBytes(data) => AddItem(log, ByteString(data))
    case CallText(data) => AddItem(log, TextString(data))
    case CallSimple(value) => if IsReserved(c) then log else AddItem(log, Simple(value))
    case CallFloat(info, bits) => AddItem(log, Float(info, bits))
    case CallContainer(isMap, count) => OpenContainer(log, isMap, if isMap then 2 * count else count)
    case CallTag(tag) => AddTag(log, tag)
  }

  function ApplyAll(log: Log, calls: seq<Call>): Log
    requires forall c | c in calls :: CallOk(c)
  {
    if calls == [] then log else Apply(ApplyAll(log, calls[..|calls| - 1]), calls[|calls| - 1])
  }

  function IntValue(value: int): Value
    requires INT64_MIN <= value <= INT64_MAX
  {
    if value >= 0 then UInt(value) else NegInt(-1 - value)
  }
}
