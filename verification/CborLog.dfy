/** What an encoder has written so far, as trees: complete top-level items, then the containers
    that are still open (outermost first), then tags still waiting for the item they apply to. */
module CborLog {
  import opened Bytes
  import opened CborHead
  import opened CborValue
  import opened CborDecoder

  /** An open container: `count` items were announced and `children` were written completely. */
  datatype Frame = Frame(tags: seq<u64>, isMap: bool, count: nat, children: seq<Value>)

  datatype Log = Log(done: seq<Value>, open: seq<Frame>, pending: seq<u64>)

  const EMPTY := Log([], [], [])

  function Wrap(tags: seq<u64>, v: Value): (w: Value)
    ensures Encodable(v) ==> Encodable(w)
  {
    if tags == [] then v else Tag(tags[0], Wrap(tags[1..], v))
  }

  function TagBytes(tags: seq<u64>): seq<byte>
  {
    if tags == [] then [] else EncodeHead(TAG, tags[0]) + TagBytes(tags[1..])
  }

  predicate FrameOk(f: Frame)
  {
    && |f.children| < f.count <= SIZE_MAX
    && (f.isMap ==> f.count % 2 == 0)
    && AllEncodable(f.children)
  }

  predicate LogOk(log: Log)
  {
    AllEncodable(log.done) && forall i | 0 <= i < |log.open| :: FrameOk(log.open[i])
  }

  function FrameHead(f: Frame): seq<byte>
    requires FrameOk(f)
  {
    if f.isMap then EncodeHead(MAP, f.count / 2) else EncodeHead(ARRAY, f.count)
  }

  function FrameBytes(f: Frame): seq<byte>
    requires FrameOk(f)
  {
    TagBytes(f.tags) + FrameHead(f) + EncodeAll(f.children)
  }

  function OpenBytes(open: seq<Frame>): seq<byte>
    requires forall i | 0 <= i < |open| :: FrameOk(open[i])
  {
    if open == [] then [] else OpenBytes(open[..|open| - 1]) + FrameBytes(open[|open| - 1])
  }

  function LogBytes(log: Log): seq<byte>
    requires LogOk(log)
  {
    EncodeAll(log.done) + OpenBytes(log.open) + TagBytes(log.pending)
  }

  function WithChild(f: Frame, v: Value): Frame
  {
    f.(children := f.children + [v])
  }

  /** The item a frame becomes once `v`, its last child, is in. */
  function Close(f: Frame, v: Value): Value
  {
    var items := f.children + [v];
    Wrap(f.tags, if f.isMap then Map(items) else Array(items))
  }

  /** Hands a complete item to the innermost open container, closing every container this completes. */
  function Deliver(done: seq<Value>, open: seq<Frame>, v: Value): Log
  {
    if open == [] then Log(done + [v], [], [])
    else
      var outer, f := open[..|open| - 1], open[|open| - 1];
      if |f.children| + 1 < f.count then Log(done, outer + [WithChild(f, v)], [])
      else Deliver(done, outer, Close(f, v))
  }

  function AddItem(log: Log, v: Value): Log
  {
    Deliver(log.done, log.open, Wrap(log.pending, v))
  }

  /** Opens a container of `count` items; an empty container is a complete item at once. */
  function OpenContainer(log: Log, isMap: bool, count: nat): Log
  {
    if count == 0 then AddItem(log, if isMap then Map([]) else Array([]))
    else Log(log.done, log.open + [Frame(log.pending, isMap, count, [])], [])
  }

  function AddTag(log: Log, tag: u64): Log
  {
    log.(pending := log.pending + [tag])
  }

  // ----- the log's bytes ------------------------------------------------------------------

  lemma {:induction false} AllEncodableAppend(vs: seq<Value>, v: Value)
    requires AllEncodable(vs) && Encodable(v)
    ensures AllEncodable(vs + [v]) && EncodeAll(vs + [v]) == EncodeAll(vs) + Encode(v)
  {
    hide Encode, Encodable;
    if vs == [] {
      assert vs + [v] == [v];
      assert [v][1..] == [];
      assert EncodeAll([v]) == Encode(v) + EncodeAll([]);
    } else {
      AllEncodableAppend(vs[1..], v);
      assert (vs + [v])[1..] == vs[1..] + [v];
    }
  }

  lemma {:induction false} WrapBytes(tags: seq<u64>, v: Value)
    requires Encodable(v)
    ensures Encode(Wrap(tags, v)) == TagBytes(tags) + Encode(v)
  {
    if tags != [] {
      WrapBytes(tags[1..], v);
    }
  }

  lemma {:induction false} TagBytesAppend(tags: seq<u64>, t: u64)
    ensures TagBytes(tags + [t]) == TagBytes(tags) + EncodeHead(TAG, t)
  {
    if tags == [] {
      assert tags + [t] == [t];
      assert [t][1..] == [];
      assert TagBytes([t]) == EncodeHead(TAG, t) + TagBytes([]);
    } else {
      TagBytesAppend(tags[1..], t);
      assert (tags + [t])[1..] == tags[1..] + [t];
    }
  }

  lemma CloseBytes(f: Frame, v: Value)
    requires FrameOk(f) && Encodable(v) && |f.children| + 1 == f.count
    ensures Encodable(Close(f, v)) && Encode(Close(f, v)) == FrameBytes(f) + Encode(v)
  {
    hide EncodeHead;
    AllEncodableAppend(f.children, v);
    var items := f.children + [v];
    var w := if f.isMap then Map(items) else Array(items);
    assert Encode(w) == FrameHead(f) + EncodeAll(items);
    WrapBytes(f.tags, w);
  }

  lemma WithChildBytes(f: Frame, v: Value)
    requires FrameOk(f) && Encodable(v) && |f.children| + 1 < f.count
    ensures FrameOk(WithChild(f, v)) && FrameBytes(WithChild(f, v)) == FrameBytes(f) + Encode(v)
  {
    hide EncodeHead;
    AllEncodableAppend(f.children, v);
    ConcatAssoc(TagBytes(f.tags) + FrameHead(f), EncodeAll(f.children), Encode(v));
  }

  lemma {:induction false} DeliverBytes(done: seq<Value>, open: seq<Frame>, v: Value)
    requires LogOk(Log(done, open, [])) && Encodable(v)
    ensures LogOk(Deliver(done, open, v))
    ensures LogBytes(Deliver(done, open, v)) == EncodeAll(done) + OpenBytes(open) + Encode(v)
    decreases |open|
  {
    hide Encode, Encodable, EncodeAll, AllEncodable, FrameBytes, FrameOk, WithChild, Close;
    if open == [] {
      AllEncodableAppend(done, v);
      assert EncodeAll(done) + OpenBytes([]) == EncodeAll(done);
    } else {
      var outer, f := open[..|open| - 1], open[|open| - 1];
      if |f.children| + 1 < f.count {
        WithChildBytes(f, v);
        OpenBytesAppend(outer, WithChild(f, v));
        ConcatAssoc(OpenBytes(outer), FrameBytes(f), Encode(v));
        ConcatAssoc(EncodeAll(done), OpenBytes(open), Encode(v));
      } else {
        FrameFull(f);
        CloseBytes(f, v);
        DeliverBytes(done, outer, Close(f, v));
        ConcatAssoc(EncodeAll(done) + OpenBytes(outer), FrameBytes(f), Encode(v));
        ConcatAssoc(EncodeAll(done), OpenBytes(outer), FrameBytes(f));
      }
    }
  }

  lemma FrameFull(f: Frame)
    requires FrameOk(f) && |f.children| + 1 >= f.count
    ensures |f.children| + 1 == f.count
  {
  }

  lemma OpenBytesAppend(open: seq<Frame>, f: Frame)
    requires FrameOk(f) && forall i | 0 <= i < |open| :: FrameOk(open[i])
    ensures OpenBytes(open + [f]) == OpenBytes(open) + FrameBytes(f)
  {
    assert (open + [f])[..|open|] == open;
  }

  /** Adding an item appends exactly its canonical bytes, whatever containers it completes. */
  lemma AddItemBytes(log: Log, v: Value)
    requires LogOk(log) && Encodable(v)
    ensures LogOk(AddItem(log, v)) && LogBytes(AddItem(log, v)) == LogBytes(log) + Encode(v)
  {
    hide Deliver, Encode, EncodeAll, OpenBytes, TagBytes;
    WrapBytes(log.pending, v);
    DeliverBytes(log.done, log.open, Wrap(log.pending, v));
    ConcatAssoc(EncodeAll(log.done) + OpenBytes(log.open), TagBytes(log.pending), Encode(v));
  }

  lemma OpenContainerBytes(log: Log, isMap: bool, count: nat)
    requires LogOk(log) && count <= SIZE_MAX && (isMap ==> count % 2 == 0)
    ensures LogOk(OpenContainer(log, isMap, count))
    ensures LogBytes(OpenContainer(log, isMap, count))
         == LogBytes(log) + EncodeHead(if isMap then MAP else ARRAY, if isMap then count / 2 else count)
  {
    hide EncodeHead;
    if count == 0 {
      var v := if isMap then Map([]) else Array([]);
      assert Encode(v) == EncodeHead(if isMap then MAP else ARRAY, 0) + [];
      AddItemBytes(log, v);
    } else {
      var f := Frame(log.pending, isMap, count, []);
      hide OpenBytes, TagBytes;
      OpenBytesAppend(log.open, f);
      assert FrameBytes(f) == TagBytes(log.pending) + FrameHead(f) + [];
      assert FrameBytes(f) == TagBytes(log.pending) + FrameHead(f);
      ConcatAssoc(EncodeAll(log.done), OpenBytes(log.open), FrameBytes(f));
      ConcatAssoc(EncodeAll(log.done) + OpenBytes(log.open), TagBytes(log.pending), FrameHead(f));
      NoTagBytes(OpenContainer(log, isMap, count));
    }
  }

  lemma NoTagBytes(log: Log)
    requires LogOk(log) && log.pending == []
    ensures LogBytes(log) == EncodeAll(log.done) + OpenBytes(log.open)
  {
  }

  lemma AddTagBytes(log: Log, tag: u64)
    requires LogOk(log)
    ensures LogOk(AddTag(log, tag)) && LogBytes(AddTag(log, tag)) == LogBytes(log) + EncodeHead(TAG, tag)
  {
    hide EncodeHead;
    TagBytesAppend(log.pending, tag);
  }

  // ----- complete logs are exactly the ones repeated skipping consumes ---------------------

  /** Skipping item after item from `off` reaches the end of the buffer without an error. */
  ghost predicate SkipsToEnd(d: seq<byte>, off: nat, limit: int)
    requires off <= |d|
    decreases |d| - off
  {
    off == |d| || (ItemWithin(d, off, limit) != -1 && SkipsToEnd(d, ItemWithin(d, off, limit), limit))
  }

  /** Complete items in front do not matter, except for their nesting. */
  lemma {:induction false} SkipOverDone(d: seq<byte>, off: nat, vs: seq<Value>, limit: int)
    requires AllEncodable(vs) && At(d, off, EncodeAll(vs)) && limit >= -1
    ensures SkipsToEnd(d, off, limit) <==> HeightOfAll(vs) <= limit && SkipsToEnd(d, off + |EncodeAll(vs)|, limit)
    decreases |vs|
  {
    hide ParseItem, At, Height;
    if vs != [] {
      var first := Encode(vs[0]);
      AtConcat(d, off, first, EncodeAll(vs[1..]));
      ParseEncoded(d, off, vs[0]);
      SkipOverDone(d, off + |first|, vs[1..], limit);
    }
  }

  /** A container that announces more children than are there does not parse. */
  lemma {:induction false} MissingChildren(d: seq<byte>, off: nat, vs: seq<Value>, count: nat)
    requires AllEncodable(vs) && At(d, off, EncodeAll(vs)) && |vs| < count
    requires ParseItem(d, off + |EncodeAll(vs)|).NoItem?
    ensures ParseItems(d, off, count).NoItems?
    decreases |vs|
  {
    hide ParseItem, At;
    if vs != [] {
      var first := Encode(vs[0]);
      AtConcat(d, off, first, EncodeAll(vs[1..]));
      ParseEncoded(d, off, vs[0]);
      MissingChildren(d, off + |first|, vs[1..], count - 1);
    }
  }

  lemma {:induction false} DanglingTags(d: seq<byte>, off: nat, tags: seq<u64>)
    requires At(d, off, TagBytes(tags)) && ParseItem(d, off + |TagBytes(tags)|).NoItem?
    ensures ParseItem(d, off).NoItem?
    decreases |tags|
  {
    hide HeadAt, EncodeHead, At;
    if tags != [] {
      var h := SplitHead(d, off, TAG, tags[0], TagBytes(tags[1..]));
      DanglingTags(d, off + h.size, tags[1..]);
      assert ParseItems(d, off + h.size, 1).NoItems?;
    }
  }

  lemma OpenFrameFails(d: seq<byte>, off: nat, f: Frame)
    requires FrameOk(f) && At(d, off, FrameBytes(f)) && ParseItem(d, off + |FrameBytes(f)|).NoItem?
    ensures ParseItem(d, off).NoItem?
  {
    hide HeadAt, EncodeHead, At, ParseItems, TagBytes, EncodeAll;
    var major := if f.isMap then MAP else ARRAY;
    var arg := if f.isMap then f.count / 2 else f.count;
    AtConcat(d, off, TagBytes(f.tags) + FrameHead(f), EncodeAll(f.children));
    AtConcat(d, off, TagBytes(f.tags), FrameHead(f));
    var start := off + |TagBytes(f.tags)|;
    HeadRoundTrip(d, start, major, arg);
    MissingChildren(d, start + |FrameHead(f)|, f.children, f.count);
    DanglingTags(d, off, f.tags);
  }

  lemma {:induction false} OpenFramesFail(d: seq<byte>, off: nat, open: seq<Frame>)
    requires forall i | 0 <= i < |open| :: FrameOk(open[i])
    requires At(d, off, OpenBytes(open)) && ParseItem(d, off + |OpenBytes(open)|).NoItem?
    ensures ParseItem(d, off).NoItem?
    decreases |open|
  {
    hide At, ParseItem, FrameBytes;
    if open != [] {
      var outer, f := open[..|open| - 1], open[|open| - 1];
      AtConcat(d, off, OpenBytes(outer), FrameBytes(f));
      OpenFrameFails(d, off + |OpenBytes(outer)|, f);
      OpenFramesFail(d, off, outer);
    }
  }

  lemma {:induction false} OpenBytesNonEmpty(open: seq<Frame>)
    requires open != [] && forall i | 0 <= i < |open| :: FrameOk(open[i])
    ensures OpenBytes(open) != []
  {
  }

  /** The bytes of a log are consumed by repeated skipping exactly when no container is open, no tag
      is waiting for its item, and no item is nested deeper than the limit. */
  lemma CompleteIffSkippable(log: Log, limit: int)
    requires LogOk(log) && limit >= -1
    ensures SkipsToEnd(LogBytes(log), 0, limit)
       <==> log.open == [] && log.pending == [] && HeightOfAll(log.done) <= limit
  {
    hide At, EncodeAll, OpenBytes, TagBytes, ParseItem, ParseItems;
    var d := LogBytes(log);
    var done, open, tags := EncodeAll(log.done), OpenBytes(log.open), TagBytes(log.pending);
    WholeAt(d);
    AtConcat(d, 0, done + open, tags);
    AtConcat(d, 0, done, open);
    SkipOverDone(d, 0, log.done, limit);
    NothingLeft(d);
    DanglingTags(d, |done + open|, log.pending);
    OpenFramesFail(d, |done|, log.open);
    RestLength(log);
  }

  lemma WholeAt(d: seq<byte>)
    ensures At(d, 0, d)
  {
  }

  lemma NothingLeft(d: seq<byte>)
    ensures ParseItem(d, |d|).NoItem?
  {
  }

  lemma RestLength(log: Log)
    requires LogOk(log)
    ensures |OpenBytes(log.open)| + |TagBytes(log.pending)| == 0 <==> log.open == [] && log.pending == []
  {
    if log.open != [] {
      OpenBytesNonEmpty(log.open);
    }
  }

  // ----- nesting -------------------------------------------------------------------------

  /** Without tags, the container stack bounds the nesting of everything written. */
  predicate Bounded(log: Log)
  {
    && log.pending == []
    && |log.open| <= MAX_DEPTH
    && HeightOfAll(log.done) <= MAX_DEPTH
    && forall i | 0 <= i < |log.open| ::
         log.open[i].tags == [] && HeightOfAll(log.open[i].children) <= MAX_DEPTH - 1 - i
  }

  lemma {:induction false} HeightOfAppend(vs: seq<Value>, v: Value, limit: int)
    ensures HeightOfAll(vs + [v]) <= limit <==> HeightOfAll(vs) <= limit && Height(v) <= limit
  {
    hide Height;
    if vs == [] {
      assert vs + [v] == [v] + [];
      HeightOfCons(v, [], limit);
    } else {
      HeightOfAppend(vs[1..], v, limit);
      assert vs + [v] == [vs[0]] + (vs[1..] + [v]);
      assert vs == [vs[0]] + vs[1..];
      HeightOfCons(vs[0], vs[1..] + [v], limit);
      HeightOfCons(vs[0], vs[1..], limit);
    }
  }

  lemma {:induction false} DeliverBounded(done: seq<Value>, open: seq<Frame>, v: Value)
    requires Bounded(Log(done, open, [])) && Height(v) <= MAX_DEPTH - |open|
    ensures Bounded(Deliver(done, open, v))
    decreases |open|
  {
    hide HeightOfAll;
    if open == [] {
      HeightOfAppend(done, v, MAX_DEPTH);
    } else {
      var outer, f := open[..|open| - 1], open[|open| - 1];
      HeightOfAppend(f.children, v, MAX_DEPTH - |open|);
      if |f.children| + 1 >= f.count {
        DeliverBounded(done, outer, Close(f, v));
      }
    }
  }
}
