/**
 * The call-path reconstructor: the Enter/Exit handling on `stack_data` in
 * `main` (ebpf/src/main.rs).
 *
 * Open call paths are kept in a map from call-path id to the names seen so
 * far and the start timestamp. An Enter creates the entry on first sight and
 * always appends the decoded name; an Exit removes the entry and inserts the
 * completed path into the call tree; anything else is ignored.
 */
module Reconstructor {
  import opened Numeric
  import opened FlameTree

  const ENTER: u8 := 0
  const EXIT: u8 := 1
  /** Size of the fixed name buffer of an event. */
  const NAME_CAPACITY: nat := 64

  /** `EbpfData`, as the kernel side delivers it. */
  datatype RawEvent = RawEvent(pid: u32, stackId: u64, timestamp: u64, eventType: u8, dataLen: u8, data: seq<byte>)

  /**
   * An event the loop can process without panicking: the kernel delivers a
   * 64-byte name buffer, and an Enter slices `data[..data_len]` out of it.
   */
  predicate WellFormed(e: RawEvent)
  {
    |e.data| == NAME_CAPACITY && (e.eventType == ENTER ==> e.dataLen <= NAME_CAPACITY)
  }

  /** The names seen so far on one open call path and the timestamp of its first Enter. */
  datatype OpenPath = OpenPath(names: seq<Name>, start: u64)

  /** The state the event loop owns: `stack_data` and `root_node`. */
  datatype Aggregate = Aggregate(open: map<u64, OpenPath>, root: FlameNode)

  /** The UTF-8 bytes of "root". */
  const ROOT_NAME: Name := [0x72, 0x6f, 0x6f, 0x74]
  const INITIAL: Aggregate := Aggregate(map[], NewNode(ROOT_NAME, 0, 0))

  /** `String::from_utf8_lossy`: decoding is not modelled, it is a parameter. */
  type Decoder = seq<byte> -> Name

  function NameOf(e: RawEvent, decode: Decoder): Name
    requires WellFormed(e) && e.eventType == ENTER
  {
    decode(e.data[..e.dataLen])
  }

  /** Only the first `data_len` bytes of the buffer name the frame; the padding after them is ignored. */
  lemma NameOfIgnoresPadding(e1: RawEvent, e2: RawEvent, decode: Decoder)
    requires WellFormed(e1) && e1.eventType == ENTER && WellFormed(e2) && e2.eventType == ENTER
    requires e1.dataLen == e2.dataLen && e1.data[..e1.dataLen] == e2.data[..e2.dataLen]
    ensures NameOf(e1, decode) == NameOf(e2, decode)
  {
  }

  /** A buffer holding `name` followed by zeros, with `data_len` = |name|, is named `decode(name)`. */
  lemma NameOfBuffer(e: RawEvent, name: seq<byte>, decode: Decoder)
    requires |name| <= NAME_CAPACITY && e.eventType == ENTER && e.dataLen == |name| && e.data == NameBuffer(name)
    ensures WellFormed(e) && NameOf(e, decode) == decode(name)
  {
  }

  /**
   * One event. An Enter for a fresh id opens `[f, f]` at the event's
   * timestamp (the first name is pushed twice); an Enter for an open id
   * appends `f` and keeps the start; an Exit for an open id closes it and
   * inserts `(names, start, exit timestamp)` into the tree; an Exit for an
   * id that is not open, and any other kind, change nothing. Other ids are
   * never touched.
   */
  function Step(st: Aggregate, e: RawEvent, decode: Decoder): (r: Aggregate)
    requires WellFormed(e)
    ensures forall k :: k != e.stackId ==> (k in r.open <==> k in st.open)
    ensures forall k :: k != e.stackId && k in st.open ==> k in r.open && r.open[k] == st.open[k]
    ensures e.eventType == ENTER ==>
              var f := NameOf(e, decode);
              && r.root == st.root
              && e.stackId in r.open
              && r.open[e.stackId] == (if e.stackId in st.open
                                       then OpenPath(st.open[e.stackId].names + [f], st.open[e.stackId].start)
                                       else OpenPath([f, f], e.timestamp))
    ensures e.eventType == EXIT ==>
              && e.stackId !in r.open
              && r.root == (if e.stackId in st.open
                            then AddChild(st.root, st.open[e.stackId].names, st.open[e.stackId].start, e.timestamp)
                            else st.root)
    ensures e.eventType == EXIT && e.stackId !in st.open ==> r == st
    ensures e.eventType != ENTER && e.eventType != EXIT ==> r == st
  {
    var id := e.stackId;
    if e.eventType == ENTER then
      var f := NameOf(e, decode);
      var entry := if id in st.open then st.open[id] else OpenPath([f], e.timestamp);
      st.(open := st.open[id := entry.(names := entry.names + [f])])
    else if e.eventType == EXIT then
      if id in st.open then
        var path := st.open[id];
        st.(open := st.open - {id}, root := AddChild(st.root, path.names, path.start, e.timestamp))
      else st
    else st
  }

  /** The events of one buffer, in the order received. */
  function Run(st: Aggregate, events: seq<RawEvent>, decode: Decoder): (r: Aggregate)
    requires forall e :: e in events ==> WellFormed(e)
    ensures forall k :: k in r.open ==> k in st.open || exists e :: e in events && e.eventType == ENTER && e.stackId == k
    decreases |events|
  {
    if events == [] then st
    else
      var front, last := events[..|events| - 1], events[|events| - 1];
      assert forall e :: e in front ==> e in events;
      Step(Run(st, front, decode), last, decode)
  }

  // ---------------------------------------------------------------------
  // Invariants of the event loop

  /** Every open path holds at least two names and starts with its first name twice. */
  predicate DuplicatedHead(st: Aggregate)
  {
    forall k :: k in st.open ==> |st.open[k].names| >= 2 && st.open[k].names[0] == st.open[k].names[1]
  }

  lemma {:induction false} RunKeepsDuplicatedHead(st: Aggregate, events: seq<RawEvent>, decode: Decoder)
    requires forall e :: e in events ==> WellFormed(e)
    requires DuplicatedHead(st)
    ensures DuplicatedHead(Run(st, events, decode))
    decreases |events|
  {
    if events != [] {
      RunKeepsDuplicatedHead(st, events[..|events| - 1], decode);
    }
  }

  /** The tree keeps one child per distinct name at every level. */
  lemma {:induction false} RunKeepsUniqueNames(st: Aggregate, events: seq<RawEvent>, decode: Decoder)
    requires forall e :: e in events ==> WellFormed(e)
    requires UniqueNames(st.root)
    ensures UniqueNames(Run(st, events, decode).root)
    decreases |events|
  {
    if events != [] {
      var before := Run(st, events[..|events| - 1], decode);
      var e := events[|events| - 1];
      RunKeepsUniqueNames(st, events[..|events| - 1], decode);
      if e.eventType == EXIT && e.stackId in before.open {
        var path := before.open[e.stackId];
        AddChildKeepsUniqueNames(before.root, path.names, path.start, e.timestamp);
      }
    }
  }

  /** The root's own span is never changed by the loop. */
  lemma {:induction false} RunKeepsRootSpan(st: Aggregate, events: seq<RawEvent>, decode: Decoder)
    requires forall e :: e in events ==> WellFormed(e)
    ensures Run(st, events, decode).root.start == st.root.start
    ensures Run(st, events, decode).root.end == st.root.end
    ensures Run(st, events, decode).root.name == st.root.name
    decreases |events|
  {
    if events != [] {
      RunKeepsRootSpan(st, events[..|events| - 1], decode);
    }
  }

  /** An id that no event carries keeps its entry (or its absence) through the whole run. */
  lemma {:induction false} RunIgnoresUnseenIds(st: Aggregate, events: seq<RawEvent>, decode: Decoder, k: u64)
    requires forall e :: e in events ==> WellFormed(e)
    requires forall e :: e in events ==> e.stackId != k
    ensures k in Run(st, events, decode).open <==> k in st.open
    ensures k in st.open ==> Run(st, events, decode).open[k] == st.open[k]
    decreases |events|
  {
    if events != [] {
      RunIgnoresUnseenIds(st, events[..|events| - 1], decode, k);
      assert events[|events| - 1] in events;
    }
  }

  /** `data` holding `name` at the front, padded with zeros to the 64-byte buffer. */
  function NameBuffer(name: seq<byte>): (data: seq<byte>)
    requires |name| <= NAME_CAPACITY
    ensures |data| == NAME_CAPACITY && data[..|name|] == name
  {
    name + seq(NAME_CAPACITY - |name|, _ => 0)
  }

  /**
   * Enter(1, "a", t=0), Enter(1, "b", t=1), Exit(1, t=10) from the initial
   * state closes path 1 and records the path root -> a -> a -> b (the first
   * name twice), with span [0, 10] at the deepest node.
   */
  lemma EnterEnterExitScenario(decode: Decoder)
    ensures var a, b := NameBuffer([0x61]), NameBuffer([0x62]);
            var events := [RawEvent(7, 1, 0, ENTER, 1, a), RawEvent(7, 1, 1, ENTER, 1, b), RawEvent(7, 1, 10, EXIT, 0, a)];
            var path := [decode([0x61]), decode([0x61]), decode([0x62])];
            var r := Run(INITIAL, events, decode);
            && r.open == map[]
            && Lookup(r.root, path).Some?
            && Lookup(r.root, path).value.start == 0
            && Lookup(r.root, path).value.end == 10
  {
    var a, b := NameBuffer([0x61]), NameBuffer([0x62]);
    var e1, e2, e3 := RawEvent(7, 1, 0, ENTER, 1, a), RawEvent(7, 1, 1, ENTER, 1, b), RawEvent(7, 1, 10, EXIT, 0, a);
    var events := [e1, e2, e3];
    var fa, fb := decode([0x61]), decode([0x62]);
    assert NameOf(e1, decode) == fa && NameOf(e2, decode) == fb;
    assert events[..2] == [e1, e2] && [e1, e2][..1] == [e1] && [e1][..0] == [];
    var s1 := Step(INITIAL, e1, decode);
    assert Run(INITIAL, [e1], decode) == s1;
    var s2 := Step(s1, e2, decode);
    assert Run(INITIAL, [e1, e2], decode) == s2;
    var s3 := Step(s2, e3, decode);
    assert Run(INITIAL, events, decode) == s3;
    assert s1.open[1] == OpenPath([fa, fa], 0);
    assert s2.open[1] == OpenPath([fa, fa, fb], 0);
    assert forall k :: k !in s3.open;
    assert s3.open == map[];
    var path := [fa, fa, fb];
    AddChildSpans(INITIAL.root, path, 0, 10, 3);
    assert path[..3] == path;
  }

  // ---------------------------------------------------------------------
  // The event loop's state, updated in place

  class Session {
    var open: map<u64, OpenPath>
    var root: FlameNode

    constructor ()
      ensures open == INITIAL.open && root == INITIAL.root
    {
      open := map[];
      root := NewNode(ROOT_NAME, 0, 0);
    }

    function State(): Aggregate
      reads this
    {
      Aggregate(open, root)
    }

    /** The `match event.event_type` arm for one event. */
    method ApplyEvent(e: RawEvent, decode: Decoder)
      requires WellFormed(e)
      modifies this
      ensures State() == Step(old(State()), e, decode)
    {
      if e.eventType == ENTER {
        var id := e.stackId;
        var name := decode(e.data[..e.dataLen]);
        if id !in open {
          open := open[id := OpenPath([name], e.timestamp)];
        }
        var entry := open[id];
        open := open[id := entry.(names := entry.names + [name])];
      } else if e.eventType == EXIT {
        if e.stackId in open {
          var path := open[e.stackId];
          open := open - {e.stackId};
          root := AddChild(root, path.names, path.start, e.timestamp);
        }
      }
    }

    /** `while let Some(event) = buf.next()`: every event of one buffer, in order. */
    method Drain(events: seq<RawEvent>, decode: Decoder)
      requires forall e :: e in events ==> WellFormed(e)
      modifies this
      ensures State() == Run(old(State()), events, decode)
    {
      var i := 0;
      while i < |events|
        invariant 0 <= i <= |events|
        invariant State() == Run(old(State()), events[..i], decode)
      {
        assert events[..i + 1][..i] == events[..i];
        ApplyEvent(events[i], decode);
        i := i + 1;
      }
      assert events[..i] == events;
    }
  }
}
