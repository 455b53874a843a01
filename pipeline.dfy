/**
 * The whole run of `main` (ebpf/src/main.rs) once the events are in hand:
 * every buffer drained in turn into one session, then the picture laid out
 * from the session's tree; and what that means for the root's duration.
 */
module Pipeline {
  import opened Numeric
  import opened FlameTree
  import opened Layout
  import opened Reconstructor

  /** The events of the buffers, one buffer after the other. */
  function Concat(buffers: seq<seq<RawEvent>>): (events: seq<RawEvent>)
    ensures forall e :: e in events <==> exists b :: b in buffers && e in b
    decreases |buffers|
  {
    if buffers == [] then []
    else
      var front := buffers[..|buffers| - 1];
      var r := Concat(front) + buffers[|buffers| - 1];
      assert forall b :: b in buffers <==> b in front || b == buffers[|buffers| - 1];
      r
  }

  predicate AllWellFormed(buffers: seq<seq<RawEvent>>)
  {
    forall b, e :: b in buffers && e in b ==> WellFormed(e)
  }

  /** Draining a + b is draining a, then draining b from where it stopped. */
  lemma {:induction false} RunAppend(st: Aggregate, a: seq<RawEvent>, b: seq<RawEvent>, decode: Decoder)
    requires forall e :: e in a + b ==> WellFormed(e)
    ensures Run(st, a + b, decode) == Run(Run(st, a, decode), b, decode)
    decreases |b|
  {
    if b == [] {
      assert a + b == a;
    } else {
      assert (a + b)[..|a + b| - 1] == a + b[..|b| - 1];
      RunAppend(st, a, b[..|b| - 1], decode);
    }
  }

  /**
   * The event loop of `main` over the buffers as they were drained, then
   * `generate_flamegraph` on the resulting tree.
   */
  method Trace(buffers: seq<seq<RawEvent>>, decode: Decoder) returns (doc: Document)
    requires AllWellFormed(buffers)
    ensures doc.prims == Flamegraph(Run(INITIAL, Concat(buffers), decode).root)
  {
    var session := new Session();
    for i := 0 to |buffers|
      invariant session.State() == Run(INITIAL, Concat(buffers[..i]), decode)
    {
      assert buffers[..i + 1][..i] == buffers[..i];
      assert buffers[i] in buffers;
      RunAppend(INITIAL, Concat(buffers[..i]), buffers[i], decode);
      session.Drain(buffers[i], decode);
    }
    assert buffers[..|buffers|] == buffers;
    doc := GenerateFlamegraph(session.root);
  }

  // ---------------------------------------------------------------------
  // The root's duration

  /** The root is created spanning [0, 0] and nothing widens it: its duration is 0. */
  lemma PipelineRootHasZeroDuration(events: seq<RawEvent>, decode: Decoder)
    requires forall e :: e in events ==> WellFormed(e)
    ensures Duration(Run(INITIAL, events, decode).root) == 0
  {
    RunKeepsRootSpan(INITIAL, events, decode);
  }

  /**
   * As written, the width of a depth-1 frame divides by the root's duration,
   * which is 0: every child of the root that lasted at all is sized
   * `u32::MAX`, far beyond the 1200-wide canvas.
   */
  lemma AsWrittenRootChildrenSaturate(events: seq<RawEvent>, decode: Decoder, c: FlameNode)
    requires forall e :: e in events ==> WellFormed(e)
    requires c in Run(INITIAL, events, decode).root.children && Duration(c) > 0
    ensures AsWrittenWidth(Duration(c), Duration(Run(INITIAL, events, decode).root), WIDTH) == U32_MAX
    ensures U32_MAX > WIDTH
  {
    PipelineRootHasZeroDuration(events, decode);
  }

  /**
   * The scenario Enter(1, "a", 0), Enter(1, "b", 1), Exit(1, 10): the root
   * gets one child "a" spanning [0, 10], which the source sizes `u32::MAX`
   * wide, while the guarded width sizes it 0.
   */
  lemma AsWrittenScenarioOverflowsCanvas(decode: Decoder)
    ensures var a, b := NameBuffer([0x61]), NameBuffer([0x62]);
            var events := [RawEvent(7, 1, 0, ENTER, 1, a), RawEvent(7, 1, 1, ENTER, 1, b), RawEvent(7, 1, 10, EXIT, 0, a)];
            var root := Run(INITIAL, events, decode).root;
            var top := Lookup(root, [decode([0x61])]);
            && top.Some?
            && Duration(top.value) == 10
            && AsWrittenWidth(Duration(top.value), Duration(root), WIDTH) == U32_MAX
            && ChildWidth(Duration(top.value), Duration(root), WIDTH) == 0
  {
    var a, b := NameBuffer([0x61]), NameBuffer([0x62]);
    var e1, e2, e3 := RawEvent(7, 1, 0, ENTER, 1, a), RawEvent(7, 1, 1, ENTER, 1, b), RawEvent(7, 1, 10, EXIT, 0, a);
    var events := [e1, e2, e3];
    var fa, fb := decode([0x61]), decode([0x62]);
    assert NameOf(e1, decode) == fa && NameOf(e2, decode) == fb;
    assert events[..2] == [e1, e2] && [e1, e2][..1] == [e1] && [e1][..0] == [];
    var s1 := Step(INITIAL, e1, decode);
    assert Run(INITIAL, [e1], decode) == s1;
    var s2 := Step(s1, e2, decode);
    assert Run(INITIAL, [e1, e2], decode) == s2;
    assert Run(INITIAL, events, decode) == Step(s2, e3, decode);
    assert s2.open[1] == OpenPath([fa, fa, fb], 0);
    var path := [fa, fa, fb];
    AddChildSpans(INITIAL.root, path, 0, 10, 1);
    assert path[..1] == [fa];
    PipelineRootHasZeroDuration(events, decode);
  }

  /**
   * With the zero-duration guard, the tree the loop builds is skipped from
   * the root down: the picture is the background alone.
   */
  lemma GuardedPipelineDrawsOnlyBackground(events: seq<RawEvent>, decode: Decoder)
    requires forall e :: e in events ==> WellFormed(e)
    ensures Flamegraph(Run(INITIAL, events, decode).root) == [BACKGROUND]
  {
    PipelineRootHasZeroDuration(events, decode);
  }
}
