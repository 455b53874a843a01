/**
 * The aggregated call tree (`FlameNode` in ebpf/src/main.rs).
 *
 * Each node stands for one call-path prefix: its name, the earliest start and
 * latest end observed for that prefix, and its children keyed by callee name.
 * The source keeps children in a `HashMap`, whose iteration order is
 * unspecified; here they are a sequence in insertion order, one child per
 * distinct name, so that the layout is deterministic.
 */
module FlameTree {
  import opened Numeric

  /** A function name: the UTF-8 bytes of a Rust `String`. */
  type Name = seq<byte>

  datatype Option<T> = None | Some(value: T)

  datatype FlameNode = FlameNode(name: Name, start: u64, end: u64, children: seq<FlameNode>)

  /** `FlameNode::new(name, start, end)`: a fresh node with no children. */
  function NewNode(name: Name, start: u64, end: u64): (r: FlameNode)
    ensures r.name == name && r.start == start && r.end == end
    ensures r.children == []
    ensures start <= end ==> Duration(r) == end - start
  {
    FlameNode(name, start, end, [])
  }

  /**
   * `FlameNode::duration`: `end - start` on `u64`. A span with end < start
   * wraps around (release-build arithmetic).
   */
  function Duration(n: FlameNode): (d: u64)
    ensures n.start <= n.end ==> d == n.end - n.start
    ensures n.end < n.start ==> d == U64_LIMIT + n.end - n.start
  {
    (n.end - n.start) % U64_LIMIT
  }

  /** Position of the first child called `name`, or `|kids|` when there is none. */
  function IndexOf(kids: seq<FlameNode>, name: Name): (i: nat)
    ensures i <= |kids|
    ensures i < |kids| ==> kids[i].name == name
    ensures forall j :: 0 <= j < i ==> kids[j].name != name
  {
    if kids == [] then 0
    else if kids[0].name == name then 0
    else 1 + IndexOf(kids[1..], name)
  }

  /**
   * `add_child`: walk down from `n` along `stack`, creating a child spanning
   * [start, end] for every name not yet present, and widen only the node
   * reached by the last name to the min/max of its span and [start, end].
   * The node `n` itself and the intermediate nodes keep their spans.
   */
  function AddChild(n: FlameNode, stack: seq<Name>, start: u64, end: u64): (r: FlameNode)
    ensures r.name == n.name && r.start == n.start && r.end == n.end
    decreases |stack|, 1
  {
    if stack == [] then n
    else
      var i := IndexOf(n.children, stack[0]);
      var child' := Descend(n, stack, start, end);
      n.(children := if i < |n.children| then n.children[i := child'] else n.children + [child'])
  }

  /**
   * `entry(name).or_insert_with(...)`: the child of `n` called `name`, or a
   * new one spanning [start, end] when there is none.
   */
  function ChildFor(n: FlameNode, name: Name, start: u64, end: u64): (c: FlameNode)
    ensures c.name == name
    ensures c in n.children || c == NewNode(name, start, end)
    ensures (exists k :: k in n.children && k.name == name) ==> c in n.children
  {
    var i := IndexOf(n.children, name);
    if i < |n.children| then n.children[i] else NewNode(name, start, end)
  }

  /**
   * One level of `add_child` below `n`: the child for `stack[0]`, with the
   * rest of the stack inserted below it, or widened when it is the last name.
   */
  function Descend(n: FlameNode, stack: seq<Name>, start: u64, end: u64): (c: FlameNode)
    requires stack != []
    ensures c.name == stack[0]
    ensures var o := ChildFor(n, stack[0], start, end);
            && (|stack| > 1 ==> c.start == o.start && c.end == o.end)
            && (|stack| == 1 ==> c.start == Min(o.start, start) && c.end == Max(o.end, end) && c.children == o.children)
    decreases |stack|, 0
  {
    var child := ChildFor(n, stack[0], start, end);
    if |stack| > 1 then AddChild(child, stack[1..], start, end)
    else child.(start := Min(child.start, start), end := Max(child.end, end))
  }

  /** The node reached from `n` by following `path`, one name per level. */
  function Lookup(n: FlameNode, path: seq<Name>): (r: Option<FlameNode>)
    ensures path == [] ==> r == Some(n)
    ensures r.Some? && path != [] ==> r.value.name == path[|path| - 1]
    decreases |path|
  {
    if path == [] then Some(n)
    else
      var i := IndexOf(n.children, path[0]);
      if i == |n.children| then None else Lookup(n.children[i], path[1..])
  }

  predicate IsPrefix(p: seq<Name>, s: seq<Name>)
  {
    |p| <= |s| && p == s[..|p|]
  }

  /** At every level, at most one child per distinct name. */
  predicate UniqueNames(n: FlameNode)
    decreases n
  {
    && (forall i, j :: 0 <= i < j < |n.children| ==> n.children[i].name != n.children[j].name)
    && (forall c :: c in n.children ==> UniqueNames(c))
  }

  /** Every node's span satisfies start <= end. */
  predicate Ordered(n: FlameNode)
    decreases n
  {
    n.start <= n.end && forall c :: c in n.children ==> Ordered(c)
  }

  // ---------------------------------------------------------------------
  // Helper facts about IndexOf

  lemma {:induction false} IndexOfUpdate(kids: seq<FlameNode>, i: nat, c: FlameNode, name: Name)
    requires i < |kids| && c.name == kids[i].name
    ensures IndexOf(kids[i := c], name) == IndexOf(kids, name)
    decreases |kids|
  {
    if kids[0].name != name {
      if i == 0 {
        assert kids[i := c][1..] == kids[1..];
      } else {
        assert kids[i := c][1..] == kids[1..][i - 1 := c];
        IndexOfUpdate(kids[1..], i - 1, c, name);
      }
    }
  }

  lemma {:induction false} IndexOfAppend(kids: seq<FlameNode>, c: FlameNode, name: Name)
    requires IndexOf(kids, c.name) == |kids|
    ensures IndexOf(kids + [c], name) == (if IndexOf(kids, name) < |kids| then IndexOf(kids, name)
                                          else if name == c.name then |kids| else |kids| + 1)
    decreases |kids|
  {
    if kids != [] && kids[0].name != name {
      assert (kids + [c])[1..] == kids[1..] + [c];
      IndexOfAppend(kids[1..], c, name);
    }
  }

  lemma PrefixCons(p: seq<Name>, s: seq<Name>)
    requires p != [] && s != [] && p[0] == s[0]
    ensures IsPrefix(p, s) <==> IsPrefix(p[1..], s[1..])
  {
    if IsPrefix(p[1..], s[1..]) {
      assert p == [p[0]] + p[1..];
      assert s[..|p|] == [s[0]] + s[1..][..|p| - 1];
    }
  }

  // ---------------------------------------------------------------------
  // Properties of insertion

  /** Inserting an empty stack is a no-op (the early return of add_child). */
  lemma EmptyStackIsNoOp(n: FlameNode, start: u64, end: u64)
    ensures AddChild(n, [], start, end) == n
  {
  }

  /**
   * Outside the inserted path nothing changes: every path that is not a
   * prefix of `stack` leads to the same subtree (or to nothing) before and
   * after the insertion. In particular the subtree below the final node and
   * all sibling subtrees are untouched.
   */
  lemma {:induction false} AddChildFrame(n: FlameNode, stack: seq<Name>, start: u64, end: u64, p: seq<Name>)
    requires !IsPrefix(p, stack)
    ensures Lookup(AddChild(n, stack, start, end), p) == Lookup(n, p)
    decreases |stack|
  {
    if stack == [] {
      return;
    }
    var r := AddChild(n, stack, start, end);
    var i := IndexOf(n.children, stack[0]);
    var child := ChildFor(n, stack[0], start, end);
    var child' := Descend(n, stack, start, end);
    assert p != [];
    var q := p[1..];
    if i < |n.children| {
      assert r.children == n.children[i := child'];
      IndexOfUpdate(n.children, i, child', p[0]);
    } else {
      assert r.children == n.children + [child'];
      IndexOfAppend(n.children, child', p[0]);
    }
    if p[0] == stack[0] {
      PrefixCons(p, stack);
      assert IndexOf(r.children, p[0]) == i;
      assert Lookup(r, p) == Lookup(child', q);
      if |stack| > 1 {
        AddChildFrame(child, stack[1..], start, end, q);
      } else {
        assert stack[1..] == [];
      }
      assert Lookup(child', q) == Lookup(child, q);
    }
  }

  /** One level of `add_child`: a lookup below `stack[0]` continues in the child it chose. */
  lemma AddChildDescends(n: FlameNode, stack: seq<Name>, start: u64, end: u64, k: nat)
    requires 1 <= k <= |stack|
    ensures Lookup(AddChild(n, stack, start, end), stack[..k]) == Lookup(Descend(n, stack, start, end), stack[..k][1..])
    ensures Lookup(n, stack[..k]) == (if IndexOf(n.children, stack[0]) < |n.children|
                                      then Lookup(ChildFor(n, stack[0], start, end), stack[..k][1..]) else None)
  {
    var r := AddChild(n, stack, start, end);
    var i := IndexOf(n.children, stack[0]);
    var child := ChildFor(n, stack[0], start, end);
    var child' := Descend(n, stack, start, end);
    if i < |n.children| {
      assert r.children == n.children[i := child'];
      IndexOfUpdate(n.children, i, child', stack[0]);
    } else {
      assert r.children == n.children + [child'];
      IndexOfAppend(n.children, child', stack[0]);
    }
    assert IndexOf(r.children, stack[0]) == i;
  }

  /** The first level of `AddChildSpans`: the child named `stack[0]`. */
  lemma AddChildSpansFirst(n: FlameNode, stack: seq<Name>, start: u64, end: u64)
    requires 1 <= |stack|
    ensures var r := Lookup(AddChild(n, stack, start, end), [stack[0]]);
            var o := Lookup(n, [stack[0]]);
            && r.Some?
            && (1 < |stack| && o.Some? ==> r.value.start == o.value.start && r.value.end == o.value.end)
            && (1 == |stack| && o.Some? ==> r.value.start == Min(o.value.start, start) && r.value.end == Max(o.value.end, end))
            && (o.None? ==> r.value.start == start && r.value.end == end)
  {
    var i := IndexOf(n.children, stack[0]);
    var child := ChildFor(n, stack[0], start, end);
    AddChildDescends(n, stack, start, end, 1);
    var top: seq<Name> := [stack[0]];
    assert stack[..1] == top && top[1..] == [];
    if |stack| > 1 {
      assert AddChild(child, stack[1..], start, end).start == child.start;
    }
  }

  /**
   * After inserting `stack`, every non-empty prefix of it is present, named
   * by its last element. An intermediate node keeps the span it had, or gets
   * [start, end] when it is created; the final node's span becomes the
   * min/max of its old span and [start, end] ([start, end] when new).
   */
  lemma {:induction false} AddChildSpans(n: FlameNode, stack: seq<Name>, start: u64, end: u64, k: nat)
    requires 1 <= k <= |stack|
    ensures var r := Lookup(AddChild(n, stack, start, end), stack[..k]);
            var o := Lookup(n, stack[..k]);
            && r.Some?
            && r.value.name == stack[k - 1]
            && (k < |stack| && o.Some? ==> r.value.start == o.value.start && r.value.end == o.value.end)
            && (k == |stack| && o.Some? ==> r.value.start == Min(o.value.start, start) && r.value.end == Max(o.value.end, end))
            && (o.None? ==> r.value.start == start && r.value.end == end)
    decreases |stack|
  {
    if k == 1 {
      AddChildSpansFirst(n, stack, start, end);
      var top: seq<Name> := [stack[0]];
      assert stack[..k] == top;
    } else {
      var i := IndexOf(n.children, stack[0]);
      var child := ChildFor(n, stack[0], start, end);
      var sub := stack[1..][..k - 1];
      AddChildDescends(n, stack, start, end, k);
      assert stack[..k][1..] == sub;
      AddChildSpans(child, stack[1..], start, end, k - 1);
      assert stack[1..][k - 2] == stack[k - 1] && |stack[1..]| == |stack| - 1;
      var r := Lookup(AddChild(n, stack, start, end), stack[..k]);
      assert r == Lookup(AddChild(child, stack[1..], start, end), sub);
      var o := Lookup(n, stack[..k]);
      if i < |n.children| {
        assert o == Lookup(child, sub);
      } else {
        assert o == None && Lookup(child, sub) == None;
      }
    }
  }


  /** Insertion keeps one child per distinct name at every level. */
  lemma {:induction false} AddChildKeepsUniqueNames(n: FlameNode, stack: seq<Name>, start: u64, end: u64)
    requires UniqueNames(n)
    ensures UniqueNames(AddChild(n, stack, start, end))
    decreases |stack|
  {
    if stack == [] {
      return;
    }
    var r := AddChild(n, stack, start, end);
    var i := IndexOf(n.children, stack[0]);
    var child := ChildFor(n, stack[0], start, end);
    var child' := Descend(n, stack, start, end);
    if i < |n.children| {
      assert child in n.children;
    }
    assert UniqueNames(child);
    if |stack| > 1 {
      AddChildKeepsUniqueNames(child, stack[1..], start, end);
    }
    assert UniqueNames(child');
    if i < |n.children| {
      assert r.children == n.children[i := child'];
    } else {
      assert r.children == n.children + [child'];
    }
  }

  /** Insertion keeps start <= end everywhere when the record has start <= end. */
  lemma {:induction false} AddChildKeepsOrdered(n: FlameNode, stack: seq<Name>, start: u64, end: u64)
    requires Ordered(n) && start <= end
    ensures Ordered(AddChild(n, stack, start, end))
    decreases |stack|
  {
    if stack == [] {
      return;
    }
    var r := AddChild(n, stack, start, end);
    var i := IndexOf(n.children, stack[0]);
    var child := ChildFor(n, stack[0], start, end);
    var child' := Descend(n, stack, start, end);
    assert Ordered(child);
    if |stack| > 1 {
      AddChildKeepsOrdered(child, stack[1..], start, end);
    }
    assert Ordered(child');
    if i < |n.children| {
      assert r.children == n.children[i := child'];
    } else {
      assert r.children == n.children + [child'];
    }
  }

  /**
   * Insertion is idempotent: spans are widened by min/max, not accumulated,
   * and a name already present is found again rather than added twice.
   */
  lemma {:induction false} AddChildIdempotent(n: FlameNode, stack: seq<Name>, start: u64, end: u64)
    ensures AddChild(AddChild(n, stack, start, end), stack, start, end) == AddChild(n, stack, start, end)
    decreases |stack|
  {
    if stack == [] {
      return;
    }
    var r := AddChild(n, stack, start, end);
    var i := IndexOf(n.children, stack[0]);
    var child := ChildFor(n, stack[0], start, end);
    var child' := Descend(n, stack, start, end);
    if i < |n.children| {
      assert r.children == n.children[i := child'];
      IndexOfUpdate(n.children, i, child', stack[0]);
    } else {
      assert r.children == n.children + [child'];
      IndexOfAppend(n.children, child', stack[0]);
    }
    assert IndexOf(r.children, stack[0]) == i;
    assert r.children[i] == child';
    assert ChildFor(r, stack[0], start, end) == child';
    var child'' := Descend(r, stack, start, end);
    if |stack| > 1 {
      AddChildIdempotent(child, stack[1..], start, end);
    }
    assert child'' == child';
    assert r.children[i := child''] == r.children;
  }

  /**
   * Two completed paths that end in the same call path merge into one node
   * whose span is the union hull: ["x","y"] over [0,5] then [2,9] gives
   * x -> y spanning [0,9].
   */
  lemma MergeScenario(x: Name, y: Name)
    ensures var root := AddChild(AddChild(NewNode([], 0, 0), [x, y], 0, 5), [x, y], 2, 9);
            Lookup(root, [x, y]).Some?
            && Lookup(root, [x, y]).value.start == 0
            && Lookup(root, [x, y]).value.end == 9
  {
    var t1 := AddChild(NewNode([], 0, 0), [x, y], 0, 5);
    AddChildSpans(NewNode([], 0, 0), [x, y], 0, 5, 2);
    assert [x, y][..2] == [x, y];
    AddChildSpans(t1, [x, y], 2, 9, 2);
  }
}
