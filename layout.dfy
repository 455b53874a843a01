/**
 * Depth-first layout of the call tree (`draw_flame_node` and
 * `generate_flamegraph` in ebpf/src/main.rs).
 *
 * Each drawn child gets a rectangle whose width is its share of the parent's
 * width in proportion to its duration, placed at the running sum of the
 * widths of the siblings drawn before it, one row below its parent; a label
 * follows the rectangle when the rectangle is wider than 50. Rows stop at the
 * maximum depth. The document is the sequence of primitives emitted, in order.
 */
module Layout {
  import opened Numeric
  import opened FlameTree
  import opened Colour

  const WIDTH: nat := 1200
  const HEIGHT: nat := 800
  const CELL_HEIGHT: nat := 20
  const MAX_DEPTH: nat := HEIGHT / CELL_HEIGHT
  /** A label is drawn only on a rectangle wider than this. */
  const LABEL_MIN_WIDTH: nat := 50
  /** Distance of a label from the left and bottom edges of its rectangle. */
  const LABEL_INSET: nat := 5

  /**
   * A primitive of the document. A rectangle also records the name of the
   * frame it stands for (empty for the background); the SVG carries only its
   * colour, but the name ties a label to its rectangle.
   */
  datatype Primitive =
    | Rect(x: int, y: int, width: nat, height: nat, fill: Rgb, outlined: bool, frame: Name)
    | Label(x: int, y: int, text: Name)

  const WHITE := Rgb(255, 255, 255)
  const BACKGROUND := Rect(0, 0, WIDTH, HEIGHT, WHITE, false, [])

  /**
   * The width of a child: `child_dur * width / total_dur`, truncated, and
   * saturating at `u32::MAX` like Rust's float-to-int cast. A parent of zero
   * duration sizes every child to 0, so that its whole subtree is skipped.
   */
  function ChildWidth(childDur: nat, totalDur: nat, width: nat): (w: nat)
    ensures w <= U32_MAX
    ensures totalDur == 0 ==> w == 0
  {
    if totalDur == 0 then 0 else Min(childDur * width / totalDur, U32_MAX)
  }

  /**
   * The width as the source computes it, with no zero-duration guard: the
   * float quotient x/0 is infinite for x > 0 (saturating to `u32::MAX`) and
   * 0/0 or inf*0 is NaN (cast to 0).
   */
  function AsWrittenWidth(childDur: nat, totalDur: nat, width: nat): (w: nat)
    ensures w <= U32_MAX
    ensures totalDur > 0 ==> w == ChildWidth(childDur, totalDur, width)
  {
    if totalDur == 0 then (if childDur == 0 || width == 0 then 0 else U32_MAX)
    else Min(childDur * width / totalDur, U32_MAX)
  }

  /** Sum of the widths given to `kids`: the offset after laying them all out. */
  function DrawnWidth(kids: seq<FlameNode>, total: nat, width: nat): nat
    decreases |kids|
  {
    if kids == [] then 0
    else DrawnWidth(kids[..|kids| - 1], total, width) + ChildWidth(Duration(kids[|kids| - 1]), total, width)
  }

  /** Sum of the durations of `kids`. */
  function KidsDuration(kids: seq<FlameNode>): nat
    decreases |kids|
  {
    if kids == [] then 0 else KidsDuration(kids[..|kids| - 1]) + Duration(kids[|kids| - 1])
  }

  /** The rectangle of one drawn child, followed by its label when it is wide enough. */
  function DrawChild(c: FlameNode, x: int, y: int, w: nat, h: nat): (r: seq<Primitive>)
    ensures r != [] && r[0].Rect? && r[0].frame == c.name && r[0].fill == NameColour(c.name)
    ensures r[0].x == x && r[0].y == y && r[0].width == w && r[0].height == h
    ensures |r| == if w > LABEL_MIN_WIDTH then 2 else 1
    ensures Labelled(r)
  {
    [Rect(x, y, w, h, NameColour(c.name), true, c.name)]
      + (if w > LABEL_MIN_WIDTH then [Label(x + LABEL_INSET, y + h - LABEL_INSET, c.name)] else [])
  }

  /** `draw_flame_node(node, x, y, width, h, depth, maxDepth)`: what it appends to the document. */
  function Layout(n: FlameNode, x: int, y: int, width: nat, h: nat, depth: nat, maxDepth: nat): (r: seq<Primitive>)
    ensures depth >= maxDepth || n.children == [] || Duration(n) == 0 ==> r == []
    decreases maxDepth - depth, 1
  {
    if depth >= maxDepth || n.children == [] then []
    else LayoutKids(n.children, Duration(n), x, y, width, h, depth, maxDepth)
  }

  /** The loop of `draw_flame_node` over `kids`, starting at `x`. */
  function LayoutKids(kids: seq<FlameNode>, total: nat, x: int, y: int, width: nat, h: nat, depth: nat, maxDepth: nat)
    : (r: seq<Primitive>)
    requires depth < maxDepth
    ensures total == 0 ==> r == []
    decreases maxDepth - depth, 0, |kids|
  {
    if kids == [] then []
    else
      var rest, c := kids[..|kids| - 1], kids[|kids| - 1];
      var w := ChildWidth(Duration(c), total, width);
      var cx := x + DrawnWidth(rest, total, width);
      LayoutKids(rest, total, x, y, width, h, depth, maxDepth) + ChildPrims(c, cx, y, w, h, depth, maxDepth)
  }

  /**
   * One iteration of the loop for child `c` of width `w` at offset `cx`:
   * nothing when `w` is 0 (no rectangle, no label, no recursion), otherwise
   * its rectangle and label, then its own subtree one row down.
   */
  function ChildPrims(c: FlameNode, cx: int, y: int, w: nat, h: nat, depth: nat, maxDepth: nat): (r: seq<Primitive>)
    requires depth < maxDepth
    ensures r == [] <==> w == 0
    ensures w > 0 ==> r[0] == Rect(cx, y, w, h, NameColour(c.name), true, c.name)
    decreases maxDepth - depth, 0, 0
  {
    if w == 0 then [] else DrawChild(c, cx, y, w, h) + Layout(c, cx, y + h, w, h, depth + 1, maxDepth)
  }

  /** `generate_flamegraph`: the white background, then the tree from the top-left corner. */
  function Flamegraph(root: FlameNode): (r: seq<Primitive>)
    ensures r != [] && r[0] == BACKGROUND
    ensures Duration(root) == 0 ==> r == [BACKGROUND]
  {
    [BACKGROUND] + Layout(root, 0, 0, WIDTH, CELL_HEIGHT, 0, MAX_DEPTH)
  }

  // ---------------------------------------------------------------------
  // Widths

  /** A child that lasts no longer than its parent is no wider than its parent. */
  lemma ChildWidthAtMostParent(childDur: nat, totalDur: nat, width: nat)
    requires childDur <= totalDur
    ensures ChildWidth(childDur, totalDur, width) <= width
  {
    if totalDur > 0 {
      MulLeMono(childDur, totalDur, width);
      DivMono(childDur * width, totalDur * width, totalDur);
      MulDivCancel(totalDur, width);
    }
  }

  /**
   * The width is the floor of the child's share `child_dur * width / total_dur`
   * (stated without division), saturated at `u32::MAX`; in particular a child
   * whose share is at least 1 gets a positive width and is drawn.
   */
  lemma ChildWidthIsFloor(childDur: nat, totalDur: nat, width: nat)
    requires totalDur > 0
    ensures var w := ChildWidth(childDur, totalDur, width);
            && w * totalDur <= childDur * width
            && (w < U32_MAX ==> childDur * width < (w + 1) * totalDur)
            && (totalDur <= childDur * width ==> w > 0)
  {
    var c := childDur * width;
    var q, m := c / totalDur, c % totalDur;
    assert c == q * totalDur + m;
    if q > U32_MAX {
      MulLeMono(U32_MAX, q, totalDur);
    } else if q == 0 {
      assert c == m;
    }
  }

  lemma ChildWidthAtMostShare(childDur: nat, totalDur: nat, width: nat)
    requires totalDur > 0
    ensures ChildWidth(childDur, totalDur, width) <= childDur * width / totalDur
  {
  }

  lemma {:induction false} DrawnWidthProportional(kids: seq<FlameNode>, total: nat, width: nat)
    requires total > 0
    ensures DrawnWidth(kids, total, width) <= KidsDuration(kids) * width / total
    decreases |kids|
  {
    if kids != [] {
      var rest, c := kids[..|kids| - 1], kids[|kids| - 1];
      var a, b := KidsDuration(rest) * width, Duration(c) * width;
      DrawnWidthProportional(rest, total, width);
      ChildWidthAtMostShare(Duration(c), total, width);
      DivAddLe(a, b, total);
      Distrib(KidsDuration(rest), Duration(c), width);
    }
  }

  /**
   * When the children together last no longer than the parent, their widths
   * together do not exceed the parent's width (truncation never rounds up),
   * so the running offset never passes it.
   */
  lemma SiblingWidthsFit(kids: seq<FlameNode>, total: nat, width: nat)
    requires KidsDuration(kids) <= total
    ensures DrawnWidth(kids, total, width) <= width
    ensures forall i :: 0 <= i <= |kids| ==> DrawnWidth(kids[..i], total, width) <= width
  {
    forall i | 0 <= i <= |kids|
      ensures DrawnWidth(kids[..i], total, width) <= DrawnWidth(kids, total, width)
    {
      DrawnWidthPrefix(kids, i, total, width);
    }
    if total > 0 {
      DrawnWidthProportional(kids, total, width);
      MulLeMono(KidsDuration(kids), total, width);
      DivMono(KidsDuration(kids) * width, total * width, total);
      MulDivCancel(total, width);
    } else {
      DrawnWidthZeroTotal(kids, width);
    }
  }

  lemma {:induction false} DrawnWidthZeroTotal(kids: seq<FlameNode>, width: nat)
    ensures DrawnWidth(kids, 0, width) == 0
    decreases |kids|
  {
    if kids != [] {
      DrawnWidthZeroTotal(kids[..|kids| - 1], width);
    }
  }

  lemma {:induction false} DrawnWidthPrefix(kids: seq<FlameNode>, i: nat, total: nat, width: nat)
    requires i <= |kids|
    ensures DrawnWidth(kids[..i], total, width) <= DrawnWidth(kids, total, width)
    decreases |kids|
  {
    if i < |kids| {
      assert kids[..|kids| - 1][..i] == kids[..i];
      DrawnWidthPrefix(kids[..|kids| - 1], i, total, width);
    } else {
      assert kids[..i] == kids;
    }
  }

  // ---------------------------------------------------------------------
  // Rows: depth clipping

  /** Total height of `rows` rows of height `h`. */
  function RowsHeight(rows: int, h: nat): (t: nat)
    decreases rows
  {
    if rows <= 0 then 0 else RowsHeight(rows - 1, h) + h
  }

  lemma {:induction false} RowsHeightIsProduct(rows: nat, h: nat)
    ensures RowsHeight(rows, h) == rows * h
  {
    if rows > 0 {
      RowsHeightIsProduct(rows - 1, h);
    }
  }

  /**
   * `p` lies between `top` and `bottom`: a rectangle is one row high, at
   * least one unit wide and wholly inside; a label's baseline is inside too.
   */
  predicate InRows(p: Primitive, top: int, bottom: int, h: nat)
  {
    && (p.Rect? ==> top <= p.y && p.y + h <= bottom && p.height == h && p.width > 0)
    && (p.Label? ==> top + h - LABEL_INSET <= p.y && p.y + LABEL_INSET <= bottom)
  }

  predicate AllInRows(s: seq<Primitive>, top: int, bottom: int, h: nat)
  {
    forall p :: p in s ==> InRows(p, top, bottom, h)
  }

  lemma AllInRowsConcat(a: seq<Primitive>, b: seq<Primitive>, top: int, bottom: int, h: nat)
    requires AllInRows(a, top, bottom, h) && AllInRows(b, top, bottom, h)
    ensures AllInRows(a + b, top, bottom, h)
  {
  }

  lemma AllInRowsWiden(s: seq<Primitive>, top: int, bottom: int, top': int, bottom': int, h: nat)
    requires AllInRows(s, top', bottom', h) && top <= top' && bottom' <= bottom
    ensures AllInRows(s, top, bottom, h)
  {
  }

  /**
   * Every rectangle is at least one unit wide, is one row high and lies in
   * the rows from `y` down to the depth clip: nothing is drawn at or below
   * row `maxDepth`. Labels lie in the same rows.
   */
  lemma {:induction false} LayoutRows(n: FlameNode, x: int, y: int, width: nat, h: nat, depth: nat, maxDepth: nat)
    ensures AllInRows(Layout(n, x, y, width, h, depth, maxDepth), y, y + RowsHeight(maxDepth - depth, h), h)
    decreases maxDepth - depth, 1
  {
    if depth < maxDepth && n.children != [] {
      LayoutKidsRows(n.children, Duration(n), x, y, width, h, depth, maxDepth);
    }
  }

  lemma {:induction false} LayoutKidsRows(kids: seq<FlameNode>, total: nat, x: int, y: int, width: nat, h: nat,
                                          depth: nat, maxDepth: nat)
    requires depth < maxDepth
    ensures AllInRows(LayoutKids(kids, total, x, y, width, h, depth, maxDepth), y, y + RowsHeight(maxDepth - depth, h), h)
    decreases maxDepth - depth, 0, |kids|
  {
    if kids != [] {
      var rest, c := kids[..|kids| - 1], kids[|kids| - 1];
      var w := ChildWidth(Duration(c), total, width);
      var cx := x + DrawnWidth(rest, total, width);
      var bottom := y + RowsHeight(maxDepth - depth, h);
      var front := LayoutKids(rest, total, x, y, width, h, depth, maxDepth);
      LayoutKidsRows(rest, total, x, y, width, h, depth, maxDepth);
      if w != 0 {
        var below := Layout(c, cx, y + h, w, h, depth + 1, maxDepth);
        LayoutRows(c, cx, y + h, w, h, depth + 1, maxDepth);
        assert bottom == y + h + RowsHeight(maxDepth - (depth + 1), h);
        AllInRowsWiden(below, y, bottom, y + h, bottom, h);
        var d := DrawChild(c, cx, y, w, h);
        assert AllInRows(d, y, bottom, h);
        AllInRowsConcat(d, below, y, bottom, h);
        AllInRowsConcat(front, d + below, y, bottom, h);
        assert LayoutKids(kids, total, x, y, width, h, depth, maxDepth) == front + (d + below);
      } else {
        assert LayoutKids(kids, total, x, y, width, h, depth, maxDepth) == front;
      }
    }
  }

  /** In the whole picture every frame rectangle lies inside the 800-high canvas. */
  lemma FlamegraphFitsVertically(root: FlameNode)
    ensures forall p :: p in Flamegraph(root) && p.Rect? ==> 0 <= p.y && p.y + p.height <= HEIGHT
  {
    LayoutRows(root, 0, 0, WIDTH, CELL_HEIGHT, 0, MAX_DEPTH);
    RowsHeightIsProduct(MAX_DEPTH, CELL_HEIGHT);
  }

  // ---------------------------------------------------------------------
  // Columns: proportional nesting

  /**
   * `add_child` widens only the last node of the path, so a child can come to
   * last longer than its parent and be drawn wider than it: [a, b] over
   * [0, 10] and then over [20, 30] leaves a at [0, 10] and b at [0, 30].
   */
  lemma AddChildOutgrowsParent()
    ensures var a, b := [0x61], [0x62];
            var t := AddChild(AddChild(NewNode([0x72], 0, 30), [a, b], 0, 10), [a, b], 20, 30);
            var na, nb := Lookup(t, [a]), Lookup(t, [a, b]);
            && na.Some? && nb.Some?
            && Lookup(na.value, [b]) == nb
            && Duration(na.value) == 10 && Duration(nb.value) == 30
            && ChildWidth(Duration(nb.value), Duration(na.value), 100) == 300
  {
    var a, b := [0x61], [0x62];
    var stack := [a, b];
    var t0 := NewNode([0x72], 0, 30);
    var t1 := AddChild(t0, stack, 0, 10);
    var t := AddChild(t1, stack, 20, 30);
    assert stack[..1] == [a] && stack[..2] == stack;
    AddChildSpans(t0, stack, 0, 10, 1);
    AddChildSpans(t0, stack, 0, 10, 2);
    AddChildSpans(t1, stack, 20, 30, 1);
    AddChildSpans(t1, stack, 20, 30, 2);
    var na := Lookup(t, [a]);
    assert [a, b][1..] == [b];
    assert Lookup(t, [a, b]) == Lookup(na.value, [b]);
  }

  /** At every node the children together last no longer than the node. */
  predicate Nested(n: FlameNode)
    decreases n
  {
    KidsDuration(n.children) <= Duration(n) && forall c :: c in n.children ==> Nested(c)
  }

  /** `p` starts in the columns [x, x + width) and, if a rectangle, ends by x + width. */
  predicate InColumns(p: Primitive, x: int, width: nat)
  {
    x <= p.x < x + width && (p.Rect? ==> p.x + p.width <= x + width)
  }

  predicate AllInColumns(s: seq<Primitive>, x: int, width: nat)
  {
    forall p :: p in s ==> InColumns(p, x, width)
  }

  lemma AllInColumnsConcat(a: seq<Primitive>, b: seq<Primitive>, x: int, width: nat)
    requires AllInColumns(a, x, width) && AllInColumns(b, x, width)
    ensures AllInColumns(a + b, x, width)
  {
  }

  lemma AllInColumnsWiden(s: seq<Primitive>, x: int, width: nat, x': int, width': nat)
    requires AllInColumns(s, x', width') && x <= x' && x' + width' <= x + width
    ensures AllInColumns(s, x, width)
  {
  }

  /**
   * When durations nest, every primitive of a subtree lies within the
   * columns given to that subtree: siblings never overflow their parent.
   */
  lemma {:induction false} LayoutColumns(n: FlameNode, x: int, y: int, width: nat, h: nat, depth: nat, maxDepth: nat)
    requires Nested(n)
    ensures AllInColumns(Layout(n, x, y, width, h, depth, maxDepth), x, width)
    decreases maxDepth - depth, 1
  {
    if depth < maxDepth && n.children != [] {
      SiblingWidthsFit(n.children, Duration(n), width);
      LayoutKidsColumns(n.children, Duration(n), x, y, width, h, depth, maxDepth);
    }
  }

  lemma {:induction false} LayoutKidsColumns(kids: seq<FlameNode>, total: nat, x: int, y: int, width: nat, h: nat,
                                             depth: nat, maxDepth: nat)
    requires depth < maxDepth
    requires DrawnWidth(kids, total, width) <= width
    requires forall c :: c in kids ==> Nested(c)
    ensures AllInColumns(LayoutKids(kids, total, x, y, width, h, depth, maxDepth), x, width)
    decreases maxDepth - depth, 0, |kids|
  {
    if kids != [] {
      var rest, c := kids[..|kids| - 1], kids[|kids| - 1];
      var w := ChildWidth(Duration(c), total, width);
      var cx := x + DrawnWidth(rest, total, width);
      var front := LayoutKids(rest, total, x, y, width, h, depth, maxDepth);
      assert forall k :: k in rest ==> k in kids;
      LayoutKidsColumns(rest, total, x, y, width, h, depth, maxDepth);
      if w != 0 {
        assert c in kids;
        var d, below := DrawChild(c, cx, y, w, h), Layout(c, cx, y + h, w, h, depth + 1, maxDepth);
        LayoutColumns(c, cx, y + h, w, h, depth + 1, maxDepth);
        assert AllInColumns(d, cx, w);
        AllInColumnsConcat(d, below, cx, w);
        AllInColumnsWiden(d + below, x, width, cx, w);
        AllInColumnsConcat(front, d + below, x, width);
        assert LayoutKids(kids, total, x, y, width, h, depth, maxDepth) == front + (d + below);
      } else {
        assert LayoutKids(kids, total, x, y, width, h, depth, maxDepth) == front;
      }
    }
  }

  // ---------------------------------------------------------------------
  // Labels

  /** `l` is the label of rectangle `r`: inset from its bottom-left corner, naming its frame. */
  predicate LabelOf(r: Primitive, l: Primitive)
  {
    r.Rect? && l.Label? && l.x == r.x + LABEL_INSET && l.y == r.y + r.height - LABEL_INSET
    && l.text == r.frame
  }

  /**
   * Position `i` of `s` respects the labelling rule: a rectangle wider than
   * 50 is immediately followed by its label, and a label immediately follows
   * a rectangle wider than 50.
   */
  predicate LabelledAt(s: seq<Primitive>, i: nat)
    requires i < |s|
  {
    && (s[i].Rect? && s[i].width > LABEL_MIN_WIDTH ==> i + 1 < |s| && LabelOf(s[i], s[i + 1]))
    && (s[i].Label? ==> 0 < i && s[i - 1].Rect? && s[i - 1].width > LABEL_MIN_WIDTH && LabelOf(s[i - 1], s[i]))
  }

  predicate Labelled(s: seq<Primitive>)
  {
    forall i :: 0 <= i < |s| ==> LabelledAt(s, i)
  }

  lemma LabelledConcat(a: seq<Primitive>, b: seq<Primitive>)
    requires Labelled(a) && Labelled(b)
    ensures Labelled(a + b)
  {
    var s := a + b;
    forall i | 0 <= i < |s|
      ensures LabelledAt(s, i)
    {
      if i < |a| {
        assert LabelledAt(a, i);
        assert s[i] == a[i];
        if i + 1 < |a| {
          assert s[i + 1] == a[i + 1];
        }
        if 0 < i {
          assert s[i - 1] == a[i - 1];
        }
      } else {
        assert LabelledAt(b, i - |a|);
        assert s[i] == b[i - |a|];
        if i + 1 < |s| {
          assert s[i + 1] == b[i + 1 - |a|];
        }
        if i - |a| > 0 {
          assert s[i - 1] == b[i - 1 - |a|];
        }
      }
    }
  }

  lemma {:induction false} LayoutLabelled(n: FlameNode, x: int, y: int, width: nat, h: nat, depth: nat, maxDepth: nat)
    ensures Labelled(Layout(n, x, y, width, h, depth, maxDepth))
    decreases maxDepth - depth, 1
  {
    if depth < maxDepth && n.children != [] {
      LayoutKidsLabelled(n.children, Duration(n), x, y, width, h, depth, maxDepth);
    }
  }

  lemma {:induction false} LayoutKidsLabelled(kids: seq<FlameNode>, total: nat, x: int, y: int, width: nat, h: nat,
                                              depth: nat, maxDepth: nat)
    requires depth < maxDepth
    ensures Labelled(LayoutKids(kids, total, x, y, width, h, depth, maxDepth))
    decreases maxDepth - depth, 0, |kids|
  {
    if kids != [] {
      var rest, c := kids[..|kids| - 1], kids[|kids| - 1];
      var w := ChildWidth(Duration(c), total, width);
      var cx := x + DrawnWidth(rest, total, width);
      LayoutKidsLabelled(rest, total, x, y, width, h, depth, maxDepth);
      if w != 0 {
        var d := DrawChild(c, cx, y, w, h);
        LayoutLabelled(c, cx, y + h, w, h, depth + 1, maxDepth);
        LabelledConcat(d, Layout(c, cx, y + h, w, h, depth + 1, maxDepth));
        LabelledConcat(LayoutKids(rest, total, x, y, width, h, depth, maxDepth),
                       d + Layout(c, cx, y + h, w, h, depth + 1, maxDepth));
        assert LayoutKids(kids, total, x, y, width, h, depth, maxDepth)
            == LayoutKids(rest, total, x, y, width, h, depth, maxDepth) + (d + Layout(c, cx, y + h, w, h, depth + 1, maxDepth));
      } else {
        assert LayoutKids(kids, total, x, y, width, h, depth, maxDepth) == LayoutKids(rest, total, x, y, width, h, depth, maxDepth);
      }
    }
  }

  // ---------------------------------------------------------------------
  // The document

  /** Laying out one more child appends exactly that child's primitives at the running offset. */
  lemma LayoutKidsSnoc(kids: seq<FlameNode>, i: nat, total: nat, x: int, y: int, width: nat, h: nat,
                       depth: nat, maxDepth: nat)
    requires i < |kids| && depth < maxDepth
    ensures var w := ChildWidth(Duration(kids[i]), total, width);
            var cx := x + DrawnWidth(kids[..i], total, width);
            && DrawnWidth(kids[..i + 1], total, width) == DrawnWidth(kids[..i], total, width) + w
            && LayoutKids(kids[..i + 1], total, x, y, width, h, depth, maxDepth)
               == LayoutKids(kids[..i], total, x, y, width, h, depth, maxDepth) + ChildPrims(kids[i], cx, y, w, h, depth, maxDepth)
  {
    assert kids[..i + 1][..i] == kids[..i];
  }

  /**
   * A document holding `base` and the first i children's primitives, extended
   * by child i's, holds the first i+1; the offset moves by child i's width.
   */
  lemma ExtendedByChild(kids: seq<FlameNode>, i: nat, total: nat, x: int, y: int, width: nat, h: nat,
                        depth: nat, maxDepth: nat, base: seq<Primitive>, s: seq<Primitive>)
    requires i < |kids| && depth < maxDepth
    requires s == (base + LayoutKids(kids[..i], total, x, y, width, h, depth, maxDepth))
                   + ChildPrims(kids[i], x + DrawnWidth(kids[..i], total, width), y,
                                ChildWidth(Duration(kids[i]), total, width), h, depth, maxDepth)
    ensures s == base + LayoutKids(kids[..i + 1], total, x, y, width, h, depth, maxDepth)
    ensures DrawnWidth(kids[..i + 1], total, width) == DrawnWidth(kids[..i], total, width) + ChildWidth(Duration(kids[i]), total, width)
  {
    LayoutKidsSnoc(kids, i, total, x, y, width, h, depth, maxDepth);
  }

  class Document {
    var prims: seq<Primitive>

    constructor ()
      ensures prims == []
    {
      prims := [];
    }

    method Add(p: Primitive)
      modifies this
      ensures prims == old(prims) + [p]
    {
      prims := prims + [p];
    }

    /**
     * `draw_flame_node`: appends the layout of `n`'s children, accumulating
     * the running x offset over the drawn children.
     */
    method DrawNode(n: FlameNode, x: int, y: int, width: nat, h: nat, depth: nat, maxDepth: nat)
      modifies this
      ensures prims == old(prims) + Layout(n, x, y, width, h, depth, maxDepth)
      decreases maxDepth - depth, 1
    {
      if depth >= maxDepth || |n.children| == 0 {
        return;
      }
      var total := Duration(n);
      assert Layout(n, x, y, width, h, depth, maxDepth) == LayoutKids(n.children, total, x, y, width, h, depth, maxDepth);
      var currentX := x;
      var i := 0;
      assert n.children[..i] == [];
      while i < |n.children|
        invariant 0 <= i <= |n.children|
        invariant currentX == x + DrawnWidth(n.children[..i], total, width)
        invariant prims == old(prims) + LayoutKids(n.children[..i], total, x, y, width, h, depth, maxDepth)
      {
        currentX := DrawKid(n.children, i, total, x, y, width, h, depth, maxDepth, currentX, old(prims));
        i := i + 1;
      }
      assert n.children[..i] == n.children;
    }

    /**
     * The loop body of `draw_flame_node` for the `i`-th child: draws it at the
     * running offset and returns the offset advanced by its width.
     */
    method DrawKid(kids: seq<FlameNode>, i: nat, total: nat, x: int, y: int, width: nat, h: nat,
                   depth: nat, maxDepth: nat, currentX: int, ghost base: seq<Primitive>) returns (nextX: int)
      requires i < |kids| && depth < maxDepth
      requires currentX == x + DrawnWidth(kids[..i], total, width)
      requires prims == base + LayoutKids(kids[..i], total, x, y, width, h, depth, maxDepth)
      modifies this
      ensures nextX == x + DrawnWidth(kids[..i + 1], total, width)
      ensures prims == base + LayoutKids(kids[..i + 1], total, x, y, width, h, depth, maxDepth)
      decreases maxDepth - depth, 0, 1
    {
      var child := kids[i];
      var childWidth := ChildWidth(Duration(child), total, width);
      DrawChildAt(child, currentX, y, childWidth, h, depth, maxDepth);
      ExtendedByChild(kids, i, total, x, y, width, h, depth, maxDepth, base, prims);
      nextX := currentX + childWidth;
    }

    /**
     * One iteration of the loop of `draw_flame_node`: a child of width 0 is
     * skipped (`continue`); otherwise its rectangle, its label if wider than
     * 50, then its subtree.
     */
    method DrawChildAt(child: FlameNode, currentX: int, y: int, childWidth: nat, h: nat, depth: nat, maxDepth: nat)
      requires depth < maxDepth
      modifies this
      ensures prims == old(prims) + ChildPrims(child, currentX, y, childWidth, h, depth, maxDepth)
      decreases maxDepth - depth, 0, 0
    {
      if childWidth == 0 {
        return;
      }
      var colour := NameColour(child.name);
      Add(Rect(currentX, y, childWidth, h, colour, true, child.name));
      if childWidth > LABEL_MIN_WIDTH {
        Add(Label(currentX + LABEL_INSET, y + h - LABEL_INSET, child.name));
      }
      DrawNode(child, currentX, y + h, childWidth, h, depth + 1, maxDepth);
    }
  }

  /** `generate_flamegraph` without the serialisation: the document it builds. */
  method GenerateFlamegraph(root: FlameNode) returns (doc: Document)
    ensures doc.prims == Flamegraph(root)
  {
    doc := new Document();
    doc.Add(BACKGROUND);
    doc.DrawNode(root, 0, 0, WIDTH, CELL_HEIGHT, 0, MAX_DEPTH);
  }
}
