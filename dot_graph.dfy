/** What `_to_dot` emits, before it is turned into DOT text: one node statement
    per call, each immediately followed by the edge into that node, in the
    depth-first pre-order in which the calls happen. */
module DotGraph {
  import Decimal
  import opened Json
  import opened HtmlEscape
  import opened NodeNames

  /** The `parent` argument of `_to_dot`: the synthetic `root` node, or row
      `row` of the table drawn for node `owner` (the string `Nxxxx:p_row`). */
  datatype Anchor = Named(name: string) | Port(owner: nat, row: nat)

  /** The value cell of a row: the escaped text of a scalar element, or the
      four `&nbsp;` placeholder of an element drawn as a node of its own. */
  datatype Cell = Inline(text: string) | Placeholder

  /** A table row: index and cell of a list element, escaped key and cell of a
      dict member, or the single spanning row of an empty container. */
  datatype Row = IndexRow(index: nat, cell: Cell) | KeyRow(key: string, index: nat, cell: Cell) | BlankRow

  datatype Label = Table(rows: seq<Row>) | Text(text: string)

  /** One call of `_to_dot`: the node statement for `Next(id)`, drawn for the
      JSON value `value` (its label is `LabelOf(value)`), then the edge
      `src->Next(id)`. */
  datatype Visit = Visit(src: Anchor, id: nat, value: Json)

  /** The statements written and the counter value returned. */
  datatype Built = Built(visits: seq<Visit>, last: nat)

  /** The cell written for an element (graph_app.py, the `cell = ...` lines). */
  function CellFor(item: Json): (c: Cell)
    ensures c == Placeholder <==> IsComposite(item)
    ensures !IsComposite(item) ==> c == Inline(Escape(ScalarText(item)))
  {
    if IsComposite(item) then Placeholder else Inline(Escape(ScalarText(item)))
  }

  /** The row written for element i of a list or dict. */
  function RowAt(v: Json, i: nat): Row
    requires IsComposite(v) && i < Width(v)
  {
    match v
    case Arr(items) => IndexRow(i, CellFor(items[i]))
    case Obj(members) => KeyRow(Escape(members[i].0), i, CellFor(members[i].1))
  }

  /** The rows of the table drawn for a list or dict (see `RowsShape`). */
  function Rows(v: Json): (rows: seq<Row>)
    requires IsComposite(v)
  {
    if Width(v) == 0 then [BlankRow]
    else seq(Width(v), i requires 0 <= i < Width(v) => RowAt(v, i))
  }

  /** One row per element, in iteration order, row i carrying port i; the cell
      of a list or dict element is the placeholder, that of a scalar its escaped
      text; a dict row shows the escaped key. An empty container gets the single
      blank row. */
  lemma RowsShape(v: Json)
    requires IsComposite(v)
    ensures Width(v) == 0 ==> Rows(v) == [BlankRow]
    ensures Width(v) > 0 ==> |Rows(v)| == Width(v)
    ensures Width(v) > 0 ==> forall i :: 0 <= i < Width(v) ==>
      var row := Rows(v)[i];
      && !row.BlankRow?
      && row.index == i
      && (row.cell == Placeholder <==> IsComposite(Child(v, i)))
      && (!IsComposite(Child(v, i)) ==> row.cell == Inline(Escape(ScalarText(Child(v, i)))))
      && (v.Arr? ==> row.IndexRow?)
      && (v.Obj? ==> row.KeyRow? && row.key == Escape(v.members[i].0))
  {
  }

  /** The label of the node drawn for v: a table for a list or dict, the escaped
      text for a scalar. */
  function LabelOf(v: Json): Label {
    if IsComposite(v) then Table(Rows(v)) else Text(Escape(ScalarText(v)))
  }

  /** `_to_dot(parent, v, idx, buf)`: the statements it writes and the counter it
      returns. The node for v is named `Next(idx)`; a list or dict then hands
      the counter through its composite elements. */
  function Walk(parent: Anchor, v: Json, idx: nat): (r: Built)
    decreases v, 1
    ensures r.last == idx + Inner(v)
    ensures |r.visits| >= 1 && r.visits[0] == Visit(parent, idx, v)
  {
    if IsComposite(v) then
      var below := WalkRows(idx, v, 0, idx);
      Built([Visit(parent, idx, v)] + below.visits, below.last)
    else
      Built([Visit(parent, idx, v)], idx)
  }

  /** The recursion loop of `_to_dot` over elements i, i+1, ... of v, whose
      node is `Next(owner)`, entered with counter value `counter`: each
      composite element is visited with the counter plus one, anchored at its
      own row's port, and the counter it returns is carried on. */
  function WalkRows(owner: nat, v: Json, i: nat, counter: nat): (r: Built)
    requires IsComposite(v) && i <= Width(v)
    decreases v, 0, Width(v) - i
    ensures r.last == counter + InnerFrom(v, i)
  {
    if i == Width(v) then Built([], counter)
    else if IsComposite(Child(v, i)) then
      var sub := Walk(Port(owner, i), Child(v, i), counter + 1);
      var rest := WalkRows(owner, v, i + 1, sub.last);
      Built(sub.visits + rest.visits, rest.last)
    else
      WalkRows(owner, v, i + 1, counter)
  }

  /** `_to_dot` unfolded once. */
  lemma WalkUnfold(parent: Anchor, v: Json, idx: nat)
    ensures IsComposite(v) ==>
              Walk(parent, v, idx) ==
              Built([Visit(parent, idx, v)] + WalkRows(idx, v, 0, idx).visits, WalkRows(idx, v, 0, idx).last)
    ensures !IsComposite(v) ==> Walk(parent, v, idx) == Built([Visit(parent, idx, v)], idx)
  {
  }

  /** The loop over the elements, one element at a time: a list or dict is
      walked from its row's port with the next counter value ... */
  lemma WalkRowsNode(owner: nat, data: Json, i: nat, counter: nat)
    requires IsComposite(data) && i < Width(data) && IsComposite(Child(data, i))
    ensures var sub := Walk(Port(owner, i), Child(data, i), counter + 1);
      WalkRows(owner, data, i, counter) ==
        Built(sub.visits + WalkRows(owner, data, i + 1, sub.last).visits, WalkRows(owner, data, i + 1, sub.last).last)
  {
  }

  /** ... and a scalar is skipped. */
  lemma WalkRowsSkip(owner: nat, data: Json, i: nat, counter: nat)
    requires IsComposite(data) && i < Width(data) && !IsComposite(Child(data, i))
    ensures WalkRows(owner, data, i, counter) == WalkRows(owner, data, i + 1, counter)
  {
  }

  // ---------------------------------------------------------------------------
  // Identifiers: pre-order, contiguous, hence distinct.

  /** The k-th node written gets counter idx + k, and there is one node for v
      and one for every list or dict inside it. */
  lemma {:induction false} WalkIds(parent: Anchor, v: Json, idx: nat)
    ensures |Walk(parent, v, idx).visits| == 1 + Inner(v)
    ensures forall k :: 0 <= k < |Walk(parent, v, idx).visits| ==> Walk(parent, v, idx).visits[k].id == idx + k
    decreases v, 1
  {
    if IsComposite(v) {
      WalkRowsIds(idx, v, 0, idx);
    }
  }

  lemma {:induction false} WalkRowsIds(owner: nat, v: Json, i: nat, counter: nat)
    requires IsComposite(v) && i <= Width(v)
    ensures |WalkRows(owner, v, i, counter).visits| == InnerFrom(v, i)
    ensures forall k :: 0 <= k < |WalkRows(owner, v, i, counter).visits| ==>
      WalkRows(owner, v, i, counter).visits[k].id == counter + 1 + k
    decreases v, 0, Width(v) - i
  {
    if i < Width(v) {
      if IsComposite(Child(v, i)) {
        var sub := Walk(Port(owner, i), Child(v, i), counter + 1);
        WalkIds(Port(owner, i), Child(v, i), counter + 1);
        WalkRowsIds(owner, v, i + 1, sub.last);
      } else {
        WalkRowsIds(owner, v, i + 1, counter);
      }
    }
  }

  /** No two node statements of one walk carry the same name. */
  lemma WalkNamesDistinct(parent: Anchor, v: Json, idx: nat)
    ensures forall k, m :: 0 <= k < m < |Walk(parent, v, idx).visits| ==>
      Next(Walk(parent, v, idx).visits[k].id) != Next(Walk(parent, v, idx).visits[m].id)
  {
    var vs := Walk(parent, v, idx).visits;
    WalkIds(parent, v, idx);
    forall k, m | 0 <= k < m < |vs|
      ensures Next(vs[k].id) != Next(vs[m].id)
    {
      NextInjective(vs[k].id, vs[m].id);
    }
  }

  /** Number of edges into the node with counter value j. */
  function CountInto(vs: seq<Visit>, j: nat): nat {
    if vs == [] then 0 else (if vs[0].id == j then 1 else 0) + CountInto(vs[1..], j)
  }

  lemma {:induction false} CountIntoConsecutive(vs: seq<Visit>, base: nat, j: nat)
    requires forall k :: 0 <= k < |vs| ==> vs[k].id == base + k
    ensures CountInto(vs, j) == if base <= j < base + |vs| then 1 else 0
  {
    if vs != [] {
      CountIntoConsecutive(vs[1..], base + 1, j);
    }
  }

  /** Every node written has exactly one incoming edge, and no edge leads to a
      name outside the counters the walk used. */
  lemma WalkOneEdgeInto(parent: Anchor, v: Json, idx: nat, j: nat)
    ensures CountInto(Walk(parent, v, idx).visits, j) == if idx <= j <= idx + Inner(v) then 1 else 0
  {
    WalkIds(parent, v, idx);
    CountIntoConsecutive(Walk(parent, v, idx).visits, idx, j);
  }

  // ---------------------------------------------------------------------------
  // Anchors: every edge but the first leaves a port of an earlier node.

  /** Every node but the first hangs from a row port of a node of the same walk
      written before it. */
  lemma {:induction false} WalkAnchors(parent: Anchor, v: Json, idx: nat)
    ensures forall k :: 0 < k < |Walk(parent, v, idx).visits| ==>
      var w := Walk(parent, v, idx).visits[k];
      w.src.Port? && idx <= w.src.owner < w.id
    decreases v, 1
  {
    if IsComposite(v) {
      WalkRowsAnchors(idx, v, 0, idx);
    }
  }

  lemma {:induction false} WalkRowsAnchors(owner: nat, v: Json, i: nat, counter: nat)
    requires IsComposite(v) && i <= Width(v)
    requires owner <= counter
    ensures forall k :: 0 <= k < |WalkRows(owner, v, i, counter).visits| ==>
      var w := WalkRows(owner, v, i, counter).visits[k];
      w.src.Port? && owner <= w.src.owner < w.id
    decreases v, 0, Width(v) - i
  {
    if i < Width(v) {
      if IsComposite(Child(v, i)) {
        var sub := Walk(Port(owner, i), Child(v, i), counter + 1);
        WalkAnchors(Port(owner, i), Child(v, i), counter + 1);
        WalkRowsAnchors(owner, v, i + 1, sub.last);
      } else {
        WalkRowsAnchors(owner, v, i + 1, counter);
      }
    }
  }

  // ---------------------------------------------------------------------------
  // Ports: one edge per composite element, from the row of that element.

  /** Number of edges leaving anchor a. */
  function CountFrom(vs: seq<Visit>, a: Anchor): nat {
    if vs == [] then 0 else (if vs[0].src == a then 1 else 0) + CountFrom(vs[1..], a)
  }

  lemma {:induction false} CountFromAppend(xs: seq<Visit>, ys: seq<Visit>, a: Anchor)
    ensures CountFrom(xs + ys, a) == CountFrom(xs, a) + CountFrom(ys, a)
  {
    if xs == [] {
      assert xs + ys == ys;
    } else {
      assert (xs + ys)[1..] == xs[1..] + ys;
      CountFromAppend(xs[1..], ys, a);
    }
  }

  lemma {:induction false} CountFromNone(vs: seq<Visit>, a: Anchor)
    requires forall k :: 0 <= k < |vs| ==> vs[k].src != a
    ensures CountFrom(vs, a) == 0
  {
    if vs != [] {
      CountFromNone(vs[1..], a);
    }
  }

  /** Edges leaving row ports of node `owner` in the loop over elements i, ...:
      exactly one from the port of each composite element, none from any other
      row. */
  lemma {:induction false} WalkRowsPortCount(owner: nat, v: Json, i: nat, counter: nat)
    requires IsComposite(v) && i <= Width(v)
    requires owner <= counter
    ensures forall j: nat :: CountFrom(WalkRows(owner, v, i, counter).visits, Port(owner, j)) ==
              (if i <= j < Width(v) && IsComposite(Child(v, j)) then 1 else 0)
    decreases Width(v) - i
  {
    if i < Width(v) {
      if IsComposite(Child(v, i)) {
        WalkRowsNode(owner, v, i, counter);
        var sub := Walk(Port(owner, i), Child(v, i), counter + 1);
        var rest := WalkRows(owner, v, i + 1, sub.last);
        WalkAnchors(Port(owner, i), Child(v, i), counter + 1);
        WalkRowsPortCount(owner, v, i + 1, sub.last);
        assert sub.visits == [sub.visits[0]] + sub.visits[1..];
        forall j: nat
          ensures CountFrom(sub.visits + rest.visits, Port(owner, j)) ==
                  (if i <= j < Width(v) && IsComposite(Child(v, j)) then 1 else 0)
        {
          CountFromAppend([sub.visits[0]], sub.visits[1..], Port(owner, j));
          CountFromNone(sub.visits[1..], Port(owner, j));
          CountFromAppend(sub.visits, rest.visits, Port(owner, j));
        }
      } else {
        WalkRowsSkip(owner, v, i, counter);
        WalkRowsPortCount(owner, v, i + 1, counter);
      }
    }
  }

  /** An edge leaving row j of node `owner` leads to the node drawn for
      element j. */
  lemma {:induction false} WalkRowsPortTargets(owner: nat, v: Json, i: nat, counter: nat)
    requires IsComposite(v) && i <= Width(v)
    requires owner <= counter
    ensures forall k :: 0 <= k < |WalkRows(owner, v, i, counter).visits| ==>
      var w := WalkRows(owner, v, i, counter).visits[k];
      w.src.Port? && w.src.owner == owner ==> i <= w.src.row < Width(v) && w.value == Child(v, w.src.row)
    decreases Width(v) - i
  {
    if i < Width(v) {
      if IsComposite(Child(v, i)) {
        WalkRowsNode(owner, v, i, counter);
        var sub := Walk(Port(owner, i), Child(v, i), counter + 1);
        WalkAnchors(Port(owner, i), Child(v, i), counter + 1);
        WalkRowsPortTargets(owner, v, i + 1, sub.last);
      } else {
        WalkRowsSkip(owner, v, i, counter);
        WalkRowsPortTargets(owner, v, i + 1, counter);
      }
    }
  }

  /** The edges leaving the table of a list or dict: the port of row j has one
      outgoing edge exactly when element j is itself a list or dict, and that
      edge leads to the node drawn for element j. An empty container has none. */
  lemma PortEdges(parent: Anchor, v: Json, idx: nat)
    requires IsComposite(v)
    requires parent.Port? ==> parent.owner < idx
    ensures forall j: nat :: CountFrom(Walk(parent, v, idx).visits, Port(idx, j)) ==
              (if j < Width(v) && IsComposite(Child(v, j)) then 1 else 0)
    ensures forall k :: 0 <= k < |Walk(parent, v, idx).visits| ==>
      var w := Walk(parent, v, idx).visits[k];
      w.src.Port? && w.src.owner == idx ==> w.src.row < Width(v) && w.value == Child(v, w.src.row)
  {
    var vs := Walk(parent, v, idx).visits;
    var below := WalkRows(idx, v, 0, idx);
    WalkRowsPortCount(idx, v, 0, idx);
    WalkRowsPortTargets(idx, v, 0, idx);
    assert vs == [vs[0]] + below.visits;
    forall j: nat
      ensures CountFrom(vs, Port(idx, j)) == if j < Width(v) && IsComposite(Child(v, j)) then 1 else 0
    {
      CountFromAppend([vs[0]], below.visits, Port(idx, j));
    }
  }

  /** The edges row j of a node for v should have: one when v is a list or dict
      whose element j is itself a list or dict, none otherwise. */
  function ChildEdges(v: Json, j: nat): nat {
    if IsComposite(v) && j < Width(v) && IsComposite(Child(v, j)) then 1 else 0
  }

  /** A walk entered after node m was written (and not from one of m's ports)
      draws no edge from m's ports. */
  lemma WalkNoEdgeFrom(parent: Anchor, v: Json, idx: nat, m: nat, j: nat)
    requires m < idx
    requires parent != Port(m, j)
    ensures CountFrom(Walk(parent, v, idx).visits, Port(m, j)) == 0
  {
    var vs := Walk(parent, v, idx).visits;
    WalkAnchors(parent, v, idx);
    assert vs == [vs[0]] + vs[1..];
    CountFromNone(vs[1..], Port(m, j));
    CountFromAppend([vs[0]], vs[1..], Port(m, j));
  }

  /** The loop over the elements of node `owner`, entered with a counter at
      least m, draws no edge from the ports of any other node m. */
  lemma {:induction false} WalkRowsNoEdgeFrom(owner: nat, v: Json, i: nat, counter: nat, m: nat, j: nat)
    requires IsComposite(v) && i <= Width(v)
    requires m != owner && m <= counter
    ensures CountFrom(WalkRows(owner, v, i, counter).visits, Port(m, j)) == 0
    decreases Width(v) - i
  {
    if i < Width(v) {
      if IsComposite(Child(v, i)) {
        WalkRowsNode(owner, v, i, counter);
        var sub := Walk(Port(owner, i), Child(v, i), counter + 1);
        WalkNoEdgeFrom(Port(owner, i), Child(v, i), counter + 1, m, j);
        WalkRowsNoEdgeFrom(owner, v, i + 1, sub.last, m, j);
        CountFromAppend(sub.visits, WalkRows(owner, v, i + 1, sub.last).visits, Port(m, j));
      } else {
        WalkRowsSkip(owner, v, i, counter);
        WalkRowsNoEdgeFrom(owner, v, i + 1, counter, m, j);
      }
    }
  }

  /** A walk drawn before node m (all its counters below m, its own parent not
      a port of m) draws no edge from m's ports. */
  lemma WalkNoEdgeFromLater(parent: Anchor, v: Json, idx: nat, m: nat, j: nat)
    requires idx + Inner(v) < m
    requires parent != Port(m, j)
    ensures CountFrom(Walk(parent, v, idx).visits, Port(m, j)) == 0
  {
    var vs := Walk(parent, v, idx).visits;
    WalkAnchors(parent, v, idx);
    WalkIds(parent, v, idx);
    assert vs == [vs[0]] + vs[1..];
    CountFromNone(vs[1..], Port(m, j));
    CountFromAppend([vs[0]], vs[1..], Port(m, j));
  }

  /** In vs, the port of row j of every node has exactly `ChildEdges` outgoing
      edges. */
  ghost predicate PortsExact(vs: seq<Visit>) {
    forall k, j: nat :: 0 <= k < |vs| ==> CountFrom(vs, Port(vs[k].id, j)) == ChildEdges(vs[k].value, j)
  }

  /** Every node of a walk, not only the first: the port of its row j has
      exactly `ChildEdges` outgoing edges in the whole walk. */
  lemma {:induction false} WalkPorts(parent: Anchor, v: Json, idx: nat)
    requires parent.Port? ==> parent.owner < idx
    ensures PortsExact(Walk(parent, v, idx).visits)
    decreases v, 1
  {
    var vs := Walk(parent, v, idx).visits;
    if IsComposite(v) {
      var below := WalkRows(idx, v, 0, idx).visits;
      assert vs == [vs[0]] + below;
      PortEdges(parent, v, idx);
      WalkRowsIds(idx, v, 0, idx);
      WalkRowsPorts(idx, v, 0, idx);
      forall k, j: nat | 0 <= k < |vs|
        ensures CountFrom(vs, Port(vs[k].id, j)) == ChildEdges(vs[k].value, j)
      {
        if k > 0 {
          assert vs[k] == below[k - 1];
          CountFromAppend([vs[0]], below, Port(vs[k].id, j));
        }
      }
    } else {
      forall k, j: nat | 0 <= k < |vs|
        ensures CountFrom(vs, Port(vs[k].id, j)) == ChildEdges(vs[k].value, j)
      {
        assert vs[1..] == [];
      }
    }
  }

  lemma {:induction false} WalkRowsPorts(owner: nat, v: Json, i: nat, counter: nat)
    requires IsComposite(v) && i <= Width(v)
    requires owner <= counter
    ensures PortsExact(WalkRows(owner, v, i, counter).visits)
    decreases v, 0, Width(v) - i
  {
    if i < Width(v) {
      if IsComposite(Child(v, i)) {
        WalkRowsNode(owner, v, i, counter);
        var sub := Walk(Port(owner, i), Child(v, i), counter + 1);
        var rs := sub.visits + WalkRows(owner, v, i + 1, sub.last).visits;
        WalkPorts(Port(owner, i), Child(v, i), counter + 1);
        WalkRowsPorts(owner, v, i + 1, sub.last);
        forall k, j: nat | 0 <= k < |rs|
          ensures CountFrom(rs, Port(rs[k].id, j)) == ChildEdges(rs[k].value, j)
        {
          RowsNodePort(owner, v, i, counter, k, j);
        }
      } else {
        WalkRowsSkip(owner, v, i, counter);
        WalkRowsPorts(owner, v, i + 1, counter);
      }
    }
  }

  /** One node of the loop where element i is a list or dict: its ports' edges
      all lie on its own side of the split into element i's walk and the rest
      of the loop. */
  lemma RowsNodePort(owner: nat, v: Json, i: nat, counter: nat, k: nat, j: nat)
    requires IsComposite(v) && i < Width(v) && IsComposite(Child(v, i))
    requires owner <= counter
    requires PortsExact(Walk(Port(owner, i), Child(v, i), counter + 1).visits)
    requires var sub := Walk(Port(owner, i), Child(v, i), counter + 1);
      PortsExact(WalkRows(owner, v, i + 1, sub.last).visits)
    requires var sub := Walk(Port(owner, i), Child(v, i), counter + 1);
      k < |sub.visits + WalkRows(owner, v, i + 1, sub.last).visits|
    ensures var sub := Walk(Port(owner, i), Child(v, i), counter + 1);
      var rs := sub.visits + WalkRows(owner, v, i + 1, sub.last).visits;
      CountFrom(rs, Port(rs[k].id, j)) == ChildEdges(rs[k].value, j)
  {
    var sub := Walk(Port(owner, i), Child(v, i), counter + 1);
    var rest := WalkRows(owner, v, i + 1, sub.last).visits;
    var rs := sub.visits + rest;
    WalkIds(Port(owner, i), Child(v, i), counter + 1);
    CountFromAppend(sub.visits, rest, Port(rs[k].id, j));
    if k < |sub.visits| {
      assert rs[k] == sub.visits[k];
      WalkRowsNoEdgeFrom(owner, v, i + 1, sub.last, sub.visits[k].id, j);
    } else {
      WalkRowsIds(owner, v, i + 1, sub.last);
      assert rs[k] == rest[k - |sub.visits|];
      WalkNoEdgeFromLater(Port(owner, i), Child(v, i), counter + 1, rs[k].id, j);
    }
  }

  /** The whole document: for every node written from `root`, the port of its
      row j has one outgoing edge exactly when the node is a list or dict whose
      element j is itself a list or dict. */
  lemma DocumentPortEdges(data: Json)
    ensures forall k, j: nat :: 0 <= k < |Walk(Named("root"), data, 0).visits| ==>
      CountFrom(Walk(Named("root"), data, 0).visits, Port(Walk(Named("root"), data, 0).visits[k].id, j)) ==
      (if IsComposite(Walk(Named("root"), data, 0).visits[k].value)
          && j < Width(Walk(Named("root"), data, 0).visits[k].value)
          && IsComposite(Child(Walk(Named("root"), data, 0).visits[k].value, j))
       then 1 else 0)
  {
    WalkPorts(Named("root"), data, 0);
    var vs := Walk(Named("root"), data, 0).visits;
    forall k, j: nat | 0 <= k < |vs|
      ensures CountFrom(vs, Port(vs[k].id, j)) ==
        (if IsComposite(vs[k].value) && j < Width(vs[k].value) && IsComposite(Child(vs[k].value, j)) then 1 else 0)
    {
      assert CountFrom(vs, Port(vs[k].id, j)) == ChildEdges(vs[k].value, j);
    }
  }

  // ---------------------------------------------------------------------------
  // Escaping: no text from the JSON value reaches a label unescaped.

  predicate CellEscaped(c: Cell) {
    c.Inline? ==> Escaped(c.text)
  }

  predicate RowEscaped(r: Row) {
    match r
    case IndexRow(_, cell) => CellEscaped(cell)
    case KeyRow(key, _, cell) => Escaped(key) && CellEscaped(cell)
    case BlankRow => true
  }

  predicate LabelEscaped(l: Label) {
    match l
    case Table(rows) => forall i :: 0 <= i < |rows| ==> RowEscaped(rows[i])
    case Text(t) => Escaped(t)
  }

  /** Every key and every scalar text in a node's label went through the
      escape. */
  lemma LabelOfEscaped(v: Json)
    ensures LabelEscaped(LabelOf(v))
  {
    if IsComposite(v) {
      var rows := Rows(v);
      RowsShape(v);
      forall i | 0 <= i < |rows|
        ensures RowEscaped(rows[i])
      {
        if Width(v) > 0 {
          if !IsComposite(Child(v, i)) {
            EscapeIsSafe(ScalarText(Child(v, i)));
          }
          if v.Obj? {
            EscapeIsSafe(v.members[i].0);
          }
        }
      }
    } else {
      EscapeIsSafe(ScalarText(v));
    }
  }

  /** No node label of a walk carries a raw markup character from the data. */
  lemma {:induction false} WalkEscaped(parent: Anchor, v: Json, idx: nat)
    ensures VisitsEscaped(Walk(parent, v, idx).visits)
    decreases v, 1
  {
    LabelOfEscaped(v);
    if IsComposite(v) {
      WalkRowsEscaped(idx, v, 0, idx);
      EscapedAppend([Visit(parent, idx, v)], WalkRows(idx, v, 0, idx).visits);
    }
  }

  lemma {:induction false} WalkRowsEscaped(owner: nat, v: Json, i: nat, counter: nat)
    requires IsComposite(v) && i <= Width(v)
    ensures VisitsEscaped(WalkRows(owner, v, i, counter).visits)
    decreases v, 0, Width(v) - i
  {
    if i < Width(v) {
      if IsComposite(Child(v, i)) {
        WalkEscaped(Port(owner, i), Child(v, i), counter + 1);
        WalkRowsEscaped(owner, v, i + 1, Walk(Port(owner, i), Child(v, i), counter + 1).last);
        RowsNodeEscaped(owner, v, i, counter);
      } else {
        WalkRowsEscaped(owner, v, i + 1, counter);
        RowsSkipEscaped(owner, v, i, counter);
      }
    }
  }

  lemma RowsNodeEscaped(owner: nat, v: Json, i: nat, counter: nat)
    requires IsComposite(v) && i < Width(v) && IsComposite(Child(v, i))
    requires VisitsEscaped(Walk(Port(owner, i), Child(v, i), counter + 1).visits)
    requires VisitsEscaped(WalkRows(owner, v, i + 1, Walk(Port(owner, i), Child(v, i), counter + 1).last).visits)
    ensures VisitsEscaped(WalkRows(owner, v, i, counter).visits)
  {
    WalkRowsNode(owner, v, i, counter);
    var sub := Walk(Port(owner, i), Child(v, i), counter + 1);
    EscapedAppend(sub.visits, WalkRows(owner, v, i + 1, sub.last).visits);
  }

  lemma RowsSkipEscaped(owner: nat, v: Json, i: nat, counter: nat)
    requires IsComposite(v) && i < Width(v) && !IsComposite(Child(v, i))
    requires VisitsEscaped(WalkRows(owner, v, i + 1, counter).visits)
    ensures VisitsEscaped(WalkRows(owner, v, i, counter).visits)
  {
    WalkRowsSkip(owner, v, i, counter);
  }

  /** Every node label in vs is escaped. */
  ghost predicate VisitsEscaped(vs: seq<Visit>) {
    forall k :: 0 <= k < |vs| ==> LabelEscaped(LabelOf(vs[k].value))
  }

  lemma EscapedAppend(xs: seq<Visit>, ys: seq<Visit>)
    requires VisitsEscaped(xs) && VisitsEscaped(ys)
    ensures VisitsEscaped(xs + ys)
  {
    forall k | 0 <= k < |xs + ys|
      ensures LabelEscaped(LabelOf((xs + ys)[k].value))
    {
      if k >= |xs| {
        assert (xs + ys)[k] == ys[k - |xs|];
      }
    }
  }

  // ---------------------------------------------------------------------------
  // Worked examples.

  /** `{"a": 1, "b": [2, 3]}`: the object's table has the row `a | 1` and the
      row `b | &nbsp;...`; the list's table holds `0 | 2` and `1 | 3`. */
  lemma NestedExampleRows()
    ensures Rows(Obj([("a", Int(1)), ("b", Arr([Int(2), Int(3)]))])) ==
              [KeyRow("a", 0, Inline("1")), KeyRow("b", 1, Placeholder)]
    ensures Rows(Arr([Int(2), Int(3)])) == [IndexRow(0, Inline("2")), IndexRow(1, Inline("3"))]
  {
    var list := Arr([Int(2), Int(3)]);
    var obj := Obj([("a", Int(1)), ("b", list)]);
    assert Decimal.Digits(1) == "1" && Decimal.Digits(2) == "2" && Decimal.Digits(3) == "3";
    EscapeOnePlain('a');
    EscapeOnePlain('b');
    EscapeOnePlain('1');
    EscapeOnePlain('2');
    EscapeOnePlain('3');
    var objRows, listRows := Rows(obj), Rows(list);
    assert |objRows| == 2 && |listRows| == 2;
    assert objRows[0] == RowAt(obj, 0) == KeyRow("a", 0, Inline("1"));
    assert objRows[1] == RowAt(obj, 1) == KeyRow("b", 1, Placeholder);
    assert listRows[0] == RowAt(list, 0) == IndexRow(0, Inline("2"));
    assert listRows[1] == RowAt(list, 1) == IndexRow(1, Inline("3"));
  }

  /** `{"a": 1, "b": [2, 3]}`: two nodes, the object's `N0000` drawn from
      `root`, and the list's `N0001` drawn from the object's row 1. */
  lemma NestedExampleWalk()
    ensures var list := Arr([Int(2), Int(3)]);
            var obj := Obj([("a", Int(1)), ("b", list)]);
      Walk(Named("root"), obj, 0) ==
        Built([Visit(Named("root"), 0, obj), Visit(Port(0, 1), 1, list)], 1)
  {
    var list := Arr([Int(2), Int(3)]);
    var obj := Obj([("a", Int(1)), ("b", list)]);
    var inner := Walk(Port(0, 1), list, 1);
    assert WalkRows(1, list, 0, 1).visits == [];
    assert inner == Built([Visit(Port(0, 1), 1, list)], 1);
    assert WalkRows(0, obj, 2, 1) == Built([], 1);
    assert WalkRows(0, obj, 1, 0) == Built(inner.visits, 1);
    assert WalkRows(0, obj, 0, 0) == Built(inner.visits, 1);
  }

  /** `[]`: a single node whose table is the one spanning blank row. */
  lemma EmptyListExample()
    ensures Rows(Arr([])) == [BlankRow]
    ensures Walk(Named("root"), Arr([]), 0) == Built([Visit(Named("root"), 0, Arr([]))], 0)
  {
  }

  lemma NoneEscaped()
    ensures Escape("None") == "None"
  {
    EscapeOnePlain('N');
    EscapeOnePlain('o');
    EscapeOnePlain('n');
    EscapeOnePlain('e');
    assert "None" == ['N'] + ['o'] + ['n'] + ['e'];
    EscapeAppend(['N'], ['o']);
    EscapeAppend(['N'] + ['o'], ['n']);
    EscapeAppend(['N'] + ['o'] + ['n'], ['e']);
  }

  /** `{"x": null}`: one row, `x | None` (Python's `str(None)`) ... */
  lemma NullExampleRows()
    ensures Rows(Obj([("x", Null)])) == [KeyRow("x", 0, Inline("None"))]
  {
    SingleMemberRows("x", Null);
    EscapeOnePlain('x');
    NoneEscaped();
  }

  /** A dict with one scalar member has one row: the escaped key and the
      escaped text of the value. */
  lemma SingleMemberRows(key: string, value: Json)
    requires !IsComposite(value)
    ensures Rows(Obj([(key, value)])) == [KeyRow(Escape(key), 0, Inline(Escape(ScalarText(value))))]
  {
    var obj := Obj([(key, value)]);
    var rows := Rows(obj);
    assert |rows| == 1;
    assert rows[0] == RowAt(obj, 0);
  }

  /** ... and no node below the object's own. */
  lemma NullExampleWalk()
    ensures Walk(Named("root"), Obj([("x", Null)]), 0) == Built([Visit(Named("root"), 0, Obj([("x", Null)]))], 0)
  {
    var obj := Obj([("x", Null)]);
    assert WalkRows(0, obj, 0, 0) == WalkRows(0, obj, 1, 0) == Built([], 0);
  }
}
