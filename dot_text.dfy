/** The DOT text: the exact strings `_to_dot` and `json2graph` write to their
    `StringIO` buffer, the buffer itself, and the two writers. */
module DotText {
  import opened Decimal
  import opened Json
  import opened HtmlEscape
  import opened NodeNames
  import opened DotGraph

  const Font := "Noto Sans CJK JP"
  const TableOpen := " [label=<\n<TABLE BORDER=\"0\" CELLBORDER=\"1\" CELLSPACING=\"0\">\n"
  const TableClose := "</TABLE>>];\n"
  const BlankRowText := "<TR><TD COLSPAN=\"2\">&nbsp;</TD></TR>\n"
  const Nbsp4 := "&nbsp;&nbsp;&nbsp;&nbsp;"

  /** The name of the port of table row i. */
  function PortName(i: nat): string {
    "p_" + Digits(i)
  }

  /** The attribute that places the port on the value cell of row i. */
  function PortAttr(i: nat): string {
    "PORT=\"" + PortName(i) + "\""
  }

  /** The parent string: `root`, or `Nxxxx:p_i` for row i of node Nxxxx. */
  function AnchorText(a: Anchor): string {
    match a
    case Named(name) => name
    case Port(owner, row) => Next(owner) + ":" + PortName(row)
  }

  function CellText(c: Cell): string {
    match c
    case Inline(text) => text
    case Placeholder => Nbsp4
  }

  function RowText(r: Row): string {
    match r
    case IndexRow(i, cell) =>
      "<TR><TD BORDER=\"0\">" + Digits(i) + "</TD><TD " + PortAttr(i) + ">" + CellText(cell) + "</TD></TR>\n"
    case KeyRow(key, i, cell) =>
      "<TR><TD>" + key + "</TD><TD " + PortAttr(i) + ">" + CellText(cell) + "</TD></TR>\n"
    case BlankRow => BlankRowText
  }

  function RowsText(rows: seq<Row>): seq<string> {
    seq(|rows|, i requires 0 <= i < |rows| => RowText(rows[i]))
  }

  function EdgeLine(src: Anchor, id: nat): string {
    AnchorText(src) + "->" + Next(id) + ";\n"
  }

  /** The chunks one `_to_dot` call writes for its own node: the node statement
      (one chunk per line of a table), then the edge into the node. */
  function VisitChunks(w: Visit): seq<string> {
    match LabelOf(w.value)
    case Table(rows) => [Next(w.id) + TableOpen] + RowsText(rows) + [TableClose, EdgeLine(w.src, w.id)]
    case Text(t) => [Next(w.id) + " [label=\"" + t + "\"];\n", EdgeLine(w.src, w.id)]
  }

  function Chunks(vs: seq<Visit>): seq<string> {
    if vs == [] then [] else VisitChunks(vs[0]) + Chunks(vs[1..])
  }

  /** `StringIO.getvalue()`: the chunks written, joined. */
  function Concat(chunks: seq<string>): string {
    if chunks == [] then "" else chunks[0] + Concat(chunks[1..])
  }

  /** The lines `json2graph` writes before the walk. The root label is written
      as given, without escaping. */
  function Preamble(rootLabel: string): seq<string> {
    [ "digraph G {\n",
      "  graph [rankdir=LR, fontname=\"" + Font + "\", charset=\"UTF-8\"];\n",
      "  node  [shape=plaintext, fontname=\"" + Font + "\"];\n",
      "  edge  [fontname=\"" + Font + "\"];\n",
      "  root [label=\"" + rootLabel + "\", shape=circle, fontname=\"" + Font + "\"];\n" ]
  }

  /** The DOT document `json2graph` hands to Graphviz. */
  function Document(data: Json, rootLabel: string): string {
    Concat(Preamble(rootLabel) + Chunks(Walk(Named("root"), data, 0).visits) + ["}\n"])
  }

  /** An in-memory text buffer (`io.StringIO`), as the sequence of strings
      written to it. */
  class StringBuffer {
    var chunks: seq<string>

    constructor ()
      ensures chunks == []
    {
      chunks := [];
    }

    method Write(s: string)
      modifies this
      ensures chunks == old(chunks) + [s]
    {
      chunks := chunks + [s];
    }

    function GetValue(): string
      reads this
    {
      Concat(chunks)
    }
  }

  lemma {:induction false} ChunksAppend(xs: seq<Visit>, ys: seq<Visit>)
    ensures Chunks(xs + ys) == Chunks(xs) + Chunks(ys)
  {
    if xs == [] {
      assert xs + ys == ys;
    } else {
      var zs := xs + ys;
      assert zs[0] == xs[0];
      assert zs[1..] == xs[1..] + ys;
      ChunksAppend(xs[1..], ys);
      assert Chunks(zs) == VisitChunks(xs[0]) + Chunks(xs[1..] + ys);
    }
  }

  lemma {:induction false} ConcatAppend(xs: seq<string>, ys: seq<string>)
    ensures Concat(xs + ys) == Concat(xs) + Concat(ys)
  {
    if xs == [] {
      assert xs + ys == ys;
    } else {
      assert (xs + ys)[1..] == xs[1..] + ys;
      ConcatAppend(xs[1..], ys);
    }
  }

  /** `_to_dot(parent, data, idx, buf)`: appends to the buffer the DOT text of
      data's node and of every node below it, and returns the last counter
      value it used, which is idx plus the number of lists and dicts strictly
      inside data. The list and dict branches of the source differ only in the
      first cell of a row (`RowAt`) and in iterating a dict's values (`Child`),
      so they share one branch here. */
  method ToDot(parent: Anchor, data: Json, idx: nat, buf: StringBuffer) returns (last: nat)
    modifies buf
    decreases data, 2
    ensures buf.chunks == old(buf.chunks) + Chunks(Walk(parent, data, idx).visits)
    ensures last == idx + Inner(data)
  {
    var name := Next(idx);
    ghost var before := buf.chunks;
    if data.Arr? || data.Obj? {
      WriteTable(name, data, buf);
      buf.Write(EdgeLine(parent, idx));
      ghost var mid := buf.chunks;
      last := WriteChildren(idx, data, idx, buf);
      TableWalkChunks(parent, data, idx, before, mid, buf.chunks);
    } else {
      buf.Write(name + " [label=\"" + Escape(ScalarText(data)) + "\"];\n");
      buf.Write(EdgeLine(parent, idx));
      last := idx;
      TextWalkChunks(parent, data, idx, before, buf.chunks);
    }
  }

  /** The node statement of a list or dict: the table opening, one row per
      element (or the blank row of an empty container), the table closing. */
  method WriteTable(name: string, data: Json, buf: StringBuffer)
    requires IsComposite(data)
    modifies buf
    ensures buf.chunks == old(buf.chunks) + [name + TableOpen] + RowsText(Rows(data)) + [TableClose]
  {
    var n := Width(data);
    buf.Write(name + TableOpen);
    if n == 0 {
      buf.Write(BlankRowText);
    } else {
      for i := 0 to n
        invariant buf.chunks == old(buf.chunks) + [name + TableOpen] + RowsText(Rows(data)[..i])
      {
        var row := RowAt(data, i);
        assert Rows(data)[..i + 1] == Rows(data)[..i] + [row];
        buf.Write(RowText(row));
      }
      assert Rows(data)[..n] == Rows(data);
    }
    buf.Write(TableClose);
  }

  /** The recursion loop of `_to_dot` for node `Next(owner)`: each list or dict
      element is written with the counter plus one, anchored at its row's port,
      and the counter it returns is carried on to the next one. */
  method WriteChildren(owner: nat, data: Json, idx: nat, buf: StringBuffer) returns (last: nat)
    requires IsComposite(data)
    modifies buf
    decreases data, 1
    ensures buf.chunks == old(buf.chunks) + Chunks(WalkRows(owner, data, 0, idx).visits)
    ensures last == idx + Inner(data)
  {
    ghost var total := WalkRows(owner, data, 0, idx);
    last := idx;
    for i := 0 to Width(data)
      invariant buf.chunks + Chunks(WalkRows(owner, data, i, last).visits) == old(buf.chunks) + Chunks(total.visits)
      invariant WalkRows(owner, data, i, last).last == total.last
    {
      last := WriteElement(owner, data, i, last, buf);
    }
    assert WalkRows(owner, data, Width(data), last).visits == [];
  }

  /** One pass of that loop: element i is written as a node of its own when it
      is a list or dict, and skipped otherwise (its value sits in the table). What
      is written plus what the rest of the loop writes is what the loop from
      element i writes. */
  method WriteElement(owner: nat, data: Json, i: nat, last: nat, buf: StringBuffer) returns (next: nat)
    requires IsComposite(data) && i < Width(data)
    modifies buf
    decreases data, 0
    ensures buf.chunks + Chunks(WalkRows(owner, data, i + 1, next).visits) ==
            old(buf.chunks) + Chunks(WalkRows(owner, data, i, last).visits)
    ensures WalkRows(owner, data, i + 1, next).last == WalkRows(owner, data, i, last).last
  {
    var item := Child(data, i);
    ghost var before := buf.chunks;
    if item.Arr? || item.Obj? {
      next := ToDot(Port(owner, i), item, last + 1, buf);
      NodeChunks(owner, data, i, last, before, buf.chunks, next);
    } else {
      next := last;
      WalkRowsSkip(owner, data, i, last);
    }
  }

  /** The chunks of the loop from a list or dict element i are those of the walk
      below it, followed by the chunks of the loop from element i + 1. */
  lemma NodeChunks(owner: nat, data: Json, i: nat, last: nat, before: seq<string>, after: seq<string>, next: nat)
    requires IsComposite(data) && i < Width(data) && IsComposite(Child(data, i))
    requires after == before + Chunks(Walk(Port(owner, i), Child(data, i), last + 1).visits)
    requires next == last + 1 + Inner(Child(data, i))
    ensures after + Chunks(WalkRows(owner, data, i + 1, next).visits) ==
            before + Chunks(WalkRows(owner, data, i, last).visits)
    ensures WalkRows(owner, data, i + 1, next).last == WalkRows(owner, data, i, last).last
  {
    WalkRowsNode(owner, data, i, last);
    var sub := Walk(Port(owner, i), Child(data, i), last + 1);
    assert next == sub.last;
    var rest := WalkRows(owner, data, i + 1, next);
    ChunksAppend(sub.visits, rest.visits);
    Regroup(before, Chunks(sub.visits), Chunks(rest.visits), after);
  }

  lemma Regroup(before: seq<string>, written: seq<string>, rest: seq<string>, after: seq<string>)
    requires after == before + written
    ensures after + rest == before + (written + rest)
  {
  }

  lemma ChunksOne(w: Visit)
    ensures Chunks([w]) == VisitChunks(w)
  {
    assert [w][1..] == [];
  }

  lemma TableVisitChunks(w: Visit)
    requires IsComposite(w.value)
    ensures VisitChunks(w) == [Next(w.id) + TableOpen] + RowsText(Rows(w.value)) + [TableClose, EdgeLine(w.src, w.id)]
  {
  }

  /** What `_to_dot` writes for a list or dict: its table, its edge, then the
      loop over its elements. */
  lemma TableWalkChunks(parent: Anchor, data: Json, idx: nat, before: seq<string>, mid: seq<string>, after: seq<string>)
    requires IsComposite(data)
    requires mid == before + [Next(idx) + TableOpen] + RowsText(Rows(data)) + [TableClose] + [EdgeLine(parent, idx)]
    requires after == mid + Chunks(WalkRows(idx, data, 0, idx).visits)
    ensures after == before + Chunks(Walk(parent, data, idx).visits)
  {
    var head := [Next(idx) + TableOpen] + RowsText(Rows(data)) + [TableClose, EdgeLine(parent, idx)];
    TableChunks(parent, data, idx);
    Regroup4(before, Next(idx) + TableOpen, RowsText(Rows(data)), TableClose, EdgeLine(parent, idx));
    Regroup(before, head, Chunks(WalkRows(idx, data, 0, idx).visits), mid);
  }

  lemma TableChunks(parent: Anchor, data: Json, idx: nat)
    requires IsComposite(data)
    ensures Chunks(Walk(parent, data, idx).visits) ==
              [Next(idx) + TableOpen] + RowsText(Rows(data)) + [TableClose, EdgeLine(parent, idx)] +
              Chunks(WalkRows(idx, data, 0, idx).visits)
  {
    var self := Visit(parent, idx, data);
    WalkUnfold(parent, data, idx);
    TableVisitChunks(self);
    ChunksAppend([self], WalkRows(idx, data, 0, idx).visits);
    ChunksOne(self);
  }

  lemma Regroup4(before: seq<string>, open: string, rows: seq<string>, close: string, edge: string)
    ensures before + [open] + rows + [close] + [edge] == before + ([open] + rows + [close, edge])
  {
  }

  /** What `_to_dot` writes for a scalar: its text node and its edge. */
  lemma TextWalkChunks(parent: Anchor, data: Json, idx: nat, before: seq<string>, after: seq<string>)
    requires !IsComposite(data)
    requires after == before + [Next(idx) + " [label=\"" + Escape(ScalarText(data)) + "\"];\n"] + [EdgeLine(parent, idx)]
    ensures after == before + Chunks(Walk(parent, data, idx).visits)
  {
    WalkUnfold(parent, data, idx);
    ChunksOne(Visit(parent, idx, data));
  }

  /** The DOT-building part of `json2graph`: header, default attributes, the
      root node, the walk from `root` with counter 0, and the closing brace. */
  method Json2Dot(data: Json, rootLabel: string) returns (dot: string)
    ensures dot == Document(data, rootLabel)
  {
    var buf := new StringBuffer();
    buf.Write("digraph G {\n");
    buf.Write("  graph [rankdir=LR, fontname=\"" + Font + "\", charset=\"UTF-8\"];\n");
    buf.Write("  node  [shape=plaintext, fontname=\"" + Font + "\"];\n");
    buf.Write("  edge  [fontname=\"" + Font + "\"];\n");
    buf.Write("  root [label=\"" + rootLabel + "\", shape=circle, fontname=\"" + Font + "\"];\n");
    assert buf.chunks == Preamble(rootLabel);
    var _ := ToDot(Named("root"), data, 0, buf);
    buf.Write("}\n");
    dot := buf.GetValue();
  }

  // ---------------------------------------------------------------------------
  // Properties of the text.

  /** The first colon of a port's text ends the node name. */
  lemma PortColon(a: Anchor)
    requires a.Port?
    ensures |Next(a.owner)| < |AnchorText(a)| && AnchorText(a)[|Next(a.owner)|] == ':'
    ensures forall k :: 0 <= k < |Next(a.owner)| ==> AnchorText(a)[k] != ':'
  {
    NextShape(a.owner);
  }

  /** A port is written `Nxxxx:p_i`: the text determines the node and the row,
      and it is never the name of the root node. */
  lemma PortTextInjective(a: Anchor, b: Anchor)
    requires a.Port? && b.Port?
    ensures AnchorText(a) == AnchorText(b) <==> a == b
    ensures AnchorText(a) != "root"
  {
    var na, nb := Next(a.owner), Next(b.owner);
    NextShape(a.owner);
    NextShape(b.owner);
    var s, t := AnchorText(a), AnchorText(b);
    assert s[0] == 'N';
    if s == t {
      PortColon(a);
      PortColon(b);
      assert |na| == |nb|;
      assert na == s[..|na|] == t[..|nb|] == nb;
      NextInjective(a.owner, b.owner);
      var da, db := Digits(a.row), Digits(b.row);
      assert da == s[|na| + 3..] == t[|nb| + 3..] == db;
      ValueOfDigits(a.row);
      ValueOfDigits(b.row);
    }
  }

  predicate Contains(s: string, p: string) {
    exists k :: 0 <= k <= |s| && IsPrefix(p, s[k..])
  }

  lemma ContainsMiddle(a: string, p: string, b: string)
    ensures Contains(a + p + b, p)
  {
    var s := a + p + b;
    assert s[|a|..] == p + b;
    assert (p + b)[..|p|] == p;
  }

  /** Row i of a list's or dict's table carries the port `p_i`, and the edge
      into the node drawn for element i leaves from that same port: the port
      of the edge's source is the port of the row, so Graphviz attaches the
      edge to the element's own cell. */
  lemma PortsAgree(owner: nat, v: Json, i: nat)
    requires IsComposite(v) && i < Width(v)
    ensures AnchorText(Port(owner, i)) == Next(owner) + ":" + PortName(i)
    ensures Contains(RowText(Rows(v)[i]), PortAttr(i))
  {
    RowsShape(v);
    var cell := CellText(CellFor(Child(v, i)));
    var tail := ">" + cell + "</TD></TR>\n";
    if v.Arr? {
      var head := "<TR><TD BORDER=\"0\">" + Digits(i) + "</TD><TD ";
      assert RowText(Rows(v)[i]) == head + PortAttr(i) + tail;
      ContainsMiddle(head, PortAttr(i), tail);
    } else {
      var head := "<TR><TD>" + Escape(v.members[i].0) + "</TD><TD ";
      assert RowText(Rows(v)[i]) == head + PortAttr(i) + tail;
      ContainsMiddle(head, PortAttr(i), tail);
    }
  }

  /** The document is the preamble, then the statements of every visit in
      the order of the walk, then the closing brace: it opens the digraph and
      ends by closing it. */
  lemma DocumentShape(data: Json, rootLabel: string)
    ensures Document(data, rootLabel) ==
              Concat(Preamble(rootLabel)) + Concat(Chunks(Walk(Named("root"), data, 0).visits)) + "}\n"
    ensures IsPrefix("digraph G {\n", Document(data, rootLabel))
    ensures |Document(data, rootLabel)| >= 2
    ensures Document(data, rootLabel)[|Document(data, rootLabel)| - 2..] == "}\n"
  {
    var pre, body := Preamble(rootLabel), Chunks(Walk(Named("root"), data, 0).visits);
    ConcatAppend(pre + body, ["}\n"]);
    ConcatAppend(pre, body);
    assert Concat(["}\n"]) == "}\n";
    var head := Concat(pre);
    assert head == "digraph G {\n" + Concat(pre[1..]);
    var doc := head + Concat(body) + "}\n";
    assert doc[..|"digraph G {\n"|] == "digraph G {\n";
  }

  /** The statements of a visit end with its edge line. */
  lemma VisitChunksEnd(w: Visit)
    ensures |VisitChunks(w)| >= 2
    ensures VisitChunks(w)[|VisitChunks(w)| - 1] == EdgeLine(w.src, w.id)
  {
  }

  lemma ChunksCons(vs: seq<Visit>)
    requires |vs| >= 1
    ensures Chunks(vs) == VisitChunks(vs[0]) + Chunks(vs[1..])
  {
  }

  lemma RootEdgeText()
    ensures EdgeLine(Named("root"), 0) == "root->N0000;\n"
  {
    FirstName();
    assert AnchorText(Named("root")) == "root";
  }

  /** The first statements written after the preamble are those of the
      top-level value: node `N0000` and its edge from `root`. */
  lemma RootFirst(data: Json)
    ensures var visits := Walk(Named("root"), data, 0).visits;
      && visits[0] == Visit(Named("root"), 0, data)
      && Chunks(visits) == VisitChunks(visits[0]) + Chunks(visits[1..])
      && VisitChunks(visits[0])[|VisitChunks(visits[0])| - 1] == "root->N0000;\n"
  {
    var visits := Walk(Named("root"), data, 0).visits;
    ChunksCons(visits);
    VisitChunksEnd(visits[0]);
    RootEdgeText();
  }

  /** Exactly one edge of the document leaves `root`. */
  lemma RootEdgeUnique(data: Json)
    ensures CountFrom(Walk(Named("root"), data, 0).visits, Named("root")) == 1
  {
    var visits := Walk(Named("root"), data, 0).visits;
    assert visits == [visits[0]] + visits[1..];
    WalkAnchors(Named("root"), data, 0);
    CountFromAppend([visits[0]], visits[1..], Named("root"));
    CountFromNone(visits[1..], Named("root"));
  }

  /** A top-level string ending in a backslash: the escape leaves the backslash
      as it is, so the label's closing quote is written right after it (DOT
      reads that pair as an escaped quote). */
  lemma BackslashLabel()
    ensures var c := VisitChunks(Visit(Named("root"), 0, Str("a\\")))[0];
      && |c| >= 5
      && c[..5] == "N0000"
      && c[|c| - 5] == '\\'
      && c[|c| - 4..] == "\"];\n"
  {
    var w := Visit(Named("root"), 0, Str("a\\"));
    TextChunk(w);
    BackslashKept();
    FirstName();
    Ends(Next(0) + " [label=\"", "a\\", "\"];\n");
  }

  /** The first chunk of a scalar's call is its quoted, escaped label. */
  lemma TextChunk(w: Visit)
    requires !IsComposite(w.value)
    ensures VisitChunks(w)[0] == Next(w.id) + " [label=\"" + Escape(ScalarText(w.value)) + "\"];\n"
  {
  }

  lemma Ends(head: string, e: string, tail: string)
    requires |head| >= 5 && |e| >= 1
    ensures var c := head + e + tail;
      && c[..5] == head[..5]
      && c[|c| - |tail| - 1] == e[|e| - 1]
      && c[|c| - |tail|..] == tail
  {
  }

  lemma BackslashKept()
    ensures Escape("a\\") == "a\\"
  {
    EscapeOnePlain('a');
    EscapeOnePlain('\\');
    EscapeAppend("a", "\\");
    assert "a" + "\\" == "a\\";
  }
}
