# JSON → Graphviz DOT transformer

A Dafny model of the part of `graph_app.py` that turns a JSON value into the
text of a Graphviz DOT document:

- `_next(n)`: the node name `N` followed by n zero-padded to four digits;
- `_to_dot(parent, data, idx, buf)`: a depth-first, pre-order walk. Each list
  or dict becomes one HTML-like `<TABLE>` node with one row per element. A
  scalar element is written inline in its row through `html.escape(str(v))`.
  A list or dict element gets a four-`&nbsp;` placeholder in its row and a node
  of its own, linked from the row's port `Nxxxx:p_i`. One counter is threaded
  through the recursion and returned;
- the DOT assembly in `json2graph`: the header, three default-attribute lines,
  the synthetic `root` node, the walk from `root` with counter 0, then the
  closing brace;
- Python's `html.escape` with its default `quote=True`.

Modules:

- `Decimal` (decimal.dfy): decimal digits of a natural number, and reading
  them back.
- `NodeNames` (node_names.dfy): `_next`.
- `HtmlEscape` (html_escape.dfy): `html.escape` as five successive
  replacements, `&` first. Also a reference per-character definition, the
  "escaped text" predicate and the decoding used for the round trip.
- `Json` (json.dfy): the values `json.load` produces, without floats, and
  Python's `str()` of a scalar.
- `DotGraph` (dot_graph.dfy): the statements `_to_dot` emits, as a
  specification function `Walk`. Each `Visit` is one call: its node
  statement, then its edge. The table rows of a node are `Rows`. The lemmas
  cover counters, names, edges, ports and escaping.
- `DotText` (dot_text.dfy): the exact strings written.
  - `StringBuffer` is the `StringIO`.
  - The methods `ToDot`, `WriteTable`, `WriteChildren`, `WriteElement` and
    `Json2Dot` write to it as the source does. Each is proved to append
    exactly what a specification function gives:
    - `ToDot` appends `Chunks(Walk(parent, data, idx).visits)`;
    - `WriteTable` appends `[name + TableOpen] + RowsText(Rows(data)) +
      [TableClose]`;
    - `WriteChildren` appends `Chunks(WalkRows(owner, data, 0, idx).visits)`;
    - `WriteElement` is one step of `WalkRows`: what it appends, followed by
      `Chunks(WalkRows(owner, data, i + 1, next).visits)`, is what was there
      before followed by `Chunks(WalkRows(owner, data, i, last).visits)`;
    - `Json2Dot` returns `Document(data, rootLabel)`.
  - Lemmas about the finished document.

## Model

| member | source | states |
|---|---|---|
| NodeNames.NextShape | graph_app.py:45-47 | the name is `N` then only digits; it has length 5 for n < 10000, and from 10000 on it has all the decimal digits of n and is longer than 5, so it is never truncated |
| NodeNames.NextValue | graph_app.py:45-47 | the digits after `N` read back as n |
| NodeNames.NextInjective | graph_app.py:45-47 | two counters give the same name if and only if they are equal |
| NodeNames.FirstName | graph_app.py:47 | counter 0 is named `N0000` |
| HtmlEscape.EscapeIsEscapeEach | graph_app.py:64 | the five replacements, `&` first, equal replacing each character by its own entity independently |
| HtmlEscape.EscapeAppend | graph_app.py:64 | escaping distributes over concatenation |
| HtmlEscape.EscapeIsSafe | graph_app.py:64 | escaped text contains no raw `<`, `>`, `"` or `'`, and every `&` in it starts one of the five entities |
| HtmlEscape.EscapeRoundTrip | graph_app.py:64 | decoding the five entities in escaped text gives back the original string |
| HtmlEscape.EscapePlain | graph_app.py:81 | text without `&`, `<`, `>`, `"` or `'` is left unchanged |
| Json.IntTextValue | graph_app.py:64 | `str()` of an integer is a minus sign exactly for negative values, then decimal digits that read back as the magnitude |
| Json.IntTextCanonical | graph_app.py:64 | the digits of `str()` of an integer are not padded: they start with `0` only for zero itself |
| DotGraph.RowsShape | graph_app.py:58-81 | a non-empty list or dict has exactly one row per element, in iteration order. Row i carries index i, the placeholder if and only if element i is a list or dict, and otherwise its escaped text. A list row is an index row; a dict row carries the escaped key. An empty container has exactly the one blank spanning row |
| DotGraph.Walk | graph_app.py:50-92 | the first statement of a call is the node `Next(idx)` with its edge from `parent`; the counter returned is idx plus the number of lists and dicts strictly inside the value, so a scalar returns idx |
| DotGraph.WalkRows | graph_app.py:68-71 | the loop over elements i, i+1, … returns the counter it was given plus the number of lists and dicts at or below those elements |
| DotGraph.WalkIds | graph_app.py:68-70 | one node is written for the value and one for each list or dict inside it; the k-th node written gets counter idx + k (pre-order, contiguous) |
| DotGraph.WalkNamesDistinct | graph_app.py:55 | no two node statements of one walk have the same name |
| DotGraph.WalkOneEdgeInto | graph_app.py:67 | every node written has exactly one incoming edge, and no edge leads to a counter the walk did not use |
| DotGraph.WalkAnchors | graph_app.py:70 | every node but the first hangs from a row port of a node written before it |
| DotGraph.PortEdges | graph_app.py:84-86 | row j's port has exactly one outgoing edge if element j is a list or dict, and none otherwise; that edge leads to the node drawn for element j; an empty container has no child edges |
| DotGraph.WalkPorts | graph_app.py:68-70 | for every node of a walk, not only the first, row j's port has exactly one outgoing edge in the whole walk if the node is a list or dict whose element j is a list or dict, and none otherwise; a scalar's node has no outgoing edge |
| DotGraph.DocumentPortEdges | graph_app.py:84-86 | the same for every node drawn from `root` with counter 0 |
| DotGraph.LabelOfEscaped | graph_app.py:79-81 | every key and every scalar text in a node's label is free of the five characters `html.escape` handles: no raw `<`, `>`, `"` or `'`, and every `&` starts an entity |
| DotGraph.WalkEscaped | graph_app.py:90 | no node label written by a walk carries one of the five characters `html.escape` handles unescaped |
| DotGraph.NestedExampleRows | graph_app.py:79-81 | `{"a": 1, "b": [2, 3]}`: the object's rows are `a / 1` and `b / placeholder`; the list's rows are `0 / 2` and `1 / 3` |
| DotGraph.NestedExampleWalk | graph_app.py:84-86 | `{"a": 1, "b": [2, 3]}`: exactly two nodes, `N0000` from `root` and `N0001` from port 1 of `N0000` |
| DotGraph.EmptyListExample | graph_app.py:60-61 | `[]`: a single node with the blank spanning row, linked from `root` |
| DotGraph.SingleMemberRows | graph_app.py:79-81 | a dict with one scalar member has one row: the escaped key and the escaped value text |
| DotGraph.NullExampleRows | graph_app.py:80 | `{"x": null}`: one row, `x / None` |
| DotGraph.NullExampleWalk | graph_app.py:84-87 | `{"x": null}`: no node below the object's own |
| DotText.StringBuffer.constructor | graph_app.py:100 | a new buffer is empty |
| DotText.StringBuffer.Write | graph_app.py:101 | a write appends its string and changes nothing else |
| DotText.ToDot | graph_app.py:50-92 | appends to the buffer exactly the statements of the walk from `parent` with counter idx, and returns idx plus the number of lists and dicts inside the value |
| DotText.WriteTable | graph_app.py:59-66 | appends the table opening, one row text per row of `Rows`, then the table closing |
| DotText.WriteChildren | graph_app.py:68-71 | appends exactly the statements of the recursion loop and returns the last counter used |
| DotText.WriteElement | graph_app.py:84-86 | one pass of the recursion loop: what it writes, followed by the rest of the loop, is the loop from that element on; it carries the returned counter forward |
| DotText.Json2Dot | graph_app.py:100-109 | the text handed to Graphviz is `Document`: the preamble, the walk from `root` with counter 0, then `}` |
| DotText.PortTextInjective | graph_app.py:70 | two port strings `Nxxxx:p_i` are equal if and only if they name the same node and row, and a port string is never `root` |
| DotText.PortsAgree | graph_app.py:65 | row i's text carries `PORT="p_i"`, and the edge into element i's node leaves from `Nxxxx:p_i`, the same port |
| DotText.DocumentShape | graph_app.py:100-107 | the document is the preamble, then the statements of every call in walk order, then `}`; it starts with `digraph G {` and ends with `}` |
| DotText.RootFirst | graph_app.py:106 | the first statements after the preamble are node `N0000` for the top-level value, ending with the edge `root->N0000;` |
| DotText.RootEdgeUnique | graph_app.py:105-106 | exactly one edge leaves `root` |
| DotText.BackslashLabel | graph_app.py:90 | the string `a\` at top level is written as node `N0000` whose quoted label ends with the backslash right before the closing quote: the escape leaves the backslash alone |

## Left out

- Graphviz rendering (`subprocess.run(["dot", …])`) and the rest of `json2graph`
  after `getvalue()`: external process and file output.
- The Streamlit page, file upload, `json.load`, temporary files, PIL image
  loading, base64 data URI and download button: UI and I/O.
- Font environment variables (`GDFONTPATH`, `DOT_FONTPATH`): ambient process
  configuration. The font name itself is kept as the constant `Font`.
- Floating-point JSON numbers and Python's `str(float)`. Numbers are
  integers, written as Python's `str(int)`.
- Duplicate keys in a JSON object. `json.load` keeps one entry per key. The
  model takes the members of the loaded dict as given and does not require
  the keys to be distinct. None of the properties depends on that.
- Python's recursion-depth limit for deeply nested input.
- Strings are sequences of Dafny characters. No Unicode encoding or
  normalisation is modelled.
- The default `root_label` (`"物性"`). The model takes the label as a
  parameter.
- `_to_dot`'s list and dict branches are one method. They differ only in the
  first cell of a row (the index, or the escaped key) and in iterating a
  dict's values. `RowAt` and `Child` carry that difference.
- DOT's own string quoting. A backslash in a scalar's quoted label, or in a
  key or cell of an HTML-like label, passes through `html.escape` unchanged,
  as in the source. A top-level string ending in a backslash therefore puts
  it right before the label's closing quote, which DOT reads as an escaped
  quote (`DotText.BackslashLabel` shows the chunk). The escaping properties
  cover only the five characters `html.escape` handles.
- DotText.Json2Dot: the root label is written without escaping, exactly as
  the source does. No escaping property is claimed for it.
- An interactive path-graph builder is not part of this model. It does not
  appear in `graph_app.py`.
- Scalar rendering follows the code, not an abstract null or boolean
  convention. Null is written `None` and booleans `True` and `False`, as
  Python's `str()` gives them, never JSON's `null`, `true` or `false`.
