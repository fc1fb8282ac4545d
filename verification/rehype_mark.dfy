/**
 * The `rehypeMark` plugin: every text node of the HTML tree is split on
 * `==X==` runs, each run becoming a `mark` element holding the text `X`.
 * The scan is that of the global regular expression `==([\s\S]+?)==`:
 * from the current position, the first place where two equals signs open a
 * run that some later pair of equals signs closes, with at least one
 * character between, and the nearest such closing pair (the lazy `+?`).
 */
module RehypeMark {
  import opened Common
  import opened Hast

  /** Two equals signs start at `q`. */
  predicate Fence(v: string, q: int) {
    0 <= q && q + 2 <= |v| && v[q] == '=' && v[q + 1] == '='
  }

  /** The first pair of equals signs at or after `q`. */
  function FirstFence(v: string, q: nat): (r: Option<nat>)
    ensures r.Some? ==> q <= r.value && r.value + 2 <= |v|
    decreases |v| - q
  {
    if q + 2 > |v| then None
    else if Fence(v, q) then Some(q)
    else FirstFence(v, q + 1)
  }

  /** `FirstFence` finds a pair, and none before it; or there is none. */
  lemma {:induction false} FirstFenceSpec(v: string, q: nat)
    ensures var r := FirstFence(v, q);
      && (r.Some? ==> Fence(v, r.value) && forall j :: q <= j < r.value ==> !Fence(v, j))
      && (r.None? ==> forall j :: q <= j ==> !Fence(v, j))
    decreases |v| - q
  {
    if q + 2 <= |v| && !Fence(v, q) {
      FirstFenceSpec(v, q + 1);
    }
  }

  /** A run opens at `p`: a pair here, and a closing pair with at least one character between. */
  predicate OpensRun(v: string, p: int) {
    Fence(v, p) && exists c :: p + 3 <= c < |v| && Fence(v, c)
  }

  /** `c` is the nearest closing pair for the run opening at `p`. */
  predicate NearestClose(v: string, p: int, c: int) {
    Fence(v, p) && p + 3 <= c && Fence(v, c) && forall j :: p + 3 <= j < c ==> !Fence(v, j)
  }

  /** The next run at or after `from`, as the positions of its opening and closing pairs. */
  function NextRun(v: string, from: nat): (r: Option<(nat, nat)>)
    ensures r.Some? ==> from <= r.value.0 && r.value.0 + 3 <= r.value.1 && r.value.1 + 2 <= |v|
    decreases |v| - from
  {
    if from + 2 > |v| then None
    else if Fence(v, from) && FirstFence(v, from + 3).Some? then Some((from, FirstFence(v, from + 3).value))
    else NextRun(v, from + 1)
  }

  /** `NextRun` finds the first run at or after `from` and its nearest closing pair; or there is none. */
  lemma {:induction false} NextRunSpec(v: string, from: nat)
    ensures var r := NextRun(v, from);
      && (r.Some? ==> NearestClose(v, r.value.0, r.value.1) && forall p :: from <= p < r.value.0 ==> !OpensRun(v, p))
      && (r.None? ==> forall p :: from <= p ==> !OpensRun(v, p))
    decreases |v| - from
  {
    FirstFenceSpec(v, from + 3);
    if from + 2 <= |v| && !(Fence(v, from) && FirstFence(v, from + 3).Some?) {
      NextRunSpec(v, from + 1);
    }
  }

  /** A piece of the split value: plain text, or the content of a marked run. */
  datatype Piece = Plain(text: string) | Marked(text: string)

  /** The plain text between the end of the previous run and `p`, when there is any. */
  function Pre(v: string, last: nat, p: nat): seq<Piece>
    requires last <= p <= |v|
  {
    if p > last then [Plain(v[last..p])] else []
  }

  /** The pieces of `v` from `last` on, in the order the scan produces them. */
  function Scan(v: string, last: nat): seq<Piece>
    requires last <= |v|
    decreases |v| - last
  {
    var m := NextRun(v, last);
    if m.None? then (if last < |v| then [Plain(v[last..])] else [])
    else Pre(v, last, m.value.0) + [Marked(v[m.value.0 + 2..m.value.1])] + Scan(v, m.value.1 + 2)
  }

  /** A piece written back as markdown: a marked run regains its equals signs. */
  function PieceSource(x: Piece): string {
    match x
    case Plain(s) => s
    case Marked(s) => "==" + s + "=="
  }

  function Source(xs: seq<Piece>): string
    decreases |xs|, 1
  {
    if |xs| == 0 then "" else SourceCons(xs)
  }

  /** A non-empty list written back: its first piece, then the rest. */
  function SourceCons(xs: seq<Piece>): string
    requires |xs| > 0
    decreases |xs|, 0
  {
    PieceSource(xs[0]) + Source(xs[1..])
  }

  lemma {:induction false} SourceAppend(a: seq<Piece>, b: seq<Piece>)
    ensures Source(a + b) == Source(a) + Source(b)
  {
    if |a| > 0 {
      calc {
        Source(a + b);
        SourceCons(a + b);
        PieceSource((a + b)[0]) + Source((a + b)[1..]);
        { assert (a + b)[0] == a[0]; assert (a + b)[1..] == a[1..] + b; }
        PieceSource(a[0]) + Source(a[1..] + b);
        { SourceAppend(a[1..], b); }
        PieceSource(a[0]) + (Source(a[1..]) + Source(b));
        SourceCons(a) + Source(b);
      }
    } else {
      assert a + b == b;
    }
  }

  /** Round trip: writing the pieces back with their equals signs gives the scanned text again. */
  lemma {:induction false} ScanRoundTrip(v: string, last: nat)
    requires last <= |v|
    ensures Source(Scan(v, last)) == v[last..]
    decreases |v| - last, 1
  {
    ScanStep(v, last, NextRun(v, last));
  }

  /** One step of the scan writes back its own text; the pieces after it write back theirs by induction. */
  lemma {:induction false} ScanStep(v: string, last: nat, m: Option<(nat, nat)>)
    requires last <= |v| && m == NextRun(v, last)
    ensures Source(Scan(v, last)) == v[last..]
    decreases |v| - last, 0
  {
    if m.Some? {
      var (p, c) := m.value;
      assert last < c + 2 <= |v|;
      ScanRoundTrip(v, c + 2);
      RunStep(v, last, p, c);
    } else {
      ScanTail(v, last);
    }
  }

  /** Where a run is found and the pieces after it write back their text, all the pieces write back theirs. */
  lemma RunStep(v: string, last: nat, p: nat, c: nat)
    requires last <= |v| && NextRun(v, last) == Some((p, c))
    requires c + 2 <= |v| && Source(Scan(v, c + 2)) == v[c + 2..]
    ensures Source(Scan(v, last)) == v[last..]
  {
    ScanUnfold(v, last, p, c);
    NextRunSpec(v, last);
    RunSource(v, last, p, c, Scan(v, c + 2));
  }

  /** Where a run is found, the pieces are the text before it, the run, and the pieces after it. */
  lemma ScanUnfold(v: string, last: nat, p: nat, c: nat)
    requires last <= |v| && NextRun(v, last) == Some((p, c))
    ensures Scan(v, last) == Pre(v, last, p) + [Marked(v[p + 2..c])] + Scan(v, c + 2)
  {
  }

  /** Where no run is left, the rest is written back as it is. */
  lemma ScanTail(v: string, last: nat)
    requires last <= |v| && NextRun(v, last).None?
    ensures Source(Scan(v, last)) == v[last..]
  {
    if last < |v| {
      SourceOne(Plain(v[last..]));
    }
  }

  /** A single piece writes back as itself. */
  lemma SourceOne(x: Piece)
    ensures Source([x]) == PieceSource(x)
  {
    assert [x][1..] == [];
    assert SourceCons([x]) == PieceSource(x) + Source([]);
  }

  /** Text, a run, and pieces that write back the remainder, write back the whole. */
  lemma RunSource(v: string, last: nat, p: nat, c: nat, rest: seq<Piece>)
    requires last <= p && p + 2 <= c && c + 2 <= |v| && Fence(v, p) && Fence(v, c)
    requires Source(rest) == v[c + 2..]
    ensures Source(Pre(v, last, p) + [Marked(v[p + 2..c])] + rest) == v[last..]
  {
    MarkSource(v, p, c);
    PreSource(v, last, p);
    GlueSource(v, last, p, c + 2, Pre(v, last, p), [Marked(v[p + 2..c])], rest);
  }

  /** Pieces writing back three adjacent slices write back their union. */
  lemma GlueSource(v: string, a: nat, b: nat, c: nat, xs: seq<Piece>, ys: seq<Piece>, zs: seq<Piece>)
    requires a <= b <= c <= |v|
    requires Source(xs) == v[a..b] && Source(ys) == v[b..c] && Source(zs) == v[c..]
    ensures Source(xs + ys + zs) == v[a..]
  {
    SourceAppend(xs + ys, zs);
    SourceAppend(xs, ys);
    ThreeSlices(v, a, b, c);
  }

  lemma ThreeSlices(v: string, a: nat, b: nat, c: nat)
    requires a <= b <= c <= |v|
    ensures v[a..b] + v[b..c] + v[c..] == v[a..]
  {
    assert v[a..] == v[a..b] + v[b..];
    assert v[b..] == v[b..c] + v[c..];
  }

  lemma PreSource(v: string, last: nat, p: nat)
    requires last <= p <= |v|
    ensures Source(Pre(v, last, p)) == v[last..p]
  {
    if p > last {
      SourceOne(Plain(v[last..p]));
    }
  }

  lemma MarkSource(v: string, p: nat, c: nat)
    requires Fence(v, p) && p + 2 <= c && Fence(v, c)
    ensures Source([Marked(v[p + 2..c])]) == v[p..c + 2]
  {
    var m := v[p + 2..c];
    SourceOne(Marked(m));
    assert v[p..p + 2] == "==" by { assert v[p..p + 2][0] == '=' && v[p..p + 2][1] == '='; }
    assert v[c..c + 2] == "==" by { assert v[c..c + 2][0] == '=' && v[c..c + 2][1] == '='; }
    assert v[p..c + 2] == v[p..p + 2] + v[p + 2..c + 2];
    assert v[p + 2..c + 2] == m + v[c..c + 2];
  }

  /** No run opens anywhere in `s`. */
  predicate Unmarked(s: string) {
    forall p :: 0 <= p < |s| ==> !OpensRun(s, p)
  }

  /**
   * The content of a marked run is as short as the lazy match makes it:
   * followed by the first equals sign of its closing pair, it holds no pair
   * of equals signs except possibly at its very start.
   */
  predicate Shortest(s: string) {
    forall j :: 1 <= j < |s| ==> !Fence(s + "=", j)
  }

  /** A piece as the plugin leaves it: plain text is non-empty and holds no run, marked text is non-empty and shortest. */
  predicate WellFormed(x: Piece) {
    match x
    case Plain(s) => |s| > 0 && Unmarked(s)
    case Marked(s) => |s| > 0 && Shortest(s)
  }

  /** A run inside a slice of `v` is a run of `v` at the shifted position. */
  lemma SliceRun(v: string, a: nat, b: nat, p: int)
    requires a <= b <= |v| && OpensRun(v[a..b], p)
    ensures OpensRun(v, a + p)
  {
    var s := v[a..b];
    var c :| p + 3 <= c < |s| && Fence(s, c);
    assert Fence(v, a + c);
  }

  /** Text the scan left plain holds no run. */
  lemma PlainSliceUnmarked(v: string, a: nat, b: nat)
    requires a <= b <= |v|
    requires forall p :: a <= p < b ==> !OpensRun(v, p)
    ensures Unmarked(v[a..b])
  {
    forall p | 0 <= p < b - a ensures !OpensRun(v[a..b], p) {
      if OpensRun(v[a..b], p) {
        SliceRun(v, a, b, p);
      }
    }
  }

  /** The content between an opening pair and its nearest closing pair is shortest. */
  lemma MarkedShortest(v: string, p: nat, c: nat)
    requires NearestClose(v, p, c)
    ensures Shortest(v[p + 2..c])
  {
    var s := v[p + 2..c];
    forall j | 1 <= j < |s| ensures !Fence(s + "=", j) {
      assert (s + "=")[j] == v[p + 2 + j];
      assert (s + "=")[j + 1] == v[p + 3 + j];
      assert !Fence(v, p + 2 + j);
    }
  }

  /** Every piece of the scan is well formed. */
  lemma {:induction false} ScanWellFormed(v: string, last: nat)
    requires last <= |v|
    ensures forall i :: 0 <= i < |Scan(v, last)| ==> WellFormed(Scan(v, last)[i])
    decreases |v| - last
  {
    var xs := Scan(v, last);
    var m := NextRun(v, last);
    if m.Some? {
      var (p, c) := m.value;
      var pre := Pre(v, last, p);
      ScanWellFormed(v, c + 2);
      NextRunSpec(v, last);
      if p > last {
        PlainSliceUnmarked(v, last, p);
      }
      MarkedShortest(v, p, c);
      assert xs == pre + [Marked(v[p + 2..c])] + Scan(v, c + 2);
      forall i | 0 <= i < |xs| ensures WellFormed(xs[i]) {
        if i >= |pre| + 1 {
          assert xs[i] == Scan(v, c + 2)[i - |pre| - 1];
        }
      }
    } else if last < |v| {
      NextRunSpec(v, last);
      PlainSliceUnmarked(v, last, |v|);
      assert v[last..|v|] == v[last..];
    }
  }

  /** A value with no run comes back as itself, a single plain piece, or as nothing when it is empty. */
  lemma UnmarkedScan(v: string)
    requires Unmarked(v)
    ensures Scan(v, 0) == if v == "" then [] else [Plain(v)]
  {
    assert NextRun(v, 0).None? by {
      NextRunSpec(v, 0);
      if NextRun(v, 0).Some? {
        var (p, c) := NextRun(v, 0).value;
        assert OpensRun(v, p);
      }
    }
  }

  /** The plugin is idempotent on what it leaves: scanning a plain piece again changes nothing. */
  lemma RescanPlain(v: string, i: nat)
    requires i < |Scan(v, 0)| && Scan(v, 0)[i].Plain?
    ensures Scan(Scan(v, 0)[i].text, 0) == [Scan(v, 0)[i]]
  {
    ScanWellFormed(v, 0);
    UnmarkedScan(Scan(v, 0)[i].text);
  }

  // ---------------------------------------------------------------------------
  // Tree nodes
  // ---------------------------------------------------------------------------

  /** The node a piece becomes: a text node, or a `mark` element without properties around one. */
  function PieceNode(x: Piece): HNode {
    match x
    case Plain(s) => HText(s)
    case Marked(s) => MarkElement(s)
  }

  /** A `mark` element without properties around one text node. */
  function MarkElement(s: string): HNode {
    Element("mark", [], [HText(s)])
  }

  /** The nodes of the pieces, in order. */
  function Nodes(xs: seq<Piece>): seq<HNode> {
    if |xs| == 0 then [] else [PieceNode(xs[0])] + Nodes(xs[1..])
  }

  /** One node per piece, each the node of its piece. */
  lemma {:induction false} NodesOfPieces(xs: seq<Piece>)
    ensures |Nodes(xs)| == |xs|
    ensures forall i :: 0 <= i < |xs| ==> Nodes(xs)[i] == PieceNode(xs[i])
  {
    if |xs| > 0 {
      NodesOfPieces(xs[1..]);
    }
  }

  /** The nodes that replace a text node with value `v`. */
  function MarkNodes(v: string): seq<HNode> {
    Nodes(Scan(v, 0))
  }

  /**
   * The scanning loop as the plugin writes it: `last` is the regular
   * expression's `lastIndex`; text before each run, the run as a `mark`,
   * and finally the text after the last run.
   */
  method SplitText(v: string) returns (children: seq<HNode>)
    ensures children == MarkNodes(v)
  {
    var last: nat := 0;
    children := [];
    var m := NextRun(v, last);
    while m.Some?
      invariant last <= |v| && m == NextRun(v, last)
      invariant children + Nodes(Scan(v, last)) == MarkNodes(v)
      decreases |v| - last
    {
      var (p, c) := m.value;
      var found := (if p > last then [HText(v[last..p])] else []) + [MarkElement(v[p + 2..c])];
      LoopStep(v, last, p, c, children);
      children := children + found;
      last := c + 2;
      m := NextRun(v, last);
    }
    LoopEnd(v, last, children);
    if last < |v| {
      children := children + [HText(v[last..])];
    }
  }

  /** After the last run the loop adds the rest of the value, if any, and has every piece. */
  lemma LoopEnd(v: string, last: nat, children: seq<HNode>)
    requires last <= |v| && NextRun(v, last).None?
    requires children + Nodes(Scan(v, last)) == MarkNodes(v)
    ensures (if last < |v| then children + [HText(v[last..])] else children) == MarkNodes(v)
  {
    if last == |v| {
      assert Nodes(Scan(v, last)) == [];
      assert children + [] == children;
    }
  }

  /** One round of the loop keeps the nodes found so far plus the nodes still to find equal to the whole. */
  lemma LoopStep(v: string, last: nat, p: nat, c: nat, children: seq<HNode>)
    requires last <= |v| && NextRun(v, last) == Some((p, c))
    ensures last <= p && p + 3 <= c && c + 2 <= |v|
    ensures children + Nodes(Scan(v, last)) ==
      children + ((if p > last then [HText(v[last..p])] else []) + [MarkElement(v[p + 2..c])]) + Nodes(Scan(v, c + 2))
  {
    var found := (if p > last then [HText(v[last..p])] else []) + [MarkElement(v[p + 2..c])];
    var rest := Nodes(Scan(v, c + 2));
    ScanNodesStep(v, last);
    assert Nodes(Scan(v, last)) == found + rest;
    AppendAssoc(children, found, rest);
  }

  lemma AppendAssoc<T>(a: seq<T>, b: seq<T>, c: seq<T>)
    ensures a + (b + c) == a + b + c
  {
  }

  /** What one round of the scanning loop adds. */
  lemma ScanNodesStep(v: string, last: nat)
    requires last <= |v| && NextRun(v, last).Some?
    ensures var (p, c) := NextRun(v, last).value;
      Nodes(Scan(v, last)) == (if p > last then [HText(v[last..p])] else [])
        + [MarkElement(v[p + 2..c])] + Nodes(Scan(v, c + 2))
  {
    var (p, c) := NextRun(v, last).value;
    var pre := Pre(v, last, p);
    assert Scan(v, last) == pre + [Marked(v[p + 2..c])] + Scan(v, c + 2);
    NodesAppend(pre + [Marked(v[p + 2..c])], Scan(v, c + 2));
    NodesAppend(pre, [Marked(v[p + 2..c])]);
  }

  lemma {:induction false} NodesAppend(a: seq<Piece>, b: seq<Piece>)
    ensures Nodes(a + b) == Nodes(a) + Nodes(b)
  {
    if |a| > 0 {
      calc {
        Nodes(a + b);
        { assert (a + b)[0] == a[0]; assert (a + b)[1..] == a[1..] + b; }
        [PieceNode(a[0])] + Nodes(a[1..] + b);
        { NodesAppend(a[1..], b); }
        [PieceNode(a[0])] + (Nodes(a[1..]) + Nodes(b));
      }
    } else {
      assert a + b == b;
    }
  }

  /** `r` is `kids` with the text node at `i` replaced by its pieces' nodes, in place. */
  predicate Spliced(kids: seq<HNode>, i: nat, r: seq<HNode>)
    requires i < |kids| && kids[i].HText?
  {
    var nodes := MarkNodes(kids[i].value);
    && |r| == |kids| - 1 + |nodes|
    && r[..i] == kids[..i]
    && r[i..i + |nodes|] == nodes
    && r[i + |nodes|..] == kids[i + 1..]
  }

  /**
   * The visitor for the text node at `index` among `parent`'s children:
   * without a parent or an index nothing changes; otherwise the node is
   * spliced out and its pieces spliced in at the same index.
   */
  function VisitText(parent: Option<seq<HNode>>, index: Option<nat>): (r: Option<seq<HNode>>)
    requires parent.Some? && index.Some? ==> index.value < |parent.value| && parent.value[index.value].HText?
    ensures parent.None? || index.None? ==> r == parent
    ensures parent.Some? && index.Some? ==> r.Some? && Spliced(parent.value, index.value, r.value)
  {
    if parent.None? || index.None? then parent
    else
      var kids := parent.value;
      var i := index.value;
      Some(kids[..i] + MarkNodes(kids[i].value) + kids[i + 1..])
  }

  /** An empty text node is removed outright; a text node without runs is replaced by an identical one. */
  lemma VisitUnmarked(kids: seq<HNode>, i: nat)
    requires i < |kids| && kids[i].HText? && Unmarked(kids[i].value)
    ensures kids[i].value == "" ==> VisitText(Some(kids), Some(i)) == Some(kids[..i] + kids[i + 1..])
    ensures kids[i].value != "" ==> VisitText(Some(kids), Some(i)) == Some(kids)
  {
    UnmarkedScan(kids[i].value);
    if kids[i].value != "" {
      var x := kids[i].value;
      assert Scan(x, 0) == [Plain(x)];
      assert [Plain(x)][1..] == [];
      assert Nodes([Plain(x)]) == [HText(x)];
      assert kids == kids[..i] + [kids[i]] + kids[i + 1..];
    }
  }

  /** `a==b==c` becomes the text `a`, a mark holding `b`, and the text `c`. */
  lemma MarkExample()
    ensures MarkNodes("a==b==c") == [HText("a"), Element("mark", [], [HText("b")]), HText("c")]
  {
    var v := "a==b==c";
    assert !Fence(v, 0) && Fence(v, 1) && Fence(v, 4);
    assert FirstFence(v, 4) == Some(4);
    assert NextRun(v, 1) == Some((1, 4));
    assert NextRun(v, 0) == Some((1, 4));
    assert v[0..1] == "a" && v[3..4] == "b" && v[6..] == "c";
    assert Scan(v, 6) == [Plain("c")];
    assert Scan(v, 0) == [Plain("a")] + [Marked("b")] + [Plain("c")];
    assert Nodes([Plain("c")]) == [HText("c")] + Nodes([]);
    assert Nodes([Marked("b"), Plain("c")]) == [MarkElement("b")] + Nodes([Plain("c")]);
    assert Nodes([Plain("a"), Marked("b"), Plain("c")]) == [HText("a")] + Nodes([Marked("b"), Plain("c")]);
    assert [Plain("a")] + [Marked("b")] + [Plain("c")] == [Plain("a"), Marked("b"), Plain("c")];
  }
}
