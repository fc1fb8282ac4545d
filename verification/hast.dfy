/**
 * HAST (HTML syntax tree) to Vue nodes, in the two converters of the
 * frontend: `astNodeToVNode` with `transformProperties`, which renames
 * camel-case `data*` properties and stringifies values, and the
 * highlighter's `hastToVNode`, which copies properties as they are.
 */
module Hast {
  import opened Common
  import opened Text
  import opened VNodes

  /** A node that may appear among children: element, text, comment, or any other type. */
  datatype HNode =
    | Element(tagName: string, properties: seq<(string, Prop)>, children: seq<HNode>)
    | HText(value: string)
    | Comment(value: string)
    | Other(kind: string)

  datatype Root = Root(children: seq<HNode>)

  // ---------------------------------------------------------------------------
  // Property names
  // ---------------------------------------------------------------------------

  /** `.replace(/([A-Z])/g, "-$1")`: a dash before every capital letter. */
  function Dashify(s: string): (r: string)
    ensures |r| >= |s|
  {
    if |s| == 0 then ""
    else (if IsUpperAscii(s[0]) then "-" + [s[0]] else [s[0]]) + Dashify(s[1..])
  }

  /** A `data` key whose fifth character is unchanged by upper-casing is renamed. */
  predicate Renamed(key: string) {
    HasPrefix(key, "data") && |key| > 4 && UpperChar(key[4]) == key[4]
  }

  /** The prop name for a property key: `dataFooBar` becomes `data-foo-bar`. */
  function PropName(key: string): (name: string)
    ensures Renamed(key) ==> HasPrefix(name, "data") && forall i :: 0 <= i < |name| ==> !IsUpperAscii(name[i])
    ensures !Renamed(key) ==> name == key
  {
    if Renamed(key) then
      var tail := ToLower(Dashify(key[4..]));
      assert forall i :: 0 <= i < |tail| ==> !IsUpperAscii(tail[i]);
      "data" + tail
    else key
  }

  /** The `dataset` spelling of a `data-` attribute: a capital for each letter after a dash. */
  function CamelTail(s: string): string {
    if |s| == 0 then ""
    else if s[0] == '-' && |s| > 1 then [UpperChar(s[1])] + CamelTail(s[2..])
    else [s[0]] + CamelTail(s[1..])
  }

  lemma ToLowerAppend(a: string, b: string)
    ensures ToLower(a + b) == ToLower(a) + ToLower(b)
  {
    var l, r := ToLower(a + b), ToLower(a) + ToLower(b);
    forall i | 0 <= i < |a + b| ensures l[i] == r[i] {
      if i < |a| {
        assert (a + b)[i] == a[i] && r[i] == ToLower(a)[i];
      } else {
        assert (a + b)[i] == b[i - |a|] && r[i] == ToLower(b)[i - |a|];
      }
    }
  }

  lemma {:induction false} CamelOfDashed(s: string)
    requires '-' !in s
    ensures CamelTail(ToLower(Dashify(s))) == s
  {
    if |s| > 0 {
      var c := s[0];
      assert s == [c] + s[1..];
      assert '-' !in s[1..] by { assert forall x :: x in s[1..] ==> x in s; }
      CamelOfDashed(s[1..]);
      DashedAppend([c], s[1..]);
      var rest := ToLower(Dashify(s[1..]));
      var h := ToLower(Dashify([c]));
      assert [c][1..] == [];
      if IsUpperAscii(c) {
        assert h == ['-', LowerChar(c)];
        assert (h + rest)[0] == '-' && (h + rest)[1] == LowerChar(c) && (h + rest)[2..] == rest;
      } else {
        assert h == [c];
        assert (h + rest)[0] == c && (h + rest)[1..] == rest;
      }
    }
  }

  /**
   * The rename loses nothing for keys without dashes: reading the prop name
   * back in `dataset` spelling gives the property key.
   */
  lemma PropNameRoundTrip(key: string)
    requires Renamed(key) && '-' !in key
    ensures "data" + CamelTail(PropName(key)[4..]) == key
  {
    assert '-' !in key[4..] by { assert forall c :: c in key[4..] ==> c in key; }
    CamelOfDashed(key[4..]);
    assert PropName(key)[4..] == ToLower(Dashify(key[4..]));
    assert key == key[..4] + key[4..];
  }

  /** No capital letters: a word that `Dashify` and lower-casing leave alone. */
  predicate NoCapitals(w: string) {
    forall i :: 0 <= i < |w| ==> !IsUpperAscii(w[i])
  }

  lemma {:induction false} DashifyAppend(a: string, b: string)
    ensures Dashify(a + b) == Dashify(a) + Dashify(b)
    decreases |a|
  {
    if |a| == 0 {
      assert a + b == b;
    } else {
      assert (a + b)[0] == a[0] && (a + b)[1..] == a[1..] + b;
      DashifyAppend(a[1..], b);
    }
  }

  lemma {:induction false} DashifyNoCapitals(w: string)
    requires NoCapitals(w)
    ensures Dashify(w) == w
    decreases |w|
  {
    if |w| > 0 {
      DashifyNoCapitals(w[1..]);
      assert w == [w[0]] + w[1..];
    }
  }

  /** A capitalised word, `Foo`, is dashed and lower-cased to `-foo`. */
  lemma WordDashed(c: char, w: string)
    requires IsUpperAscii(c) && NoCapitals(w)
    ensures ToLower(Dashify([c] + w)) == "-" + [LowerChar(c)] + w
  {
    DashifyAppend([c], w);
    DashifyNoCapitals(w);
    assert [c][1..] == [];
    var d := "-" + [c] + w;
    assert Dashify([c] + w) == d;
    assert ToLower(d) == "-" + [LowerChar(c)] + w;
  }

  /** Dashing and lower-casing works piece by piece. */
  lemma DashedAppend(a: string, b: string)
    ensures ToLower(Dashify(a + b)) == ToLower(Dashify(a)) + ToLower(Dashify(b))
  {
    DashifyAppend(a, b);
    ToLowerAppend(Dashify(a), Dashify(b));
  }

  /**
   * `dataFooBar` becomes `data-foo-bar`: after `data`, every capitalised
   * word is lower-cased behind a dash.
   */
  lemma CamelKeyRenamed(c1: char, w1: string, c2: char, w2: string)
    requires IsUpperAscii(c1) && IsUpperAscii(c2) && NoCapitals(w1) && NoCapitals(w2)
    ensures PropName("data" + (([c1] + w1) + ([c2] + w2)))
         == "data" + (("-" + [LowerChar(c1)] + w1) + ("-" + [LowerChar(c2)] + w2))
  {
    var a, b := [c1] + w1, [c2] + w2;
    var key := "data" + (a + b);
    assert key[..4] == "data" && key[4..] == a + b && key[4] == c1;
    RenamedName(key);
    DashedAppend(a, b);
    WordDashed(c1, w1);
    WordDashed(c2, w2);
  }

  /** A renamed key's prop name: `data`, then the rest dashed and lower-cased. */
  lemma RenamedName(key: string)
    requires HasPrefix(key, "data") && |key| > 4 && UpperChar(key[4]) == key[4]
    ensures PropName(key) == "data" + ToLower(Dashify(key[4..]))
  {
  }

  /** A digit after `data` takes the rename too (`data1X`); `database` does not. */
  lemma OtherKeysRenamed()
    ensures PropName("data1X") == "data1-x"
    ensures PropName("database") == "database"
  {
    assert "data1X"[4..] == "1X";
    assert Dashify("X") == "-X";
    assert Dashify("1X") == "1-X";
    assert ToLower("1-X") == "1-x";
    assert !Renamed("database");
  }

  // ---------------------------------------------------------------------------
  // Property values
  // ---------------------------------------------------------------------------

  function ScalarString(x: Scalar): string {
    match x
    case SStr(s) => s
    case SNum(n) => IntToString(n)
  }

  /** `Array.prototype.join(" ")`. */
  function JoinWords(items: seq<Scalar>): string {
    if |items| == 0 then "" else Join(seq(|items|, i requires 0 <= i < |items| => ScalarString(items[i])), ' ')
  }

  /** The prop value for a property value: booleans kept, lists joined, anything else `String()`; null dropped. */
  function PropValue(v: Prop): (r: Option<Prop>)
    ensures r.None? <==> v.PNull?
    ensures r.Some? ==> r.value.PStr? || r.value.PBool?
    ensures v.PBool? || v.PStr? ==> r == Some(v)
  {
    match v
    case PBool(_) => Some(v)
    case PList(items) => Some(PStr(JoinWords(items)))
    case PNull => None
    case PStr(_) => Some(v)
    case PNum(n) => Some(PStr(IntToString(n)))
  }

  /** Some entry sets prop `name` to a non-null value. */
  predicate Sets(entries: seq<(string, Prop)>, name: string) {
    exists i :: 0 <= i < |entries| && PropName(entries[i].0) == name && !entries[i].1.PNull?
  }

  /** Entry `i` sets prop `name`, and no later entry sets it again. */
  predicate LastSetter(entries: seq<(string, Prop)>, i: int, name: string) {
    && 0 <= i < |entries| && PropName(entries[i].0) == name && !entries[i].1.PNull?
    && forall j :: i < j < |entries| && PropName(entries[j].0) == name ==> entries[j].1.PNull?
  }

  /**
   * `transformProperties`: the entries in order, each setting its prop
   * name unless its value is null.
   */
  function TransformProperties(entries: seq<(string, Prop)>): Props {
    if |entries| == 0 then map[]
    else
      var acc := TransformProperties(entries[..|entries| - 1]);
      var (key, value) := entries[|entries| - 1];
      match PropValue(value)
      case None => acc
      case Some(p) => acc[PropName(key) := p]
  }

  /** A prop is set exactly when some entry with that prop name has a non-null value. */
  lemma {:induction false} TransformPropertiesKeys(entries: seq<(string, Prop)>)
    ensures forall name :: name in TransformProperties(entries) <==> Sets(entries, name)
  {
    if |entries| > 0 {
      var n := |entries| - 1;
      var init := entries[..n];
      TransformPropertiesKeys(init);
      var acc := TransformProperties(init);
      var r := TransformProperties(entries);
      var (key, value) := entries[n];
      assert forall i :: 0 <= i < n ==> init[i] == entries[i];
      forall name ensures name in r <==> Sets(entries, name) {
        if name in r && !(PropValue(value).Some? && name == PropName(key)) {
          assert name in acc;
          var i :| 0 <= i < n && PropName(init[i].0) == name && !init[i].1.PNull?;
          assert PropName(entries[i].0) == name && !entries[i].1.PNull?;
        }
        if Sets(entries, name) {
          var i :| 0 <= i < |entries| && PropName(entries[i].0) == name && !entries[i].1.PNull?;
          if i < n {
            assert PropName(init[i].0) == name && !init[i].1.PNull?;
          }
        }
      }
    }
  }

  /** A prop holds the converted value of the last entry that sets it: a later entry with the same prop name wins. */
  lemma {:induction false} TransformPropertiesLastWins(entries: seq<(string, Prop)>)
    ensures forall name :: name in TransformProperties(entries) ==> LastWins(entries, name)
  {
    if |entries| > 0 {
      TransformPropertiesLastWins(entries[..|entries| - 1]);
      forall name | name in TransformProperties(entries) ensures LastWins(entries, name) {
        LastWinsStep(entries, name);
      }
    }
  }

  /** Prop `name` holds the converted value of its last setter. */
  ghost predicate LastWins(entries: seq<(string, Prop)>, name: string)
    requires name in TransformProperties(entries)
  {
    exists i :: LastSetter(entries, i, name) && Some(TransformProperties(entries)[name]) == PropValue(entries[i].1)
  }

  lemma LastWinsStep(entries: seq<(string, Prop)>, name: string)
    requires |entries| > 0 && name in TransformProperties(entries)
    requires var init := entries[..|entries| - 1]; name in TransformProperties(init) ==> LastWins(init, name)
    ensures LastWins(entries, name)
  {
    var n := |entries| - 1;
    var init := entries[..n];
    var (key, value) := entries[n];
    if PropValue(value).Some? && name == PropName(key) {
      assert LastSetter(entries, n, name);
    } else {
      var i :| LastSetter(init, i, name) && Some(TransformProperties(init)[name]) == PropValue(init[i].1);
      assert init[i] == entries[i];
      forall j | i < j < |entries| && PropName(entries[j].0) == name
        ensures entries[j].1.PNull?
      {
        if j < n {
          assert init[j] == entries[j];
        }
      }
      assert LastSetter(entries, i, name);
    }
  }

  // ---------------------------------------------------------------------------
  // astNodeToVNode
  // ---------------------------------------------------------------------------

  /** An element, or a text node as a `span`; comments and unknown types give nothing. */
  function NodeToVNode(n: HNode): (r: Option<VNode>)
    ensures r.Some? <==> n.Element? || n.HText?
    decreases n, 1
  {
    match n
    case Element(tag, props, children) => Some(Elem(tag, TransformProperties(props), ChildrenToVNodes(children)))
    case HText(value) => Some(Elem("span", map[], [Text(value)]))
    case Comment(_) => None
    case Other(_) => None
  }

  /** `children.map(astNodeToVNode).filter(Boolean)`. */
  function ChildrenToVNodes(ns: seq<HNode>): (r: seq<VNode>)
    ensures |r| <= |ns|
    decreases ns, 0
  {
    if |ns| == 0 then []
    else
      match NodeToVNode(ns[0])
      case None => ChildrenToVNodes(ns[1..])
      case Some(v) => [v] + ChildrenToVNodes(ns[1..])
  }

  /** A root becomes the list of its converted children. */
  function RootToVNodes(root: Root): (r: seq<VNode>)
    ensures |r| <= |root.children|
  {
    ChildrenToVNodes(root.children)
  }

  /** The text a HAST shows, read straight off the tree: text values in document order. */
  function HastText(ns: seq<HNode>): string
    decreases ns, 0
  {
    if |ns| == 0 then "" else HastNodeText(ns[0]) + HastText(ns[1..])
  }

  function HastNodeText(n: HNode): string
    decreases n, 1
  {
    match n
    case Element(_, _, children) => HastText(children)
    case HText(value) => value
    case Comment(_) => ""
    case Other(_) => ""
  }

  /** The converted tree shows the same text as the HAST, in the same order. */
  lemma {:induction false} ChildrenKeepText(ns: seq<HNode>)
    ensures TextContent(ChildrenToVNodes(ns)) == HastText(ns)
    decreases ns, 0
  {
    if |ns| > 0 {
      NodeKeepsText(ns[0]);
      ChildrenKeepText(ns[1..]);
    }
  }

  lemma {:induction false} NodeKeepsText(n: HNode)
    ensures NodeToVNode(n).Some? ==> NodeText(NodeToVNode(n).value) == HastNodeText(n)
    ensures NodeToVNode(n).None? ==> HastNodeText(n) == ""
    decreases n, 1
  {
    match n
    case Element(_, _, children) => ChildrenKeepText(children);
    case HText(value) =>
      OneNodeText(Text(value));
      assert NodeText(Elem("span", map[], [Text(value)])) == TextContent([Text(value)]);
    case Comment(_) =>
    case Other(_) =>
  }

  /** The elements and texts of a root are kept, in order, one output node each. */
  lemma {:induction false} RootKeepsNodes(ns: seq<HNode>)
    ensures |ChildrenToVNodes(ns)| == |Kept(ns)|
    ensures forall i :: 0 <= i < |Kept(ns)| ==> Some(ChildrenToVNodes(ns)[i]) == NodeToVNode(Kept(ns)[i])
  {
    if |ns| > 0 {
      RootKeepsNodes(ns[1..]);
      var out, k := ChildrenToVNodes(ns[1..]), Kept(ns[1..]);
      if ns[0].Element? || ns[0].HText? {
        var v := NodeToVNode(ns[0]).value;
        assert ChildrenToVNodes(ns) == [v] + out;
        assert Kept(ns) == [ns[0]] + k;
        forall i | 0 <= i < |k| + 1
          ensures Some(([v] + out)[i]) == NodeToVNode(([ns[0]] + k)[i])
        {
          if i > 0 {
            assert ([v] + out)[i] == out[i - 1] && ([ns[0]] + k)[i] == k[i - 1];
          }
        }
      } else {
        assert ChildrenToVNodes(ns) == out && Kept(ns) == k;
      }
    }
  }

  /** The elements and texts, in order. */
  function Kept(ns: seq<HNode>): (r: seq<HNode>)
    ensures forall x :: x in r <==> x in ns && (x.Element? || x.HText?)
  {
    if |ns| == 0 then []
    else if ns[0].Element? || ns[0].HText? then [ns[0]] + Kept(ns[1..])
    else Kept(ns[1..])
  }

  // ---------------------------------------------------------------------------
  // The highlighter's hastToVNode
  // ---------------------------------------------------------------------------

  /** `{ ...properties }`: the properties as they are, a later key winning. */
  function Spread(entries: seq<(string, Prop)>): (r: Props)
    ensures forall k :: k in r <==> exists i :: 0 <= i < |entries| && entries[i].0 == k
  {
    if |entries| == 0 then map[]
    else
      var init := entries[..|entries| - 1];
      assert forall i :: 0 <= i < |init| ==> init[i] == entries[i];
      Spread(init)[entries[|entries| - 1].0 := entries[|entries| - 1].1]
  }

  /** Entry `i` is the last one with its key. */
  predicate LastOfKey(entries: seq<(string, Prop)>, i: int)
    requires 0 <= i < |entries|
  {
    forall j :: i < j < |entries| ==> entries[j].0 != entries[i].0
  }

  /** Prop `name` holds the value of the last property with that name, as the spread copies them in order. */
  lemma {:induction false} SpreadLastWins(entries: seq<(string, Prop)>, name: string)
    ensures forall i :: 0 <= i < |entries| && entries[i].0 == name && LastOfKey(entries, i) ==>
      name in Spread(entries) && Spread(entries)[name] == entries[i].1
  {
    if |entries| > 0 {
      var n := |entries| - 1;
      SpreadLastWins(entries[..n], name);
      forall i | 0 <= i < |entries| && entries[i].0 == name && LastOfKey(entries, i)
        ensures name in Spread(entries) && Spread(entries)[name] == entries[i].1
      {
        if i < n {
          SpreadEarlier(entries, name, i);
        } else {
          SpreadFinal(entries);
        }
      }
    }
  }

  /** The final entry sets its prop. */
  lemma SpreadFinal(entries: seq<(string, Prop)>)
    requires |entries| > 0
    ensures var last := entries[|entries| - 1]; last.0 in Spread(entries) && Spread(entries)[last.0] == last.1
  {
  }

  /** A last setter before the final entry: the final entry has another name and leaves the prop alone. */
  lemma SpreadEarlier(entries: seq<(string, Prop)>, name: string, i: nat)
    requires i < |entries| - 1 && entries[i].0 == name && LastOfKey(entries, i)
    requires var init := entries[..|entries| - 1];
      forall k :: 0 <= k < |init| && init[k].0 == name && LastOfKey(init, k) ==> name in Spread(init) && Spread(init)[name] == init[k].1
    ensures name in Spread(entries) && Spread(entries)[name] == entries[i].1
  {
    var init := entries[..|entries| - 1];
    assert init[i] == entries[i];
    assert LastOfKey(init, i);
    assert entries[|entries| - 1].0 != name;
  }

  /** `hastToVNode`: texts become bare strings, elements keep their tag and raw properties, the rest is dropped. */
  function HighlightToVNodes(ns: seq<HNode>): (r: seq<VNode>)
    ensures |r| <= |ns|
    decreases ns, 0
  {
    if |ns| == 0 then []
    else
      var rest := HighlightToVNodes(ns[1..]);
      match ns[0]
      case HText(value) => [Text(value)] + rest
      case Element(tag, props, children) => [Elem(tag, Spread(props), HighlightToVNodes(children))] + rest
      case Comment(_) => rest
      case Other(_) => rest
  }

  /** The highlighted code shows exactly the text of its HAST. */
  lemma {:induction false} HighlightKeepsText(ns: seq<HNode>)
    ensures TextContent(HighlightToVNodes(ns)) == HastText(ns)
    decreases ns
  {
    if |ns| > 0 {
      HighlightKeepsText(ns[1..]);
      var rest := HighlightToVNodes(ns[1..]);
      match ns[0]
      case HText(value) =>
        assert ([Text(value)] + rest)[1..] == rest;
      case Element(tag, props, children) =>
        HighlightKeepsText(children);
        var e := Elem(tag, Spread(props), HighlightToVNodes(children));
        assert ([e] + rest)[1..] == rest;
      case Comment(_) =>
      case Other(_) =>
    }
  }

  /** An output node shows a kept HAST node: a text as the same text, an element with the same tag. */
  predicate Shows(v: VNode, n: HNode) {
    (n.HText? ==> v == Text(n.value)) && (n.Element? ==> v.Elem? && v.tag == n.tagName)
  }

  /** One output node per kept node, each showing its counterpart. */
  predicate Mirrors(out: seq<VNode>, kept: seq<HNode>) {
    |out| == |kept| && forall i :: 0 <= i < |kept| ==> Shows(out[i], kept[i])
  }

  /** One output node per element or text, with the same tag or text, in order. */
  lemma {:induction false} HighlightKeepsOrder(ns: seq<HNode>)
    ensures Mirrors(HighlightToVNodes(ns), Kept(ns))
  {
    if |ns| > 0 {
      HighlightKeepsOrder(ns[1..]);
      var rest := HighlightToVNodes(ns[1..]);
      var k := Kept(ns[1..]);
      if ns[0].Element? || ns[0].HText? {
        var x := HighlightToVNodes(ns)[0];
        assert HighlightToVNodes(ns) == [x] + rest;
        assert Kept(ns) == [ns[0]] + k;
        ConsMirrors(x, ns[0], rest, k);
      } else {
        assert HighlightToVNodes(ns) == rest;
        assert Kept(ns) == k;
      }
    }
  }

  lemma ConsMirrors(x: VNode, n: HNode, out: seq<VNode>, kept: seq<HNode>)
    requires Shows(x, n) && Mirrors(out, kept)
    ensures Mirrors([x] + out, [n] + kept)
  {
    forall i | 0 <= i < |kept| + 1
      ensures Shows(([x] + out)[i], ([n] + kept)[i])
    {
      if i > 0 {
        assert ([x] + out)[i] == out[i - 1] && ([n] + kept)[i] == kept[i - 1];
      }
    }
  }
}
