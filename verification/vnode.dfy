/**
 * Vue virtual nodes as the frontend builds them with `h()`: a text child
 * or an element (a tag or a component name) with props and children.
 */
module VNodes {

  /** An item of a list-valued prop. */
  datatype Scalar = SStr(s: string) | SNum(n: int)

  /**
   * A prop or HAST property value: a string, a boolean, an integer, null
   * (or undefined), or a list such as a class list or an `innerHTML` given
   * an array.
   */
  datatype Prop = PStr(s: string) | PBool(b: bool) | PNum(n: int) | PNull | PList(items: seq<Scalar>)

  type Props = map<string, Prop>

  datatype VNode = Text(text: string) | Elem(tag: string, props: Props, children: seq<VNode>)

  /** The text a list of nodes shows, children before later siblings. */
  function TextContent(nodes: seq<VNode>): string
    decreases nodes, 1
  {
    if |nodes| == 0 then "" else NodeText(nodes[0]) + TextContent(nodes[1..])
  }

  function NodeText(n: VNode): string
    decreases n, 0
  {
    match n
    case Text(s) => s
    case Elem(_, _, children) => TextContent(children)
  }

  /** A lone node shows its own text. */
  lemma OneNodeText(x: VNode)
    ensures TextContent([x]) == NodeText(x)
  {
    assert [x][1..] == [];
  }

  /** The text of two runs of siblings is the text of the first, then of the second. */
  lemma {:induction false} TextContentAppend(a: seq<VNode>, b: seq<VNode>)
    ensures TextContent(a + b) == TextContent(a) + TextContent(b)
  {
    if |a| == 0 {
      assert a + b == b;
    } else {
      var ab := a + b;
      assert ab[0] == a[0];
      assert ab[1..] == a[1..] + b;
      TextContentAppend(a[1..], b);
      calc {
        TextContent(ab);
        NodeText(a[0]) + TextContent(a[1..] + b);
        NodeText(a[0]) + (TextContent(a[1..]) + TextContent(b));
        (NodeText(a[0]) + TextContent(a[1..])) + TextContent(b);
      }
    }
  }
}
