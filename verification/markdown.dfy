/**
 * `tokensToVNode`: turns a markdown-it token stream into Vue nodes with a
 * stack of open elements. Two versions exist: the current one gives every
 * element a per-type key and renders fences through `CodeWrapper`; the
 * earlier one renders fences itself with line numbers and passes raw
 * HTML through. markdown-it and the highlighters are parameters.
 */
module Markdown {
  import opened Common
  import opened Text
  import opened VNodes

  datatype Version = Current | Earlier

  /**
   * A markdown-it token: `type`, `tag`, `attrs` (or null), `content`, `info`
   * and `children`. Null children are converted exactly like an empty list,
   * so they are written as one.
   */
  datatype Token = Token(kind: string, tag: string, attrs: Option<seq<(string, string)>>, content: string,
                         info: string, children: seq<Token>)

  /**
   * What the converter is given besides the tokens: the languages Shiki has
   * loaded (current version), every spelling highlight.js resolves to a
   * registered language, names and aliases in any case (earlier version),
   * and highlight.js itself as a function of the code and the language.
   */
  datatype Env = Env(loaded: set<string>, known: set<string>, highlight: (string, string) -> string)

  /**
   * How the conversion throws: `stack.pop()!` on an empty stack
   * (destructuring `undefined`), or `hljs.highlight` given a language it
   * cannot resolve.
   */
  datatype Crash = PopEmpty | UnknownLanguage

  datatype Frame = Frame(tag: string, children: seq<VNode>, attrs: Props, key: Option<string>)

  /** The converter's locals: the open elements (innermost last), the finished top-level nodes, the key counters. */
  datatype State = State(stack: seq<Frame>, result: seq<VNode>, counters: map<string, nat>)

  const Init: State := State([], [], map[])

  predicate IsOpen(kind: string) { HasSuffix(kind, "_open") }

  predicate IsClose(kind: string) { HasSuffix(kind, "_close") }

  /** Entry `i` is the last one with its name. */
  predicate LastOfName(s: seq<(string, string)>, i: int)
    requires 0 <= i < |s|
  {
    forall j :: i < j < |s| ==> s[j].0 != s[i].0
  }

  /** `Object.fromEntries`: later entries win. */
  function FromEntries(s: seq<(string, string)>): (m: Props)
    ensures forall e :: e in s ==> e.0 in m
    ensures forall k :: k in m ==> exists e :: e in s && e.0 == k && m[k] == PStr(e.1)
  {
    if |s| == 0 then map[]
    else
      var m := FromEntries(s[..|s| - 1]);
      assert forall e :: e in s ==> e in s[..|s| - 1] || e == s[|s| - 1];
      m[s[|s| - 1].0 := PStr(s[|s| - 1].1)]
  }

  /** The prop `name` carries the value of the token's last attribute of that name. */
  predicate CarriesAttr(attrs: seq<(string, string)>, p: Props, name: string) {
    forall i :: 0 <= i < |attrs| && attrs[i].0 == name && LastOfName(attrs, i) ==> name in p && p[name] == PStr(attrs[i].1)
  }

  /** Of several attributes with one name, the last one's value is the prop. */
  lemma {:induction false} FromEntriesLastWins(s: seq<(string, string)>, name: string)
    ensures CarriesAttr(s, FromEntries(s), name)
    decreases |s|
  {
    if |s| > 0 {
      var s' := s[..|s| - 1];
      FromEntriesLastWins(s', name);
      forall i | 0 <= i < |s| - 1 && s[i].0 == name && LastOfName(s, i)
        ensures name in FromEntries(s) && FromEntries(s)[name] == PStr(s[i].1)
      {
        assert s'[i] == s[i];
        assert LastOfName(s', i);
        assert s[|s| - 1].0 != name;
      }
    }
  }

  function Count(c: map<string, nat>, t: string): nat { if t in c then c[t] else 0 }

  /** `getNextKey`: `<type>-<n>` with `n` counting this call's keys of that type from 0. */
  function NextKey(c: map<string, nat>, t: string): (r: (string, map<string, nat>))
    ensures r.0 == t + "-" + NatToString(Count(c, t))
    ensures Count(r.1, t) == Count(c, t) + 1
    ensures forall u :: u != t ==> Count(r.1, u) == Count(c, u)
  {
    (t + "-" + NatToString(Count(c, t)), c[t := Count(c, t) + 1])
  }

  /** The length of the run of characters after the last `-`. */
  function AfterLastDash(s: string): nat {
    if |s| == 0 || s[|s| - 1] == '-' then 0 else AfterLastDash(s[..|s| - 1]) + 1
  }

  lemma {:induction false} AfterLastDashOfKey(t: string, a: string)
    requires '-' !in a
    ensures AfterLastDash(t + "-" + a) == |a|
    decreases |a|
  {
    if |a| > 0 {
      var s := t + "-" + a;
      assert s[|s| - 1] == a[|a| - 1];
      assert s[..|s| - 1] == t + "-" + a[..|a| - 1];
      AfterLastDashOfKey(t, a[..|a| - 1]);
    }
  }

  /** Keys of the same counter never repeat: the type and the number can be read back. */
  lemma KeyInjective(t1: string, n1: nat, t2: string, n2: nat)
    requires t1 + "-" + NatToString(n1) == t2 + "-" + NatToString(n2)
    ensures t1 == t2 && n1 == n2
  {
    var a, b := NatToString(n1), NatToString(n2);
    var s := t1 + "-" + a;
    assert forall i :: 0 <= i < |a| ==> IsDigit(a[i]);
    assert forall i :: 0 <= i < |b| ==> IsDigit(b[i]);
    AfterLastDashOfKey(t1, a);
    AfterLastDashOfKey(t2, b);
    assert a == s[|s| - |a|..] == b;
    assert t1 == s[..|t1|] == t2;
    NatToStringInjective(n1, n2);
  }

  /** `pushToParent` for a run of nodes: into the innermost open element, else into the result. */
  function Push(st: State, nodes: seq<VNode>): (r: State)
    ensures |r.stack| == |st.stack| && r.counters == st.counters
    ensures |st.stack| > 0 ==> && r.result == st.result
                               && r.stack[..|st.stack| - 1] == st.stack[..|st.stack| - 1]
                               && r.stack[|st.stack| - 1].children == st.stack[|st.stack| - 1].children + nodes
                               && r.stack[|st.stack| - 1].tag == st.stack[|st.stack| - 1].tag
    ensures |st.stack| == 0 ==> r.result == st.result + nodes
  {
    if |st.stack| > 0 then
      var top := st.stack[|st.stack| - 1];
      st.(stack := st.stack[..|st.stack| - 1] + [top.(children := top.children + nodes)])
    else st.(result := st.result + nodes)
  }

  function PropsOf(entries: seq<(string, Prop)>): Props {
    if |entries| == 0 then map[] else PropsOf(entries[..|entries| - 1])[entries[|entries| - 1].0 := entries[|entries| - 1].1]
  }

  /** The `src` and `alt` props of an image: each only when the token has it, `src` defaulting to `""` when asked. */
  function ImageProps(entries: seq<(string, string)>, srcDefault: bool): (p: Props)
    ensures p.Keys <= {"src", "alt"}
    ensures CarriesAttr(entries, p, "src") && CarriesAttr(entries, p, "alt")
    ensures srcDefault && (forall e :: e in entries ==> e.0 != "src") ==> "src" in p && p["src"] == PStr("")
    ensures !srcDefault ==> ("src" in p <==> exists e :: e in entries && e.0 == "src")
  {
    var attrs := FromEntries(entries);
    FromEntriesLastWins(entries, "src");
    FromEntriesLastWins(entries, "alt");
    var src: Props := if "src" in attrs then map["src" := attrs["src"]]
                      else if srcDefault then map["src" := PStr("")] else map[];
    if "alt" in attrs then src["alt" := attrs["alt"]] else src
  }

  const LineNumberDiv: string := "<div class=\"line-number\"></div>"

  /** The language the earlier version highlights a fence in: its trimmed info string, `plaintext` when that is empty. */
  function EarlierLang(t: Token): string {
    if JsTrim(t.info) == "" then "plaintext" else JsTrim(t.info)
  }

  /** `hljs.highlight` throws: an earlier-version fence that is not skipped as `mermaid` names a language highlight.js cannot resolve. */
  predicate Throws(v: Version, env: Env, t: Token) {
    v == Earlier && t.kind == "fence" && EarlierLang(t) != "mermaid" && EarlierLang(t) !in env.known
  }

  /**
   * The earlier version's fence: a `pre` holding the line-number column and
   * the highlighted code, one line-number entry per line of the code shown.
   */
  function EarlierFence(env: Env, t: Token): (r: seq<VNode>)
    ensures r == [] <==> EarlierLang(t) == "mermaid"
    ensures r != [] ==>
      && |r| == 1 && r[0].Elem? && r[0].tag == "pre" && |r[0].children| == 2
      && var numbers, code := r[0].children[0], r[0].children[1];
         && numbers.Elem? && code.Elem? && code.tag == "code"
         && "class" in code.props && "innerHTML" in code.props && "innerHTML" in numbers.props
         && code.props["class"] == PStr("language-" + EarlierLang(t))
         && code.props["innerHTML"] == PStr(JsTrim(env.highlight(t.content, EarlierLang(t))))
         && numbers.props["innerHTML"].PList?
         && |numbers.props["innerHTML"].items| == |Split(code.props["innerHTML"].s, '\n')|
  {
    var lang := EarlierLang(t);
    if lang == "mermaid" then []
    else
      var highlighted := JsTrim(env.highlight(t.content, lang));
      var lines := Split(highlighted, '\n');
      [Elem("pre", map["class" := PStr("hljs")], [
        Elem("div", map["class" := PStr("line-numbers"), "innerHTML" := PList(seq(|lines|, _ => SStr(LineNumberDiv)))], []),
        Elem("code", map["class" := PStr("language-" + lang), "innerHTML" := PStr(highlighted)], [])])]
  }

  /** `Object.fromEntries(attrs)` with `key` added last, when the frame has one. */
  function FrameProps(f: Frame): Props {
    if f.key.Some? then f.attrs["key" := PStr(f.key.value)] else f.attrs
  }

  /** One token other than `inline`: the new state, or the crash of a `_close` with nothing open or of an unknown fence language. */
  function Step(v: Version, env: Env, t: Token, st: State): (r: Result<State, Crash>)
    ensures r.Err? <==> (!IsOpen(t.kind) && IsClose(t.kind) && |st.stack| == 0) || Throws(v, env, t)
  {
    if IsOpen(t.kind) then
      var attrs := FromEntries(t.attrs.GetOr([]));
      if t.tag == "" then Ok(st)
      else if v == Current then
        var (key, c) := NextKey(st.counters, t.tag);
        Ok(st.(stack := st.stack + [Frame(t.tag, [], attrs, Some(key))], counters := c))
      else Ok(st.(stack := st.stack + [Frame(t.tag, [], attrs, None)]))
    else if IsClose(t.kind) then
      if |st.stack| == 0 then Err(PopEmpty)
      else
        var f := st.stack[|st.stack| - 1];
        Ok(Push(st.(stack := st.stack[..|st.stack| - 1]), [Elem(f.tag, FrameProps(f), f.children)]))
    else if Throws(v, env, t) then Err(UnknownLanguage)
    else
      var (nodes, c) := Emit(v, env, t, st.counters);
      Ok(Push(st.(counters := c), nodes))
  }

  /** The nodes a leaf token adds to its parent, and the key counters after it. */
  function Emit(v: Version, env: Env, t: Token, c: map<string, nat>): (r: (seq<VNode>, map<string, nat>))
    ensures v == Earlier ==> r.1 == c
    ensures t.kind == "text" || t.kind == "code_inline" ==> (r.0 == [] <==> t.content == "")
    ensures t.kind == "text" && t.content != "" ==> r.0 == [Text(t.content)] && r.1 == c
    ensures t.kind == "code_inline" && t.content != "" ==>
      && |r.0| == 1 && r.0[0].Elem? && r.0[0].tag == "code" && r.0[0].children == [Text(t.content)]
      && (v == Current ==> r.0[0].props == map["key" := PStr(NextKey(c, "code").0)] && r.1 == NextKey(c, "code").1)
      && (v == Earlier ==> r.0[0].props == map[])
  {
    if t.kind == "text" then ((if t.content != "" then [Text(t.content)] else []), c)
    else if t.kind == "code_inline" then
      if t.content == "" then ([], c)
      else if v == Current then
        var (key, c') := NextKey(c, "code");
        ([Elem("code", map["key" := PStr(key)], [Text(t.content)])], c')
      else ([Elem("code", map[], [Text(t.content)])], c)
    else if v == Current then EmitCurrent(env, t, c)
    else (EmitEarlier(env, t), c)
  }

  /** Setting another prop keeps the one carried for `name`. */
  lemma CarriesUpdate(attrs: seq<(string, string)>, p: Props, name: string, k: string, x: Prop)
    requires CarriesAttr(attrs, p, name) && k != name
    ensures CarriesAttr(attrs, p[k := x], name)
  {
  }

  /** The props of the current version's image: its key, class `img`, lazy loading, and `src` (defaulting to `""`) and `alt` from the attributes. */
  function NuxtImgProps(entries: seq<(string, string)>, key: string): (p: Props)
    ensures p.Keys <= {"src", "alt", "key", "class", "loading"} && "src" in p
    ensures "key" in p && p["key"] == PStr(key)
    ensures "class" in p && p["class"] == PStr("img")
    ensures "loading" in p && p["loading"] == PStr("lazy")
    ensures CarriesAttr(entries, p, "src") && CarriesAttr(entries, p, "alt")
    ensures (forall e :: e in entries ==> e.0 != "src") ==> p["src"] == PStr("")
  {
    var base := ImageProps(entries, true);
    CarriesUpdate(entries, base, "src", "key", PStr(key));
    CarriesUpdate(entries, base, "alt", "key", PStr(key));
    var p1 := base["key" := PStr(key)];
    CarriesUpdate(entries, p1, "src", "class", PStr("img"));
    CarriesUpdate(entries, p1, "alt", "class", PStr("img"));
    var p2 := p1["class" := PStr("img")];
    CarriesUpdate(entries, p2, "src", "loading", PStr("lazy"));
    CarriesUpdate(entries, p2, "alt", "loading", PStr("lazy"));
    p2["loading" := PStr("lazy")]
  }

  /** The current version's image: a `NuxtImg`; nothing without attributes. */
  function CurrentImage(attrs: Option<seq<(string, string)>>, key: string): (r: seq<VNode>)
    ensures r == [] <==> attrs.None?
    ensures attrs.Some? ==> r == [Elem("NuxtImg", NuxtImgProps(attrs.value, key), [])]
  {
    if attrs.None? then [] else [Elem("NuxtImg", NuxtImgProps(attrs.value, key), [])]
  }

  /** The current version's fence: a `CodeWrapper` given the trimmed code and the trimmed info as language when Shiki has it loaded, else `plaintext`. */
  function CurrentFence(env: Env, t: Token, key: string): (r: VNode)
    ensures r.Elem? && r.tag == "CodeWrapper" && r.children == [] && r.props.Keys == {"lang", "code", "key"}
    ensures r.props["code"] == PStr(JsTrim(t.content)) && r.props["key"] == PStr(key)
    ensures r.props["lang"] == PStr(JsTrim(t.info)) || r.props["lang"] == PStr("plaintext")
    ensures r.props["lang"] == PStr(JsTrim(t.info)) <==> JsTrim(t.info) in env.loaded || JsTrim(t.info) == "plaintext"
  {
    var lang := if JsTrim(t.info) in env.loaded then JsTrim(t.info) else "plaintext";
    Elem("CodeWrapper", map["lang" := PStr(lang), "code" := PStr(JsTrim(t.content)), "key" := PStr(key)], [])
  }

  /**
   * The current version's other leaves: task-list checkboxes, rules, images
   * and fences. A rule, an image (with or without attributes) and a fence
   * each take one key of their element type.
   */
  function EmitCurrent(env: Env, t: Token, c: map<string, nat>): (r: (seq<VNode>, map<string, nat>))
    ensures t.kind !in {"checkbox_input", "hr", "image", "fence"} ==> r == ([], c)
    ensures t.kind == "checkbox_input" ==> r.1 == c && (r.0 == [] <==> t.attrs.None?)
    ensures t.kind == "checkbox_input" && t.attrs.Some? ==> r.0 == [Elem("input", FromEntries(t.attrs.value), [])]
    ensures t.kind == "hr" ==> r == ([Elem("hr", map["key" := PStr(NextKey(c, "hr").0)], [])], NextKey(c, "hr").1)
    ensures t.kind == "image" ==> r == (CurrentImage(t.attrs, NextKey(c, "img").0), NextKey(c, "img").1)
    ensures t.kind == "fence" ==> r == ([CurrentFence(env, t, NextKey(c, "pre").0)], NextKey(c, "pre").1)
  {
    if t.kind == "checkbox_input" then
      ((if t.attrs.Some? then [Elem("input", FromEntries(t.attrs.value), [])] else []), c)
    else if t.kind == "hr" then
      var (key, c') := NextKey(c, "hr");
      ([Elem("hr", map["key" := PStr(key)], [])], c')
    else if t.kind == "image" then
      var (key, c') := NextKey(c, "img");
      (CurrentImage(t.attrs, key), c')
    else if t.kind == "fence" then
      var (key, c') := NextKey(c, "pre");
      ([CurrentFence(env, t, key)], c')
    else ([], c)
  }

  /** The earlier version's other leaves: images, fences and raw HTML; rules are dropped. */
  function EmitEarlier(env: Env, t: Token): (r: seq<VNode>)
    ensures t.kind !in {"image", "fence", "html_block", "html_inline"} ==> r == []
    ensures t.kind == "image" ==> (r == [] <==> t.attrs.None?)
    ensures t.kind == "image" && t.attrs.Some? ==>
      && |r| == 1 && r[0].Elem? && r[0].tag == "img" && r[0].props.Keys <= {"src", "alt"}
      && CarriesAttr(t.attrs.value, r[0].props, "src") && CarriesAttr(t.attrs.value, r[0].props, "alt")
    ensures t.kind == "fence" ==> r == EarlierFence(env, t)
    ensures t.kind == "html_block" ==> r == [Elem("div", map["innerHTML" := PStr(t.content)], [])]
    ensures t.kind == "html_inline" ==> r == [Elem("span", map["innerHTML" := PStr(t.content)], [])]
  {
    if t.kind == "image" then
      if t.attrs.Some? then [Elem("img", ImageProps(t.attrs.value, false), [])] else []
    else if t.kind == "fence" then EarlierFence(env, t)
    else if t.kind == "html_block" then [Elem("div", map["innerHTML" := PStr(t.content)], [])]
    else if t.kind == "html_inline" then [Elem("span", map["innerHTML" := PStr(t.content)], [])]
    else []
  }

  /** `tokensToVNode`: the top-level nodes built; elements left open at the end are dropped. */
  function Convert(v: Version, env: Env, tokens: seq<Token>): Result<seq<VNode>, Crash>
    decreases tokens, 1
  {
    match Run(v, env, tokens, 0, Init)
    case Err(e) => Err(e)
    case Ok(st) => Ok(st.result)
  }

  /** The loop over the tokens from index `i`. */
  function Run(v: Version, env: Env, tokens: seq<Token>, i: nat, st: State): Result<State, Crash>
    requires i <= |tokens|
    decreases tokens, 0, |tokens| - i
  {
    if i == |tokens| then Ok(st)
    else
      match Next(v, env, tokens[i], st)
      case Err(e) => Err(e)
      case Ok(st') => Run(v, env, tokens, i + 1, st')
  }

  /** One pass of the loop's `switch`: an `inline` token, or any other. */
  function Next(v: Version, env: Env, t: Token, st: State): Result<State, Crash>
    decreases t, 2
  {
    if t.kind == "inline" then Inline(v, env, t, st) else Step(v, env, t, st)
  }

  /** An `inline` token: its children, converted with fresh counters, go to the current parent in order. */
  function Inline(v: Version, env: Env, t: Token, st: State): (r: Result<State, Crash>)
    ensures r.Ok? ==> r.value.counters == st.counters && |r.value.stack| == |st.stack|
    decreases t, 1
  {
    match Convert(v, env, t.children)
    case Err(e) => Err(e)
    case Ok(sub) => Ok(Push(st, sub))
  }

  // ---------------------------------------------------------------------------
  // Nesting
  // ---------------------------------------------------------------------------

  /**
   * The open-element depth after the tokens from index `i`, starting at
   * depth `d`: a tagged `_open` goes one deeper, a `_close` one shallower,
   * and `None` when a `_close` finds nothing open, here or in the children
   * of an `inline` token. When `closed` holds, the children of every
   * `inline` token must also end with nothing open.
   */
  function Walk(ts: seq<Token>, i: nat, d: nat, closed: bool): Option<nat>
    requires i <= |ts|
    decreases ts, 0, |ts| - i
  {
    if i == |ts| then Some(d)
    else
      var t := ts[i];
      if IsOpen(t.kind) then Walk(ts, i + 1, if t.tag != "" then d + 1 else d, closed)
      else if IsClose(t.kind) then (if d == 0 then None else Walk(ts, i + 1, d - 1, closed))
      else if t.kind == "inline" && !InlineBalanced(t, closed) then None
      else Walk(ts, i + 1, d, closed)
  }

  predicate InlineBalanced(t: Token, closed: bool)
    decreases t
  {
    var w := Walk(t.children, 0, 0, closed);
    w.Some? && (closed ==> w.value == 0)
  }

  /** Every `_close` matches a tagged `_open`, at every level. */
  predicate WellNested(tokens: seq<Token>) {
    Walk(tokens, 0, 0, true) == Some(0)
  }

  /** No fence from index `i` on, at any level, makes the highlighter throw. */
  predicate Highlightable(v: Version, env: Env, ts: seq<Token>, i: nat)
    requires i <= |ts|
    decreases ts, 0, |ts| - i
  {
    i == |ts| || (TokenHighlightable(v, env, ts[i]) && Highlightable(v, env, ts, i + 1))
  }

  predicate TokenHighlightable(v: Version, env: Env, t: Token)
    decreases t, 1
  {
    if t.kind == "inline" then Highlightable(v, env, t.children, 0) else !Throws(v, env, t)
  }

  /** The current version never throws from highlighting: an unloaded language falls back to `plaintext`. */
  lemma {:induction false} CurrentHighlightable(env: Env, ts: seq<Token>, i: nat)
    requires i <= |ts|
    ensures Highlightable(Current, env, ts, i)
    decreases ts, 0, |ts| - i
  {
    if i < |ts| {
      if ts[i].kind == "inline" {
        CurrentHighlightable(env, ts[i].children, 0);
      }
      CurrentHighlightable(env, ts, i + 1);
    }
  }

  /**
   * The conversion crashes exactly when some `_close`, at some level, finds
   * nothing open, or some earlier-version fence names a language
   * highlight.js does not know.
   */
  lemma {:induction false} RunCrashes(v: Version, env: Env, tokens: seq<Token>, i: nat, st: State)
    requires i <= |tokens|
    ensures Run(v, env, tokens, i, st).Ok? <==> Walk(tokens, i, |st.stack|, false).Some? && Highlightable(v, env, tokens, i)
    ensures Highlightable(v, env, tokens, i) ==> Run(v, env, tokens, i, st) != Err(UnknownLanguage)
    ensures Run(v, env, tokens, i, st).Ok? ==> |Run(v, env, tokens, i, st).value.stack| == Walk(tokens, i, |st.stack|, false).value
    decreases tokens, 0, |tokens| - i
  {
    if i < |tokens| {
      var t := tokens[i];
      if t.kind == "inline" {
        InlineCrashes(v, env, t, st);
        if Inline(v, env, t, st).Ok? {
          RunCrashes(v, env, tokens, i + 1, Inline(v, env, t, st).value);
        } else {
          assert Run(v, env, tokens, i, st) == Inline(v, env, t, st);
          assert Highlightable(v, env, tokens, i) ==> TokenHighlightable(v, env, t);
        }
      } else if Step(v, env, t, st).Ok? {
        StepDepth(v, env, t, st);
        RunCrashes(v, env, tokens, i + 1, Step(v, env, t, st).value);
      } else {
        assert Run(v, env, tokens, i, st) == Step(v, env, t, st);
        if Highlightable(v, env, tokens, i) {
          assert TokenHighlightable(v, env, t);
          assert Step(v, env, t, st) == Err(PopEmpty);
        }
      }
    }
  }

  lemma {:induction false} InlineCrashes(v: Version, env: Env, t: Token, st: State)
    ensures Inline(v, env, t, st).Ok? <==> InlineBalanced(t, false) && Highlightable(v, env, t.children, 0)
    ensures Highlightable(v, env, t.children, 0) ==> Inline(v, env, t, st) != Err(UnknownLanguage)
    ensures Inline(v, env, t, st).Ok? ==> |Inline(v, env, t, st).value.stack| == |st.stack|
    decreases t
  {
    ConvertCrashes(v, env, t.children);
  }

  lemma {:induction false} ConvertCrashes(v: Version, env: Env, tokens: seq<Token>)
    ensures Convert(v, env, tokens).Ok? <==> Walk(tokens, 0, 0, false).Some? && Highlightable(v, env, tokens, 0)
    ensures Highlightable(v, env, tokens, 0) ==> Convert(v, env, tokens) != Err(UnknownLanguage)
    decreases tokens, 1
  {
    RunCrashes(v, env, tokens, 0, Init);
  }

  /** How a token other than `inline` moves the depth. */
  lemma StepDepth(v: Version, env: Env, t: Token, st: State)
    requires Step(v, env, t, st).Ok?
    ensures |Step(v, env, t, st).value.stack| ==
      if IsOpen(t.kind) then (if t.tag != "" then |st.stack| + 1 else |st.stack|)
      else if IsClose(t.kind) then |st.stack| - 1
      else |st.stack|
  {
  }

  // ---------------------------------------------------------------------------
  // Text order
  // ---------------------------------------------------------------------------

  /**
   * The text a token stream carries, read without the stack: `text` and
   * `code_inline` contents and the text of `inline` children, in order.
   */
  function TokenText(t: Token): string
    decreases t, 1
  {
    if IsOpen(t.kind) || IsClose(t.kind) then ""
    else if t.kind == "inline" then TextFrom(t.children, 0)
    else if t.kind == "text" || t.kind == "code_inline" then t.content
    else ""
  }

  function TextFrom(ts: seq<Token>, i: nat): string
    requires i <= |ts|
    decreases ts, 0, |ts| - i
  {
    if i == |ts| then "" else TokenText(ts[i]) + TextFrom(ts, i + 1)
  }

  /** The text held by the open elements, outermost first. */
  function FramesText(s: seq<Frame>): string {
    if |s| == 0 then "" else FramesText(s[..|s| - 1]) + TextContent(s[|s| - 1].children)
  }

  /** The text placed so far: finished nodes, then what the open elements hold. */
  function Placed(st: State): string {
    TextContent(st.result) + FramesText(st.stack)
  }

  lemma PushText(st: State, nodes: seq<VNode>)
    ensures Placed(Push(st, nodes)) == Placed(st) + TextContent(nodes)
  {
    var n := |st.stack|;
    if n > 0 {
      var top := st.stack[n - 1];
      var s' := Push(st, nodes).stack;
      assert s'[..n - 1] == st.stack[..n - 1];
      TextContentAppend(top.children, nodes);
    } else {
      TextContentAppend(st.result, nodes);
    }
  }

  lemma NoText(x: VNode)
    requires x.Elem? && |x.children| == 0
    ensures TextContent([x]) == ""
  {
    OneNodeText(x);
  }

  /** The current version's other leaves carry no text. */
  lemma EmitCurrentText(env: Env, t: Token, c: map<string, nat>)
    ensures TextContent(EmitCurrent(env, t, c).0) == ""
  {
    var nodes := EmitCurrent(env, t, c).0;
    if |nodes| > 0 {
      assert nodes == [nodes[0]];
      NoText(nodes[0]);
    }
  }

  /** The earlier version's other leaves carry no text either; highlighted code is a prop. */
  lemma EmitEarlierText(env: Env, t: Token)
    ensures TextContent(EmitEarlier(env, t)) == ""
  {
    var nodes := EmitEarlier(env, t);
    if |nodes| > 0 {
      assert nodes == [nodes[0]];
      if t.kind == "fence" {
        var kids := nodes[0].children;
        assert |kids| == 2 && kids[0].children == [] && kids[1].children == [];
        OneNodeText(nodes[0]);
        assert NodeText(kids[0]) == "" && NodeText(kids[1]) == "";
        assert kids[1..][1..] == [];
        assert TextContent(kids[1..]) == "";
      } else {
        NoText(nodes[0]);
      }
    }
  }

  /** A leaf token adds exactly its own text. */
  lemma EmitText(v: Version, env: Env, t: Token, c: map<string, nat>)
    requires !IsOpen(t.kind) && !IsClose(t.kind) && t.kind != "inline"
    ensures TextContent(Emit(v, env, t, c).0) == TokenText(t)
  {
    var nodes := Emit(v, env, t, c).0;
    if t.kind == "text" || t.kind == "code_inline" {
      if |nodes| > 0 {
        OneNodeText(nodes[0]);
        assert nodes == [nodes[0]];
        OneNodeText(Text(t.content));
      }
    } else if v == Current {
      EmitCurrentText(env, t, c);
    } else {
      EmitEarlierText(env, t);
    }
  }

  /** A token other than `inline` places exactly its own text. */
  lemma StepText(v: Version, env: Env, t: Token, st: State)
    requires t.kind != "inline" && Step(v, env, t, st).Ok?
    ensures Placed(Step(v, env, t, st).value) == Placed(st) + TokenText(t)
  {
    if IsOpen(t.kind) {
      OpenText(v, env, t, st);
    } else if IsClose(t.kind) {
      CloseText(v, env, t, st);
    } else {
      LeafText(v, env, t, st);
    }
  }

  /** An `_open` starts an empty element, or nothing: no text is placed. */
  lemma OpenText(v: Version, env: Env, t: Token, st: State)
    requires IsOpen(t.kind)
    ensures Step(v, env, t, st).Ok?
    ensures Placed(Step(v, env, t, st).value) == Placed(st) && TokenText(t) == ""
  {
    var st' := Step(v, env, t, st).value;
    if t.tag != "" {
      assert st'.stack[..|st.stack|] == st.stack;
    }
  }

  /** A `_close` moves the finished element, with its text, to its parent. */
  lemma CloseText(v: Version, env: Env, t: Token, st: State)
    requires !IsOpen(t.kind) && IsClose(t.kind) && |st.stack| > 0
    ensures Step(v, env, t, st).Ok?
    ensures Placed(Step(v, env, t, st).value) == Placed(st) && TokenText(t) == ""
  {
    var n := |st.stack|;
    var f := st.stack[n - 1];
    PushText(st.(stack := st.stack[..n - 1]), [Elem(f.tag, FrameProps(f), f.children)]);
    OneNodeText(Elem(f.tag, FrameProps(f), f.children));
  }

  /** Any other token adds its nodes, and with them exactly its own text. */
  lemma LeafText(v: Version, env: Env, t: Token, st: State)
    requires !IsOpen(t.kind) && !IsClose(t.kind) && t.kind != "inline" && !Throws(v, env, t)
    ensures Step(v, env, t, st).Ok?
    ensures Placed(Step(v, env, t, st).value) == Placed(st) + TokenText(t)
  {
    var (nodes, c) := Emit(v, env, t, st.counters);
    PushText(st.(counters := c), nodes);
    EmitText(v, env, t, st.counters);
  }

  /**
   * On well-nested tokens the converter places every piece of text once,
   * in token order, and leaves the depth where `Walk` says.
   */
  lemma {:induction false} RunText(v: Version, env: Env, tokens: seq<Token>, i: nat, st: State)
    requires i <= |tokens| && Walk(tokens, i, |st.stack|, true).Some? && Highlightable(v, env, tokens, i)
    ensures Run(v, env, tokens, i, st).Ok?
    ensures |Run(v, env, tokens, i, st).value.stack| == Walk(tokens, i, |st.stack|, true).value
    ensures Placed(Run(v, env, tokens, i, st).value) == Placed(st) + TextFrom(tokens, i)
    decreases tokens, 0, |tokens| - i
  {
    if i < |tokens| {
      var st' := Advance(v, env, tokens, i, st);
      RunText(v, env, tokens, i + 1, st');
      assert TextFrom(tokens, i) == TokenText(tokens[i]) + TextFrom(tokens, i + 1);
    }
  }

  /** One token the walk accepts: the run continues from the state it leaves, with its text placed. */
  lemma Advance(v: Version, env: Env, tokens: seq<Token>, i: nat, st: State) returns (st': State)
    requires i < |tokens| && Walk(tokens, i, |st.stack|, true).Some? && Highlightable(v, env, tokens, i)
    ensures Walk(tokens, i, |st.stack|, true) == Walk(tokens, i + 1, |st'.stack|, true)
    ensures Run(v, env, tokens, i, st) == Run(v, env, tokens, i + 1, st')
    ensures Placed(st') == Placed(st) + TokenText(tokens[i])
    decreases tokens, 0, |tokens| - i, 1
  {
    if tokens[i].kind == "inline" {
      InlineAdvances(v, env, tokens, i, st);
      st' := Inline(v, env, tokens[i], st).value;
    } else {
      StepAdvances(v, env, tokens, i, st);
      st' := Step(v, env, tokens[i], st).value;
    }
  }

  /** One balanced `inline` token: the run continues from the state it leaves, at the same depth. */
  lemma InlineAdvances(v: Version, env: Env, tokens: seq<Token>, i: nat, st: State)
    requires i < |tokens| && tokens[i].kind == "inline" && Walk(tokens, i, |st.stack|, true).Some? && Highlightable(v, env, tokens, i)
    ensures Inline(v, env, tokens[i], st).Ok?
    ensures var st' := Inline(v, env, tokens[i], st).value;
      && Walk(tokens, i, |st.stack|, true) == Walk(tokens, i + 1, |st'.stack|, true)
      && Run(v, env, tokens, i, st) == Run(v, env, tokens, i + 1, st')
      && Placed(st') == Placed(st) + TokenText(tokens[i])
    decreases tokens, 0, |tokens| - i, 0
  {
    InlineText(v, env, tokens[i], st);
  }

  /** One other token that the walk accepts: the step succeeds and the run continues from it. */
  lemma StepAdvances(v: Version, env: Env, tokens: seq<Token>, i: nat, st: State)
    requires i < |tokens| && tokens[i].kind != "inline" && Walk(tokens, i, |st.stack|, true).Some? && Highlightable(v, env, tokens, i)
    ensures Step(v, env, tokens[i], st).Ok?
    ensures var st' := Step(v, env, tokens[i], st).value;
      && Walk(tokens, i, |st.stack|, true) == Walk(tokens, i + 1, |st'.stack|, true)
      && Run(v, env, tokens, i, st) == Run(v, env, tokens, i + 1, st')
      && Placed(st') == Placed(st) + TokenText(tokens[i])
  {
    var t := tokens[i];
    assert Step(v, env, t, st).Ok?;
    StepDepth(v, env, t, st);
    StepText(v, env, t, st);
  }

  lemma {:induction false} InlineText(v: Version, env: Env, t: Token, st: State)
    requires t.kind == "inline" && InlineBalanced(t, true) && Highlightable(v, env, t.children, 0)
    ensures Inline(v, env, t, st).Ok?
    ensures |Inline(v, env, t, st).value.stack| == |st.stack|
    ensures Placed(Inline(v, env, t, st).value) == Placed(st) + TokenText(t)
    decreases t
  {
    ConvertText(v, env, t.children);
    PushText(st, Convert(v, env, t.children).value);
  }

  /**
   * Well-nested tokens whose fences the highlighter accepts (always, in the
   * current version) convert without a crash, and the page shows their text
   * in token order.
   */
  lemma {:induction false} ConvertText(v: Version, env: Env, tokens: seq<Token>)
    requires WellNested(tokens) && Highlightable(v, env, tokens, 0)
    ensures Convert(v, env, tokens).Ok?
    ensures TextContent(Convert(v, env, tokens).value) == TextFrom(tokens, 0)
    decreases tokens, 1
  {
    RunText(v, env, tokens, 0, Init);
    var st := Run(v, env, tokens, 0, Init).value;
    assert Convert(v, env, tokens) == Ok(st.result);
    assert Placed(Init) == "";
    assert |st.stack| == 0;
    assert FramesText(st.stack) == "";
    assert Placed(st) == TextContent(st.result);
  }

  // ---------------------------------------------------------------------------
  // Examples
  // ---------------------------------------------------------------------------

  function Tok(kind: string, tag: string): Token { Token(kind, tag, None, "", "", []) }

  function TextTok(content: string): Token { Token("text", "", None, content, "", []) }

  function InlineTok(children: seq<Token>): Token { Token("inline", "", None, "", "", children) }

  /** The token types markdown-it gives an element's two ends. */
  lemma EndKinds(name: string)
    ensures IsOpen(name + "_open") && !IsClose(name + "_open")
    ensures IsClose(name + "_close") && !IsOpen(name + "_close")
  {
    var o, c := name + "_open", name + "_close";
    assert o[|o| - 5..] == "_open" && o[|o| - 1] == 'n';
    assert c[|c| - 6..] == "_close" && c[|c| - 1] == 'e';
  }

  /**
   * An `_open` with an empty tag pushes nothing, yet its `_close` pops:
   * the enclosing element is closed early and its own `_close` then crashes.
   */
  lemma UntaggedOpenUnbalances(v: Version, env: Env, outer: string, inner: string)
    requires outer != ""
    ensures Convert(v, env, [Tok(outer + "_open", outer), Tok(inner + "_open", ""), Tok(inner + "_close", ""), Tok(outer + "_close", outer)])
         == Err(PopEmpty)
  {
    var ts := [Tok(outer + "_open", outer), Tok(inner + "_open", ""), Tok(inner + "_close", ""), Tok(outer + "_close", outer)];
    UntaggedWalk(outer, inner);
    EndKinds(outer);
    EndKinds(inner);
    forall k | 0 <= k < 4 ensures TokenHighlightable(v, env, ts[k]) {
      EndHighlightable(v, env, ts[k]);
    }
    assert Highlightable(v, env, ts, 3);
    assert Highlightable(v, env, ts, 1);
    ConvertCrashes(v, env, ts);
    match Convert(v, env, ts)
    case Err(e) => assert e == PopEmpty;
  }

  /** An `_open` or `_close` token is neither a fence nor `inline`: it never reaches the highlighter. */
  lemma EndHighlightable(v: Version, env: Env, t: Token)
    requires IsOpen(t.kind) || IsClose(t.kind)
    ensures TokenHighlightable(v, env, t)
  {
    assert !IsOpen("fence") && !IsClose("fence");
    assert !IsOpen("inline") && !IsClose("inline");
  }

  lemma UntaggedWalk(outer: string, inner: string)
    requires outer != ""
    ensures Walk([Tok(outer + "_open", outer), Tok(inner + "_open", ""), Tok(inner + "_close", ""), Tok(outer + "_close", outer)], 0, 0, false)
         == None
  {
    var ts := [Tok(outer + "_open", outer), Tok(inner + "_open", ""), Tok(inner + "_close", ""), Tok(outer + "_close", outer)];
    EndKinds(outer);
    EndKinds(inner);
    assert Walk(ts, 3, 0, false) == None;
    assert Walk(ts, 1, 1, false) == Walk(ts, 3, 0, false);
  }

  /**
   * Key counters restart in every `inline` token: its children become the
   * same nodes, with the same keys, whatever was converted before, and the
   * enclosing call's counters do not move.
   */
  lemma KeysRestartPerInline(v: Version, env: Env, t: Token, st1: State, st2: State)
    requires Inline(v, env, t, st1).Ok?
    ensures exists sub :: Inline(v, env, t, st1) == Ok(Push(st1, sub)) && Inline(v, env, t, st2) == Ok(Push(st2, sub))
    ensures Inline(v, env, t, st1).value.counters == st1.counters
  {
    var sub := Convert(v, env, t.children).value;
    assert Inline(v, env, t, st1) == Ok(Push(st1, sub));
  }

  /** An earlier-version fence in a language highlight.js does not know makes the whole conversion throw. */
  lemma UnknownLanguageThrows(env: Env, fence: Token)
    requires fence.kind == "fence" && EarlierLang(fence) != "mermaid" && EarlierLang(fence) !in env.known
    ensures Convert(Earlier, env, [fence]) == Err(UnknownLanguage)
  {
    assert Next(Earlier, env, fence, Init) == Err(UnknownLanguage);
  }

  /** The current version's image without attributes emits nothing but uses up its `img` key. */
  lemma ImageWithoutAttrsTakesKey(env: Env, c: map<string, nat>)
    ensures var r := EmitCurrent(env, Token("image", "img", None, "", "", []), c);
      r.0 == [] && Count(r.1, "img") == Count(c, "img") + 1
  {
  }
}
