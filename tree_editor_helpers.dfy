/**
 * The content-extraction helpers of the condition tree editor's tests
 * (addons/web/static/tests/core/tree_editor/condition_tree_editor_test_helpers.js).
 *
 * The DOM is not queried here: what a CSS selector, `closest`, `querySelector`,
 * `innerText` or `textContent` would produce is supplied as plain attributes.
 * A `Scope` is what the helpers' selectors match below one search root, in
 * document order; `TreeNode` is one `.o_tree_editor_node` element.
 */
module TreeEditorHelpers {
  import opened Wrappers

  // ---------------------------------------------------------------------------
  // Strings
  // ---------------------------------------------------------------------------

  /** `Array.prototype.join`: the parts, with `sep` between consecutive ones. */
  function Join(parts: seq<string>, sep: string): string
  {
    if |parts| == 0 then ""
    else if |parts| == 1 then parts[0]
    else parts[0] + sep + Join(parts[1..], sep)
  }

  /** The position at which part `i` starts in `Join(parts, sep)`. */
  function Offset(parts: seq<string>, sep: string, i: nat): nat
    requires i < |parts|
  {
    if i == 0 then 0 else |parts[0]| + |sep| + Offset(parts[1..], sep, i - 1)
  }

  lemma SliceOfConcat(a: string, b: string, lo: nat, hi: nat)
    requires |a| <= lo <= hi <= |a| + |b|
    ensures (a + b)[lo..hi] == b[lo - |a|..hi - |a|]
  {
    assert forall k :: 0 <= k < hi - lo ==> (a + b)[lo..hi][k] == b[lo - |a|..hi - |a|][k];
  }

  /** A joined string ends with its last part, and nothing follows it. */
  lemma {:induction false} JoinLength(parts: seq<string>, sep: string)
    requires |parts| > 0
    ensures |Join(parts, sep)| == Offset(parts, sep, |parts| - 1) + |parts[|parts| - 1]|
  {
    if |parts| > 1 {
      var rest := parts[1..];
      JoinLength(rest, sep);
      assert Join(parts, sep) == parts[0] + sep + Join(rest, sep);
      assert Offset(parts, sep, |parts| - 1) == |parts[0]| + |sep| + Offset(rest, sep, |rest| - 1);
      assert parts[|parts| - 1] == rest[|rest| - 1];
    }
  }

  /** Part `i` of a joined string sits at its offset. */
  lemma {:induction false} JoinPartAt(parts: seq<string>, sep: string, i: nat)
    requires i < |parts|
    ensures Offset(parts, sep, i) + |parts[i]| <= |Join(parts, sep)|
    ensures Join(parts, sep)[Offset(parts, sep, i)..Offset(parts, sep, i) + |parts[i]|] == parts[i]
  {
    var j := Join(parts, sep);
    if i == 0 {
      if |parts| > 1 {
        assert j == parts[0] + (sep + Join(parts[1..], sep));
      }
    } else {
      var rest := parts[1..];
      JoinPartAt(rest, sep, i - 1);
      var head := parts[0] + sep;
      assert j == head + Join(rest, sep);
      var o := Offset(rest, sep, i - 1);
      assert parts[i] == rest[i - 1];
      SliceOfConcat(head, Join(rest, sep), |head| + o, |head| + o + |parts[i]|);
    }
  }

  /** Between parts `i` and `i + 1` of a joined string there is exactly the separator. */
  lemma {:induction false} JoinSeparatorAt(parts: seq<string>, sep: string, i: nat)
    requires i + 1 < |parts|
    ensures Offset(parts, sep, i) + |parts[i]| + |sep| == Offset(parts, sep, i + 1) <= |Join(parts, sep)|
    ensures Join(parts, sep)[Offset(parts, sep, i) + |parts[i]|..Offset(parts, sep, i + 1)] == sep
  {
    var j := Join(parts, sep);
    var rest := parts[1..];
    var head := parts[0] + sep;
    assert j == head + Join(rest, sep);
    JoinPartAt(rest, sep, i);
    if i > 0 {
      JoinSeparatorAt(rest, sep, i - 1);
      assert parts[i] == rest[i - 1];
      var o := Offset(rest, sep, i - 1);
      SliceOfConcat(head, Join(rest, sep), |head| + o + |parts[i]|, |head| + Offset(rest, sep, i));
    } else {
      assert j[|parts[0]|..|head|] == sep;
    }
  }

  /** Splitting on one character, as `String.prototype.split` does with a one-character separator. */
  function Split(s: string, c: char): (r: seq<string>)
    ensures |r| > 0
    decreases |s|
  {
    if s == [] then [""]
    else
      var rest := Split(s[1..], c);
      if s[0] == c then [""] + rest else [[s[0]] + rest[0]] + rest[1..]
  }

  lemma {:induction false} SplitWithout(s: string, c: char)
    requires c !in s
    ensures Split(s, c) == [s]
    decreases |s|
  {
    if s != [] {
      assert s[0] in s;
      assert forall k :: 0 <= k < |s[1..]| ==> s[1..][k] == s[k + 1];
      SplitWithout(s[1..], c);
      assert [s[0]] + s[1..] == s;
    }
  }

  lemma {:induction false} SplitAt(a: string, c: char, b: string)
    requires c !in a
    ensures Split(a + [c] + b, c) == [a] + Split(b, c)
    decreases |a|
  {
    var s := a + [c] + b;
    if a == [] {
      assert s[0] == c && s[1..] == b;
    } else {
      assert a[0] in a;
      assert forall k :: 0 <= k < |a[1..]| ==> a[1..][k] == a[k + 1];
      assert s[1..] == a[1..] + [c] + b;
      SplitAt(a[1..], c, b);
      assert [a[0]] + a[1..] == a;
    }
  }

  /** Splitting a joined string on its one-character separator gives the parts back. */
  lemma {:induction false} SplitJoin(parts: seq<string>, c: char)
    requires |parts| > 0
    requires forall k :: 0 <= k < |parts| ==> c !in parts[k]
    ensures Split(Join(parts, [c]), c) == parts
  {
    if |parts| == 1 {
      SplitWithout(parts[0], c);
    } else {
      SplitJoin(parts[1..], c);
      SplitAt(parts[0], c, Join(parts[1..], [c]));
      assert [parts[0]] + parts[1..] == parts;
    }
  }

  /** The characters `String.prototype.trim` removes: ECMAScript's WhiteSpace and LineTerminator. */
  const WHITESPACE: set<char> := {
    '\t', '\n', '\U{B}', '\U{C}', '\r', ' ', '\U{A0}', '\U{1680}',
    '\U{2000}', '\U{2001}', '\U{2002}', '\U{2003}', '\U{2004}', '\U{2005}',
    '\U{2006}', '\U{2007}', '\U{2008}', '\U{2009}', '\U{200A}',
    '\U{2028}', '\U{2029}', '\U{202F}', '\U{205F}', '\U{3000}', '\U{FEFF}'
  }

  predicate IsWhitespace(ch: char)
  {
    ch in WHITESPACE
  }

  /** No whitespace at either end. */
  predicate Trimmed(s: string)
  {
    s == [] || (!IsWhitespace(s[0]) && !IsWhitespace(s[|s| - 1]))
  }

  /** Nothing but whitespace. */
  predicate Blank(s: string)
  {
    forall i :: 0 <= i < |s| ==> IsWhitespace(s[i])
  }

  /** The start of `s` once the whitespace from position `i` on is skipped. */
  function TrimStartFrom(s: string, i: nat): (a: nat)
    requires i <= |s|
    ensures i <= a <= |s|
    ensures forall k :: i <= k < a ==> IsWhitespace(s[k])
    ensures a < |s| ==> !IsWhitespace(s[a])
    decreases |s| - i
  {
    if i < |s| && IsWhitespace(s[i]) then TrimStartFrom(s, i + 1) else i
  }

  /** The end of `s[..b]` once the whitespace before position `b`, down to `a`, is dropped. */
  function TrimEndFrom(s: string, a: nat, b: nat): (e: nat)
    requires a <= b <= |s|
    ensures a <= e <= b
    ensures forall k :: e <= k < b ==> IsWhitespace(s[k])
    ensures a < e ==> !IsWhitespace(s[e - 1])
    decreases b
  {
    if a < b && IsWhitespace(s[b - 1]) then TrimEndFrom(s, a, b - 1) else b
  }

  /**
   * `String.prototype.trim`: what is left of `s` once the whitespace at both
   * ends is dropped. No whitespace is left at either end, only whitespace was
   * dropped, and only an all-white string becomes empty.
   */
  function Trim(s: string): (r: string)
    ensures Trimmed(r)
    ensures r == [] <==> Blank(s)
    ensures var a := TrimStartFrom(s, 0);
      a + |r| <= |s| && r == s[a..a + |r|]
      && (forall k :: 0 <= k < a ==> IsWhitespace(s[k]))
      && (forall k :: a + |r| <= k < |s| ==> IsWhitespace(s[k]))
  {
    var a := TrimStartFrom(s, 0);
    var e := TrimEndFrom(s, a, |s|);
    s[a..e]
  }

  // ---------------------------------------------------------------------------
  // The DOM as the helpers see it
  // ---------------------------------------------------------------------------

  /** The element `queryOne("input,select,span:not(.o_tag)")` finds inside an editor. */
  datatype Control =
    | Input(value: string)            // an INPUT: its value
    | Select(selectedLabel: string)   // a SELECT: the label of its selected option
    | Span(innerText: string)         // a SPAN: its inner text

  /** An `.o_tree_editor_editor` element: its control and the inner texts of its `.o_tag` elements. */
  datatype Editor = Editor(control: Control, tags: seq<string>)

  /** A path editor: whether it holds a model field selector, that selector's chain parts, and its text. */
  datatype PathEditor = PathEditor(hasFieldSelector: bool, chainParts: seq<string>, textContent: string)

  /** What each selector of the helpers matches below one search root, in document order. */
  datatype Scope = Scope(
    pathEditors: seq<PathEditor>,
    operatorEditors: seq<Editor>,
    valueEditors: seq<Editor>,
    conditions: seq<seq<string>>,   // for each condition element, the textContent of each child node
    connectors: seq<string>,        // textContent of each connector label
    complexInputs: seq<string>)     // value of each complex-condition input

  /**
   * One `.o_tree_editor_node` element: the index (in document order) of the
   * nearest enclosing tree node, the class name of the first descendant, in
   * document order, that is a connector, a condition or a complex condition
   * (`None` when it has no such descendant), and what the selectors match
   * inside it.
   */
  datatype TreeNode = TreeNode(parent: Option<nat>, childClass: Option<string>, scope: Scope)

  /** In document order, an enclosing element comes before the elements it contains. */
  predicate ParentsPrecede(nodes: seq<TreeNode>)
  {
    forall i :: 0 <= i < |nodes| && nodes[i].parent.Some? ==> nodes[i].parent.value < i
  }

  // ---------------------------------------------------------------------------
  // Queries and string assemblers
  // ---------------------------------------------------------------------------

  /**
   * `get(selector, index, target)`: `Array.prototype.at` on the query result;
   * a negative index counts from the end, an index out of range gives undefined.
   */
  function Get<T>(matches: seq<T>, index: int): (r: Option<T>)
    ensures r.Some? <==> -|matches| <= index < |matches|
    ensures 0 <= index < |matches| ==> r == Some(matches[index])
    ensures -|matches| <= index < 0 ==> r == Some(matches[|matches| + index])
  {
    var k := if index >= 0 then index else |matches| + index;
    if 0 <= k < |matches| then Some(matches[k]) else None
  }

  /** A negative index names the same element as the non-negative one `|matches|` further on. */
  lemma GetNegative<T>(matches: seq<T>, index: int)
    requires 0 <= index < |matches|
    ensures Get(matches, index - |matches|) == Get(matches, index)
  {
  }

  /** `getValue(target)`: the value, selected label or inner text of the editor's control. */
  function GetValue(editor: Option<Editor>): (r: Option<string>)
    ensures r.Some? <==> editor.Some?
  {
    match editor
    case None => None
    case Some(e) =>
      match e.control
      case Input(v) => Some(v)
      case Select(selected) => Some(selected)
      case Span(text) => Some(text)
  }

  /** `getCurrentPath(index, target)`. */
  function GetCurrentPath(scope: Scope, index: int): (r: Option<string>)
    ensures r.Some? <==> Get(scope.pathEditors, index).Some?
    ensures r.Some? ==>
      var e := Get(scope.pathEditors, index).value;
      r.value == if e.hasFieldSelector then Join(e.chainParts, " > ") else e.textContent
  {
    match Get(scope.pathEditors, index)
    case None => None
    case Some(e) =>
      if e.hasFieldSelector then Some(Join(e.chainParts, " > ")) else Some(e.textContent)
  }

  /** `getCurrentOperator(index, target)`. */
  function GetCurrentOperator(scope: Scope, index: int): (r: Option<string>)
    ensures r.Some? <==> Get(scope.operatorEditors, index).Some?
  {
    GetValue(Get(scope.operatorEditors, index))
  }

  /**
   * `getCurrentValue(index, target)`: with tags, their texts joined by single
   * spaces, then the editor's value after one more space when that value is
   * not empty; with no tags, the plain value.
   */
  function GetCurrentValue(scope: Scope, index: int): (r: Option<string>)
    ensures var e := Get(scope.valueEditors, index);
      r.Some? <==> e.Some?
    ensures var e := Get(scope.valueEditors, index);
      e.Some? && e.value.tags == [] ==> r == GetValue(e)
    ensures var e := Get(scope.valueEditors, index);
      e.Some? && e.value.tags != [] ==>
        var v := GetValue(e).value;
        r == Some(Join(e.value.tags + (if v != "" then [v] else []), " "))
  {
    var valueEditor := Get(scope.valueEditors, index);
    var value := GetValue(valueEditor);
    if valueEditor.Some? && |valueEditor.value.tags| > 0 then
      var text := Join(valueEditor.value.tags, " ");
      JoinSnoc(valueEditor.value.tags, " ", value.value);
      assert valueEditor.value.tags + [] == valueEditor.value.tags;
      Some(if value.Some? && value.value != "" then text + " " + value.value else text)
    else
      value
  }

  lemma {:induction false} JoinSnoc(parts: seq<string>, sep: string, last: string)
    requires |parts| > 0
    ensures Join(parts + [last], sep) == Join(parts, sep) + sep + last
  {
    if |parts| > 1 {
      JoinSnoc(parts[1..], sep, last);
      assert (parts + [last])[1..] == parts[1..] + [last];
    }
  }

  /**
   * When neither the tags nor the value contain a space, the value text splits
   * back into the tags followed by the value (when that is not empty).
   */
  lemma CurrentValueRoundTrip(scope: Scope, index: int)
    requires Get(scope.valueEditors, index).Some?
    requires var e := Get(scope.valueEditors, index).value;
      e.tags != [] && (forall k :: 0 <= k < |e.tags| ==> ' ' !in e.tags[k]) && ' ' !in GetValue(Some(e)).value
    ensures var e := Get(scope.valueEditors, index).value;
      var v := GetValue(Some(e)).value;
      Split(GetCurrentValue(scope, index).value, ' ') == e.tags + (if v != "" then [v] else [])
  {
    var e := Get(scope.valueEditors, index).value;
    var v := GetValue(Some(e)).value;
    var parts := e.tags + (if v != "" then [v] else []);
    assert forall k :: 0 <= k < |parts| ==> ' ' !in parts[k] by {
      forall k | 0 <= k < |parts| ensures ' ' !in parts[k] {
        if k < |e.tags| { assert parts[k] == e.tags[k]; }
      }
    }
    SplitJoin(parts, ' ');
  }

  /** `getCurrentComplexCondition(index, target)`: the complex-condition input's value, `undefined` without one. */
  function GetCurrentComplexCondition(scope: Scope, index: int): (r: Option<string>)
    ensures r.Some? <==> -|scope.complexInputs| <= index < |scope.complexInputs|
    ensures r.Some? ==> r.value == scope.complexInputs[if index >= 0 then index else |scope.complexInputs| + index]
  {
    Get(scope.complexInputs, index)
  }

  /** `getCurrentConnector(index, target)`: "all" whenever the connector text contains "all", else that text. */
  function GetCurrentConnector(scope: Scope, index: int): (r: Option<string>)
    ensures r.Some? <==> Get(scope.connectors, index).Some?
    ensures r == Some("all") <==> Get(scope.connectors, index).Some? && HasSubstring(Get(scope.connectors, index).value, "all")
    ensures r.Some? && r.value != "all" ==> r == Get(scope.connectors, index)
  {
    var connector := Get(scope.connectors, index);
    if connector.Some? && HasSubstring(connector.value, "all") then Some("all") else connector
  }

  /** `s.includes(sub)`, and equally `s.search(sub) >= 0` for a pattern without special characters. */
  predicate HasSubstring(s: string, sub: string)
    decreases |s|
  {
    if |s| < |sub| then false else s[..|sub|] == sub || HasSubstring(s[1..], sub)
  }

  /** `getCurrentCondition(index, target)`: `[path, operator]`, and the value third when a value editor exists. */
  function GetCurrentCondition(scope: Scope, index: int): (r: seq<Option<string>>)
    ensures |r| == if Get(scope.valueEditors, index).Some? then 3 else 2
    ensures r[0] == GetCurrentPath(scope, index) && r[1] == GetCurrentOperator(scope, index)
    ensures |r| == 3 ==> r[2] == GetCurrentValue(scope, index) && r[2].Some?
  {
    var values := [GetCurrentPath(scope, index), GetCurrentOperator(scope, index)];
    if Get(scope.valueEditors, index).Some? then values + [GetCurrentValue(scope, index)] else values
  }

  /** The trimmed texts that are not empty, in order: what `getConditionText` collects. */
  function NonBlankTrimmed(texts: seq<string>): (r: seq<string>)
    ensures |r| <= |texts|
  {
    if texts == [] then []
    else
      var init := NonBlankTrimmed(texts[..|texts| - 1]);
      var t := Trim(texts[|texts| - 1]);
      if t != "" then init + [t] else init
  }

  /** Every collected text is non-empty and trimmed, and nothing is collected exactly when every text is blank. */
  lemma {:induction false} NonBlankTrimmedShape(texts: seq<string>)
    ensures forall k :: 0 <= k < |NonBlankTrimmed(texts)| ==> NonBlankTrimmed(texts)[k] != "" && Trimmed(NonBlankTrimmed(texts)[k])
    ensures NonBlankTrimmed(texts) == [] <==> forall k :: 0 <= k < |texts| ==> Trim(texts[k]) == ""
    decreases |texts|
  {
    if texts != [] {
      var n := |texts| - 1;
      var front := texts[..n];
      var t := Trim(texts[n]);
      NonBlankTrimmedShape(front);
      var init := NonBlankTrimmed(front);
      var r := NonBlankTrimmed(texts);
      if t != "" {
        assert r == init + [t];
        forall k | 0 <= k < |r| ensures r[k] != "" && Trimmed(r[k]) {
          if k < |init| {
            assert r[k] == init[k];
          }
        }
        assert Trim(texts[n]) != "";
      } else {
        assert r == init;
        if init == [] {
          forall k | 0 <= k < |texts| ensures Trim(texts[k]) == "" {
            if k < n {
              assert texts[k] == front[k];
            }
          }
        } else {
          var j :| 0 <= j < n && Trim(front[j]) != "";
          assert texts[j] == front[j];
        }
      }
    }
  }

  /** `getConditionText(index, target)`: the trimmed, non-empty child texts joined by single spaces. */
  method GetConditionText(scope: Scope, index: int) returns (r: Option<string>)
    ensures r.Some? <==> Get(scope.conditions, index).Some?
    ensures r.Some? ==> r.value == Join(NonBlankTrimmed(Get(scope.conditions, index).value), " ")
  {
    var condition := Get(scope.conditions, index);
    if condition.Some? {
      var children := condition.value;
      var texts: seq<string> := [];
      var i := 0;
      while i < |children|
        invariant 0 <= i <= |children|
        invariant texts == NonBlankTrimmed(children[..i])
      {
        var t2 := Trim(children[i]);
        if t2 != "" {
          texts := texts + [t2];
        }
        assert children[..i + 1][..i] == children[..i];
        i := i + 1;
      }
      assert children[..i] == children;
      r := Some(Join(texts, " "));
    } else {
      r := None;
    }
  }

  /** Joining non-empty parts that have no whitespace at their ends gives a string with none at its ends. */
  lemma JoinTrimmed(parts: seq<string>, sep: string)
    requires forall k :: 0 <= k < |parts| ==> parts[k] != "" && Trimmed(parts[k])
    ensures Trimmed(Join(parts, sep))
    ensures Join(parts, sep) == "" <==> parts == []
  {
    if parts != [] {
      var n := |parts| - 1;
      var j := Join(parts, sep);
      JoinPartAt(parts, sep, 0);
      JoinPartAt(parts, sep, n);
      JoinLength(parts, sep);
      assert j[0] == j[0..|parts[0]|][0];
      var o := Offset(parts, sep, n);
      assert j[|j| - 1] == j[o..o + |parts[n]|][|parts[n]| - 1];
    }
  }

  /**
   * A condition text has no whitespace at either end, and it is empty exactly
   * when every child text is blank.
   */
  lemma ConditionTextShape(children: seq<string>)
    ensures Trimmed(Join(NonBlankTrimmed(children), " "))
    ensures Join(NonBlankTrimmed(children), " ") == "" <==> forall k :: 0 <= k < |children| ==> Trim(children[k]) == ""
  {
    NonBlankTrimmedShape(children);
    JoinTrimmed(NonBlankTrimmed(children), " ");
  }

  // ---------------------------------------------------------------------------
  // getTreeEditorContent
  // ---------------------------------------------------------------------------

  /** The value extracted for one tree node. */
  datatype NodeValue =
    | ConnectorValue(connector: Option<string>)
    | ComplexValue(input: Option<string>)
    | ConditionValue(condition: seq<Option<string>>)

  /** One entry of `getTreeEditorContent`: the level, the value, and the node when `options.node` is set. */
  datatype ContentEntry = ContentEntry(level: nat, value: NodeValue, node: Option<nat>)

  /** The level: 0 without an enclosing tree node, else one more than the enclosing node's level. */
  function Level(nodes: seq<TreeNode>, i: nat): nat
    requires ParentsPrecede(nodes) && i < |nodes|
    decreases i
  {
    match nodes[i].parent
    case None => 0
    case Some(p) => Level(nodes, p) + 1
  }

  /** Whether tree node `a` encloses tree node `i`, directly or further up. */
  predicate Encloses(nodes: seq<TreeNode>, a: nat, i: nat)
    requires ParentsPrecede(nodes) && i < |nodes|
    decreases i
  {
    match nodes[i].parent
    case None => false
    case Some(p) => a == p || Encloses(nodes, a, p)
  }

  lemma {:induction false} EnclosingPrecedes(nodes: seq<TreeNode>, a: nat, i: nat)
    requires ParentsPrecede(nodes) && i < |nodes|
    requires Encloses(nodes, a, i)
    ensures a < i
    decreases i
  {
    var p := nodes[i].parent.value;
    if a != p {
      EnclosingPrecedes(nodes, a, p);
    }
  }

  /** The tree nodes enclosing tree node `i`. */
  function Enclosing(nodes: seq<TreeNode>, i: nat): set<nat>
    requires ParentsPrecede(nodes) && i < |nodes|
  {
    set a | 0 <= a < i && Encloses(nodes, a, i)
  }

  /** A node's level is the number of tree nodes that enclose it. */
  lemma {:induction false} LevelCountsEnclosing(nodes: seq<TreeNode>, i: nat)
    requires ParentsPrecede(nodes) && i < |nodes|
    ensures |Enclosing(nodes, i)| == Level(nodes, i)
    decreases i
  {
    match nodes[i].parent
    case None =>
      assert Enclosing(nodes, i) == {};
    case Some(p) =>
      LevelCountsEnclosing(nodes, p);
      forall a ensures a in Enclosing(nodes, i) <==> a in Enclosing(nodes, p) + {p} {
        if a != p && 0 <= a && Encloses(nodes, a, p) {
          EnclosingPrecedes(nodes, a, p);
        }
      }
      assert Enclosing(nodes, i) == Enclosing(nodes, p) + {p};
      assert p !in Enclosing(nodes, p);
  }

  /**
   * The value of one tree node, chosen by the class name of its first
   * descendant that is a connector, a condition or a complex condition.
   */
  function NodeValueOf(node: TreeNode): (v: NodeValue)
    requires node.childClass.Some?
    ensures v.ConnectorValue? <==> HasSubstring(node.childClass.value, "connector")
    ensures v.ComplexValue? <==> !HasSubstring(node.childClass.value, "connector") && HasSubstring(node.childClass.value, "complex_condition")
    ensures v.ConnectorValue? ==> v.connector == GetCurrentConnector(node.scope, 0)
    ensures v.ComplexValue? ==> v.input == GetCurrentComplexCondition(node.scope, 0)
    ensures v.ConditionValue? ==> v.condition == GetCurrentCondition(node.scope, 0)
  {
    var className := node.childClass.value;
    if HasSubstring(className, "connector") then ConnectorValue(GetCurrentConnector(node.scope, 0))
    else if HasSubstring(className, "complex_condition") then ComplexValue(GetCurrentComplexCondition(node.scope, 0))
    else ConditionValue(GetCurrentCondition(node.scope, 0))
  }

  /**
   * `getTreeEditorContent(options)`: one entry per tree node, in document
   * order, when every node has a connector, condition or complex-condition
   * descendant; `threw` when some node has none of them (reading `className`
   * of `null` throws a TypeError).
   */
  method GetTreeEditorContent(nodes: seq<TreeNode>, withNode: bool) returns (content: seq<ContentEntry>, threw: bool)
    requires ParentsPrecede(nodes)
    ensures threw <==> exists i :: 0 <= i < |nodes| && nodes[i].childClass.None?
    ensures !threw ==> |content| == |nodes|
    ensures !threw ==> forall i :: 0 <= i < |nodes| ==>
      content[i] == ContentEntry(Level(nodes, i), NodeValueOf(nodes[i]), if withNode then Some(i) else None)
  {
    content := [];
    threw := false;
    var mapping: map<nat, nat> := map[];
    var i := 0;
    while i < |nodes|
      invariant 0 <= i <= |nodes|
      invariant forall j :: 0 <= j < i ==> nodes[j].childClass.Some?
      invariant forall j :: 0 <= j < i ==> j in mapping && mapping[j] == Level(nodes, j)
      invariant |content| == i
      invariant forall j :: 0 <= j < i ==>
        content[j] == ContentEntry(Level(nodes, j), NodeValueOf(nodes[j]), if withNode then Some(j) else None)
    {
      var node := nodes[i];
      var level := match node.parent case Some(p) => mapping[p] + 1 case None => 0;
      mapping := mapping[i := level];
      if node.childClass.None? {
        threw := true;
        return;
      }
      var className := node.childClass.value;
      var value;
      if HasSubstring(className, "connector") {
        value := ConnectorValue(GetCurrentConnector(node.scope, 0));
      } else if HasSubstring(className, "complex_condition") {
        value := ComplexValue(GetCurrentComplexCondition(node.scope, 0));
      } else {
        value := ConditionValue(GetCurrentCondition(node.scope, 0));
      }
      content := content + [ContentEntry(level, value, if withNode then Some(i) else None)];
      i := i + 1;
    }
  }
}
