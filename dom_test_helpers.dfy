/**
 * The `contains(target, options)` interaction helpers of the web client's
 * test framework (addons/web/static/tests/_framework/dom_test_helpers.js).
 *
 * Every call into the DOM helper library (`waitFor`, `click`, `keyDown`,
 * `pointerDown`, `drag`, ...) and into the mocked clock (`advanceTime`,
 * `animationFrame`) is an abstract event appended to a trace; the node a
 * `waitFor` resolves to and the active element are supplied by the caller.
 */
module DomTestHelpers {
  import opened Wrappers

  /** A DOM node, by identity. */
  type Node = nat

  /** A JavaScript value held by an options object. */
  datatype OptionValue = Undefined | Bool(b: bool) | Num(n: int) | Str(s: string) | Ref(id: nat)

  /** JavaScript truthiness of an option value (NaN is not modelled). */
  predicate Truthy(v: OptionValue)
  {
    match v
    case Undefined => false
    case Bool(b) => b
    case Num(n) => n != 0
    case Str(s) => s != ""
    case Ref(_) => true
  }

  /** An options object, as its own enumerable properties; an absent (`undefined`) one is `None`. */
  type Options = map<string, OptionValue>

  /** `options?.[flag]` is truthy. */
  predicate Flag(options: Option<Options>, flag: string)
  {
    options.Some? && flag in options.value && Truthy(options.value[flag])
  }

  /** `{ [key]: value, ...options }`: the default is used only when the caller's options lack the key. */
  function WithDefault(options: Option<Options>, key: string, value: OptionValue): (r: Options)
    ensures key in r
    ensures r[key] == if options.Some? && key in options.value then options.value[key] else value
    ensures options.None? ==> r.Keys == {key}
    ensures options.Some? ==> r.Keys == options.value.Keys + {key}
    ensures options.Some? ==> forall k :: k in options.value ==> r[k] == options.value[k]
  {
    map[key := value] + options.GetOr(map[])
  }

  /** The options `contains` passes to `waitFor`: `{ visible: true, ...options }`. */
  function QueryOptions(options: Option<Options>): (r: Options)
    ensures "visible" in r
    ensures r["visible"] == if options.Some? && "visible" in options.value then options.value["visible"] else Bool(true)
    ensures options.Some? ==> forall k :: k in options.value ==> k in r && r[k] == options.value[k]
  {
    WithDefault(options, "visible", Bool(true))
  }

  /** The options `edit` and `fill` pass on: `{ confirm: true, ...options }`. */
  function ConfirmOptions(options: Option<Options>): Options
  {
    WithDefault(options, "confirm", Bool(true))
  }

  /** The target of `contains`: a selector, a node, or the strings of a tagged template. */
  datatype Target =
    | Selector(selector: string)
    | Element(node: Node)
    | Template(raw: seq<string>, substitutions: seq<string>)

  /**
   * `String.raw(strings, ...substitutions)`: the literal parts with the
   * substitutions between them; a missing substitution reads as empty.
   */
  function RawString(raw: seq<string>, substitutions: seq<string>): string
    decreases |raw|
  {
    if |raw| == 0 then ""
    else if |raw| == 1 then raw[0]
    else if substitutions == [] then raw[0] + RawString(raw[1..], [])
    else raw[0] + substitutions[0] + RawString(raw[1..], substitutions[1..])
  }

  /** The strings of `parts` one after the other. */
  function Concat(parts: seq<string>): string
  {
    if parts == [] then "" else parts[0] + Concat(parts[1..])
  }

  /** The total length of `parts`. */
  function SumLengths(parts: seq<string>): nat
  {
    if parts == [] then 0 else |parts[0]| + SumLengths(parts[1..])
  }

  /** With no substitutions the literal parts are simply joined. */
  lemma {:induction false} RawStringNoSubstitutions(raw: seq<string>)
    ensures RawString(raw, []) == Concat(raw)
    decreases |raw|
  {
    if |raw| > 1 {
      RawStringNoSubstitutions(raw[1..]);
    } else if |raw| == 1 {
      assert raw[1..] == [];
    }
  }

  /** Substitutions beyond the last gap between literal parts are ignored. */
  lemma {:induction false} RawStringExtraSubstitutions(raw: seq<string>, substitutions: seq<string>, extra: seq<string>)
    requires |substitutions| + 1 >= |raw|
    ensures RawString(raw, substitutions + extra) == RawString(raw, substitutions)
    decreases |raw|
  {
    if |raw| > 1 {
      assert substitutions != [];
      assert (substitutions + extra)[1..] == substitutions[1..] + extra;
      RawStringExtraSubstitutions(raw[1..], substitutions[1..], extra);
    }
  }

  /** With one substitution per gap, the result is exactly as long as all the parts together. */
  lemma {:induction false} RawStringLength(raw: seq<string>, substitutions: seq<string>)
    requires |raw| == |substitutions| + 1
    ensures |RawString(raw, substitutions)| == SumLengths(raw) + SumLengths(substitutions)
    decreases |raw|
  {
    if |raw| > 1 {
      RawStringLength(raw[1..], substitutions[1..]);
    } else {
      assert raw[1..] == [];
    }
  }

  /**
   * The modifiers the click options ask for, in the order their key-downs
   * are dispatched: Shift, Meta, Control, Alt, each present when its flag is set.
   */
  function ModifierKeys(options: Option<Options>): (keys: seq<string>)
    ensures |keys| == FlagCount(options)
    ensures forall k :: k in keys <==>
      || (k == "Shift" && Flag(options, "shiftKey")) || (k == "Meta" && Flag(options, "metaKey"))
      || (k == "Control" && Flag(options, "ctrlKey")) || (k == "Alt" && Flag(options, "altKey"))
  {
    Held(Flag(options, "shiftKey"), "Shift", Held(Flag(options, "metaKey"), "Meta",
      Held(Flag(options, "ctrlKey"), "Control", Held(Flag(options, "altKey"), "Alt", []))))
  }

  /** `keys` with `key` put in front when `held`. */
  function Held(held: bool, key: string, keys: seq<string>): seq<string>
  {
    if held then [key] + keys else keys
  }

  /** How many of the four modifier flags are set. */
  function FlagCount(options: Option<Options>): nat
  {
    (if Flag(options, "altKey") then 1 else 0) + (if Flag(options, "ctrlKey") then 1 else 0)
    + (if Flag(options, "metaKey") then 1 else 0) + (if Flag(options, "shiftKey") then 1 else 0)
  }

  /** One entry of the `actions` list that the `click` helper builds. */
  datatype Action = PressKey(key: string) | ReleaseKey(key: string) | ClickNode

  function Reverse<T>(s: seq<T>): (r: seq<T>)
    ensures |r| == |s| && forall i :: 0 <= i < |s| ==> r[i] == s[|s| - 1 - i]
  {
    if s == [] then [] else Reverse(s[1..]) + [s[0]]
  }

  function Presses(keys: seq<string>): (r: seq<Action>)
    ensures |r| == |keys| && forall i :: 0 <= i < |keys| ==> r[i] == PressKey(keys[i])
  {
    if keys == [] then [] else [PressKey(keys[0])] + Presses(keys[1..])
  }

  function Releases(keys: seq<string>): (r: seq<Action>)
    ensures |r| == |keys| && forall i :: 0 <= i < |keys| ==> r[i] == ReleaseKey(keys[i])
  {
    if keys == [] then [] else [ReleaseKey(keys[0])] + Releases(keys[1..])
  }

  /** The actions of a click with the given modifiers held: all downs, the click, then the ups in reverse. */
  function ClickActions(keys: seq<string>): seq<Action>
  {
    Presses(keys) + [ClickNode] + Releases(Reverse(keys))
  }

  /**
   * The `actions` list of the `click` helper, built as the source builds it:
   * start from the click, and for each of Alt, Control, Meta, Shift whose flag
   * is set, put its key-down in front and its key-up at the end.
   */
  method BuildClickActions(options: Option<Options>) returns (actions: seq<Action>)
    ensures actions == ClickActions(ModifierKeys(options))
  {
    ghost var keys: seq<string> := [];
    actions := [ClickNode];
    assert actions == ClickActions(keys);
    if Flag(options, "altKey") {
      HoldKey("Alt", keys);
      actions := [PressKey("Alt")] + actions;
      actions := actions + [ReleaseKey("Alt")];
    }
    keys := Held(Flag(options, "altKey"), "Alt", keys);
    if Flag(options, "ctrlKey") {
      HoldKey("Control", keys);
      actions := [PressKey("Control")] + actions;
      actions := actions + [ReleaseKey("Control")];
    }
    keys := Held(Flag(options, "ctrlKey"), "Control", keys);
    if Flag(options, "metaKey") {
      HoldKey("Meta", keys);
      actions := [PressKey("Meta")] + actions;
      actions := actions + [ReleaseKey("Meta")];
    }
    keys := Held(Flag(options, "metaKey"), "Meta", keys);
    if Flag(options, "shiftKey") {
      HoldKey("Shift", keys);
      actions := [PressKey("Shift")] + actions;
      actions := actions + [ReleaseKey("Shift")];
    }
    keys := Held(Flag(options, "shiftKey"), "Shift", keys);
  }

  /** Holding one more key around a click wraps its actions in that key's down and up. */
  lemma HoldKey(k: string, keys: seq<string>)
    ensures ClickActions([k] + keys) == [PressKey(k)] + ClickActions(keys) + [ReleaseKey(k)]
  {
    assert ([k] + keys)[1..] == keys;
    var lhs := ClickActions([k] + keys);
    var rhs := [PressKey(k)] + ClickActions(keys) + [ReleaseKey(k)];
    assert |lhs| == |rhs|;
    forall i | 0 <= i < |lhs| ensures lhs[i] == rhs[i] {
      if 0 < i <= |keys| {
        assert lhs[i] == PressKey(([k] + keys)[i]);
      } else if |keys| + 1 < i < |lhs| - 1 {
        assert lhs[i] == Releases(Reverse([k] + keys))[i - |keys| - 2];
        assert rhs[i] == ClickActions(keys)[i - 1];
      }
    }
  }

  /**
   * The actions of a click hold exactly one click, with one key-down before
   * it and one key-up after it per held key. With `ModifierKeys(options)` as
   * the held keys, there is one key per flag set.
   */
  lemma ClickActionsShape(keys: seq<string>)
    ensures var actions := ClickActions(keys);
      && |actions| == 1 + 2 * |keys|
      && (forall i :: 0 <= i < |actions| ==> (actions[i] == ClickNode <==> i == |keys|))
  {
    var actions := ClickActions(keys);
    var ps, rs := Presses(keys), Releases(Reverse(keys));
    assert actions == ps + [ClickNode] + rs;
    forall i | 0 <= i < |actions| ensures actions[i] == ClickNode <==> i == |keys| {
      if i < |keys| {
        assert actions[i] == ps[i];
      } else if i > |keys| {
        assert actions[i] == rs[i - |keys| - 1];
      }
    }
  }

  /** The key presses and releases of a click nest: the `i`-th key pressed is released `i`-th from the end. */
  lemma ClickActionsNest(keys: seq<string>)
    ensures |ClickActions(keys)| == 1 + 2 * |keys|
    ensures forall i :: 0 <= i < |keys| ==>
      ClickActions(keys)[i] == PressKey(keys[i]) && ClickActions(keys)[2 * |keys| - i] == ReleaseKey(keys[i])
  {
    var actions := ClickActions(keys);
    var ps, rs := Presses(keys), Releases(Reverse(keys));
    assert actions == ps + [ClickNode] + rs;
    forall i | 0 <= i < |keys|
      ensures actions[i] == PressKey(keys[i]) && actions[2 * |keys| - i] == ReleaseKey(keys[i])
    {
      assert actions[i] == ps[i];
      assert actions[2 * |keys| - i] == rs[|keys| - 1 - i];
    }
  }

  /** A call into the DOM helper library or the mocked clock. */
  datatype Event =
    | WaitFor(target: Target, options: Options)
    | Click(node: Node, pointer: Option<Options>)
    | KeyDown(key: string)
    | KeyUp(key: string)
    | PointerDown(node: Node)
    | Check(node: Node, pointer: Option<Options>)
    | Uncheck(node: Node, pointer: Option<Options>)
    | DragStart(node: Node, pointer: Option<Options>)
    | MoveTo(dragged: Node, to: Target, pointer: Option<Options>)
    | Drop(dragged: Node)
    | Cancel(dragged: Node)
    | Hover(node: Node, at: Option<HoverOptions>)
    | Edit(value: string, fill: Options)
    | Fill(value: string, fill: Options)
    | Press(keyStrokes: string)
    | Scroll(node: Node, position: Position)
    | SelectValue(value: string)
    | AdvanceTime(ms: nat)
    | AnimationFrame

  /** A `{ x, y }` position. */
  datatype Position = Position(x: int, y: int)

  /** The `{ position, relative }` options of a hover. */
  datatype HoverOptions = HoverOptions(position: Position, relative: bool)

  /** The event an action dispatches, for the click on `node` with `options`. */
  function ActionEvent(action: Action, node: Node, options: Option<Options>): Event
  {
    match action
    case PressKey(k) => KeyDown(k)
    case ReleaseKey(k) => KeyUp(k)
    case ClickNode => Click(node, options)
  }

  /** The events the actions dispatch, in order. */
  function Dispatch(actions: seq<Action>, node: Node, options: Option<Options>): (r: seq<Event>)
    ensures |r| == |actions|
    ensures forall i :: 0 <= i < |actions| ==> r[i] == ActionEvent(actions[i], node, options)
  {
    if actions == [] then []
    else Dispatch(actions[..|actions| - 1], node, options) + [ActionEvent(actions[|actions| - 1], node, options)]
  }

  /** Dispatching one more action appends its event. */
  lemma DispatchStep(prior: seq<Event>, actions: seq<Action>, i: nat, node: Node, options: Option<Options>)
    requires i < |actions|
    ensures prior + Dispatch(actions[..i], node, options) + [ActionEvent(actions[i], node, options)]
         == prior + Dispatch(actions[..i + 1], node, options)
  {
    assert actions[..i + 1][..i] == actions[..i];
    assert prior + Dispatch(actions[..i], node, options) + [ActionEvent(actions[i], node, options)]
        == prior + (Dispatch(actions[..i], node, options) + [ActionEvent(actions[i], node, options)]);
  }

  /** How long `dragEffectDelay` advances the mocked clock, in milliseconds. */
  const DRAG_EFFECT_DELAY_MS: nat := 20

  /** `dragEffectDelay()`: advance the clock by 20 ms, then wait one animation frame. */
  const DELAY: seq<Event> := [AdvanceTime(DRAG_EFFECT_DELAY_MS), AnimationFrame]

  /** The relative position `drag` hovers the dragged node at once the drag started. */
  const DRAG_HOVER := HoverOptions(Position(100, 100), true)

  /** The events of `drag`: start, delay, hover at (100, 100) relative to the node, delay. */
  function DragEvents(node: Node, options: Option<Options>): seq<Event>
  {
    [DragStart(node, options)] + DELAY + [Event.Hover(node, Some(DRAG_HOVER))] + DELAY
  }

  /** The events of `dragAndDrop`: start, delay, move to the target, delay, drop, delay. */
  function DragAndDropEvents(node: Node, to: Target, options: Option<Options>): seq<Event>
  {
    [DragStart(node, None)] + DELAY + [MoveTo(node, to, options)] + DELAY + [Drop(node)] + DELAY
  }

  /** The total time a trace advances the mocked clock by. */
  function TimeAdvanced(events: seq<Event>): nat
  {
    if events == [] then 0
    else TimeAdvanced(events[..|events| - 1]) + (match events[|events| - 1] case AdvanceTime(ms) => ms case _ => 0)
  }

  lemma {:induction false} TimeAdvancedConcat(a: seq<Event>, b: seq<Event>)
    ensures TimeAdvanced(a + b) == TimeAdvanced(a) + TimeAdvanced(b)
    decreases |b|
  {
    if b == [] {
      assert a + b == a;
    } else {
      TimeAdvancedConcat(a, b[..|b| - 1]);
      assert (a + b)[..|a + b| - 1] == a + b[..|b| - 1];
      assert (a + b)[|a + b| - 1] == b[|b| - 1];
    }
  }

  /**
   * `dragAndDrop` starts the drag, moves, then drops, in that order, each
   * step followed at once by one drag delay, so the clock moves by 60 ms in all.
   */
  lemma DragAndDropOrder(node: Node, to: Target, options: Option<Options>)
    ensures var e := DragAndDropEvents(node, to, options);
      && |e| == 9
      && e[0].DragStart? && e[3].MoveTo? && e[6].Drop?
      && e[1..3] == DELAY && e[4..6] == DELAY && e[7..9] == DELAY
      && (forall i :: 0 <= i < |e| && i != 0 ==> !e[i].DragStart?)
      && (forall i :: 0 <= i < |e| && i != 6 ==> !e[i].Drop?)
      && TimeAdvanced(e) == 3 * DRAG_EFFECT_DELAY_MS
  {
    var p1, p2, p3 := [DragStart(node, None)], [MoveTo(node, to, options)], [Drop(node)];
    var d0, d1 := AdvanceTime(DRAG_EFFECT_DELAY_MS), AnimationFrame;
    assert DragAndDropEvents(node, to, options) == [p1[0], d0, d1, p2[0], d0, d1, p3[0], d0, d1];
    TimeAdvancedOne(AdvanceTime(DRAG_EFFECT_DELAY_MS));
    TimeAdvancedOne(AnimationFrame);
    TimeAdvancedConcat([AdvanceTime(DRAG_EFFECT_DELAY_MS)], [AnimationFrame]);
    TimeAdvancedOne(p1[0]);
    TimeAdvancedOne(p2[0]);
    TimeAdvancedOne(p3[0]);
    TimeAdvancedConcat(p1, DELAY);
    TimeAdvancedConcat(p1 + DELAY, p2);
    TimeAdvancedConcat(p1 + DELAY + p2, DELAY);
    TimeAdvancedConcat(p1 + DELAY + p2 + DELAY, p3);
    TimeAdvancedConcat(p1 + DELAY + p2 + DELAY + p3, DELAY);
  }

  /** A single event advances the clock only when it is an `advanceTime`. */
  lemma TimeAdvancedOne(e: Event)
    ensures TimeAdvanced([e]) == if e.AdvanceTime? then e.ms else 0
  {
    assert [e][..0] == [];
  }

  /** The browser's side of the interactions: the events issued so far. */
  class Interactions {
    var trace: seq<Event>

    constructor ()
      ensures trace == []
    {
      trace := [];
    }

    /**
     * `contains(target, options)` up to the point where it returns its
     * helpers: the `waitFor` it issues. A tagged template is first turned into
     * its raw string, and the call is made again without options.
     */
    method Contains(target: Target, options: Option<Options>)
      modifies this
      ensures target.Template? ==>
        trace == old(trace) + [WaitFor(Selector(RawString(target.raw, target.substitutions)), QueryOptions(None))]
      ensures !target.Template? ==> trace == old(trace) + [WaitFor(target, QueryOptions(options))]
    {
      var t := target;
      var o := options;
      if target.Template? {
        t := Selector(RawString(target.raw, target.substitutions));
        o := None;
      }
      trace := trace + [WaitFor(t, QueryOptions(o))];
    }

    /** `focusCurrent()`: a pointer-down on the node, unless it already is the active element. */
    method FocusCurrent(node: Node, activeElement: Node)
      modifies this
      ensures trace == old(trace) + (if node != activeElement then [PointerDown(node)] else [])
    {
      if node != activeElement {
        trace := trace + [PointerDown(node)];
      }
    }

    /** `dragEffectDelay()`. */
    method DragEffectDelay()
      modifies this
      ensures trace == old(trace) + DELAY
    {
      trace := trace + [AdvanceTime(DRAG_EFFECT_DELAY_MS)];
      trace := trace + [AnimationFrame];
    }

    /** The `check` helper. */
    method Check(node: Node, options: Option<Options>)
      modifies this
      ensures trace == old(trace) + [Event.Check(node, options), AnimationFrame]
    {
      trace := trace + [Event.Check(node, options)];
      trace := trace + [AnimationFrame];
    }

    /** The `uncheck` helper. */
    method Uncheck(node: Node, options: Option<Options>)
      modifies this
      ensures trace == old(trace) + [Event.Uncheck(node, options), AnimationFrame]
    {
      trace := trace + [Event.Uncheck(node, options)];
      trace := trace + [AnimationFrame];
    }

    /**
     * The `click` helper: run the actions `BuildClickActions` lists, in order,
     * then wait one animation frame.
     */
    method Click(node: Node, options: Option<Options>)
      modifies this
      ensures trace == old(trace) + Dispatch(ClickActions(ModifierKeys(options)), node, options) + [AnimationFrame]
    {
      var actions := BuildClickActions(options);
      var i := 0;
      while i < |actions|
        invariant 0 <= i <= |actions|
        invariant trace == old(trace) + Dispatch(actions[..i], node, options)
      {
        DispatchStep(old(trace), actions, i, node, options);
        trace := trace + [ActionEvent(actions[i], node, options)];
        i := i + 1;
      }
      assert actions[..i] == actions;
      trace := trace + [AnimationFrame];
    }

    /** The `drag` helper: the drag is started and hovered before the drag helpers are handed back. */
    method Drag(node: Node, options: Option<Options>) returns (dragged: Node)
      modifies this
      ensures dragged == node
      ensures trace == old(trace) + DragEvents(node, options)
    {
      trace := trace + [DragStart(node, options)];
      DragEffectDelay();
      trace := trace + [Event.Hover(node, Some(DRAG_HOVER))];
      DragEffectDelay();
      dragged := node;
    }

    /** `cancel` of the helpers `drag` returns. */
    method DragCancel(dragged: Node)
      modifies this
      ensures trace == old(trace) + [Cancel(dragged)] + DELAY
    {
      trace := trace + [Cancel(dragged)];
      DragEffectDelay();
    }

    /** `drop` of the helpers `drag` returns. */
    method DragDrop(dragged: Node)
      modifies this
      ensures trace == old(trace) + [Drop(dragged)] + DELAY
    {
      trace := trace + [Drop(dragged)];
      DragEffectDelay();
    }

    /** `moveTo` of the helpers `drag` returns. */
    method DragMoveTo(dragged: Node, to: Target, options: Option<Options>)
      modifies this
      ensures trace == old(trace) + [MoveTo(dragged, to, options)] + DELAY
    {
      trace := trace + [MoveTo(dragged, to, options)];
      DragEffectDelay();
    }

    /** The `dragAndDrop` helper. */
    method DragAndDrop(node: Node, to: Target, options: Option<Options>)
      modifies this
      ensures trace == old(trace) + DragAndDropEvents(node, to, options)
    {
      trace := trace + [DragStart(node, None)];
      DragEffectDelay();
      trace := trace + [MoveTo(node, to, options)];
      DragEffectDelay();
      trace := trace + [Drop(node)];
      DragEffectDelay();
    }

    /** The `edit` helper: focus, then edit with `confirm: true` unless the options say otherwise. */
    method Edit(node: Node, activeElement: Node, value: string, options: Option<Options>)
      modifies this
      ensures trace == old(trace) + (if node != activeElement then [PointerDown(node)] else [])
        + [Event.Edit(value, ConfirmOptions(options)), AnimationFrame]
    {
      FocusCurrent(node, activeElement);
      trace := trace + [Event.Edit(value, ConfirmOptions(options))];
      trace := trace + [AnimationFrame];
    }

    /** The `fill` helper: focus, then fill with `confirm: true` unless the options say otherwise. */
    method Fill(node: Node, activeElement: Node, value: string, options: Option<Options>)
      modifies this
      ensures trace == old(trace) + (if node != activeElement then [PointerDown(node)] else [])
        + [Event.Fill(value, ConfirmOptions(options)), AnimationFrame]
    {
      FocusCurrent(node, activeElement);
      trace := trace + [Event.Fill(value, ConfirmOptions(options))];
      trace := trace + [AnimationFrame];
    }

    /** The `focus` helper. */
    method Focus(node: Node, activeElement: Node)
      modifies this
      ensures trace == old(trace) + (if node != activeElement then [PointerDown(node)] else []) + [AnimationFrame]
    {
      FocusCurrent(node, activeElement);
      trace := trace + [AnimationFrame];
    }

    /** The `hover` helper. */
    method Hover(node: Node)
      modifies this
      ensures trace == old(trace) + [Event.Hover(node, None), AnimationFrame]
    {
      trace := trace + [Event.Hover(node, None)];
      trace := trace + [AnimationFrame];
    }

    /** The `press` helper: focus, then press the key strokes. */
    method Press(node: Node, activeElement: Node, keyStrokes: string)
      modifies this
      ensures trace == old(trace) + (if node != activeElement then [PointerDown(node)] else [])
        + [Event.Press(keyStrokes), AnimationFrame]
    {
      FocusCurrent(node, activeElement);
      trace := trace + [Event.Press(keyStrokes)];
      trace := trace + [AnimationFrame];
    }

    /** The `scroll` helper. */
    method Scroll(node: Node, position: Position)
      modifies this
      ensures trace == old(trace) + [Event.Scroll(node, position), AnimationFrame]
    {
      trace := trace + [Event.Scroll(node, position)];
      trace := trace + [AnimationFrame];
    }

    /** The `select` helper: focus, then select the value. */
    method Select(node: Node, activeElement: Node, value: string)
      modifies this
      ensures trace == old(trace) + (if node != activeElement then [PointerDown(node)] else [])
        + [SelectValue(value), AnimationFrame]
    {
      FocusCurrent(node, activeElement);
      trace := trace + [SelectValue(value)];
      trace := trace + [AnimationFrame];
    }
  }
}
