/**
 * The HID state (NkHID) and the two platform `update` folds: the wasm event
 * buffer and the Windows message buffer. Both platforms first clear the
 * per-frame fields (clicks, last character, wheel deltas) and then fold the
 * buffered events in order. Each event is translated into a platform-neutral
 * `Effect`; the fold over effects is shared.
 */
module Hid {
  import opened Wrappers

  const KeyCount: nat := 512
  const ButtonCount: nat := 3

  /** NkMouseButton. */
  const ButtonLeft: nat := 0
  const ButtonMiddle: nat := 1
  const ButtonRight: nat := 2

  /** Windows' WHEEL_DELTA: one notch of the wheel. */
  const WheelDelta: int := 120

  datatype Mouse = Mouse(down: seq<bool>, click: seq<bool>, x: real, y: real, wheelX: real, wheelY: real, visible: bool)

  /** `lastChar` is a C `char`: the 8-bit value of the character message. */
  datatype Keyboard = Keyboard(down: seq<bool>, click: seq<bool>, lastChar: bv8)

  datatype State = State(mouse: Mouse, keyboard: Keyboard) {
    predicate Valid() {
      |mouse.down| == ButtonCount && |mouse.click| == ButtonCount
      && |keyboard.down| == KeyCount && |keyboard.click| == KeyCount
    }
  }

  /** A click is only ever reported for a key or button that is down. */
  predicate ClicksAreDown(h: State)
    requires h.Valid()
  {
    (forall k :: 0 <= k < KeyCount && h.keyboard.click[k] ==> h.keyboard.down[k])
    && (forall b :: 0 <= b < ButtonCount && h.mouse.click[b] ==> h.mouse.down[b])
  }

  function AllFalse(n: nat): (r: seq<bool>)
    ensures |r| == n && forall i :: 0 <= i < n ==> !r[i]
  {
    seq(n, _ => false)
  }

  // ---------------------------------------------------- create / accessors

  /** `showCursor`: records the visibility (the OS side effect is not modelled). */
  function ShowCursor(h: State, visible: bool): (r: State)
    ensures r.mouse.visible == visible && r.keyboard == h.keyboard
    ensures r.mouse.(visible := h.mouse.visible) == h.mouse
  {
    h.(mouse := h.mouse.(visible := visible))
  }

  /**
   * `create`: the zero-allocated state, then the cursor is hidden and shown
   * again, so a fresh HID reports it visible.
   */
  function Create(): (h: State)
    ensures h.Valid() && ClicksAreDown(h) && CursorVisible(h)
    ensures forall k :: 0 <= k < KeyCount ==> !KeyDown(h, k) && !KeyClick(h, k)
    ensures forall b :: 0 <= b < ButtonCount ==> !MouseDown(h, b) && !MouseClick(h, b)
    ensures MouseX(h) == 0.0 && MouseY(h) == 0.0 && MouseWheelDeltaX(h) == 0.0 && MouseWheelDeltaY(h) == 0.0
    ensures LastChar(h) == 0
  {
    var zero := State(Mouse(AllFalse(ButtonCount), AllFalse(ButtonCount), 0.0, 0.0, 0.0, 0.0, false),
                      Keyboard(AllFalse(KeyCount), AllFalse(KeyCount), 0));
    ShowCursor(ShowCursor(zero, false), true)
  }

  /** `destroy`: false for a null HID, true otherwise (the memory release is not modelled). */
  function Destroy(h: Option<State>): (ok: bool)
    ensures ok <==> h.Some?
  {
    h.Some?
  }

  /** The accessors are plain reads; key and button indices are unchecked in the source. */
  function KeyDown(h: State, k: nat): bool
    requires h.Valid() && k < KeyCount
  {
    h.keyboard.down[k]
  }

  function KeyClick(h: State, k: nat): bool
    requires h.Valid() && k < KeyCount
  {
    h.keyboard.click[k]
  }

  function LastChar(h: State): bv8 { h.keyboard.lastChar }

  function MouseDown(h: State, b: nat): bool
    requires h.Valid() && b < ButtonCount
  {
    h.mouse.down[b]
  }

  function MouseClick(h: State, b: nat): bool
    requires h.Valid() && b < ButtonCount
  {
    h.mouse.click[b]
  }

  function MouseWheelDeltaX(h: State): real { h.mouse.wheelX }
  function MouseWheelDeltaY(h: State): real { h.mouse.wheelY }
  function CursorVisible(h: State): bool { h.mouse.visible }
  function MouseX(h: State): real { h.mouse.x }
  function MouseY(h: State): real { h.mouse.y }

  // ------------------------------------------------------------- the fold

  /** What one buffered event does to the state, independent of the platform. */
  datatype Effect =
    | KeyPress(key: nat)
    | KeyRelease(key: nat)
    | ButtonPress(button: nat, px: real, py: real)
    | ButtonRelease(button: nat, px: real, py: real)
    | Move(px: real, py: real)
    | SetChar(c: bv8)
    | SetWheelX(dx: real)
    | SetWheelY(dy: real)
    | Ignore

  predicate InRange(e: Effect)
  {
    match e
    case KeyPress(k) => k < KeyCount
    case KeyRelease(k) => k < KeyCount
    case ButtonPress(b, _, _) => b < ButtonCount
    case ButtonRelease(b, _, _) => b < ButtonCount
    case _ => true
  }

  /** The clearing at the start of `update`: clicks, last character and wheel deltas. */
  function BeginUpdate(h: State): (r: State)
    requires h.Valid()
    ensures r.Valid() && ClicksAreDown(r)
    ensures r.keyboard.down == h.keyboard.down && r.mouse.down == h.mouse.down
    ensures forall k :: 0 <= k < KeyCount ==> !r.keyboard.click[k]
    ensures forall b :: 0 <= b < ButtonCount ==> !r.mouse.click[b]
    ensures r.keyboard.lastChar == 0 && r.mouse.wheelX == 0.0 && r.mouse.wheelY == 0.0
    ensures r.mouse.x == h.mouse.x && r.mouse.y == h.mouse.y && r.mouse.visible == h.mouse.visible
  {
    State(h.mouse.(click := AllFalse(ButtonCount), wheelX := 0.0, wheelY := 0.0),
          h.keyboard.(click := AllFalse(KeyCount), lastChar := 0))
  }

  /** A press reports a click only on the up-to-down transition; a release clears both flags. */
  function Press(down: seq<bool>, click: seq<bool>, k: nat): (r: (seq<bool>, seq<bool>))
    requires |down| == |click| && k < |down|
    ensures r.0 == down[k := true] && |r.1| == |click|
    ensures r.1[k] == (click[k] || !down[k])
    ensures forall i :: 0 <= i < |click| && i != k ==> r.1[i] == click[i]
  {
    (down[k := true], if !down[k] then click[k := true] else click)
  }

  function Release(down: seq<bool>, click: seq<bool>, k: nat): (r: (seq<bool>, seq<bool>))
    requires |down| == |click| && k < |down|
    ensures r.0 == down[k := false] && r.1 == click[k := false]
  {
    (down[k := false], click[k := false])
  }

  function Step(h: State, e: Effect): (r: State)
    requires h.Valid() && InRange(e)
    ensures r.Valid()
  {
    match e
    case KeyPress(k) =>
      var p := Press(h.keyboard.down, h.keyboard.click, k);
      h.(keyboard := h.keyboard.(down := p.0, click := p.1))
    case KeyRelease(k) =>
      var p := Release(h.keyboard.down, h.keyboard.click, k);
      h.(keyboard := h.keyboard.(down := p.0, click := p.1))
    case ButtonPress(b, px, py) =>
      var p := Press(h.mouse.down, h.mouse.click, b);
      h.(mouse := h.mouse.(down := p.0, click := p.1, x := px, y := py))
    case ButtonRelease(b, px, py) =>
      var p := Release(h.mouse.down, h.mouse.click, b);
      h.(mouse := h.mouse.(down := p.0, click := p.1, x := px, y := py))
    case Move(px, py) => h.(mouse := h.mouse.(x := px, y := py))
    case SetChar(c) => h.(keyboard := h.keyboard.(lastChar := c))
    case SetWheelX(dx) => h.(mouse := h.mouse.(wheelX := dx))
    case SetWheelY(dy) => h.(mouse := h.mouse.(wheelY := dy))
    case Ignore => h
  }

  predicate AllInRange(es: seq<Effect>)
  {
    forall i :: 0 <= i < |es| ==> InRange(es[i])
  }

  /** The events folded in buffer order (written with the newest event outermost). */
  function Run(h: State, es: seq<Effect>): (r: State)
    requires h.Valid() && AllInRange(es)
    ensures r.Valid() && r.mouse.visible == h.mouse.visible
    decreases |es|
  {
    if es == [] then h else Step(Run(h, es[..|es| - 1]), es[|es| - 1])
  }

  /** Every step keeps "click implies down". */
  lemma StepKeepsClicksAreDown(h: State, e: Effect)
    requires h.Valid() && InRange(e) && ClicksAreDown(h)
    ensures ClicksAreDown(Step(h, e))
  {
  }

  lemma {:induction false} RunKeepsClicksAreDown(h: State, es: seq<Effect>)
    requires h.Valid() && AllInRange(es) && ClicksAreDown(h)
    ensures ClicksAreDown(Run(h, es))
    decreases |es|
  {
    if es != [] {
      RunKeepsClicksAreDown(h, es[..|es| - 1]);
      StepKeepsClicksAreDown(Run(h, es[..|es| - 1]), es[|es| - 1]);
    }
  }

  // ------------------------------------- the last event for a key decides

  /** The press (true) / release (false) edges that `es` applies to key k, in order. */
  function KeyEdges(es: seq<Effect>, k: nat): seq<bool>
    decreases |es|
  {
    if es == [] then []
    else
      var e := es[|es| - 1];
      KeyEdges(es[..|es| - 1], k)
      + (if e == KeyPress(k) then [true] else if e == KeyRelease(k) then [false] else [])
  }

  /** The press / release edges that `es` applies to button b, in order. */
  function ButtonEdges(es: seq<Effect>, b: nat): seq<bool>
    decreases |es|
  {
    if es == [] then []
    else
      var e := es[|es| - 1];
      ButtonEdges(es[..|es| - 1], b)
      + (if e.ButtonPress? && e.button == b then [true] else if e.ButtonRelease? && e.button == b then [false] else [])
  }

  /** Reference: a key is down after the edges iff the last edge was a press (no edges: as before). */
  function DownAfter(down: bool, edges: seq<bool>): bool
  {
    if edges == [] then down else edges[|edges| - 1]
  }

  /**
   * Reference: a click is reported after the edges iff the last edge was a
   * press and the key was up at some point since (at the start, or after a
   * release among the edges), or the click was already reported.
   */
  function ClickAfter(down: bool, click: bool, edges: seq<bool>): bool
  {
    if edges == [] then click else edges[|edges| - 1] && (click || !down || false in edges)
  }

  lemma {:induction false} RunKey(h: State, es: seq<Effect>, k: nat)
    requires h.Valid() && AllInRange(es) && k < KeyCount
    ensures Run(h, es).keyboard.down[k] == DownAfter(h.keyboard.down[k], KeyEdges(es, k))
    ensures Run(h, es).keyboard.click[k] == ClickAfter(h.keyboard.down[k], h.keyboard.click[k], KeyEdges(es, k))
    decreases |es|
  {
    if es != [] {
      var front := es[..|es| - 1];
      RunKey(h, front, k);
      var edges := KeyEdges(front, k);
      var e := es[|es| - 1];
      if e == KeyPress(k) {
        assert KeyEdges(es, k) == edges + [true];
        assert false in edges + [true] <==> false in edges;
      } else if e == KeyRelease(k) {
        assert KeyEdges(es, k) == edges + [false];
      } else {
        assert KeyEdges(es, k) == edges;
      }
    }
  }

  lemma {:induction false} RunButton(h: State, es: seq<Effect>, b: nat)
    requires h.Valid() && AllInRange(es) && b < ButtonCount
    ensures Run(h, es).mouse.down[b] == DownAfter(h.mouse.down[b], ButtonEdges(es, b))
    ensures Run(h, es).mouse.click[b] == ClickAfter(h.mouse.down[b], h.mouse.click[b], ButtonEdges(es, b))
    decreases |es|
  {
    if es != [] {
      var front := es[..|es| - 1];
      RunButton(h, front, b);
      var edges := ButtonEdges(front, b);
      var e := es[|es| - 1];
      if e.ButtonPress? && e.button == b {
        assert ButtonEdges(es, b) == edges + [true];
        assert false in edges + [true] <==> false in edges;
      } else if e.ButtonRelease? && e.button == b {
        assert ButtonEdges(es, b) == edges + [false];
      } else {
        assert ButtonEdges(es, b) == edges;
      }
    }
  }

  /** The full update on the shared effects: clear, then fold. */
  function Update(h: State, es: seq<Effect>): (r: State)
    requires h.Valid() && AllInRange(es)
    ensures r.Valid() && ClicksAreDown(r)
    ensures forall k :: 0 <= k < KeyCount ==> r.keyboard.down[k] == DownAfter(h.keyboard.down[k], KeyEdges(es, k))
    ensures forall k :: 0 <= k < KeyCount ==>
      r.keyboard.click[k] == ClickAfter(h.keyboard.down[k], false, KeyEdges(es, k))
    ensures forall b :: 0 <= b < ButtonCount ==> r.mouse.down[b] == DownAfter(h.mouse.down[b], ButtonEdges(es, b))
    ensures forall b :: 0 <= b < ButtonCount ==>
      r.mouse.click[b] == ClickAfter(h.mouse.down[b], false, ButtonEdges(es, b))
  {
    var h0 := BeginUpdate(h);
    RunKeepsClicksAreDown(h0, es);
    RunKeys(h0, es);
    RunButtons(h0, es);
    Run(h0, es)
  }

  lemma RunKeys(h: State, es: seq<Effect>)
    requires h.Valid() && AllInRange(es)
    ensures forall k :: 0 <= k < KeyCount ==>
      Run(h, es).keyboard.down[k] == DownAfter(h.keyboard.down[k], KeyEdges(es, k))
      && Run(h, es).keyboard.click[k] == ClickAfter(h.keyboard.down[k], h.keyboard.click[k], KeyEdges(es, k))
  {
    forall k | 0 <= k < KeyCount
      ensures Run(h, es).keyboard.down[k] == DownAfter(h.keyboard.down[k], KeyEdges(es, k))
      ensures Run(h, es).keyboard.click[k] == ClickAfter(h.keyboard.down[k], h.keyboard.click[k], KeyEdges(es, k))
    {
      RunKey(h, es, k);
    }
  }

  lemma RunButtons(h: State, es: seq<Effect>)
    requires h.Valid() && AllInRange(es)
    ensures forall b :: 0 <= b < ButtonCount ==>
      Run(h, es).mouse.down[b] == DownAfter(h.mouse.down[b], ButtonEdges(es, b))
      && Run(h, es).mouse.click[b] == ClickAfter(h.mouse.down[b], h.mouse.click[b], ButtonEdges(es, b))
  {
    forall b | 0 <= b < ButtonCount
      ensures Run(h, es).mouse.down[b] == DownAfter(h.mouse.down[b], ButtonEdges(es, b))
      ensures Run(h, es).mouse.click[b] == ClickAfter(h.mouse.down[b], h.mouse.click[b], ButtonEdges(es, b))
    {
      RunButton(h, es, b);
    }
  }

  // ---------------------------------------------------------------- wasm

  /** NkWasmAppEvent: the event types the browser glue records, plus any other type value. */
  datatype WasmEvent =
    | WasmKeyDown(keyCode: nat)
    | WasmKeyUp(keyCode: nat)
    | WasmMouseMove(mx: real, my: real)
    | WasmMouseDown(button: nat, mx: real, my: real)
    | WasmMouseUp(button: nat, mx: real, my: real)
    | WasmInvalid(eventType: nat)

  /** Key codes and buttons index fixed arrays without a check, so they must be in range. */
  predicate WasmEventInRange(e: WasmEvent)
  {
    match e
    case WasmKeyDown(k) => k < KeyCount
    case WasmKeyUp(k) => k < KeyCount
    case WasmMouseDown(b, _, _) => b < ButtonCount
    case WasmMouseUp(b, _, _) => b < ButtonCount
    case _ => true
  }

  /** One case of the wasm `update` switch; an unknown type only logs a warning. */
  function WasmEffect(e: WasmEvent): (r: Effect)
    ensures WasmEventInRange(e) ==> InRange(r)
    ensures r.KeyPress? <==> e.WasmKeyDown?
    ensures r.KeyRelease? <==> e.WasmKeyUp?
    ensures e.WasmInvalid? <==> r.Ignore?
  {
    match e
    case WasmKeyDown(k) => KeyPress(k)
    case WasmKeyUp(k) => KeyRelease(k)
    case WasmMouseMove(x, y) => Move(x, y)
    case WasmMouseDown(b, x, y) => ButtonPress(b, x, y)
    case WasmMouseUp(b, x, y) => ButtonRelease(b, x, y)
    case WasmInvalid(_) => Ignore
  }

  function WasmEffects(events: seq<WasmEvent>): (r: seq<Effect>)
    requires forall i :: 0 <= i < |events| ==> WasmEventInRange(events[i])
    ensures |r| == |events| && AllInRange(r)
    ensures forall i :: 0 <= i < |events| ==> r[i] == WasmEffect(events[i])
  {
    seq(|events|, i requires 0 <= i < |events| => WasmEffect(events[i]))
  }

  /** wasm `nk::hid::update`. */
  function WasmUpdate(h: State, events: seq<WasmEvent>): (r: State)
    requires h.Valid() && forall i :: 0 <= i < |events| ==> WasmEventInRange(events[i])
    ensures r.Valid() && ClicksAreDown(r)
    ensures r.keyboard.lastChar == 0 && r.mouse.wheelX == 0.0 && r.mouse.wheelY == 0.0
  {
    var es := WasmEffects(events);
    WasmLeavesCharAndWheel(BeginUpdate(h), es);
    Update(h, es)
  }

  /** The browser events never set the character or the wheel deltas. */
  lemma {:induction false} WasmLeavesCharAndWheel(h: State, es: seq<Effect>)
    requires h.Valid() && AllInRange(es)
    requires forall i :: 0 <= i < |es| ==> !es[i].SetChar? && !es[i].SetWheelX? && !es[i].SetWheelY?
    ensures Run(h, es).keyboard.lastChar == h.keyboard.lastChar
    ensures Run(h, es).mouse.wheelX == h.mouse.wheelX && Run(h, es).mouse.wheelY == h.mouse.wheelY
    decreases |es|
  {
    if es != [] {
      WasmLeavesCharAndWheel(h, es[..|es| - 1]);
    }
  }

  /** A key released and pressed again within one update is reported as clicked, whether or not it was down before. */
  lemma WasmReleaseThenPress(h: State, k: nat)
    requires h.Valid() && k < KeyCount
    ensures var r := WasmUpdate(h, [WasmKeyUp(k), WasmKeyDown(k)]);
      r.keyboard.down[k] && r.keyboard.click[k]
  {
    var es := WasmEffects([WasmKeyUp(k), WasmKeyDown(k)]);
    assert es == [KeyRelease(k), KeyPress(k)];
    assert es[..1] == [KeyRelease(k)] && es[..1][..0] == [];
    assert KeyEdges(es[..1], k) == [false];
    assert KeyEdges(es, k) == [false, true];
  }

  /** Holding a key down (auto-repeat) does not report a second click. */
  lemma WasmRepeatNoClick(h: State, k: nat)
    requires h.Valid() && k < KeyCount && h.keyboard.down[k]
    ensures var r := WasmUpdate(h, [WasmKeyDown(k)]);
      r.keyboard.down[k] && !r.keyboard.click[k]
  {
    var es := WasmEffects([WasmKeyDown(k)]);
    assert es == [KeyPress(k)] && es[..0] == [];
    assert KeyEdges(es, k) == [true];
  }

  // ------------------------------------------------------------- Windows

  /** The Windows messages `update` reacts to; `lParam`/`wParam` are the raw 32-bit words. */
  datatype Message =
    | WmMouseWheel(wParam: nat)
    | WmMouseHWheel(wParam: nat)
    | WmChar(wParam: nat)
    | WmKeyDown(wParam: nat)
    | WmKeyUp(wParam: nat)
    | WmMouseMove(lParam: nat)
    | WmLButtonDown(lParam: nat)
    | WmLButtonUp(lParam: nat)
    | WmRButtonDown(lParam: nat)
    | WmRButtonUp(lParam: nat)
    | WmMButtonDown(lParam: nat)
    | WmMButtonUp(lParam: nat)
    | WmOther(code: nat)

  /** A 16-bit word read as a signed `short`, as GET_X_LPARAM and GET_WHEEL_DELTA_WPARAM do. */
  function SignedWord(w: nat): (r: int)
    ensures -0x8000 <= r < 0x8000
    ensures r % 0x1_0000 == w % 0x1_0000
  {
    var v := w % 0x1_0000;
    if v >= 0x8000 then v - 0x1_0000 else v
  }

  /** GET_X_LPARAM / GET_Y_LPARAM: the signed low and high words of lParam. */
  function PointX(lParam: nat): int { SignedWord(lParam) }
  function PointY(lParam: nat): int { SignedWord(lParam / 0x1_0000) }

  /** The `(uint8_t)` / `(char)` truncation of wParam. */
  function LowByte(wParam: nat): (r: nat)
    ensures r < 0x100 && r == wParam % 0x100
  {
    wParam % 0x100
  }

  /** One case of the Windows `update` switch. */
  function WindowsEffect(m: Message): (r: Effect)
    ensures InRange(r)
    ensures r.KeyPress? ==> r.key < 0x100
    ensures r.KeyRelease? ==> r.key < 0x100
  {
    match m
    case WmMouseWheel(w) => SetWheelY(SignedWord(w / 0x1_0000) as real / WheelDelta as real)
    case WmMouseHWheel(w) => SetWheelX(-(SignedWord(w / 0x1_0000) as real) / WheelDelta as real)
    case WmChar(w) => SetChar(LowByte(w) as bv8)
    case WmKeyDown(w) => KeyPress(LowByte(w))
    case WmKeyUp(w) => KeyRelease(LowByte(w))
    case WmMouseMove(l) => Move(PointX(l) as real, PointY(l) as real)
    case WmLButtonDown(l) => ButtonPress(ButtonLeft, PointX(l) as real, PointY(l) as real)
    case WmLButtonUp(l) => ButtonRelease(ButtonLeft, PointX(l) as real, PointY(l) as real)
    case WmRButtonDown(l) => ButtonPress(ButtonRight, PointX(l) as real, PointY(l) as real)
    case WmRButtonUp(l) => ButtonRelease(ButtonRight, PointX(l) as real, PointY(l) as real)
    case WmMButtonDown(l) => ButtonPress(ButtonMiddle, PointX(l) as real, PointY(l) as real)
    case WmMButtonUp(l) => ButtonRelease(ButtonMiddle, PointX(l) as real, PointY(l) as real)
    case WmOther(_) => Ignore
  }

  function WindowsEffects(ms: seq<Message>): (r: seq<Effect>)
    ensures |r| == |ms| && AllInRange(r)
    ensures forall i :: 0 <= i < |ms| ==> r[i] == WindowsEffect(ms[i])
  {
    seq(|ms|, i requires 0 <= i < |ms| => WindowsEffect(ms[i]))
  }

  /** Windows `nk::hid::update`: every message is accepted, so there is no precondition on the buffer. */
  function WindowsUpdate(h: State, ms: seq<Message>): (r: State)
    requires h.Valid()
    ensures r.Valid() && ClicksAreDown(r)
  {
    Update(h, WindowsEffects(ms))
  }

  /** Key codes 256..511 are unreachable from Windows messages: they stay as they were and never click. */
  lemma WindowsHighKeysUntouched(h: State, ms: seq<Message>, k: nat)
    requires h.Valid() && 0x100 <= k < KeyCount
    ensures WindowsUpdate(h, ms).keyboard.down[k] == h.keyboard.down[k]
    ensures !WindowsUpdate(h, ms).keyboard.click[k]
  {
    NoEdgesAboveByte(WindowsEffects(ms), k);
  }

  lemma {:induction false} NoEdgesAboveByte(es: seq<Effect>, k: nat)
    requires k >= 0x100
    requires forall i :: 0 <= i < |es| ==> (es[i].KeyPress? ==> es[i].key < 0x100) && (es[i].KeyRelease? ==> es[i].key < 0x100)
    ensures KeyEdges(es, k) == []
    decreases |es|
  {
    if es != [] {
      NoEdgesAboveByte(es[..|es| - 1], k);
    }
  }

  /** A key-down message reaches key `wParam mod 256`: 0x141 presses the same key as 0x41. */
  lemma WindowsKeyTruncates(h: State)
    requires h.Valid() && !h.keyboard.down[0x41]
    ensures var r := WindowsUpdate(h, [WmKeyDown(0x141)]);
      r.keyboard.down[0x41] && r.keyboard.click[0x41]
  {
    var es := WindowsEffects([WmKeyDown(0x141)]);
    assert es == [KeyPress(0x41)] && es[..0] == [];
    assert KeyEdges(es, 0x41) == [true];
  }

  /** The middle button message drives button index 1 and the right button index 2. */
  lemma WindowsButtonIndices(h: State, l: nat)
    requires h.Valid() && !h.mouse.down[ButtonMiddle]
    ensures var r := WindowsUpdate(h, [WmMButtonDown(l)]);
      r.mouse.click[1] && !r.mouse.click[2] && r.mouse.x == PointX(l) as real && r.mouse.y == PointY(l) as real
  {
    var es := WindowsEffects([WmMButtonDown(l)]);
    assert es == [ButtonPress(1, PointX(l) as real, PointY(l) as real)] && es[..0] == [];
    assert ButtonEdges(es, 1) == [true];
    assert ButtonEdges(es, 2) == [];
  }
}
