/** The application: a single instance that owns the window and a stack of
    layers, routes each window event through its own handlers and then to the
    layers from the top of the stack down, and runs frames while it is
    running. Layers, the window and ImGui are opaque; what the application
    asks of them is recorded as a trace of effects. */
module Application {
  import opened Base
  import Renderer

  /** A layer, by identity. */
  type Layer = nat

  datatype Event =
    | WindowClose
    | WindowResize(width: nat, height: nat)
    | OtherEvent(kind: nat)

  datatype Effect =
    | OpenWindow
    | Render(command: Renderer.Command)
    | StackPushLayer(layer: Layer)
    | StackPushOverlay(layer: Layer)
    | Attach(layer: Layer)
    | LayerEvent(layer: Layer, event: Event)
    | LayerUpdate(layer: Layer, timestep: int)
    | ImGuiBegin
    | ImGuiRender(layer: Layer)
    | ImGuiEnd
    | WindowUpdate

  /** The application's own state. Times are read from an integer clock. */
  datatype App = App(running: bool, minimized: bool, lastFrameTime: int, imGuiLayer: Layer)

  /** Renderer commands as effects. */
  function Lift(cs: seq<Renderer.Command>): (r: seq<Effect>)
    ensures |r| == |cs|
    ensures forall i :: 0 <= i < |cs| ==> r[i] == Render(cs[i])
  {
    seq(|cs|, i requires 0 <= i < |cs| => Render(cs[i]))
  }

  // ---------------------------------------------------------------------------
  // Construction and the layer stack.

  /** `PushLayer(layer)`: onto the stack, then attached. */
  function PushLayer(layer: Layer): (r: seq<Effect>)
    ensures |r| == 2 && r[0] == StackPushLayer(layer) && r[1] == Attach(layer)
  {
    [StackPushLayer(layer), Attach(layer)]
  }

  /** `PushOverlay(overlay)`: onto the stack as an overlay, then attached. */
  function PushOverlay(overlay: Layer): (r: seq<Effect>)
    ensures |r| == 2 && r[0] == StackPushOverlay(overlay) && r[1] == Attach(overlay)
  {
    [StackPushOverlay(overlay), Attach(overlay)]
  }

  datatype ConstructError = AlreadyExists

  /** `Application()`, given the static instance before (`None` for null),
      this object's identity and the ImGui layer it creates. The assertion
      that no instance exists aborts construction. */
  function Construct(instance: Option<nat>, self: nat, imGuiLayer: Layer)
    : (r: Result<(nat, App, seq<Effect>), ConstructError>)
    ensures r.Err? <==> instance.Some?
    ensures r.Ok? ==> r.value.0 == self
    ensures r.Ok? ==> r.value.1 == App(true, false, 0, imGuiLayer)
  {
    if instance.Some? then Err(AlreadyExists)
    else Ok((self, App(true, false, 0, imGuiLayer), [OpenWindow] + Lift(Renderer.Init()) + PushLayer(imGuiLayer)))
  }

  /** Only one application can be constructed: once one exists, any further
      construction fails. */
  lemma SecondConstructionFails(self: nat, other: nat, l1: Layer, l2: Layer)
    ensures var first := Construct(None, self, l1);
      first.Ok? && Construct(Some(first.value.0), other, l2).Err?
  {
  }

  /** The constructor initialises the renderer (`RenderCommand` first, then
      `Renderer2D`) before it pushes the ImGui layer; the layer goes onto the
      stack as an ordinary layer, never as an overlay, and is attached after
      it is pushed. */
  lemma ConstructTrace(self: nat, imGuiLayer: Layer)
    ensures var t := Construct(None, self, imGuiLayer).value.2;
      && |t| == 5
      && t[1] == Render(Renderer.RenderCommandInit) && t[2] == Render(Renderer.Renderer2DInit)
      && t[3] == StackPushLayer(imGuiLayer) && t[4] == Attach(imGuiLayer)
      && forall i :: 0 <= i < |t| ==> !t[i].StackPushOverlay?
  {
  }

  // ---------------------------------------------------------------------------
  // The application's own event handlers.

  /** `OnWindowClose`: stop running; the event is handled. */
  function OnWindowClose(app: App): (r: (App, bool))
    ensures !r.0.running && r.1
    ensures r.0.minimized == app.minimized && r.0.lastFrameTime == app.lastFrameTime
  {
    (app.(running := false), true)
  }

  /** `OnWindowResize(width, height)`: the event is never handled here. */
  function OnWindowResize(app: App, width: nat, height: nat): (r: (App, seq<Effect>, bool))
    ensures r.0 == app.(minimized := width == 0 && height == 0)
    ensures !r.2
    ensures r.0.minimized ==> r.1 == []
  {
    if width == 0 && height == 0 then (app.(minimized := true), [], false)
    else (app.(minimized := false), Lift(Renderer.OnWindowResize(width, height)), false)
  }

  /** Only a resize to 0 by 0 minimizes; any other resize restores and sets
      the viewport once, from the origin, to the new size. Nothing else in
      the application changes, and the event stays unhandled. */
  lemma ResizeEffect(app: App, width: nat, height: nat)
    ensures var r := OnWindowResize(app, width, height);
      && r.0.minimized == (width == 0 && height == 0)
      && r.0.running == app.running && r.0.lastFrameTime == app.lastFrameTime
      && !r.2
      && (width == 0 && height == 0 ==> r.1 == [])
      && (width != 0 || height != 0 ==> r.1 == [Render(Renderer.SetViewport(0, 0, width, height))])
  {
  }

  /** The dispatcher: the handler for the event's type runs and its result
      becomes the event's handled flag; other events stay unhandled. */
  function Dispatch(app: App, e: Event): (r: (App, seq<Effect>, bool))
    ensures e.WindowClose? ==> !r.0.running && r.1 == [] && r.2
    ensures e.WindowResize? ==> r.0.running == app.running && !r.2
    ensures e.OtherEvent? ==> r == (app, [], false)
    ensures r.0.lastFrameTime == app.lastFrameTime && r.0.imGuiLayer == app.imGuiLayer
  {
    match e
    case WindowClose =>
      var r := OnWindowClose(app);
      (r.0, [], r.1)
    case WindowResize(width, height) => OnWindowResize(app, width, height)
    case OtherEvent(_) => (app, [], false)
  }

  // ---------------------------------------------------------------------------
  // Delivering an event to the layers.

  /** A layer's `OnEvent` is opaque: `react(layer, e, handled)` is the
      event's handled flag after the layer saw it, given the flag before.
      `FlagAfter(n)` is the flag once the top `n` layers have all seen the
      event, starting from `h0`. */
  function FlagAfter(layers: seq<Layer>, e: Event, react: (Layer, Event, bool) -> bool, h0: bool, n: nat): bool
    requires n <= |layers|
    decreases n
  {
    if n == 0 then h0 else react(layers[|layers| - n], e, FlagAfter(layers, e, react, h0, n - 1))
  }

  /** The loop from the end of the stack: `i` layers are left below the
      iterator; each is called and the flag is checked after the call. */
  function Deliver(layers: seq<Layer>, e: Event, react: (Layer, Event, bool) -> bool, handled: bool, i: nat)
    : (r: (seq<Layer>, bool))
    requires i <= |layers|
    ensures |r.0| <= i
    ensures i > 0 ==> |r.0| >= 1
    ensures forall j :: 0 <= j < |r.0| ==> r.0[j] == layers[i - 1 - j]
    decreases i
  {
    if i == 0 then ([], handled)
    else
      var h := react(layers[i - 1], e, handled);
      if h then ([layers[i - 1]], h)
      else
        var rest := Deliver(layers, e, react, h, i - 1);
        ([layers[i - 1]] + rest.0, rest.1)
  }

  /** The layers are visited from the top down. The first call happens
      whatever the flag was before, the loop stops right after the first
      layer after which the flag is set, and when it is never set every layer
      sees the event. */
  lemma {:induction false} DeliverFrom(layers: seq<Layer>, e: Event, react: (Layer, Event, bool) -> bool, h0: bool, i: nat)
    requires i <= |layers|
    ensures var n0 := |layers| - i;
      var r := Deliver(layers, e, react, FlagAfter(layers, e, react, h0, n0), i);
      && |r.0| <= i
      && (i > 0 ==> |r.0| >= 1)
      && (forall j :: 0 <= j < |r.0| ==> r.0[j] == layers[i - 1 - j])
      && (forall n :: n0 < n < n0 + |r.0| ==> !FlagAfter(layers, e, react, h0, n))
      && (|r.0| == i || FlagAfter(layers, e, react, h0, n0 + |r.0|))
      && r.1 == FlagAfter(layers, e, react, h0, n0 + |r.0|)
    decreases i
  {
    if i > 0 {
      var n0 := |layers| - i;
      var h := FlagAfter(layers, e, react, h0, n0 + 1);
      assert h == react(layers[i - 1], e, FlagAfter(layers, e, react, h0, n0));
      if !h {
        DeliverFrom(layers, e, react, h0, i - 1);
        var rest := Deliver(layers, e, react, h, i - 1);
        var r := Deliver(layers, e, react, FlagAfter(layers, e, react, h0, n0), i);
        assert r.0 == [layers[i - 1]] + rest.0;
        assert forall j :: 1 <= j < |r.0| ==> r.0[j] == rest.0[j - 1];
      }
    }
  }

  /** `OnEvent(e)`: the application's handlers, then the layers. */
  function OnEvent(app: App, layers: seq<Layer>, e: Event, react: (Layer, Event, bool) -> bool): (r: (App, seq<Effect>, bool))
    ensures r.0 == Dispatch(app, e).0
    ensures |Dispatch(app, e).1| <= |r.1| <= |Dispatch(app, e).1| + |layers|
    ensures r.1[..|Dispatch(app, e).1|] == Dispatch(app, e).1
    ensures |layers| > 0 ==>
      |Dispatch(app, e).1| < |r.1| && r.1[|Dispatch(app, e).1|] == LayerEvent(layers[|layers| - 1], e)
  {
    var d := Dispatch(app, e);
    var delivered := Deliver(layers, e, react, d.2, |layers|);
    (d.0, d.1 + seq(|delivered.0|, j requires 0 <= j < |delivered.0| => LayerEvent(delivered.0[j], e)), delivered.1)
  }

  /** A close event reaches the top layer even though the application has
      already handled it, and, when layers only ever set the flag, no other. */
  lemma CloseReachesTopLayer(app: App, layers: seq<Layer>, react: (Layer, Event, bool) -> bool)
    requires |layers| > 0
    requires forall l :: react(l, WindowClose, true)
    ensures var r := OnEvent(app, layers, WindowClose, react);
      !r.0.running && r.2 && r.1 == [LayerEvent(layers[|layers| - 1], WindowClose)]
  {
    DeliverFrom(layers, WindowClose, react, true, |layers|);
    assert FlagAfter(layers, WindowClose, react, true, 1) == react(layers[|layers| - 1], WindowClose, true);
  }

  /** An event nobody handles reaches every layer, top first. */
  lemma UnhandledReachesAll(app: App, layers: seq<Layer>, e: Event, react: (Layer, Event, bool) -> bool)
    requires !Dispatch(app, e).2
    requires forall n :: 1 <= n <= |layers| ==> !FlagAfter(layers, e, react, false, n)
    ensures var r := OnEvent(app, layers, e, react);
      var t := r.1[|Dispatch(app, e).1|..];
      && |t| == |layers|
      && (forall j :: 0 <= j < |layers| ==> t[j] == LayerEvent(layers[|layers| - 1 - j], e))
      && !r.2
  {
    DeliverFrom(layers, e, react, false, |layers|);
  }

  // ---------------------------------------------------------------------------
  // Frames.

  /** One pass of the `Run` loop's body at clock reading `now`. */
  function Iteration(app: App, layers: seq<Layer>, now: int): (r: (App, seq<Effect>))
    ensures r.0 == app.(lastFrameTime := now)
    ensures |r.1| >= 3 && r.1[|r.1| - 1] == WindowUpdate
  {
    var timestep := now - app.lastFrameTime;
    var updates := if app.minimized then [] else seq(|layers|, i requires 0 <= i < |layers| => LayerUpdate(layers[i], timestep));
    var renders := seq(|layers|, i requires 0 <= i < |layers| => ImGuiRender(layers[i]));
    (app.(lastFrameTime := now), updates + [ImGuiBegin] + renders + [ImGuiEnd, WindowUpdate])
  }

  /** Every layer is updated in stack order with the time since the last
      frame, unless the window is minimized; every layer renders its ImGui
      part in stack order between `begin` and `end` whether or not it is;
      the window updates once, last. The frame time becomes `now`. */
  lemma IterationShape(app: App, layers: seq<Layer>, now: int)
    ensures var r := Iteration(app, layers, now);
      var u := if app.minimized then 0 else |layers|;
      var t := r.1;
      && r.0 == app.(lastFrameTime := now)
      && |t| == u + |layers| + 3
      && (forall i :: 0 <= i < u ==> t[i] == LayerUpdate(layers[i], now - app.lastFrameTime))
      && t[u] == ImGuiBegin
      && (forall i :: 0 <= i < |layers| ==> t[u + 1 + i] == ImGuiRender(layers[i]))
      && t[u + 1 + |layers|] == ImGuiEnd
      && t[|t| - 1] == WindowUpdate
      && (forall i :: 0 <= i < |t| - 1 ==> t[i] != WindowUpdate)
  {
  }

  /** What one frame sees: the clock reading at its start, and the events the
      window delivers while it updates. */
  datatype Tick = Tick(now: int, events: seq<Event>)

  /** The events of one window update, in order. */
  function Events(app: App, layers: seq<Layer>, es: seq<Event>, react: (Layer, Event, bool) -> bool): (r: (App, seq<Effect>))
    ensures r.0.lastFrameTime == app.lastFrameTime && r.0.imGuiLayer == app.imGuiLayer
    decreases |es|
  {
    if |es| == 0 then (app, [])
    else
      var first := OnEvent(app, layers, es[0], react);
      var rest := Events(first.0, layers, es[1..], react);
      (rest.0, first.1 + rest.1)
  }

  /** `Run()`: frames while running, the flag checked only before each frame.
      Returns the final state, the effects, and the number of frames. */
  function Run(app: App, layers: seq<Layer>, ticks: seq<Tick>, react: (Layer, Event, bool) -> bool)
    : (r: (App, seq<Effect>, nat))
    ensures r.2 <= |ticks|
    ensures r.2 < |ticks| ==> !r.0.running
    decreases |ticks|
  {
    if !app.running || |ticks| == 0 then (app, [], 0)
    else
      var frame := Iteration(app, layers, ticks[0].now);
      var handled := Events(frame.0, layers, ticks[0].events, react);
      var rest := Run(handled.0, layers, ticks[1..], react);
      (rest.0, frame.1 + handled.1 + rest.1, rest.2 + 1)
  }

  /** Nothing sets `running` again once it is cleared. */
  lemma {:induction false} EventsKeepStopped(app: App, layers: seq<Layer>, es: seq<Event>, react: (Layer, Event, bool) -> bool)
    ensures !app.running ==> !Events(app, layers, es, react).0.running
    ensures WindowClose in es ==> !Events(app, layers, es, react).0.running
    decreases |es|
  {
    if |es| > 0 {
      var first := OnEvent(app, layers, es[0], react);
      EventsKeepStopped(first.0, layers, es[1..], react);
      assert es == [es[0]] + es[1..];
    }
  }

  /** A close event delivered during frame `k` makes that frame the last:
      the frame still completes, and no frame after it starts. */
  lemma {:induction false} RunStopsAfterClose(app: App, layers: seq<Layer>, ticks: seq<Tick>,
                                              react: (Layer, Event, bool) -> bool, k: nat)
    requires k < |ticks| && WindowClose in ticks[k].events
    ensures Run(app, layers, ticks, react).2 <= k + 1
    decreases |ticks|
  {
    if app.running {
      var frame := Iteration(app, layers, ticks[0].now);
      var handled := Events(frame.0, layers, ticks[0].events, react);
      if k == 0 {
        EventsKeepStopped(frame.0, layers, ticks[0].events, react);
      } else {
        assert ticks[1..][k - 1] == ticks[k];
        RunStopsAfterClose(handled.0, layers, ticks[1..], react, k - 1);
      }
    }
  }

  /** Each frame's time step is the clock reading at its start minus the
      previous one (the stored frame time for the first frame), and the
      stored frame time ends at the last frame's reading. */
  lemma {:induction false} RunClock(app: App, layers: seq<Layer>, ticks: seq<Tick>, react: (Layer, Event, bool) -> bool)
    ensures var r := Run(app, layers, ticks, react);
      r.0.lastFrameTime == if r.2 == 0 then app.lastFrameTime else ticks[r.2 - 1].now
    decreases |ticks|
  {
    if app.running && |ticks| > 0 {
      var frame := Iteration(app, layers, ticks[0].now);
      var handled := Events(frame.0, layers, ticks[0].events, react);
      RunClock(handled.0, layers, ticks[1..], react);
      var rest := Run(handled.0, layers, ticks[1..], react);
      if rest.2 > 0 {
        assert ticks[1..][rest.2 - 1] == ticks[rest.2];
      }
    }
  }
}
