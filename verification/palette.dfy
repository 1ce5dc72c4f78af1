/**
  The state of the palette component: its ordered colour list and the two
  shadow-DOM elements its handlers query (the add-colour panel and the
  colour input inside it). Handlers are modelled as pure transitions.
 */
module Palette {
  import opened Wrappers
  import Modal
  import HexColor

  /** Number of colours the constructor generates. */
  const InitialSize := 200

  /** The `value` attribute the template gives the colour input. */
  const DefaultPick := "#ff0000"

  /**
    The queried part of the shadow DOM. Both elements live in the same
    template, so `querySelector` finds both or neither: neither before the
    first render, both afterwards.
   */
  datatype Dom = Unrendered | Rendered(display: Modal.Display, picked: string)

  datatype Widget = Widget(colors: seq<string>, dom: Dom)

  /**
    The constructor: starting from an empty list, push one generated colour
    per draw, 200 times. `draws[i]` stands for `Math.floor(Math.random() * 16777215)`
    on the i-th iteration.
   */
  method Construct(draws: seq<nat>) returns (w: Widget)
    requires |draws| == InitialSize
    requires forall i :: 0 <= i < |draws| ==> draws[i] < HexColor.DrawBound
    ensures |w.colors| == InitialSize
    ensures forall i :: 0 <= i < InitialSize ==> HexColor.IsHexColor(w.colors[i])
    ensures forall i :: 0 <= i < InitialSize ==> HexColor.DecodeColor(w.colors[i]) == Some(draws[i])
    ensures w.dom == Unrendered
  {
    var colors: seq<string> := [];
    var i := 0;
    while i < InitialSize
      invariant 0 <= i <= InitialSize
      invariant |colors| == i
      invariant forall j :: 0 <= j < i ==> HexColor.IsHexColor(colors[j])
      invariant forall j :: 0 <= j < i ==> HexColor.DecodeColor(colors[j]) == Some(draws[j])
    {
      var c := HexColor.GenerateColor(draws[i]);
      colors := colors + [c];
      i := i + 1;
    }
    w := Widget(colors, Unrendered);
  }

  /** Lit's first render attaches the template: panel with no inline display, input holding its default. */
  function Render(w: Widget): (r: Widget)
    ensures r.colors == w.colors
    ensures w.dom.Unrendered? ==> r.dom == Rendered(Modal.Unset, DefaultPick)
    ensures w.dom.Rendered? ==> r.dom == w.dom
  {
    if w.dom.Unrendered? then Widget(w.colors, Rendered(Modal.Unset, DefaultPick)) else w
  }

  /** `_toggleModal`: flip the panel's display when the panel exists, otherwise do nothing. */
  function ToggleModal(dom: Dom): (r: Dom)
    ensures dom.Unrendered? ==> r == dom
    ensures dom.Rendered? ==> r.Rendered? && r.picked == dom.picked
    ensures dom.Rendered? ==> r.display == Modal.Toggle(dom.display)
    ensures dom.Rendered? ==> r.display != Modal.Unset
    ensures dom.Rendered? ==> (Modal.Visible(r.display) <==> dom.display == Modal.DisplayNone)
  {
    match dom
    case Unrendered => Unrendered
    case Rendered(d, p) => Rendered(Modal.Toggle(d), p)
  }

  /**
    `_addColor`: when the input exists, append its current value, unchecked,
    to the end of the list; then toggle the panel once, whether or not the
    input existed.
   */
  function AddColor(w: Widget): (r: Widget)
    ensures r.dom == ToggleModal(w.dom)
    ensures w.dom.Unrendered? ==> r.colors == w.colors
    ensures w.dom.Rendered? ==> |r.colors| == |w.colors| + 1
    ensures w.dom.Rendered? ==> r.colors[..|w.colors|] == w.colors
    ensures w.dom.Rendered? ==> r.colors[|w.colors|] == w.dom.picked
  {
    var colors := if w.dom.Rendered? then w.colors + [w.dom.picked] else w.colors;
    Widget(colors, ToggleModal(w.dom))
  }

  /** Adding from the open panel closes it; adding while the inline display is 'none' opens it. */
  lemma AddColorPanel(w: Widget)
    requires w.dom.Rendered?
    ensures w.dom.display == Modal.DisplayFlex ==> !Modal.Visible(AddColor(w).dom.display)
    ensures w.dom.display == Modal.DisplayNone ==> Modal.Visible(AddColor(w).dom.display)
    ensures AddColor(w).dom.display != Modal.Unset
  {
  }

  /**
    The user actions the template wires up, plus Lit's render, the native
    picker's choice, and the host page writing the public `colors` property.
   */
  datatype Event =
    | Rendering             // Lit renders (or re-renders) the template
    | PlusClick             // the plus icon: `_toggleModal`
    | CrossClick            // the panel's cross icon: `_toggleModal`
    | Pick(value: string)   // the user chooses a value in the native colour input
    | AddClick              // the panel's Add button: `_addColor`
    | HostWrite(list: seq<string>) // the host assigns `colors`, or sets the attribute Lit parses into it

  /**
    One event as the template wires it. Of the component's own handlers only
    the Add button changes the palette, and only by appending; a host write
    replaces the palette wholesale and leaves the DOM alone. Once rendered,
    the DOM stays rendered.
   */
  function Step(w: Widget, e: Event): (r: Widget)
    ensures !e.AddClick? && !e.HostWrite? ==> r.colors == w.colors
    ensures e.AddClick? && w.dom.Rendered? ==> r.colors == w.colors + [w.dom.picked]
    ensures e.AddClick? && w.dom.Unrendered? ==> r.colors == w.colors
    ensures e.HostWrite? ==> r == Widget(e.list, w.dom)
    ensures e.Rendering? ==> r == Render(w)
    ensures (e.PlusClick? || e.CrossClick? || e.AddClick?) ==> r.dom == ToggleModal(w.dom)
    ensures e.Pick? ==> r.dom == (if w.dom.Rendered? then Rendered(w.dom.display, e.value) else w.dom)
    ensures r.dom.Rendered? <==> w.dom.Rendered? || e.Rendering?
  {
    match e
    case Rendering => Render(w)
    case PlusClick => Widget(w.colors, ToggleModal(w.dom))
    case CrossClick => Widget(w.colors, ToggleModal(w.dom))
    case Pick(v) => if w.dom.Rendered? then Widget(w.colors, Rendered(w.dom.display, v)) else w
    case AddClick => AddColor(w)
    case HostWrite(cs) => Widget(cs, w.dom)
  }

  function Run(w: Widget, events: seq<Event>): Widget
    decreases |events|
  {
    if events == [] then w else Run(Step(w, events[0]), events[1..])
  }

  function AddClicks(events: seq<Event>): nat
    decreases |events|
  {
    if events == [] then 0 else (if events[0].AddClick? then 1 else 0) + AddClicks(events[1..])
  }

  /** Every colour held, and the input's value, are of the form `#rrggbb`. */
  predicate WellFormed(w: Widget) {
    && (forall i :: 0 <= i < |w.colors| ==> HexColor.IsHexColor(w.colors[i]))
    && (w.dom.Rendered? ==> HexColor.IsHexColor(w.dom.picked))
  }

  /**
    The native colour input only ever reports `#rrggbb` values, and every
    list the host writes holds only `#rrggbb` values.
   */
  predicate PicksWellFormed(events: seq<Event>) {
    && (forall i :: 0 <= i < |events| && events[i].Pick? ==> HexColor.IsHexColor(events[i].value))
    && (forall i, j :: 0 <= i < |events| && events[i].HostWrite? && 0 <= j < |events[i].list| ==>
          HexColor.IsHexColor(events[i].list[j]))
  }

  /** A run driven by the user and Lit alone: the host never writes `colors`. */
  predicate UserOnly(events: seq<Event>) {
    forall i :: 0 <= i < |events| ==> !events[i].HostWrite?
  }

  lemma UserOnlyTail(events: seq<Event>)
    requires events != [] && UserOnly(events)
    ensures !events[0].HostWrite? && UserOnly(events[1..])
  {
    forall i | 0 <= i < |events[1..]|
      ensures !events[1..][i].HostWrite?
    {
      assert events[1..][i] == events[i + 1];
    }
  }

  /** Without host writes the palette never shrinks or reorders: the old list is a prefix of the new one. */
  lemma {:induction false} RunExtendsPalette(w: Widget, events: seq<Event>)
    requires UserOnly(events)
    ensures |w.colors| <= |Run(w, events).colors| <= |w.colors| + |events|
    ensures Run(w, events).colors[..|w.colors|] == w.colors
    decreases |events|
  {
    if events != [] {
      UserOnlyTail(events);
      var w' := Step(w, events[0]);
      assert |w.colors| <= |w'.colors| <= |w.colors| + 1;
      assert w'.colors[..|w.colors|] == w.colors;
      RunExtendsPalette(w', events[1..]);
      var r := Run(w', events[1..]);
      assert r.colors[..|w.colors|] == r.colors[..|w'.colors|][..|w.colors|];
    }
  }

  /** Once rendered and without host writes, the palette grows by exactly one colour per Add click. */
  lemma {:induction false} RunCountsAdds(w: Widget, events: seq<Event>)
    requires w.dom.Rendered? && UserOnly(events)
    ensures |Run(w, events).colors| == |w.colors| + AddClicks(events)
    decreases |events|
  {
    if events != [] {
      UserOnlyTail(events);
      RunCountsAdds(Step(w, events[0]), events[1..]);
    }
  }

  /** If the picker and the host only supply well-formed colours, every reachable palette is well-formed. */
  lemma {:induction false} RunKeepsWellFormed(w: Widget, events: seq<Event>)
    requires WellFormed(w) && PicksWellFormed(events)
    ensures WellFormed(Run(w, events))
    decreases |events|
  {
    if events != [] {
      var w' := Step(w, events[0]);
      assert HexColor.IsHexColor(DefaultPick) by {
        assert DefaultPick[1..] == "ff0000";
      }
      assert events[0].Pick? ==> HexColor.IsHexColor(events[0].value);
      assert events[0].HostWrite? ==> forall j :: 0 <= j < |events[0].list| ==> HexColor.IsHexColor(events[0].list[j]);
      assert WellFormed(w');
      assert PicksWellFormed(events[1..]) by {
        forall i | 0 <= i < |events[1..]|
          ensures events[1..][i] == events[i + 1]
        {
        }
      }
      RunKeepsWellFormed(w', events[1..]);
    }
  }

  /** A host write can shrink the palette: assigning `[]` empties any palette, whatever the DOM. */
  lemma HostWriteCanShrink(w: Widget)
    requires |w.colors| > 0
    ensures |Run(w, [HostWrite([])]).colors| < |w.colors|
    ensures Run(w, [HostWrite([])]).dom == w.dom
  {
    assert [HostWrite([])][1..] == [];
  }
}
