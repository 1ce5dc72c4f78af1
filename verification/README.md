# Colour palette component — a verified model

This project models the logic of a Lit web component (`my-element`) that holds a palette of colours. The component generates 200 random colours at construction. It lets the user add the value of a native colour input through a modal panel. It exports the palette as CSS custom properties or as an SVG strip of rectangles. The browser is left out. The modules are:

- `Radix`: `Number.prototype.toString(radix)` for non-negative integers (used with radix 16 for colours and radix 10 for template-literal indices), its inverse `Parse`, and both round trips.
- `HexColor`: the colour generator `_generateColor`, with the random draw as a parameter. It has a declarative reference `EncodeColor`, the `while`-loop method `GenerateColor` and a decoder `DecodeColor`. Colours use the `#rrggbb` form of the CSS hexadecimal colour notation (CSS Color Module Level 4, section 5.2).
- `Modal`: the panel's inline `style.display`, abstracted to `Unset` (the initial `''`), `DisplayNone` and `DisplayFlex`, and `_toggleModal`'s rule.
- `Palette`: the component state (colour list plus the queried shadow-DOM elements), the constructor loop, `_toggleModal`, `_addColor`, and runs of events. The events are the user's, Lit's render, and the host page writing the public `colors` property (src/my-element.ts:7-8).
- `Export`: `exportAsCSS` (a loop that appends to a string), `exportAsSVG` (map then `join('')`), and parsers for both formats that recover the palette.

Two facts about the panel follow from the code and are worth stating:

- The panel's inline display starts as `''`, and the stylesheet hides `.modal` (src/my-element.ts:156-158). `_toggleModal` writes `'flex'` only when the display is `'none'`, so the first toggle writes `'none'` and the panel stays hidden. It first appears on the second click (`Modal.TogglesFromUnset`).
- `_addColor` toggles once after the append. Only from `'flex'` does that close the panel (`Palette.AddColorPanel`). From `'none'` it would open the panel. The Add button (src/my-element.ts:98) sits inside `.modal` (src/my-element.ts:90-99), so that case arises only when `_addColor` is called directly, never through the UI. The cross icon (src/my-element.ts:94-96) and the colour input (src/my-element.ts:92) sit inside `.modal` too. The event model `Palette.Step` lets an Add click, a cross click and a pick happen in any state. Its lemmas therefore cover a superset of the runs the UI allows.

## Model

| member | source | states |
|---|---|---|
| Radix.ToString | src/my-element.ts:34 | `toString(radix)` writes only lowercase digits below the radix, with no leading zero; it starts with '0' exactly when the number is 0 (then it is "0") |
| Radix.ParseToString | src/my-element.ts:34 | reading back the digits `toString` wrote gives the original number |
| Radix.ToStringParse | src/my-element.ts:34 | every canonical digit string is exactly what `toString` writes for its value |
| Radix.ToStringFits | src/my-element.ts:34-35 | `toString(radix)` has at most k digits iff the number is below radix^k; with the draw bound, the hex form never exceeds six digits |
| Radix.ParseBound | src/my-element.ts:34-37 | a string of k digits is worth less than radix^k, so six hex digits hold at most 16777215 |
| Radix.ParseLeadingZeros | src/my-element.ts:35-37 | prepending '0' characters keeps the string a digit string and does not change its value |
| HexColor.EncodeColor | src/my-element.ts:33-39 | every draw below 16777215 gives a seven-character string: '#' then six lowercase hex digits |
| HexColor.GenerateColor | src/my-element.ts:33-39 | the padding loop returns the reference encoding (zeros, then the hex form, behind '#'), and decoding its result gives back the draw |
| HexColor.DecodeEncode | src/my-element.ts:34-38 | decoding the six hex digits of a generated colour yields the draw `n` |
| HexColor.EncodeDecode | src/my-element.ts:34-38 | every well-formed `#rrggbb` other than `#ffffff` decodes to a draw below the bound, and that draw generates exactly that string |
| HexColor.NeverWhite | src/my-element.ts:34 | because the largest draw is 16777214, `#ffffff` is never generated |
| Modal.Toggle | src/my-element.ts:17-22 | after a toggle the display is always set; the panel is shown afterwards iff the display was 'none' before |
| Modal.ToggleTwice | src/my-element.ts:20 | two toggles restore the display iff it was already set: an involution on {DisplayNone, DisplayFlex} and not on Unset |
| Modal.TogglesFromSet | src/my-element.ts:20 | from a set display, an even number of toggles returns to it and an odd number gives the other state |
| Modal.TogglesFromUnset | src/my-element.ts:20 | from the initial '' display, k toggles leave the panel shown iff k is even and positive; the first toggle only writes 'none' |
| Palette.Construct | src/my-element.ts:10-15 | the constructor yields exactly 200 colours, each of the form `#rrggbb`, the i-th decoding to the i-th draw, in generation order, before any render |
| Palette.Render | src/my-element.ts:90-92 | rendering keeps the palette; the first render attaches the panel with no inline display (`''`) and the colour input holding `#ff0000`; once attached, a re-render leaves both untouched |
| Palette.ToggleModal | src/my-element.ts:17-22 | with no panel nothing changes; with one, the input is untouched, the display becomes the toggled one ('flex' from 'none', 'none' otherwise) and is never left as `''`, and the panel is shown afterwards iff its display was 'none' |
| Palette.AddColor | src/my-element.ts:24-31 | with the input present, the palette grows by one, the old list is its prefix and the input's value, unvalidated, is the last entry; without the input it is unchanged; either way exactly one toggle follows |
| Palette.AddColorPanel | src/my-element.ts:24-31 | adding from the open panel hides it; adding while the display is 'none' shows it; afterwards the display is never unset |
| Palette.Step | src/my-element.ts:86-98 | the template's wiring: the plus icon, the cross icon and the Add button each perform exactly one `_toggleModal`; a pick changes only the input's value (nothing before the first render); a render event is `Render`; of the component's handlers only the Add button changes the palette, by appending the input's value when the input exists; a host write replaces the palette and leaves the DOM alone; once rendered, the DOM stays rendered |
| Palette.RunExtendsPalette | src/my-element.ts:24-31 | over any sequence of events without a host write the palette never shrinks or reorders and grows by at most one per event |
| Palette.RunCountsAdds | src/my-element.ts:24-31 | once rendered and without host writes, the palette grows by exactly the number of Add clicks |
| Palette.RunKeepsWellFormed | src/my-element.ts:24-31 | if the colour input only reports `#rrggbb` values and the host only writes lists of them, every colour in every reachable palette is `#rrggbb` |
| Palette.HostWriteCanShrink | src/my-element.ts:7-8 | `colors` is a public property: a host write of `[]` empties any non-empty palette, so the two lemmas above need runs without host writes |
| Export.ExportAsCss | src/my-element.ts:54-62 | the accumulating loop produces `palette.css` (`text/css`) holding `:root {`, a newline, then `  --color-(i+1): c_i;` and a newline for each colour in order, then `}` |
| Export.EntriesSnoc | src/my-element.ts:56-58 | one more loop iteration appends exactly the entry for the next index |
| Export.ParseCssExport | src/my-element.ts:55-59 | the CSS export of a well-formed palette parses back to that palette, in order |
| Export.CssEmpty | src/my-element.ts:55-59 | an empty palette exports `:root {`, a newline and `}`, which parses as an empty palette |
| Export.CssTwoColors | src/my-element.ts:55-59 | the palette `#aabbcc`, `#112233` exports as two numbered lines between `:root {` and `}` |
| Export.ExportAsSvg | src/my-element.ts:64-68 | `palette.svg` (`image/svg+xml`) holds the fixed 100x100 `<svg>` header, one `<rect x="20*i" y="0" width="20" height="100" fill="c_i" />` per colour with no separator, then `</svg>` |
| Export.ConcatEntryList | src/my-element.ts:65 | mapping the colours to rects and joining with '' gives the same text as writing the rects one after another |
| Export.ParseSvgExport | src/my-element.ts:65 | the SVG export of a well-formed palette parses back to the palette, so it holds exactly one rect per colour, in order |
| Export.SvgEmpty | src/my-element.ts:65 | an empty palette exports an empty 100x100 canvas, which parses as an empty palette |
| Export.SvgOneColor | src/my-element.ts:65 | the palette `#ff0000` exports a single rect at x = 0 inside the canvas |

## Left out

- `Math.random` and the floating-point product `Math.random() * 16777215`: each draw is an integer parameter `n` with `0 <= n < 16777215`, and the constructor takes 200 of them.
- `_exportAsJSON` (src/my-element.ts:48-52): its content comes from `JSON.stringify`, whose pretty-printing and escaping rules are not part of this model.
- `downloadFile` (src/my-element.ts:70-76): the Blob, the object URL and the synthetic click are browser I/O. An exporter's result is modelled as the `Download` record it hands over: file name, MIME type and text.
- `_copyToClipboard` (src/my-element.ts:41-45): an asynchronous Clipboard API call followed by `alert`, with no logic of its own.
- `render()` markup and `static styles` (src/my-element.ts:78-249): only the facts the logic depends on are kept. The panel and the colour input appear together on the first render. The input's default value is `#ff0000`. The stylesheet hides `.modal` unless the inline display is `flex`. Re-rendering does not reset either element.
- The `colors` attribute (src/my-element.ts:7-8): Lit's default converter JSON-parses it for `type: Array`. The model's host-write event carries the list after parsing. The converter, a malformed attribute, and elements that are not strings are not modelled.
- JavaScript numbers are doubles. `index + 1` and `index * 20` are modelled as exact integers, which matches the source for every palette shorter than 2^53 / 20 entries.
- Radix.ToString: covers radixes 2 to 16 only; `toString` accepts up to 36, but the component only uses 10 and 16.
- Export.ParseCssExport: the round trip is stated only for palettes of well-formed `#rrggbb` colours. `_addColor` does not validate its input, and an arbitrary string (one holding `;` and a newline, say) can make the text ambiguous.
- Export.ParseSvgExport: restricted to well-formed colours for the same reason.
