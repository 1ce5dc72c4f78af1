/**
  The two text exporters: CSS custom properties and an SVG strip of
  rectangles. Both write one entry per colour, in palette order, between a
  fixed opening and closing; an entry is an index-dependent prefix, the
  colour, and a fixed suffix. Parsers for both formats recover the palette.
 */
module Export {
  import opened Wrappers
  import Radix
  import HexColor

  /** What an exporter hands to the browser's save mechanism. */
  datatype Download = Download(fileName: string, mimeType: string, content: string)

  /** One entry per colour, indices counted from `first`. */
  function Entries(colors: seq<string>, first: nat, prefix: nat -> string, suffix: string): string
    decreases |colors|
  {
    if colors == [] then ""
    else prefix(first) + colors[0] + suffix + Entries(colors[1..], first + 1, prefix, suffix)
  }

  /** The entries as a list, one string per colour, as `colors.map((color, index) => ...)` builds it. */
  function EntryList(colors: seq<string>, first: nat, prefix: nat -> string, suffix: string): (l: seq<string>)
    ensures |l| == |colors|
  {
    seq(|colors|, i requires 0 <= i < |colors| => prefix(first + i) + colors[i] + suffix)
  }

  /** `join('')`. */
  function Concat(parts: seq<string>): string
    decreases |parts|
  {
    if parts == [] then "" else parts[0] + Concat(parts[1..])
  }

  /** Appending one colour appends one entry, at index `first + |colors|`. */
  lemma {:induction false} EntriesSnoc(colors: seq<string>, c: string, first: nat, prefix: nat -> string, suffix: string)
    ensures Entries(colors + [c], first, prefix, suffix)
         == Entries(colors, first, prefix, suffix) + (prefix(first + |colors|) + c + suffix)
    decreases |colors|
  {
    if colors == [] {
      assert [c][1..] == [];
    } else {
      assert (colors + [c])[1..] == colors[1..] + [c];
      EntriesSnoc(colors[1..], c, first + 1, prefix, suffix);
    }
  }

  /** Joining the mapped entries gives the same text as writing them one after another. */
  lemma {:induction false} ConcatEntryList(colors: seq<string>, first: nat, prefix: nat -> string, suffix: string)
    ensures Concat(EntryList(colors, first, prefix, suffix)) == Entries(colors, first, prefix, suffix)
    decreases |colors|
  {
    if colors != [] {
      var l := EntryList(colors, first, prefix, suffix);
      assert l[1..] == EntryList(colors[1..], first + 1, prefix, suffix);
      ConcatEntryList(colors[1..], first + 1, prefix, suffix);
    }
  }

  /**
    Read back entries written with `prefix`/`suffix` around seven-character
    colours, up to the closing text `close`.
   */
  function ParseEntries(s: string, first: nat, prefix: nat -> string, suffix: string, close: string): Option<seq<string>>
    decreases |s|
  {
    var p := prefix(first);
    var n := |p| + HexColor.ColorLength + |suffix|;
    if |s| >= n && s[..|p|] == p && s[|p| + HexColor.ColorLength..n] == suffix then
      match ParseEntries(s[n..], first + 1, prefix, suffix, close)
      case Some(rest) => Some([s[|p|..|p| + HexColor.ColorLength]] + rest)
      case None => None
    else if s == close then Some([])
    else None
  }

  /** Entries of seven-character colours, followed by a closing shorter than any entry, parse back to the colours. */
  lemma {:induction false} ParseEntriesInverse(colors: seq<string>, first: nat, prefix: nat -> string, suffix: string, close: string)
    requires forall i :: 0 <= i < |colors| ==> |colors[i]| == HexColor.ColorLength
    requires |close| < HexColor.ColorLength + |suffix|
    ensures ParseEntries(Entries(colors, first, prefix, suffix) + close, first, prefix, suffix, close) == Some(colors)
    decreases |colors|
  {
    var s := Entries(colors, first, prefix, suffix) + close;
    if colors == [] {
      assert s == close;
    } else {
      var p := prefix(first);
      var c := colors[0];
      var rest := Entries(colors[1..], first + 1, prefix, suffix) + close;
      var n := |p| + HexColor.ColorLength + |suffix|;
      assert s == p + c + suffix + rest;
      assert s[..|p|] == p;
      assert s[|p|..|p| + HexColor.ColorLength] == c;
      assert s[|p| + HexColor.ColorLength..n] == suffix;
      assert s[n..] == rest;
      ParseEntriesInverse(colors[1..], first + 1, prefix, suffix, close);
      assert [c] + colors[1..] == colors;
    }
  }

  predicate AllHexColors(colors: seq<string>) {
    forall i :: 0 <= i < |colors| ==> HexColor.IsHexColor(colors[i])
  }

  // CSS custom properties

  const CssOpen := ":root {\n"
  const CssClose := "}"
  const CssSuffix := ";\n"

  /** `  --color-N: ` with N the 1-based position. */
  function CssPrefix(index: nat): string {
    "  --color-" + Radix.ToString(index + 1, 10) + ": "
  }

  /** Reference text of the CSS export. */
  function CssDocument(colors: seq<string>): string {
    CssOpen + Entries(colors, 0, CssPrefix, CssSuffix) + CssClose
  }

  /**
    `exportAsCSS`: start from `:root {` and a newline, append one
    `  --color-N: <colour>;` line per colour, close with `}`.
   */
  method ExportAsCss(colors: seq<string>) returns (d: Download)
    ensures d.fileName == "palette.css" && d.mimeType == "text/css"
    ensures d.content == CssDocument(colors)
  {
    var cssVars := ":root {\n";
    var index := 0;
    while index < |colors|
      invariant index <= |colors|
      invariant cssVars == CssOpen + Entries(colors[..index], 0, CssPrefix, CssSuffix)
    {
      EntriesSnoc(colors[..index], colors[index], 0, CssPrefix, CssSuffix);
      assert colors[..index + 1] == colors[..index] + [colors[index]];
      cssVars := cssVars + ("  --color-" + Radix.ToString(index + 1, 10) + ": " + colors[index] + ";\n");
      index := index + 1;
    }
    assert colors[..index] == colors;
    cssVars := cssVars + "}";
    d := Download("palette.css", "text/css", cssVars);
  }

  function ParseCss(s: string): Option<seq<string>> {
    if |s| >= |CssOpen| && s[..|CssOpen|] == CssOpen then
      ParseEntries(s[|CssOpen|..], 0, CssPrefix, CssSuffix, CssClose)
    else None
  }

  /** The CSS export of a well-formed palette parses back to the palette, in order. */
  lemma ParseCssExport(colors: seq<string>)
    requires AllHexColors(colors)
    ensures ParseCss(CssDocument(colors)) == Some(colors)
  {
    var body := Entries(colors, 0, CssPrefix, CssSuffix) + CssClose;
    assert CssDocument(colors) == CssOpen + body;
    assert (CssOpen + body)[..|CssOpen|] == CssOpen;
    assert (CssOpen + body)[|CssOpen|..] == body;
    ParseEntriesInverse(colors, 0, CssPrefix, CssSuffix, CssClose);
  }

  /** An empty palette still exports a well-formed, empty `:root` block. */
  lemma CssEmpty()
    ensures CssDocument([]) == ":root {\n}"
    ensures ParseCss(":root {\n}") == Some([])
  {
    ParseCssExport([]);
  }

  /** The two-colour example: one numbered line per colour. */
  lemma CssTwoColors()
    ensures CssDocument(["#aabbcc", "#112233"])
         == ":root {\n"
          + "  --color-1: #aabbcc;\n"
          + "  --color-2: #112233;\n"
          + "}"
  {
    var colors := ["#aabbcc", "#112233"];
    assert Radix.ToString(1, 10) == "1" && Radix.ToString(2, 10) == "2";
    assert CssPrefix(0) == "  --color-1: " && CssPrefix(1) == "  --color-2: ";
    assert colors[1..] == ["#112233"] && ["#112233"][1..] == [];
    var line1 := CssPrefix(0) + "#aabbcc" + CssSuffix;
    var line2 := CssPrefix(1) + "#112233" + CssSuffix;
    assert Entries(["#112233"], 1, CssPrefix, CssSuffix) == line2 + "";
    assert Entries(colors, 0, CssPrefix, CssSuffix) == line1 + line2;
  }

  // SVG strip

  const SvgOpen := "<svg width=\"100\" height=\"100\" xmlns=\"http://www.w3.org/2000/svg\">"
  const SvgClose := "</svg>"
  const SvgSuffix := "\" />"

  /** `<rect x="X" y="0" width="20" height="100" fill="` with X = 20 * index. */
  function SvgPrefix(index: nat): string {
    "<rect x=\"" + Radix.ToString(index * 20, 10) + "\" y=\"0\" width=\"20\" height=\"100\" fill=\""
  }

  /** Reference text of the SVG export. */
  function SvgDocument(colors: seq<string>): string {
    SvgOpen + Entries(colors, 0, SvgPrefix, SvgSuffix) + SvgClose
  }

  /**
    `exportAsSVG`: the fixed `<svg>` header, then the colours mapped to
    `<rect>` elements and joined with no separator, then `</svg>`.
   */
  function ExportAsSvg(colors: seq<string>): (d: Download)
    ensures d.fileName == "palette.svg" && d.mimeType == "image/svg+xml"
    ensures d.content == SvgDocument(colors)
  {
    ConcatEntryList(colors, 0, SvgPrefix, SvgSuffix);
    Download("palette.svg", "image/svg+xml", SvgOpen + Concat(EntryList(colors, 0, SvgPrefix, SvgSuffix)) + SvgClose)
  }

  function ParseSvg(s: string): Option<seq<string>> {
    if |s| >= |SvgOpen| && s[..|SvgOpen|] == SvgOpen then
      ParseEntries(s[|SvgOpen|..], 0, SvgPrefix, SvgSuffix, SvgClose)
    else None
  }

  /** The SVG export of a well-formed palette parses back to the palette: one rect per colour, in order. */
  lemma ParseSvgExport(colors: seq<string>)
    requires AllHexColors(colors)
    ensures ParseSvg(SvgDocument(colors)) == Some(colors)
  {
    var body := Entries(colors, 0, SvgPrefix, SvgSuffix) + SvgClose;
    assert SvgDocument(colors) == SvgOpen + body;
    assert (SvgOpen + body)[..|SvgOpen|] == SvgOpen;
    assert (SvgOpen + body)[|SvgOpen|..] == body;
    ParseEntriesInverse(colors, 0, SvgPrefix, SvgSuffix, SvgClose);
  }

  /** An empty palette exports an empty 100x100 canvas. */
  lemma SvgEmpty()
    ensures SvgDocument([]) == "<svg width=\"100\" height=\"100\" xmlns=\"http://www.w3.org/2000/svg\"></svg>"
    ensures ParseSvg(SvgDocument([])) == Some([])
  {
    ParseSvgExport([]);
  }

  /** The one-colour example: a single rect at x = 0. */
  lemma SvgOneColor()
    ensures SvgDocument(["#ff0000"])
         == "<svg width=\"100\" height=\"100\" xmlns=\"http://www.w3.org/2000/svg\">"
          + ("<rect x=\"" + "0" + "\" y=\"0\" width=\"20\" height=\"100\" fill=\"" + "#ff0000" + "\" />")
          + "</svg>"
  {
    assert Radix.ToString(0, 10) == "0";
    assert ["#ff0000"][1..] == [];
    assert Entries(["#ff0000"], 0, SvgPrefix, SvgSuffix) == SvgPrefix(0) + "#ff0000" + SvgSuffix;
  }
}
