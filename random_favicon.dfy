// The favicon drawn at load time: an SVG tile in the page's brand variant,
// coloured from the same CSS custom properties as the corner tile.
module RandomFavicon {
  import opened Wrappers
  import opened Browser
  import opened BrandVariant
  import BrandCorner

  /**
   * The favicon's own `cssVar`. It runs only in the browser, so it has no
   * server-side guard: the trimmed computed value, or the fallback when that
   * is empty.
   */
  function CssVar(style: ComputedStyle, name: string, fallback: string): (v: string)
    ensures AllSpace(PropertyValue(style, name)) ==> v == fallback
    ensures !AllSpace(PropertyValue(style, name)) ==> v == Trim(PropertyValue(style, name)) && Trimmed(v) && v != []
  {
    var v := Trim(PropertyValue(style, name));
    if v != [] then v else fallback
  }

  /** In a browser the two copies of `cssVar` read the same value. */
  lemma CssVarsAgree(style: ComputedStyle, name: string, fallback: string)
    ensures CssVar(style, name, fallback) == BrandCorner.CssVar(BrandCorner.Document(true, true, style), name, fallback)
  {
  }

  /** The four colour reads of `buildSVG`, with the same names and fallbacks as the corner tile. */
  function ReadPalette(style: ComputedStyle): (p: BrandCorner.Palette)
    ensures p == BrandCorner.ReadPalette(BrandCorner.Document(true, true, style))
  {
    BrandCorner.Palette(
      CssVar(style, "--pill-blue", "#2f2fff"),
      CssVar(style, "--pill-ink", "#141414"),
      CssVar(style, "--pill-banana", "#ffd84d"),
      CssVar(style, "--card-white", "#f7f7fb"))
  }

  /** The favicon's variant-to-(bg, fg) map; it agrees with the corner tile's. */
  function Colors(v: Variant, p: BrandCorner.Palette): (c: (string, string))
    ensures c.0 == BrandCorner.StyleOf(v, p).bg && c.1 == BrandCorner.StyleOf(v, p).fg
  {
    match v
    case Blue => (p.blue, p.white)
    case Ink => (p.ink, p.white)
    case Banana => (p.banana, p.ink)
    case White => (p.white, p.blue)
  }

  /** With nothing declared, every favicon draws its glyph in a colour other than its tile's. */
  lemma FallbackFaviconReadable(v: Variant)
    ensures Colors(v, ReadPalette(map[])).0 != Colors(v, ReadPalette(map[])).1
  {
    BrandCorner.FallbackReadable(v);
  }

  const GlyphText := ".ap"

  /** The SVG text before the tile's fill colour. */
  const Head := "\n<svg xmlns=\"http://www.w3.org/2000/svg\" viewBox=\"0 0 256 256\">\n  <rect width=\"256\" height=\"256\" rx=\"36\" fill=\""

  /** The SVG text between the tile's fill and the glyph's fill. */
  const Mid := "\"" + "/>\n  <text x=\"22\" y=\"204\"\n    font-family=\"ui-sans-serif, system-ui, -apple-system, Segoe UI, Roboto, Helvetica, Arial\"\n    font-weight=\"900\" font-size=\"168\" letter-spacing=\"-6\"\n    fill=\""

  /** The SVG text after the glyph's fill, holding the glyph itself. */
  const Tail := "\"" + " dominant-baseline=\"alphabetic\">" + GlyphText + "</text>\n</svg>"

  predicate Quoteless(s: string) {
    '"' !in s
  }

  /** Splits a string at its first double quote. */
  function UpToQuote(s: string): (string, string) {
    if s == [] || s[0] == '"' then ([], s)
    else
      var (pre, rest) := UpToQuote(s[1..]);
      ([s[0]] + pre, rest)
  }

  /** The split loses nothing, its first part has no quote, and its second part starts at one. */
  lemma {:induction false} UpToQuoteParts(s: string)
    ensures UpToQuote(s).0 + UpToQuote(s).1 == s && Quoteless(UpToQuote(s).0)
    ensures UpToQuote(s).1 == [] || UpToQuote(s).1[0] == '"'
  {
    if s != [] && s[0] != '"' {
      UpToQuoteParts(s[1..]);
      var (pre, rest) := UpToQuote(s[1..]);
      assert [s[0]] + pre + rest == [s[0]] + (pre + rest) == s;
    }
  }

  /** A quote-free prefix is exactly what `UpToQuote` splits off. */
  lemma {:induction false} UpToQuoteSplit(a: string, b: string)
    requires Quoteless(a) && b != [] && b[0] == '"'
    ensures UpToQuote(a + b) == (a, b)
  {
    if a == [] {
      assert a + b == b;
    } else {
      assert (a + b)[1..] == a[1..] + b;
      assert a[0] != '"';
      UpToQuoteSplit(a[1..], b);
      assert [a[0]] + a[1..] == a;
    }
  }

  /** Reads the two fill colours back out of a favicon, if it has the shape `buildSVG` gives it. */
  function ReadFills(svg: string): Option<(string, string)> {
    if !(Head <= svg) then None
    else
      var (bg, rest) := UpToQuote(svg[|Head|..]);
      if !(Mid <= rest) then None
      else
        var (fg, rest2) := UpToQuote(rest[|Mid|..]);
        if rest2 == Tail then Some((bg, fg)) else None
  }

  /**
   * The favicon markup for two fill colours: the rect's fill attribute holds
   * `bg` right after the header, the fixed middle closes the rect and opens
   * the text's fill, which holds `fg` right before the tail with the glyph.
   */
  function Svg(bg: string, fg: string): (r: string)
    ensures |r| == |Head| + |bg| + |Mid| + |fg| + |Tail|
    ensures r[..|Head|] == Head && r[|Head|..|Head| + |bg|] == bg
    ensures r[|Head| + |bg|..|r| - |Tail| - |fg|] == Mid
    ensures r[|r| - |Tail| - |fg|..|r| - |Tail|] == fg && r[|r| - |Tail|..] == Tail
  {
    HolesAt(Head, bg, Mid, fg, Tail);
    Head + bg + Mid + fg + Tail
  }

  /** Where the parts of `h + a + m + b + t` sit in it. */
  lemma HolesAt(h: string, a: string, m: string, b: string, t: string)
    ensures var s := h + a + m + b + t;
      && |s| == |h| + |a| + |m| + |b| + |t|
      && s[..|h|] == h && s[|h|..|h| + |a|] == a && s[|h| + |a|..|s| - |t| - |b|] == m
      && s[|s| - |t| - |b|..|s| - |t|] == b && s[|s| - |t|..] == t
  {
    var s := h + a + m + b + t;
    assert s == h + (a + m + b + t);
    assert s == (h + a + m) + (b + t);
    assert s[|h|..] == a + (m + b + t);
    assert s[|h| + |a|..] == m + (b + t);
    assert s[|s| - |t| - |b|..] == b + t;
  }

  /** The two quote-delimited holes of `h + a + m + b + t` give back `a` and `b`. */
  lemma {:induction false} HolesReadBack(h: string, a: string, m: string, b: string, t: string)
    requires Quoteless(a) && Quoteless(b)
    requires m != [] && m[0] == '"' && t != [] && t[0] == '"'
    ensures var s := h + a + m + b + t;
      && h <= s && s[|h|..] == a + (m + b + t)
      && UpToQuote(a + (m + b + t)) == (a, m + b + t)
      && m <= m + b + t && (m + b + t)[|m|..] == b + t
      && UpToQuote(b + t) == (b, t)
  {
    var s := h + a + m + b + t;
    assert s == h + (a + (m + b + t));
    assert (m + b + t)[0] == m[0];
    UpToQuoteSplit(a, m + b + t);
    assert m + b + t == m + (b + t);
    UpToQuoteSplit(b, t);
  }

  /** The rect's fill and the text's fill can be read back from the markup. */
  lemma FillsRoundTrip(bg: string, fg: string)
    requires Quoteless(bg) && Quoteless(fg)
    ensures ReadFills(Svg(bg, fg)) == Some((bg, fg))
  {
    assert Mid[0] == '"' && Tail[0] == '"';
    HolesReadBack(Head, bg, Mid, fg, Tail);
  }

  /**
   * `buildSVG`: the favicon markup for a variant, coloured from the page's
   * custom properties. Its rect is filled with the corner tile's background
   * and its glyph with the corner tile's text colour.
   */
  function BuildSvg(v: Variant, style: ComputedStyle): (r: string)
    ensures var tile := BrandCorner.StyleOf(v, ReadPalette(style)); r == Svg(tile.bg, tile.fg)
  {
    var c := Colors(v, ReadPalette(style));
    Svg(c.0, c.1)
  }

  /** None of the four colour properties the favicon reads holds a double quote. */
  predicate QuoteFree(style: ComputedStyle) {
    && Quoteless(PropertyValue(style, "--pill-blue"))
    && Quoteless(PropertyValue(style, "--pill-ink"))
    && Quoteless(PropertyValue(style, "--pill-banana"))
    && Quoteless(PropertyValue(style, "--card-white"))
  }

  /** A quote-free property read with a quote-free fallback is quote-free. */
  lemma CssVarQuoteless(style: ComputedStyle, name: string, fallback: string)
    requires Quoteless(PropertyValue(style, name)) && Quoteless(fallback)
    ensures Quoteless(CssVar(style, name, fallback))
  {
    TrimKeepsChars(PropertyValue(style, name));
  }

  /** The four colours read from the style are quote-free when their properties are. */
  lemma PaletteQuoteless(style: ComputedStyle)
    requires QuoteFree(style)
    ensures var p := ReadPalette(style);
      Quoteless(p.blue) && Quoteless(p.ink) && Quoteless(p.banana) && Quoteless(p.white)
  {
    CssVarQuoteless(style, "--pill-blue", "#2f2fff");
    CssVarQuoteless(style, "--pill-ink", "#141414");
    CssVarQuoteless(style, "--pill-banana", "#ffd84d");
    CssVarQuoteless(style, "--card-white", "#f7f7fb");
  }

  /**
   * The favicon's tile is filled with the variant's bg and its `.ap` glyph
   * with the variant's fg, whenever none of the four colour properties holds
   * a double quote.
   */
  lemma BuildSvgFills(v: Variant, style: ComputedStyle)
    requires QuoteFree(style)
    ensures ReadFills(BuildSvg(v, style)) == Some(Colors(v, ReadPalette(style)))
  {
    PaletteQuoteless(style);
    var c := Colors(v, ReadPalette(style));
    FillsRoundTrip(c.0, c.1);
  }

  /**
   * One run of the favicon effect: the page's memoised variant, then its SVG.
   * The data-URL encoding and the link-tag replacement are not part of this
   * model.
   */
  method Run(page: Page, style: ComputedStyle, r: real) returns (variant: Variant, svg: string)
    requires page.Valid() && page.hasWindow && 0.0 <= r < 1.0
    modifies page`slot, page`dataset
    ensures page.Valid() && page.slot == Some(variant)
    ensures old(page.slot).Some? ==> variant == old(page.slot).value
    ensures svg == BuildSvg(variant, style)
  {
    variant := page.PickBrandVariant(r);
    svg := BuildSvg(variant, style);
  }

  /** A fresh page whose corner tile has mounted with the draw `r`, the variant it shows and its style. */
  method MountCorner(style: ComputedStyle, r: real) returns (page: Page, variant: Variant, corner: BrandCorner.Style)
    requires 0.0 <= r < 1.0
    ensures fresh(page) && page.Valid() && page.hasWindow && page.slot == Some(variant)
    ensures variant == Pool[PoolIndex(r)] && corner == BrandCorner.StyleOf(variant, ReadPalette(style))
  {
    var doc := BrandCorner.Document(true, true, style);
    page := new Page(true);
    var tile := new BrandCorner.Corner(doc);
    tile.Mount(page, r, doc);
    variant := tile.variant;
    corner := tile.style;
  }

  /**
   * The corner tile and the favicon on one page, in the order they run: the
   * tile's mount effect picks first and the favicon's deferred run second.
   * Both show the variant of the first draw, so the favicon's fills are the
   * corner tile's background and text colours.
   */
  method CornerAndFavicon(style: ComputedStyle, r1: real, r2: real)
    returns (variant: Variant, corner: BrandCorner.Style, fills: Option<(string, string)>)
    requires 0.0 <= r1 < 1.0 && 0.0 <= r2 < 1.0
    requires QuoteFree(style)
    ensures variant == Pool[PoolIndex(r1)] && corner == BrandCorner.StyleOf(variant, ReadPalette(style))
    ensures fills == Some((corner.bg, corner.fg))
  {
    var page;
    page, variant, corner := MountCorner(style, r1);
    var shown, svg := Run(page, style, r2);
    fills := ReadFills(svg);
    FaviconShowsTile(style, shown, svg, corner);
  }

  /** The favicon built for a variant is filled with the colours of that variant's tile. */
  lemma FaviconShowsTile(style: ComputedStyle, variant: Variant, svg: string, corner: BrandCorner.Style)
    requires corner == BrandCorner.StyleOf(variant, ReadPalette(style))
    requires svg == BuildSvg(variant, style)
    requires QuoteFree(style)
    ensures ReadFills(svg) == Some((corner.bg, corner.fg))
  {
    BuildSvgFills(variant, style);
  }
}
