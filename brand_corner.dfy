// The ".ap" tile in the top-left corner: its colours come from the page's
// brand variant and from CSS custom properties, with hard-coded fallbacks.
module BrandCorner {
  import opened Browser
  import opened BrandVariant
  import opened Wrappers

  /**
   * What `cssVar` can see of the page: whether a window exists (not during
   * server rendering), whether the document has a root element, and the
   * computed style of that element.
   */
  datatype Document = Document(hasWindow: bool, hasRoot: bool, style: ComputedStyle)

  /**
   * `cssVar`: the trimmed computed value of a custom property, or the
   * fallback when rendering without a window or root element, or when the
   * value is empty or blank.
   */
  function CssVar(doc: Document, name: string, fallback: string): (v: string)
    ensures !doc.hasWindow || !doc.hasRoot ==> v == fallback
    ensures doc.hasWindow && doc.hasRoot ==>
      var raw := PropertyValue(doc.style, name);
      && (AllSpace(raw) ==> v == fallback)
      && (!AllSpace(raw) ==> v == Trim(raw) && v != [] && Trimmed(v))
  {
    if !doc.hasWindow || !doc.hasRoot then fallback
    else
      var v := Trim(PropertyValue(doc.style, name));
      if v != [] then v else fallback
  }

  /** A custom property that is not declared yields the fallback. */
  lemma UndeclaredFallsBack(doc: Document, name: string, fallback: string)
    requires name !in doc.style
    ensures CssVar(doc, name, fallback) == fallback
  {
    assert AllSpace(PropertyValue(doc.style, name));
  }

  /** A non-empty fallback makes every read non-empty. */
  lemma CssVarNonEmpty(doc: Document, name: string, fallback: string)
    requires fallback != []
    ensures CssVar(doc, name, fallback) != []
  {
  }

  /** The four brand colours as the tile reads them. */
  datatype Palette = Palette(blue: string, ink: string, banana: string, white: string)

  const FallbackPalette := Palette("#2f2fff", "#141414", "#ffd84d", "#f7f7fb")

  /** The four reads of the memoised style, each with its own fallback. */
  function ReadPalette(doc: Document): (p: Palette)
    ensures !doc.hasWindow || !doc.hasRoot ==> p == FallbackPalette
    ensures p.blue != [] && p.ink != [] && p.banana != [] && p.white != []
    ensures doc.hasWindow && doc.hasRoot && doc.style == map[] ==> p == FallbackPalette
  {
    Palette(
      CssVar(doc, "--pill-blue", FallbackPalette.blue),
      CssVar(doc, "--pill-ink", FallbackPalette.ink),
      CssVar(doc, "--pill-banana", FallbackPalette.banana),
      CssVar(doc, "--card-white", FallbackPalette.white))
  }

  const LightBorder := "rgba(255,255,255,.10)"
  const DarkBorder := "rgba(0,0,0,.14)"
  const FaintBorder := "rgba(0,0,0,.12)"

  datatype Style = Style(bg: string, fg: string, border: string)

  /** The colour a variant is named after. */
  function Own(v: Variant, p: Palette): string {
    match v
    case Blue => p.blue
    case Ink => p.ink
    case Banana => p.banana
    case White => p.white
  }

  /**
   * The variant-to-style map: each tile has its own colour as background;
   * blue and ink carry white text, banana ink text, white blue text; dark
   * tiles get the light translucent border, light tiles a dark one.
   */
  function StyleOf(v: Variant, p: Palette): (s: Style)
    ensures s.bg == Own(v, p)
    ensures v == Blue || v == Ink ==> s.fg == p.white
    ensures v == Banana ==> s.fg == p.ink
    ensures v == White ==> s.fg == p.blue
    ensures s.border == LightBorder <==> v == Blue || v == Ink
    ensures s.border in {LightBorder, DarkBorder, FaintBorder}
  {
    match v
    case Blue => Style(p.blue, p.white, LightBorder)
    case Ink => Style(p.ink, p.white, LightBorder)
    case Banana => Style(p.banana, p.ink, DarkBorder)
    case White => Style(p.white, p.blue, FaintBorder)
  }

  /**
   * When the four colours are pairwise distinct, as the fallbacks are, no tile
   * draws its text in its own background colour.
   */
  lemma ReadableOnDistinctPalette(v: Variant, p: Palette)
    requires p.blue != p.white && p.ink != p.white && p.banana != p.ink
    ensures StyleOf(v, p).bg != StyleOf(v, p).fg
  {
  }

  lemma FallbackReadable(v: Variant)
    ensures StyleOf(v, FallbackPalette).bg != StyleOf(v, FallbackPalette).fg
  {
    ReadableOnDistinctPalette(v, FallbackPalette);
  }

  /**
   * The component's state: the variant it renders, and the style memoised for
   * that variant. The memo is recomputed only when the variant changes, from
   * the custom properties as they are at that moment; `readFrom` is the
   * document it last read.
   */
  class Corner {
    var variant: Variant
    var style: Style
    ghost var readFrom: Document

    /** The memoised style is the current variant's, as of the last read. */
    ghost predicate Valid()
      reads this
    {
      style == StyleOf(variant, ReadPalette(readFrom))
    }

    /** The first render is blue, on the server and in the browser alike, and computes its style. */
    constructor(doc: Document)
      ensures Valid() && variant == Blue && readFrom == doc
    {
      variant := Blue;
      style := StyleOf(Blue, ReadPalette(doc));
      readFrom := doc;
    }

    /**
     * The mount effect: the variant becomes the page's brand pick. The style
     * is read again from `doc` only when that changes the variant.
     */
    method Mount(page: Page, r: real, doc: Document)
      requires Valid() && page.Valid() && 0.0 <= r < 1.0
      requires doc.hasWindow == page.hasWindow
      modifies this, page`slot, page`dataset
      ensures Valid() && page.Valid() && variant in Pool
      ensures !page.hasWindow ==> variant == Blue
      ensures page.hasWindow && old(page.slot).Some? ==> variant == old(page.slot).value
      ensures page.hasWindow && old(page.slot).None? ==> variant == Pool[PoolIndex(r)]
      ensures page.hasWindow ==> page.slot == Some(variant)
      ensures variant != old(variant) ==> readFrom == doc && style == StyleOf(variant, ReadPalette(doc))
      ensures variant == old(variant) ==> readFrom == old(readFrom) && style == old(style)
    {
      var picked := page.PickBrandVariant(r);
      if picked != variant {
        variant, style, readFrom := picked, StyleOf(picked, ReadPalette(doc)), doc;
      }
    }
  }

  /**
   * The first render shows the blue tile; after mounting, the tile shows the
   * page's pick, and a second tile mounted on the same page shows the same
   * style whatever the second draw.
   */
  method TwoCorners(doc: Document, r1: real, r2: real) returns (first: Style, mounted: Style, other: Style)
    requires 0.0 <= r1 < 1.0 && 0.0 <= r2 < 1.0
    ensures first == StyleOf(Blue, ReadPalette(doc))
    ensures doc.hasWindow ==> mounted == StyleOf(Pool[PoolIndex(r1)], ReadPalette(doc))
    ensures !doc.hasWindow ==> mounted == first
    ensures other == mounted
  {
    var page := new Page(doc.hasWindow);
    var a := new Corner(doc);
    first := a.style;
    a.Mount(page, r1, doc);
    mounted := a.style;
    var b := new Corner(doc);
    b.Mount(page, r2, doc);
    other := b.style;
  }
}
