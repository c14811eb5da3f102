/**
 * Font resolution for a placement descriptor's `fontStyle`: quotes are
 * stripped from both ends, the static alias table is consulted, and any
 * name the table does not know resolves to Helvetica.
 */
module Fonts {
  import opened Text

  const DefaultFont: string := "Helvetica"

  /** The TrueType fonts `register_fonts` tries to register at start-up. */
  const RegisteredFonts: set<string> := {
    "CooperBlkBT-Italic", "CooperBlkBT-Regular", "CooperLtBT-Bold", "CooperLtBT-BoldItalic",
    "CooperLtBT-Italic", "CooperLtBT-Regular", "CooperMdBT-Regular"
  }

  /** Standard PDF fonts the table maps browser names onto. */
  const StandardFonts: set<string> := {"Helvetica", "Times-Roman"}

  /** The browser names of the alias table FONT_MAPPING, mapped onto standard PDF fonts. */
  const BrowserAliases: map<string, string> := map["Arial" := "Helvetica", "Times New Roman" := "Times-Roman"]

  /** The static alias table FONT_MAPPING: the two browser names, and each registered font mapped to itself. */
  const FontMapping: map<string, string> := (map name | name in RegisteredFonts :: name) + BrowserAliases

  /** A font the canvas can be asked for: a standard PDF font or a registered one. */
  predicate KnownFont(font: string)
  {
    font in StandardFonts || font in RegisteredFonts
  }

  /** Every font the table names is a standard font or a registered one. */
  lemma MappingTargetsKnown(key: string)
    requires key in FontMapping
    ensures KnownFont(FontMapping[key])
  {
  }

  /** Each registered font is in the table, mapped to itself. */
  lemma RegisteredMapToSelf(key: string)
    requires key in RegisteredFonts
    ensures key in FontMapping && FontMapping[key] == key
  {
  }

  const Quote: set<char> := {'\''}

  /**
   * `FONT_MAPPING.get(style.strip("'"), 'Helvetica')`. It never fails, and
   * the font it names is always a standard font or a registered one.
   */
  function ResolveFont(style: string): (font: string)
    ensures KnownFont(font)
    ensures Strip(style, Quote) !in FontMapping ==> font == DefaultFont
    ensures Strip(style, Quote) in RegisteredFonts ==> font == Strip(style, Quote)
  {
    var key := Strip(style, Quote);
    if key in FontMapping then
      MappingTargetsKnown(key);
      if key in RegisteredFonts then RegisteredMapToSelf(key); FontMapping[key] else FontMapping[key]
    else DefaultFont
  }

  /** A name without surrounding quotes is looked up as it is. */
  lemma ResolveUnquoted(name: string)
    requires name != [] && name[0] != '\'' && name[|name| - 1] != '\''
    ensures ResolveFont(name) == if name in FontMapping then FontMapping[name] else DefaultFont
  {
    StripNoop(name, Quote);
  }

  /** The browser name Arial maps to Helvetica. */
  lemma ResolveArial()
    ensures ResolveFont("Arial") == "Helvetica"
  {
    ResolveUnquoted("Arial");
    assert "Arial" in BrowserAliases;
  }

  /** The browser name Times New Roman maps to Times-Roman. */
  lemma ResolveTimesNewRoman()
    ensures ResolveFont("Times New Roman") == "Times-Roman"
  {
    ResolveUnquoted("Times New Roman");
    assert "Times New Roman" in BrowserAliases;
  }

  /** A name outside the table falls back to Helvetica. */
  lemma ResolveUnknownName()
    ensures ResolveFont("Comic Sans MS") == DefaultFont
  {
    assert "Comic Sans MS" !in FontMapping;
    ResolveUnquoted("Comic Sans MS");
  }

  /** Every registered Cooper name resolves to itself. */
  lemma ResolveRegistered(name: string)
    requires name in RegisteredFonts
    ensures ResolveFont(name) == name
  {
    assert name[0] == 'C' && name[|name| - 1] != '\'';
    ResolveUnquoted(name);
    RegisteredMapToSelf(name);
  }

  /** Quotes around a name, in any number on either side, do not change the font. */
  lemma ResolveFontIgnoresQuotes(p: string, name: string, q: string)
    requires AllIn(p, Quote) && AllIn(q, Quote)
    ensures ResolveFont(p + name + q) == ResolveFont(name)
  {
    StripWrapped(p, name, q, Quote);
  }
}
