/**
 * Colour themes of the chunk visualiser (server/utils/visualization.py):
 * the two built-in families, theme resolution in `Visualizer.__init__` /
 * `_get_theme`, and the cyclic colour choice of `_get_color`.
 */
module Themes {
  import opened Wrappers
  import HexColor

  const Pastel: seq<string> := ["#FFADAD", "#FFD6A5", "#FDFFB6", "#CAFFBF", "#9BF6FF", "#A0C4FF", "#BDB2FF", "#FFC6FF"]
  const Tiktokenizer: seq<string> := ["#bae6fc", "#fde68a", "#bbf7d0", "#fed7aa", "#a5f3fc", "#e5e7eb", "#eee2fd", "#e4f9c0", "#fecdd3"]
  const OceanBreeze: seq<string> := ["#E0FFFF", "#B0E0E6", "#ADD8E6", "#87CEEB", "#4682B4"]
  const TiktokenizerDark: seq<string> := ["#2A4E66", "#80662A", "#2A6648", "#66422A", "#2A4A66", "#3A3D40", "#55386E", "#3A6640", "#66353B"]
  const PastelDark: seq<string> := ["#5C2E2E", "#5C492E", "#4F5C2E", "#2E5C4F", "#2E3F5C", "#3A3A3A", "#4F2E5C", "#2E5C3F"]
  const Midnight: seq<string> := ["#00008B", "#483D8B", "#2F4F4F", "#191970"]

  /** The light family: dark text on light backgrounds. */
  const LightThemes: map<string, seq<string>> :=
    map["pastel" := Pastel, "tiktokenizer" := Tiktokenizer, "ocean_breeze" := OceanBreeze]

  /** The dark family: light text on dark backgrounds. */
  const DarkThemes: map<string, seq<string>> :=
    map["tiktokenizer_dark" := TiktokenizerDark, "pastel_dark" := PastelDark, "midnight" := Midnight]

  const TextColorLight: string := "#333333"
  const TextColorDark: string := "#FFFFFF"

  const DefaultTheme: string := "pastel"

  /** The `theme` argument of the constructor: a theme name or a colour list. */
  datatype ThemeArg = Named(name: string) | Custom(colors: seq<string>)

  /** A configured visualiser; its fields are set once, by `NewVisualizer`. */
  datatype Visualizer = Visualizer(theme: seq<string>, textColor: string, themeName: string)

  /** `_get_theme`: the dark family is consulted first, then the light one; anything else is a ValueError. */
  function GetTheme(name: string): (r: Result<(seq<string>, string), string>)
    ensures r.Ok? <==> name in DarkThemes || name in LightThemes
    ensures name in DarkThemes ==> r == Ok((DarkThemes[name], TextColorDark))
    ensures name in LightThemes ==> r == Ok((LightThemes[name], TextColorLight))
    ensures r.Err? ==> r.error == "Invalid theme: " + name
  {
    FamiliesDisjoint(name);
    if name in DarkThemes then Ok((DarkThemes[name], TextColorDark))
    else if name in LightThemes then Ok((LightThemes[name], TextColorLight))
    else Err("Invalid theme: " + name)
  }

  /** `Visualizer.__init__`: a name is resolved, a list is taken as is with no text colour. */
  function NewVisualizer(arg: ThemeArg): (r: Result<Visualizer, string>)
    ensures arg.Custom? ==> r == Ok(Visualizer(arg.colors, "", "custom"))
    ensures arg.Named? ==> (r.Ok? <==> arg.name in DarkThemes || arg.name in LightThemes)
    ensures arg.Named? && r.Ok? ==>
      && r.value.themeName == arg.name
      && r.value.theme != []
      && (arg.name in DarkThemes ==> r.value.theme == DarkThemes[arg.name] && r.value.textColor == TextColorDark)
      && (arg.name in LightThemes ==> r.value.theme == LightThemes[arg.name] && r.value.textColor == TextColorLight)
  {
    match arg
    case Custom(colors) => Ok(Visualizer(colors, "", "custom"))
    case Named(name) =>
      match GetTheme(name)
      case Err(e) => Err(e)
      case Ok((palette, text)) => Ok(Visualizer(palette, text, name))
  }

  /**
   * `_get_color`: palettes are used cyclically. `None` stands for the division
   * by zero raised when a custom palette is empty.
   */
  function GetColor(v: Visualizer, index: nat): (r: Option<string>)
    ensures r.Some? <==> |v.theme| > 0
    ensures r.Some? ==> r.value in v.theme
  {
    if |v.theme| == 0 then None else Some(v.theme[index % |v.theme|])
  }

  /** No name belongs to both families, so the order of the two lookups does not matter. */
  lemma FamiliesDisjoint(name: string)
    ensures !(name in DarkThemes && name in LightThemes)
  {
  }

  /** Every palette, built-in or resolved, is non-empty. */
  lemma ResolvedPaletteNonEmpty(name: string)
    requires GetTheme(name).Ok?
    ensures |GetTheme(name).value.0| > 0
  {
  }

  /** Colours repeat with the period of the palette. */
  lemma {:induction false} ColorCycles(v: Visualizer, index: nat, k: nat)
    requires |v.theme| > 0
    ensures GetColor(v, index + k * |v.theme|) == GetColor(v, index)
  {
    if k > 0 {
      var n := |v.theme|;
      ColorCycles(v, index, k - 1);
      assert index + k * n == (index + (k - 1) * n) + n;
      ModAddPeriod(index + (k - 1) * n, n);
    }
  }

  lemma MulAtLeast(d: int, n: int)
    requires d >= 1 && n > 0
    ensures d * n >= n
  {
    var k := d - 1;
    assert d * n == k * n + n;
    assert k * n >= 0;
  }

  lemma ModUnique(x: int, n: int, q: int, r: int)
    requires n > 0 && 0 <= r < n && x == q * n + r
    ensures x % n == r
  {
    var q0, r0 := x / n, x % n;
    var d := q - q0;
    assert q * n == q0 * n + d * n;
    if d > 0 {
      MulAtLeast(d, n);
    } else if d < 0 {
      MulAtLeast(-d, n);
    }
  }

  lemma ModAddPeriod(a: nat, n: nat)
    requires n > 0
    ensures (a + n) % n == a % n
  {
    ModUnique(a + n, n, a / n + 1, a % n);
  }

  predicate AllSixDigitHex(palette: seq<string>)
  {
    forall i :: 0 <= i < |palette| ==> HexColor.SixDigitHex(palette[i])
  }

  /**
   * Every built-in colour is well-formed six-digit hex, so darkening an
   * overlap colour of a built-in theme never falls back to grey.
   */
  lemma BuiltinColorsParse(name: string, i: nat)
    requires name in DarkThemes || name in LightThemes
    requires i < |GetTheme(name).value.0|
    ensures HexColor.ParseRgb(GetTheme(name).value.0[i]).Some?
  {
    PalettesWellFormed();
    var palette := GetTheme(name).value.0;
    assert AllSixDigitHex(palette) by {
      if name == "pastel" { assert palette == Pastel; }
      else if name == "tiktokenizer" { assert palette == Tiktokenizer; }
      else if name == "ocean_breeze" { assert palette == OceanBreeze; }
      else if name == "tiktokenizer_dark" { assert palette == TiktokenizerDark; }
      else if name == "pastel_dark" { assert palette == PastelDark; }
      else { assert palette == Midnight; }
    }
    HexColor.SixDigitHexParses(palette[i]);
  }

  /** Every built-in colour is well-formed hex, so overlap darkening never falls back to grey for them. */
  lemma PalettesWellFormed()
    ensures AllSixDigitHex(Pastel) && AllSixDigitHex(Tiktokenizer) && AllSixDigitHex(OceanBreeze)
    ensures AllSixDigitHex(TiktokenizerDark) && AllSixDigitHex(PastelDark) && AllSixDigitHex(Midnight)
  {
    LightPalettesWellFormed();
    DarkPalettesWellFormed();
  }

  lemma LightPalettesWellFormed()
    ensures AllSixDigitHex(Pastel) && AllSixDigitHex(Tiktokenizer) && AllSixDigitHex(OceanBreeze)
  {
    PastelWellFormed();
    TiktokenizerWellFormed();
    OceanBreezeWellFormed();
  }

  lemma DarkPalettesWellFormed()
    ensures AllSixDigitHex(TiktokenizerDark) && AllSixDigitHex(PastelDark) && AllSixDigitHex(Midnight)
  {
    TiktokenizerDarkWellFormed();
    PastelDarkWellFormed();
    MidnightWellFormed();
  }

  lemma PastelWellFormed()
    ensures AllSixDigitHex(Pastel)
  {
  }

  lemma TiktokenizerWellFormed()
    ensures AllSixDigitHex(Tiktokenizer)
  {
  }

  lemma OceanBreezeWellFormed()
    ensures AllSixDigitHex(OceanBreeze)
  {
  }

  lemma TiktokenizerDarkWellFormed()
    ensures AllSixDigitHex(TiktokenizerDark)
  {
  }

  lemma PastelDarkWellFormed()
    ensures AllSixDigitHex(PastelDark)
  {
  }

  lemma MidnightWellFormed()
    ensures AllSixDigitHex(Midnight)
  {
  }

  /** A chunk id below the palette size takes the colour at its own position. */
  lemma ColorAtOwnPosition(v: Visualizer, i: nat)
    requires i < |v.theme|
    ensures GetColor(v, i) == Some(v.theme[i])
  {
    ModBelow(i, |v.theme|);
  }

  lemma ModBelow(i: nat, n: nat)
    requires i < n
    ensures i % n == i
  {
  }
}
