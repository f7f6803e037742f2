/**
 * A stitch of the stitch library: the file of its icon, the two SVG renderers
 * (the primary colouring and the alternate colouring) and the cached pixmap
 * for icons that are not SVG.
 *
 * Reading the file, parsing SVG and decoding images are done by Qt; they are
 * the functions of an Assets value: the bytes of a file, whether some bytes
 * load as SVG, the view box those bytes declare, and the pixmap decoded from
 * a file.
 */
module Stitch {
  import opened Wrappers

  newtype byte = x: int | 0 <= x < 256

  /** The placeholder byte for a character Latin-1 cannot represent ('?'). */
  const Unrepresentable: byte := 63

  /** The colour the icons are drawn in, and which the colourings replace. */
  const Black: string := "#000000"

  datatype Size = Size(width: int, height: int)

  /** A decoded image; a file that cannot be decoded gives a null pixmap, whose size is 0 by 0. */
  datatype Pixmap = NullPixmap | Image(size: Size)
  {
    function Width(): int
    {
      if NullPixmap? then 0 else size.width
    }

    function Height(): int
    {
      if NullPixmap? then 0 else size.height
    }
  }

  /** An SVG renderer: the bytes it loaded, whether they loaded, and the view box they declare. */
  datatype Renderer = Renderer(data: seq<byte>, valid: bool, viewBox: Size)

  /** What the program asks of the file system and of Qt's SVG and image loaders. */
  datatype Assets = Assets(
    contents: string -> seq<byte>,
    svgLoads: seq<byte> -> bool,
    svgViewBox: seq<byte> -> Size,
    pixmapOf: string -> Pixmap)

  /** The renderer that has loaded the icon bytes d recoloured with color. */
  function Loaded(assets: Assets, d: seq<byte>, color: string): (r: Renderer)
    ensures r.data == Recolored(d, color)
    ensures color == Black ==> r.data == d
  {
    RecoloredSpec(d, color);
    var data := Recolored(d, color);
    Renderer(data, assets.svgLoads(data), assets.svgViewBox(data))
  }

  /** Which of the two renderers a request for an SVG renderer gets. */
  datatype Which = Primary | Alternate

  // ---------------------------------------------------------------------------
  // File names

  /** ASCII lower case of one character; other characters are kept. */
  function LowerChar(c: char): (d: char)
    ensures 'A' <= c <= 'Z' ==> 'a' <= d <= 'z' && d as int - c as int == 32
    ensures !('A' <= c <= 'Z') ==> d == c
  {
    if 'A' <= c <= 'Z' then (c as int + 32) as char else c
  }

  function Lower(s: string): (r: string)
    ensures |r| == |s| && forall i :: 0 <= i < |s| ==> r[i] == LowerChar(s[i])
  {
    seq(|s|, i requires 0 <= i < |s| => LowerChar(s[i]))
  }

  predicate EndsWith(s: string, suffix: string)
  {
    |suffix| <= |s| && s[|s| - |suffix|..] == suffix
  }

  /** Whether a file name names an SVG icon: it ends in ".svg" or ".svgz", in any letter case. */
  predicate IsSvgName(f: string)
    ensures IsSvgName(f) ==> |f| >= |".svg"|
  {
    EndsWith(Lower(f), ".svg") || EndsWith(Lower(f), ".svgz")
  }

  /** Two names that agree up to letter case are both SVG names or both not. */
  lemma IsSvgCaseInsensitive(f: string, g: string)
    requires |f| == |g| && forall i :: 0 <= i < |f| ==> LowerChar(f[i]) == LowerChar(g[i])
    ensures IsSvgName(f) <==> IsSvgName(g)
  {
    assert Lower(f) == Lower(g);
  }

  lemma LowerConcat(a: string, b: string)
    ensures Lower(a + b) == Lower(a) + Lower(b)
  {
  }

  /** A name ending in ".svg" or ".svgz" written in any letter case is an SVG name; one ending in ".png" is not. */
  lemma IsSvgSuffix(base: string, ext: string)
    ensures Lower(ext) == ".svg" || Lower(ext) == ".svgz" ==> IsSvgName(base + ext)
    ensures Lower(ext) == ".png" ==> !IsSvgName(base + ext)
  {
    LowerConcat(base, ext);
    var l := Lower(base + ext);
    assert l[|l| - |ext|..] == Lower(ext);
    if Lower(ext) == ".png" {
      assert l[|l| - 1] == 'g' && l[|l| - 2] == 'n';
    }
  }

  /** Upper-case suffixes count. */
  lemma UpperCaseSuffixes(base: string)
    ensures IsSvgName(base + ".SVG") && IsSvgName(base + ".SvgZ")
  {
    assert Lower(".SVG") == ".svg";
    assert Lower(".SvgZ") == ".svgz";
    IsSvgSuffix(base, ".SVG");
    IsSvgSuffix(base, ".SvgZ");
  }

  // ---------------------------------------------------------------------------
  // Recolouring

  /** The Latin-1 bytes of a string; a character outside Latin-1 becomes '?'. */
  function Latin1(s: string): (b: seq<byte>)
    ensures |b| == |s|
  {
    seq(|s|, i requires 0 <= i < |s| => if s[i] as int < 256 then s[i] as int as byte else Unrepresentable)
  }

  /** Latin-1 text converts without loss. */
  lemma Latin1Injective(s: string, t: string)
    requires forall i :: 0 <= i < |s| ==> s[i] as int < 256
    requires forall i :: 0 <= i < |t| ==> t[i] as int < 256
    requires Latin1(s) == Latin1(t)
    ensures s == t
  {
    forall i | 0 <= i < |s|
      ensures s[i] == t[i]
    {
      assert Latin1(s)[i] == Latin1(t)[i];
    }
  }

  /**
   * Every non-overlapping occurrence of pat, from left to right, replaced by
   * rep. A replacement as long as the pattern keeps the data's length.
   */
  function ReplaceAll(d: seq<byte>, pat: seq<byte>, rep: seq<byte>): (r: seq<byte>)
    requires |pat| > 0
    ensures |rep| == |pat| ==> |r| == |d|
    decreases |d|
  {
    if |d| < |pat| then d
    else if d[..|pat|] == pat then rep + ReplaceAll(d[|pat|..], pat, rep)
    else [d[0]] + ReplaceAll(d[1..], pat, rep)
  }

  /** Replacing a pattern by itself changes nothing. */
  lemma {:induction false} ReplaceAllSame(d: seq<byte>, pat: seq<byte>)
    requires |pat| > 0
    ensures ReplaceAll(d, pat, pat) == d
    decreases |d|
  {
    if |d| >= |pat| {
      if d[..|pat|] == pat {
        ReplaceAllSame(d[|pat|..], pat);
        assert d == d[..|pat|] + d[|pat|..];
      } else {
        ReplaceAllSame(d[1..], pat);
        assert d == [d[0]] + d[1..];
      }
    }
  }

  /** Whether pat occurs in d at index i. */
  predicate OccursAt(d: seq<byte>, pat: seq<byte>, i: int)
  {
    0 <= i <= |d| - |pat| && d[i..i + |pat|] == pat
  }

  ghost predicate Occurs(d: seq<byte>, pat: seq<byte>)
  {
    exists i :: OccursAt(d, pat, i)
  }

  /** Without an occurrence of the pattern the data is unchanged. */
  lemma {:induction false} ReplaceAllAbsent(d: seq<byte>, pat: seq<byte>, rep: seq<byte>)
    requires |pat| > 0 && !Occurs(d, pat)
    ensures ReplaceAll(d, pat, rep) == d
    decreases |d|
  {
    if |d| >= |pat| {
      assert !OccursAt(d, pat, 0) && d[0..|pat|] == d[..|pat|];
      forall i | 0 <= i <= |d[1..]| - |pat|
        ensures !OccursAt(d[1..], pat, i)
      {
        assert !OccursAt(d, pat, i + 1);
        assert d[1..][i..i + |pat|] == d[i + 1..i + 1 + |pat|];
      }
      ReplaceAllAbsent(d[1..], pat, rep);
      assert d == [d[0]] + d[1..];
    }
  }

  /** Icon bytes with every black replaced by the given colour. */
  function Recolored(d: seq<byte>, color: string): (r: seq<byte>)
    ensures |color| == |Black| ==> |r| == |d|
  {
    ReplaceAll(d, Latin1(Black), Latin1(color))
  }

  /**
   * Recolouring in black is the identity; data without black is unchanged by
   * any colour; a colour written with seven Latin-1 characters (as "#rrggbb")
   * keeps the data's length.
   */
  lemma RecoloredSpec(d: seq<byte>, color: string)
    ensures Recolored(d, Black) == d
    ensures !Occurs(d, Latin1(Black)) ==> Recolored(d, color) == d
    ensures |color| == 7 ==> |Recolored(d, color)| == |d|
  {
    ReplaceAllSame(d, Latin1(Black));
    if !Occurs(d, Latin1(Black)) {
      ReplaceAllAbsent(d, Latin1(Black), Latin1(color));
    }
  }

  const Fallback: int := 32

  // ---------------------------------------------------------------------------
  // The stitch

  class Stitch {
    var file: string
    var renderer: Renderer
    var rendererAlt: Renderer
    var pixmap: Option<Pixmap>

    /** A stitch with no file: two empty renderers that have loaded nothing, and no pixmap. */
    constructor ()
      ensures file == "" && pixmap == None
      ensures renderer == Renderer([], false, Size(0, 0)) && rendererAlt == Renderer([], false, Size(0, 0))
    {
      file := "";
      renderer := Renderer([], false, Size(0, 0));
      rendererAlt := Renderer([], false, Size(0, 0));
      pixmap := None;
    }

    predicate IsSvg()
      reads this
      ensures IsSvg() ==> |file| >= |".svg"|
    {
      IsSvgName(file)
    }

    /**
     * Loads both renderers from the icon file: the primary one with black
     * replaced by the primary colour, the alternate one with black in the
     * original bytes replaced by the alternate colour.
     */
    method SetupSvgFiles(assets: Assets, primary: string, alternate: string)
      modifies this`renderer, this`rendererAlt
      ensures renderer == Loaded(assets, assets.contents(file), primary)
      ensures rendererAlt == Loaded(assets, assets.contents(file), alternate)
    {
      var data := assets.contents(file);
      var priData := data;
      var secData := data;
      if primary != Black {
        priData := ReplaceAll(priData, Latin1(Black), Latin1(primary));
      } else {
        RecoloredSpec(data, primary);
      }
      renderer := Renderer(priData, assets.svgLoads(priData), assets.svgViewBox(priData));
      if alternate != Black {
        secData := ReplaceAll(data, Latin1(Black), Latin1(alternate));
      } else {
        RecoloredSpec(data, alternate);
      }
      rendererAlt := Renderer(secData, assets.svgLoads(secData), assets.svgViewBox(secData));
    }

    /**
     * Sets the icon file. The same file changes nothing. A new file is
     * stored; an SVG file loads both renderers; a file that is not SVG gets
     * a freshly decoded pixmap, but only while the primary renderer is not
     * valid.
     */
    method SetFile(f: string, assets: Assets, primary: string, alternate: string)
      modifies this`file, this`renderer, this`rendererAlt, this`pixmap
      ensures f == old(file) ==>
        file == old(file) && renderer == old(renderer) && rendererAlt == old(rendererAlt) && pixmap == old(pixmap)
      ensures f != old(file) ==> file == f
      ensures f != old(file) && IsSvgName(f) ==>
        (renderer == Loaded(assets, assets.contents(f), primary) &&
         rendererAlt == Loaded(assets, assets.contents(f), alternate) &&
         pixmap == old(pixmap))
      ensures f != old(file) && !IsSvgName(f) ==>
        (renderer == old(renderer) && rendererAlt == old(rendererAlt) &&
         pixmap == if old(renderer).valid then old(pixmap) else Some(assets.pixmapOf(f)))
    {
      if file != f {
        file := f;
        if IsSvg() {
          SetupSvgFiles(assets, primary, alternate);
        }
        if !renderer.valid && !IsSvg() {
          pixmap := Some(assets.pixmapOf(file));
        }
      }
    }

    /** Reloads both renderers from the current file (after the colour settings change). */
    method ReloadIcon(assets: Assets, primary: string, alternate: string)
      modifies this`renderer, this`rendererAlt
      ensures renderer == Loaded(assets, assets.contents(file), primary)
      ensures rendererAlt == Loaded(assets, assets.contents(file), alternate)
    {
      SetupSvgFiles(assets, primary, alternate);
    }

    /** The pixmap: the cached one while it exists and is not null, otherwise one decoded now and cached. */
    method RenderPixmap(assets: Assets) returns (p: Pixmap)
      modifies this`pixmap
      ensures old(pixmap).Some? && old(pixmap).value.Image? ==> p == old(pixmap).value && pixmap == old(pixmap)
      ensures !(old(pixmap).Some? && old(pixmap).value.Image?) ==> p == assets.pixmapOf(file) && pixmap == Some(p)
    {
      if pixmap.Some? && pixmap.value.Image? {
        return pixmap.value;
      }
      p := assets.pixmapOf(file);
      pixmap := Some(p);
    }

    /**
     * The renderer to draw an SVG icon with: none when the icon is not SVG
     * or the primary renderer did not load; the alternate one only when it is
     * asked for and alternate colours are on; the primary one otherwise.
     */
    function RenderSvg(useAltRenderer: bool, useAltColors: bool): (r: Option<Which>)
      reads this
      ensures r.None? <==> !IsSvg() || !renderer.valid
      ensures r == Some(Alternate) <==> IsSvg() && renderer.valid && useAltRenderer && useAltColors
    {
      if !IsSvg() then None
      else if !renderer.valid then None
      else if useAltRenderer && useAltColors then Some(Alternate)
      else Some(Primary)
    }

    /** The icon's width: the SVG view box, else the pixmap's, else 32. */
    function Width(): (w: int)
      reads this
      ensures IsSvg() ==> w == renderer.viewBox.width
      ensures !IsSvg() && pixmap.Some? ==> w == pixmap.value.Width()
      ensures !IsSvg() && pixmap.None? ==> w == Fallback
    {
      if IsSvg() then renderer.viewBox.width
      else if pixmap.Some? then pixmap.value.Width()
      else Fallback
    }

    /** The icon's height: the SVG view box, else the pixmap's, else 32. */
    function Height(): (h: int)
      reads this
      ensures IsSvg() ==> h == renderer.viewBox.height
      ensures !IsSvg() && pixmap.Some? ==> h == pixmap.value.Height()
      ensures !IsSvg() && pixmap.None? ==> h == Fallback
    {
      if IsSvg() then renderer.viewBox.height
      else if pixmap.Some? then pixmap.value.Height()
      else Fallback
    }
  }

  /**
   * A new stitch given a raster file has its size from the decoded pixmap;
   * before that it has the 32 by 32 fallback.
   */
  method NewRasterStitch(f: string, assets: Assets, primary: string, alternate: string) returns (s: Stitch)
    requires f != "" && !IsSvgName(f)
    ensures fresh(s) && s.file == f
    ensures s.Width() == assets.pixmapOf(f).Width() && s.Height() == assets.pixmapOf(f).Height()
  {
    s := new Stitch();
    assert s.Width() == Fallback && s.Height() == Fallback;
    s.SetFile(f, assets, primary, alternate);
  }
}
