/** The address rewriting of `setupResponsiveImage`: from an image's `data-src`
    it derives a WebP variant (the trailing `.ext` swapped for `.webp`) and a
    `srcset` listing four width variants (`name_480w.ext 480w, ...`). The
    extension is the lower-cased text after the last dot. */
module ResponsiveImages {
  import opened Common
  import opened Strings

  /** The widths the `srcset` offers, in order. */
  const Widths: seq<nat> := [480, 768, 1024, 1440]

  /** `src.split('.').pop()`: the text after the last dot, as written. */
  function RawExtension(src: string): (ext: string)
    ensures '.' !in ext
  {
    var pieces := Split(src, '.');
    pieces[|pieces| - 1]
  }

  /** The extension the code works with: the raw one, lower-cased. */
  function Extension(src: string): (ext: string)
    ensures '.' !in ext
    ensures |ext| == |RawExtension(src)|
  {
    var raw := RawExtension(src);
    assert forall i :: 0 <= i < |raw| ==> Lower(raw)[i] != '.';
    Lower(raw)
  }

  lemma RawExtensionOf(stem: string, ext: string)
    requires '.' !in ext
    ensures RawExtension(stem + "." + ext) == ext
  {
    SplitLast(stem, '.', ext);
  }

  /** The WebP variant: a trailing `.ext` (matched case-sensitively) becomes
      `.webp`. The code builds the pattern `\.ext$` from the extension without
      escaping it; for an extension free of metacharacters that pattern matches
      exactly the literal suffix `.ext`, which is what is modelled here. */
  function WebpSource(src: string, ext: string): (r: string)
    ensures EndsWith(src, "." + ext) ==> r == src[..|src| - |ext| - 1] + ".webp"
    ensures !EndsWith(src, "." + ext) ==> r == src
  {
    ReplaceSuffix(src, "." + ext, ".webp")
  }

  /** The address of one width variant: the first `.ext` becomes
      `_<w>w.ext`, where `w` is the width's text; an address without `.ext`
      stays as it is. */
  function WidthVariant(src: string, ext: string, w: string): (r: string)
    ensures !Contains(src, "." + ext) ==> r == src
    ensures Contains(src, "." + ext) ==>
      var i := Strings.IndexOf(src, "." + ext);
      r == src[..i] + "_" + w + "w." + ext + src[i + |ext| + 1..]
  {
    ReplaceFirst(src, "." + ext, "_" + w + "w." + ext)
  }

  /** The `srcset` item for one width: its variant and the width descriptor. */
  function SrcsetItem(src: string, ext: string, width: nat): string {
    var w := NatToString(width);
    WidthVariant(src, ext, w) + " " + w + "w"
  }

  function Srcset(src: string, ext: string): string {
    Join(seq(|Widths|, i requires 0 <= i < |Widths| => SrcsetItem(src, ext, Widths[i])), ", ")
  }

  /** What `setupResponsiveImage` writes into the element's dataset. */
  datatype ResponsiveSources = ResponsiveSources(srcWebp: Option<string>, srcset: string)

  /** `setupResponsiveImage`, as written: nothing is set without a `data-src`;
      the WebP variant only when the browser supports it, with the lower-cased
      extension swapped at the end; the `srcset` lists the four widths, each
      naming the address with its first `.ext` turned into `_<w>w.ext`, or the
      address itself when `.ext` does not occur in it. */
  function SetupResponsiveImage(dataSrc: string, supportsWebp: bool): (r: Option<ResponsiveSources>)
    ensures r.None? <==> dataSrc == ""
    ensures r.Some? ==> (r.value.srcWebp.Some? <==> supportsWebp)
    ensures r.Some? && supportsWebp ==>
      var ext := Extension(dataSrc);
      r.value.srcWebp == Some(if EndsWith(dataSrc, "." + ext)
                              then dataSrc[..|dataSrc| - |ext| - 1] + ".webp" else dataSrc)
    ensures r.Some? ==>
      var ext := Extension(dataSrc);
      r.value.srcset == WidthVariant(dataSrc, ext, "480") + " 480w, " + WidthVariant(dataSrc, ext, "768")
        + " 768w, " + WidthVariant(dataSrc, ext, "1024") + " 1024w, " + WidthVariant(dataSrc, ext, "1440")
        + " 1440w"
  {
    if dataSrc == "" then None
    else
      var ext := Extension(dataSrc);
      SrcsetText(dataSrc, ext);
      Some(ResponsiveSources(
        if supportsWebp then Some(WebpSource(dataSrc, ext)) else None,
        Srcset(dataSrc, ext)))
  }

  /** The decimal texts of the four widths. */
  lemma WidthTexts()
    ensures NatToString(480) == "480" && NatToString(768) == "768"
    ensures NatToString(1024) == "1024" && NatToString(1440) == "1440"
  {
    assert NatToString(48) == "48" by { assert NatToString(4) == "4"; }
    assert NatToString(76) == "76" by { assert NatToString(7) == "7"; }
    assert NatToString(102) == "102" by {
      assert NatToString(10) == "10" by { assert NatToString(1) == "1"; }
    }
    assert NatToString(144) == "144" by {
      assert NatToString(14) == "14" by { assert NatToString(1) == "1"; }
    }
  }

  lemma JoinFour(a: string, b: string, c: string, d: string, sep: string)
    ensures Join([a, b, c, d], sep) == a + sep + b + sep + c + sep + d
  {
    assert [c, d][1..] == [d];
    assert Join([c, d], sep) == c + sep + d;
    assert [b, c, d][1..] == [c, d];
    assert Join([b, c, d], sep) == b + sep + (c + sep + d);
    assert [a, b, c, d][1..] == [b, c, d];
  }

  /** The `srcset` joins the four width items. */
  lemma SrcsetFour(src: string, ext: string)
    ensures Srcset(src, ext) == SrcsetItem(src, ext, 480) + ", " + SrcsetItem(src, ext, 768) + ", "
      + SrcsetItem(src, ext, 1024) + ", " + SrcsetItem(src, ext, 1440)
  {
    var a, b, c, d := SrcsetItem(src, ext, 480), SrcsetItem(src, ext, 768),
                      SrcsetItem(src, ext, 1024), SrcsetItem(src, ext, 1440);
    var items := seq(|Widths|, i requires 0 <= i < |Widths| => SrcsetItem(src, ext, Widths[i]));
    assert items == [a, b, c, d];
    JoinFour(a, b, c, d, ", ");
  }

  /** One item at a width whose text is `w`, with the descriptor spelt out. */
  lemma SrcsetItemText(src: string, ext: string, width: nat, w: string, desc: string)
    requires NatToString(width) == w && " " + w + "w" == desc
    ensures SrcsetItem(src, ext, width) == WidthVariant(src, ext, w) + desc
  {
    var v := WidthVariant(src, ext, w);
    assert v + " " + w + "w" == v + (" " + w + "w");
  }

  lemma Assemble(a: string, b: string, c: string, d: string,
                 x: string, y: string, z: string, u: string, sep: string)
    requires x == a + " 480w" && y == b + " 768w" && z == c + " 1024w" && u == d + " 1440w"
    requires sep == ", "
    ensures x + sep + y + sep + z + sep + u
         == a + " 480w, " + b + " 768w, " + c + " 1024w, " + d + " 1440w"
  {
  }

  /** The whole `srcset`, written out with the four widths. */
  lemma SrcsetText(src: string, ext: string)
    ensures Srcset(src, ext)
      == WidthVariant(src, ext, "480") + " 480w, " + WidthVariant(src, ext, "768") + " 768w, "
         + WidthVariant(src, ext, "1024") + " 1024w, " + WidthVariant(src, ext, "1440") + " 1440w"
  {
    SrcsetFour(src, ext);
    WidthTexts();
    SrcsetItemText(src, ext, 480, "480", " 480w");
    SrcsetItemText(src, ext, 768, "768", " 768w");
    SrcsetItemText(src, ext, 1024, "1024", " 1024w");
    SrcsetItemText(src, ext, 1440, "1440", " 1440w");
    Assemble(WidthVariant(src, ext, "480"), WidthVariant(src, ext, "768"),
             WidthVariant(src, ext, "1024"), WidthVariant(src, ext, "1440"),
             SrcsetItem(src, ext, 480), SrcsetItem(src, ext, 768),
             SrcsetItem(src, ext, 1024), SrcsetItem(src, ext, 1440), ", ");
  }

  /** The first occurrence of `.ext` in `stem.ext`, when the stem holds none, is
      the one that ends the address. */
  lemma FirstDotExt(stem: string, ext: string)
    requires '.' !in ext
    requires !Contains(stem, "." + ext)
    ensures Strings.IndexOf(stem + "." + ext, "." + ext) == |stem|
  {
    var s, p := stem + "." + ext, "." + ext;
    assert OccursAt(s, p, |stem|) by { assert s[|stem|..] == p; }
    forall k | 0 <= k < |stem| ensures !OccursAt(s, p, k) {
      if k + |p| <= |stem| {
        if OccursAt(s, p, k) {
          assert stem[k..k + |p|] == s[k..k + |p|];
          ContainsAt(stem, p, k);
        }
      } else {
        var j := |stem| - k;
        assert s[k..k + |p|][j] == '.';
        assert p[j] == ext[j - 1];
      }
    }
  }

  /** The item for one width, on an address whose stem does not already
      contain `.ext`: `stem_<w>w.ext <w>w`. */
  lemma SrcsetItemOf(stem: string, ext: string, width: nat)
    requires '.' !in ext
    requires !Contains(stem, "." + ext)
    ensures SrcsetItem(stem + "." + ext, ext, width)
         == stem + "_" + NatToString(width) + "w." + ext + " " + NatToString(width) + "w"
  {
    var s, p := stem + "." + ext, "." + ext;
    var w := NatToString(width);
    var rep := "_" + w + "w." + ext;
    FirstDotExt(stem, ext);
    assert s[..|stem|] == stem && s[|stem| + |p|..] == "";
    calc {
      SrcsetItem(s, ext, width);
      WidthVariant(s, ext, w) + " " + w + "w";
      ReplaceFirst(s, p, rep) + " " + w + "w";
      (s[..|stem|] + rep + s[|stem| + |p|..]) + " " + w + "w";
      (stem + rep) + " " + w + "w";
    }
  }

  /** The WebP variant of `stem.ext` is `stem.webp`. */
  lemma WebpSourceOf(stem: string, ext: string)
    ensures WebpSource(stem + "." + ext, ext) == stem + ".webp"
  {
    var s := stem + "." + ext;
    assert s[|s| - |"." + ext|..] == "." + ext;
    assert s[..|s| - |"." + ext|] == stem;
  }

  /** With a lower-case extension the code produces what it was written for:
      the WebP variant and every width variant of the original address. */
  lemma SetupResponsiveImageLowerCase(stem: string, ext: string, width: nat)
    requires '.' !in ext && Lower(ext) == ext
    requires !Contains(stem, "." + ext)
    ensures Extension(stem + "." + ext) == ext
    ensures SetupResponsiveImage(stem + "." + ext, true).value.srcWebp == Some(stem + ".webp")
    ensures SrcsetItem(stem + "." + ext, Extension(stem + "." + ext), width)
         == stem + "_" + NatToString(width) + "w." + ext + " " + NatToString(width) + "w"
  {
    RawExtensionOf(stem, ext);
    WebpSourceOf(stem, ext);
    SrcsetItemOf(stem, ext, width);
  }

  lemma NoLowerJpgInUpper()
    ensures !Contains("photo.JPG", ".jpg")
  {
    var s := "photo.JPG";
    forall k | 0 <= k <= |s| ensures !OccursAt(s, ".jpg", k) {
      if k + 4 <= |s| {
        assert s[k..k + 4][1] == s[k + 1];
      }
    }
  }

  lemma UpperCaseExtension()
    ensures Extension("photo.JPG") == "jpg"
  {
    var stem, ext := "photo", "JPG";
    assert stem + "." + ext == "photo.JPG";
    RawExtensionOf(stem, ext);
    var low := Lower(ext);
    assert low[0] == LowerChar('J') == 'j';
    assert low[1] == LowerChar('P') == 'p';
    assert low[2] == LowerChar('G') == 'g';
    assert low == "jpg";
  }

  lemma UpperCaseWebp()
    ensures WebpSource("photo.JPG", "jpg") == "photo.JPG"
  {
    assert !EndsWith("photo.JPG", ".jpg") by {
      assert "photo.JPG"[5..] == ".JPG";
    }
  }

  /** As written, an address whose lower-cased extension does not occur in it
      gets a `srcset` whose every item names the original file. */
  lemma SrcsetNotRewritten(src: string, width: nat)
    requires !Contains(src, "." + Extension(src))
    ensures SrcsetItem(src, Extension(src), width) == src + " " + NatToString(width) + "w"
  {
  }

  /** An upper-case extension is such an address: the lower-cased `.jpg` is not
      found in `photo.JPG`, so neither the `srcset` items nor the WebP
      "variant" are rewritten. */
  lemma UpperCaseExtensionNotRewritten()
    ensures Extension("photo.JPG") == "jpg"
    ensures !Contains("photo.JPG", "." + Extension("photo.JPG"))
    ensures SetupResponsiveImage("photo.JPG", true).value.srcWebp == Some("photo.JPG")
  {
    UpperCaseExtension();
    NoLowerJpgInUpper();
    UpperCaseWebp();
    assert "." + "jpg" == ".jpg";
  }

  /** Corrected rewriting: match the extension as it is written in the
      address. */
  function SetupResponsiveImageFixed(dataSrc: string, supportsWebp: bool)
    : (r: Option<ResponsiveSources>)
    ensures r.None? <==> dataSrc == ""
    ensures r.Some? ==> (r.value.srcWebp.Some? <==> supportsWebp)
  {
    if dataSrc == "" then None
    else
      var ext := RawExtension(dataSrc);
      Some(ResponsiveSources(
        if supportsWebp then Some(WebpSource(dataSrc, ext)) else None,
        Srcset(dataSrc, ext)))
  }

  /** The corrected rewriting produces the WebP variant and each width variant
      of `stem.ext` whatever the case of the extension. */
  lemma SetupResponsiveImageFixedRewrites(stem: string, ext: string, width: nat)
    requires '.' !in ext
    requires !Contains(stem, "." + ext)
    ensures SetupResponsiveImageFixed(stem + "." + ext, true).value.srcWebp == Some(stem + ".webp")
    ensures SrcsetItem(stem + "." + ext, RawExtension(stem + "." + ext), width)
         == stem + "_" + NatToString(width) + "w." + ext + " " + NatToString(width) + "w"
  {
    RawExtensionOf(stem, ext);
    WebpSourceOf(stem, ext);
    SrcsetItemOf(stem, ext, width);
  }
}
