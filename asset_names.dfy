/** Output file naming of the production build (vite.config.js): emitted
    assets are sorted into an images, a fonts or a catch-all directory by the
    text after the last "." of their name; script chunks and entries share one
    fixed template. */
module AssetNames {

  const ImageTemplate: string := "assets/images/[name]-[hash][extname]"
  const FontTemplate: string := "assets/fonts/[name]-[hash][extname]"
  const OtherTemplate: string := "assets/[name]-[hash][extname]"

  /** The fixed templates for code-split chunks and entry scripts. */
  const ChunkFileNames: string := "assets/js/[name]-[hash].js"
  const EntryFileNames: string := "assets/js/[name]-[hash].js"

  /** The alternatives of the image pattern `png|jpe?g|svg|gif|tiff|bmp|ico`, with `jpe?g` spelled out. */
  const ImageAlternatives: seq<string> := ["png", "jpg", "jpeg", "svg", "gif", "tiff", "bmp", "ico"]
  /** The alternatives of the font pattern `woff|woff2|eot|ttf|otf`. */
  const FontAlternatives: seq<string> := ["woff", "woff2", "eot", "ttf", "otf"]

  /** `s.split(sep)`: the maximal pieces between separators, always at least one. */
  function Split(s: string, sep: char): (parts: seq<string>)
    ensures |parts| >= 1
    ensures forall k :: 0 <= k < |parts| ==> sep !in parts[k]
    ensures |parts| == 1 <==> sep !in s
  {
    if s == [] then [""]
    else
      var init := Split(s[..|s| - 1], sep);
      if s[|s| - 1] == sep then init + [""]
      else init[..|init| - 1] + [init[|init| - 1] + [s[|s| - 1]]]
  }

  /** `parts.join(sep)`. */
  function Join(parts: seq<string>, sep: char): string
    requires |parts| >= 1
  {
    if |parts| == 1 then parts[0] else Join(parts[..|parts| - 1], sep) + [sep] + parts[|parts| - 1]
  }

  /** Splitting loses nothing: joining the pieces back gives the name. */
  lemma {:induction false} JoinSplit(s: string, sep: char)
    ensures Join(Split(s, sep), sep) == s
  {
    if s != [] {
      var init := Split(s[..|s| - 1], sep);
      var parts := Split(s, sep);
      JoinSplit(s[..|s| - 1], sep);
      assert s == s[..|s| - 1] + [s[|s| - 1]];
      if s[|s| - 1] == sep {
        assert parts[..|parts| - 1] == init;
      } else if |init| > 1 {
        assert parts[..|parts| - 1] == init[..|init| - 1];
      }
    }
  }

  /** The last piece of a split is the tail of the text after its last separator. */
  lemma {:induction false} LastPieceIsTail(s: string, sep: char)
    ensures var parts := Split(s, sep);
            var last := parts[|parts| - 1];
            && |last| <= |s|
            && last == s[|s| - |last|..]
            && (|last| < |s| ==> s[|s| - |last| - 1] == sep)
  {
    if s != [] {
      var n := |s|;
      var s', c := s[..n - 1], s[n - 1];
      LastPieceIsTail(s', sep);
      var init := Split(s', sep);
      var last' := init[|init| - 1];
      var parts := Split(s, sep);
      if c == sep {
        assert parts == init + [""];
      } else {
        assert parts == init[..|init| - 1] + [last' + [c]];
        var last := parts[|parts| - 1];
        assert last == last' + [c];
        assert s[n - |last|..] == s'[|s'| - |last'|..] + [c];
        assert |last| < n ==> s[n - |last| - 1] == s'[|s'| - |last'| - 1];
      }
    }
  }

  /** Whatever precedes the last separator, the last piece is everything after it. */
  lemma {:induction false} LastPieceAfterSeparator(s: string, sep: char, t: string)
    requires sep !in t
    ensures var parts := Split(s + [sep] + t, sep);
            parts[|parts| - 1] == t
  {
    if t != [] {
      var t' := t[..|t| - 1];
      LastPieceAfterSeparator(s, sep, t');
      assert (s + [sep] + t)[..|s + [sep] + t| - 1] == s + [sep] + t';
      assert t == t' + [t[|t| - 1]];
    }
  }

  /** The extension `assetFileNames` tests: the text after the last ".", or the
      whole name when it has no ".". */
  function Extension(name: string): (ext: string)
    ensures '.' !in ext
    ensures |ext| <= |name| && ext == name[|name| - |ext|..]
    ensures |ext| < |name| ==> name[|name| - |ext| - 1] == '.'
    ensures '.' !in name ==> ext == name
  {
    var info := Split(name, '.');
    LastPieceIsTail(name, '.');
    assert '.' !in name ==> info == [info[0]] && |info[0]| == |name|;
    info[|info| - 1]
  }

  /** ASCII lower-casing: what the `i` flag of a non-Unicode pattern folds when
      every alternative is lower-case ASCII. */
  function LowerChar(c: char): (d: char)
    ensures 'A' <= c <= 'Z' ==> 'a' <= d <= 'z' && d as int - c as int == 'a' as int - 'A' as int
    ensures !('A' <= c <= 'Z') ==> d == c
  {
    if 'A' <= c <= 'Z' then (c as int - 'A' as int + 'a' as int) as char else c
  }

  function Lower(s: string): (r: string)
    ensures |r| == |s|
    ensures forall k :: 0 <= k < |s| ==> r[k] == LowerChar(s[k])
  {
    if s == [] then [] else [LowerChar(s[0])] + Lower(s[1..])
  }

  /** An unanchored search: `p` occurs somewhere in `s`. */
  predicate Contains(s: string, p: string)
    ensures Contains(s, p) ==> |p| <= |s|
  {
    if |s| < |p| then false
    else s[..|p|] == p || Contains(s[1..], p)
  }

  /** `p` sits in `s` starting at offset `k`. */
  predicate OccursAt(s: string, p: string, k: nat)
  {
    k + |p| <= |s| && s[k..k + |p|] == p
  }

  /** The search agrees with the definition of an occurrence: `p` is found
      exactly when it sits in `s` at some offset. */
  lemma {:induction false} ContainsIffOccurs(s: string, p: string)
    ensures Contains(s, p) <==> exists k: nat :: OccursAt(s, p, k)
  {
    if |s| >= |p| {
      if s[..|p|] == p {
        assert OccursAt(s, p, 0);
      } else {
        ContainsIffOccurs(s[1..], p);
        if Contains(s[1..], p) {
          var k: nat :| OccursAt(s[1..], p, k);
          assert s[k + 1..k + 1 + |p|] == s[1..][k..k + |p|];
          assert OccursAt(s, p, k + 1);
        }
        if exists k: nat :: OccursAt(s, p, k) {
          var k: nat :| OccursAt(s, p, k);
          assert k != 0;
          assert s[1..][k - 1..k - 1 + |p|] == s[k..k + |p|];
          assert OccursAt(s[1..], p, k - 1);
        }
      }
    } else {
      forall k: nat ensures !OccursAt(s, p, k) {
      }
    }
  }

  /** Whatever surrounds an occurrence of `p`, the search finds it. */
  lemma {:induction false} ContainsEmbedded(u: string, p: string, v: string)
    ensures Contains(u + p + v, p)
  {
    if u == [] {
      assert (u + p + v)[..|p|] == p;
    } else {
      ContainsEmbedded(u[1..], p, v);
      assert (u + p + v)[1..] == u[1..] + p + v;
    }
  }

  /** If `q` extends `p`, every text that contains `q` also contains `p`. */
  lemma {:induction false} ContainsPrefix(s: string, p: string, q: string)
    requires |p| <= |q| && q[..|p|] == p
    requires Contains(s, q)
    ensures Contains(s, p)
  {
    if s[..|q|] == q {
      assert s[..|p|] == q[..|p|];
    } else {
      ContainsPrefix(s[1..], p, q);
    }
  }

  /** The image test `/png|jpe?g|svg|gif|tiff|bmp|ico/i`: some alternative occurs anywhere, in any letter case. */
  predicate IsImageExtension(ext: string)
  {
    var e := Lower(ext);
    Contains(e, "png") || Contains(e, "jpg") || Contains(e, "jpeg") || Contains(e, "svg") ||
    Contains(e, "gif") || Contains(e, "tiff") || Contains(e, "bmp") || Contains(e, "ico")
  }

  /** The font test `/woff|woff2|eot|ttf|otf/i`. */
  predicate IsFontExtension(ext: string)
  {
    var e := Lower(ext);
    Contains(e, "woff") || Contains(e, "woff2") || Contains(e, "eot") || Contains(e, "ttf") || Contains(e, "otf")
  }

  /** The image test succeeds exactly when some alternative of the image list
      occurs in the lower-cased extension. */
  lemma ImageTestMatchesList(ext: string)
    ensures IsImageExtension(ext) <==> exists p :: p in ImageAlternatives && Contains(Lower(ext), p)
  {
    var e := Lower(ext);
    if exists p :: p in ImageAlternatives && Contains(e, p) {
      var p :| p in ImageAlternatives && Contains(e, p);
      assert p == "png" || p == "jpg" || p == "jpeg" || p == "svg" || p == "gif" || p == "tiff" || p == "bmp" || p == "ico";
    }
    if IsImageExtension(ext) {
      var alts := ImageAlternatives;
      if Contains(e, "png") { assert alts[0] == "png"; }
      else if Contains(e, "jpg") { assert alts[1] == "jpg"; }
      else if Contains(e, "jpeg") { assert alts[2] == "jpeg"; }
      else if Contains(e, "svg") { assert alts[3] == "svg"; }
      else if Contains(e, "gif") { assert alts[4] == "gif"; }
      else if Contains(e, "tiff") { assert alts[5] == "tiff"; }
      else if Contains(e, "bmp") { assert alts[6] == "bmp"; }
      else { assert alts[7] == "ico"; }
    }
  }

  /** The font test succeeds exactly when some alternative of the font list
      occurs in the lower-cased extension. */
  lemma FontTestMatchesList(ext: string)
    ensures IsFontExtension(ext) <==> exists p :: p in FontAlternatives && Contains(Lower(ext), p)
  {
    var e := Lower(ext);
    if exists p :: p in FontAlternatives && Contains(e, p) {
      var p :| p in FontAlternatives && Contains(e, p);
      assert p == "woff" || p == "woff2" || p == "eot" || p == "ttf" || p == "otf";
    }
    if IsFontExtension(ext) {
      var alts := FontAlternatives;
      if Contains(e, "woff") { assert alts[0] == "woff"; }
      else if Contains(e, "woff2") { assert alts[1] == "woff2"; }
      else if Contains(e, "eot") { assert alts[2] == "eot"; }
      else if Contains(e, "ttf") { assert alts[3] == "ttf"; }
      else { assert alts[4] == "otf"; }
    }
  }

  /** `assetFileNames`: images first, then fonts, then the catch-all. The
      result is always one of the three templates and always under "assets/". */
  function AssetFileName(name: string): (r: string)
    ensures r == ImageTemplate || r == FontTemplate || r == OtherTemplate
    ensures r[..7] == "assets/"
    ensures r == ImageTemplate <==> IsImageExtension(Extension(name))
    ensures r == FontTemplate <==> !IsImageExtension(Extension(name)) && IsFontExtension(Extension(name))
  {
    var r := TemplateForExtension(Extension(name));
    TemplatesUnderAssets();
    r
  }

  /** Each of the three asset templates is a path under "assets/". */
  lemma TemplatesUnderAssets()
    ensures ImageTemplate[..7] == "assets/"
    ensures FontTemplate[..7] == "assets/"
    ensures OtherTemplate[..7] == "assets/"
  {
  }

  /** The template chosen for an extension: the image test runs first. */
  function TemplateForExtension(ext: string): (r: string)
    ensures r == ImageTemplate <==> IsImageExtension(ext)
    ensures r == FontTemplate <==> !IsImageExtension(ext) && IsFontExtension(ext)
    ensures r == OtherTemplate <==> !IsImageExtension(ext) && !IsFontExtension(ext)
  {
    if IsImageExtension(ext) then ImageTemplate
    else if IsFontExtension(ext) then FontTemplate
    else OtherTemplate
  }

  /** An extension carrying an image alternative anywhere, in any letter case,
      goes to the images directory, whatever else it also matches. */
  lemma EmbeddedImageAlternative(name: string, u: string, p: string, v: string)
    requires p in ImageAlternatives
    requires Lower(Extension(name)) == u + p + v
    ensures AssetFileName(name) == ImageTemplate
  {
    ContainsEmbedded(u, p, v);
  }

  /** An extension carrying a font alternative and no image alternative goes to the fonts directory. */
  lemma EmbeddedFontAlternative(name: string, u: string, p: string, v: string)
    requires p in FontAlternatives
    requires Lower(Extension(name)) == u + p + v
    requires !IsImageExtension(Extension(name))
    ensures AssetFileName(name) == FontTemplate
  {
    ContainsEmbedded(u, p, v);
  }

  /** The `woff2` alternative is subsumed: every text it matches, `woff` matches too. */
  lemma Woff2MatchesThroughWoff(s: string)
    requires Contains(s, "woff2")
    ensures Contains(s, "woff")
  {
    ContainsPrefix(s, "woff", "woff2");
  }

  /** Script chunks and entries land in "assets/js/", apart from every asset template. */
  lemma ScriptTemplatesApart()
    ensures ChunkFileNames == EntryFileNames
    ensures ChunkFileNames[..10] == "assets/js/"
    ensures ChunkFileNames != ImageTemplate && ChunkFileNames != FontTemplate && ChunkFileNames != OtherTemplate
  {
  }

  /** The extension of `stem.ext` is `ext` whenever `ext` has no ".". */
  lemma ExtensionOf(stem: string, ext: string)
    requires '.' !in ext
    ensures Extension(stem + "." + ext) == ext
  {
    LastPieceAfterSeparator(stem, '.', ext);
  }

  /** A text that contains `p` contains each of its characters. */
  lemma {:induction false} ContainedCharsOccur(s: string, p: string, i: nat)
    requires i < |p|
    ensures Contains(s, p) ==> p[i] in s
  {
    if |s| >= |p| {
      ContainedCharsOccur(s[1..], p, i);
      if s[..|p|] == p {
        assert s[i] == p[i];
      } else {
        assert s == [s[0]] + s[1..];
      }
    }
  }

  /** So a text lacking one character of `p` does not contain `p`. */
  lemma LacksChar(s: string, p: string, i: nat)
    requires i < |p| && p[i] !in s
    ensures !Contains(s, p)
  {
    ContainedCharsOccur(s, p, i);
  }

  /** An extension whose lower-cased form lacks the letters n, j, v, g, t, m
      and i (one from each image alternative) is not an image. */
  lemma NotImageWithout(ext: string)
    requires var e := Lower(ext);
             'n' !in e && 'j' !in e && 'v' !in e && 'g' !in e && 't' !in e && 'm' !in e && 'i' !in e
    ensures !IsImageExtension(ext)
  {
    var e := Lower(ext);
    LacksChar(e, "png", 1);
    LacksChar(e, "jpg", 0);
    LacksChar(e, "jpeg", 0);
    LacksChar(e, "svg", 1);
    LacksChar(e, "gif", 0);
    LacksChar(e, "tiff", 0);
    LacksChar(e, "bmp", 1);
    LacksChar(e, "ico", 0);
  }

  /** An extension whose lower-cased form lacks f, o and t (one from each font
      alternative) is not a font. */
  lemma NotFontWithout(ext: string)
    requires var e := Lower(ext);
             'f' !in e && 'o' !in e && 't' !in e
    ensures !IsFontExtension(ext)
  {
    var e := Lower(ext);
    LacksChar(e, "woff", 2);
    LacksChar(e, "woff2", 2);
    LacksChar(e, "eot", 1);
    LacksChar(e, "ttf", 0);
    LacksChar(e, "otf", 0);
  }

  /** "logo.PNG": the upper-case extension still matches `png`. */
  lemma UpperCaseImage()
    ensures AssetFileName("logo.PNG") == ImageTemplate
  {
    ExtensionOf("logo", "PNG");
    assert Lower("PNG") == "" + "png" + "";
    EmbeddedImageAlternative("logo.PNG", "", "png", "");
  }

  /** "sprite.xpngx": the unanchored pattern matches `png` inside the extension. */
  lemma UnanchoredImage()
    ensures AssetFileName("sprite.xpngx") == ImageTemplate
  {
    ExtensionOf("sprite", "xpngx");
    assert Lower("xpngx") == "x" + "png" + "x";
    EmbeddedImageAlternative("sprite.xpngx", "x", "png", "x");
  }

  /** The extensions of the example names below. */
  lemma ExampleExtensions()
    ensures Extension("inter.woff2") == "woff2"
    ensures Extension("index.css") == "css"
    ensures Extension("photo.webp") == "webp"
  {
    ExtensionOf("inter", "woff2");
    ExtensionOf("index", "css");
    ExtensionOf("photo", "webp");
  }

  /** "woff2" carries no image alternative. */
  lemma Woff2IsNotImage()
    ensures !IsImageExtension("woff2")
  {
    assert Lower("woff2") == "woff2";
    NotImageWithout("woff2");
  }

  /** "woff2" (as in "inter.woff2") is a font, matched through `woff`. */
  lemma Woff2Font()
    ensures TemplateForExtension("woff2") == FontTemplate
  {
    Woff2IsNotImage();
    assert Lower("woff2") == "" + "woff" + "2";
    ContainsEmbedded("", "woff", "2");
  }

  /** "css" (as in "index.css") falls through to the catch-all directory. */
  lemma StylesheetFallsThrough()
    ensures TemplateForExtension("css") == OtherTemplate
  {
    assert Lower("css") == "css";
    NotImageWithout("css");
    NotFontWithout("css");
  }

  /** "webp" carries no image alternative: the image list does not name it. */
  lemma WebpIsNotImage()
    ensures !IsImageExtension("webp")
  {
    assert Lower("webp") == "webp";
    NotImageWithout("webp");
  }

  /** "webp" carries no font alternative. */
  lemma WebpIsNotFont()
    ensures !IsFontExtension("webp")
  {
    assert Lower("webp") == "webp";
    NotFontWithout("webp");
  }

  /** "webp" (as in "photo.webp") is not in the image list and falls through too. */
  lemma WebpFallsThrough()
    ensures TemplateForExtension("webp") == OtherTemplate
  {
    WebpIsNotImage();
    WebpIsNotFont();
  }
}
