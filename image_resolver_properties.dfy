/** What the image resolver promises: the filter claims exactly the paths
    whose extension is one of the five, compared case-sensitively, and an
    image import evaluates to its own path. */
module ImageResolverProperties {
  import opened Text
  import opened JsonText
  import opened ImageResolver
  import JsonTextProperties

  /** A path ending in `.` and a dot-free extension has that extension. */
  lemma ExtensionOfSuffix(path: string, ext: string)
    requires '.' !in ext && EndsWith(path, "." + ext)
    ensures Extension(path) == Some(ext)
  {
    var k := |path| - |ext| - 1;
    assert path[k..] == "." + ext;
    assert path[k] == '.';
    forall j | k < j < |path| ensures path[j] != '.' {
      assert path[j] == ext[j - k - 1];
    }
    assert LastDot(path, |path|) == Some(k);
    assert path[k + 1..] == path[k..][1..];
  }

  /** The filter as written agrees with "the extension after the last dot
      is one of png, jpg, jpeg, gif, svg". */
  lemma ImagePathByExtension(path: string)
    ensures IsImagePath(path) <==> Extension(path).Some? && Extension(path).value in ImageExtensions
  {
    if IsImagePath(path) {
      ClaimedHasImageExtension(path);
    }
    if Extension(path).Some? && Extension(path).value in ImageExtensions {
      ImageExtensionClaimed(path);
    }
  }

  lemma ClaimedHasImageExtension(path: string)
    requires IsImagePath(path)
    ensures Extension(path).Some? && Extension(path).value in ImageExtensions
  {
    if EndsWith(path, ".png") { ExtensionOfSuffix(path, "png"); }
    else if EndsWith(path, ".jpg") { ExtensionOfSuffix(path, "jpg"); }
    else if EndsWith(path, ".jpeg") { ExtensionOfSuffix(path, "jpeg"); }
    else if EndsWith(path, ".gif") { ExtensionOfSuffix(path, "gif"); }
    else { ExtensionOfSuffix(path, "svg"); }
  }

  lemma ImageExtensionClaimed(path: string)
    requires Extension(path).Some? && Extension(path).value in ImageExtensions
    ensures IsImagePath(path)
  {
    var k := LastDot(path, |path|).value;
    var ext := path[k + 1..];
    assert path[|path| - |ext| - 1..] == "." + ext;
    assert EndsWith(path, "." + ext);
    if ext == "png" { assert "." + ext == ".png"; }
    else if ext == "jpg" { assert "." + ext == ".jpg"; }
    else if ext == "jpeg" { assert "." + ext == ".jpeg"; }
    else if ext == "gif" { assert "." + ext == ".gif"; }
    else { assert "." + ext == ".svg"; }
  }

  /** A text whose last character differs from the suffix's does not end
      with it. */
  lemma LastCharDiffers(s: string, suffix: string)
    requires suffix != [] && (s == [] || s[|s| - 1] != suffix[|suffix| - 1])
    ensures !EndsWith(s, suffix)
  {
    if |suffix| <= |s| {
      assert s[|s| - |suffix|..][|suffix| - 1] == s[|s| - 1];
    }
  }

  /** No upper-case spelling of an extension is claimed, whatever the name. */
  lemma UpperCaseNotClaimed(base: string, ext: string)
    requires ext in ["PNG", "JPG", "JPEG", "GIF", "SVG"]
    ensures !IsImagePath(base + "." + ext)
    ensures OnResolve(base + "." + ext).None?
  {
    var path := base + "." + ext;
    assert path[|path| - 1] == ext[|ext| - 1];
    LastCharDiffers(path, ".png");
    LastCharDiffers(path, ".jpg");
    LastCharDiffers(path, ".jpeg");
    LastCharDiffers(path, ".gif");
    LastCharDiffers(path, ".svg");
  }

  /** An image import resolves into the image namespace, the load hook
      answers it, and the module's default export reads back as the path. */
  lemma ImageImportExportsPath(importPath: string)
    requires IsImagePath(importPath)
    ensures var resolved := OnResolve(importPath).value;
      && OnLoad(resolved.namespace, resolved.path).Some?
      && OnLoad(resolved.namespace, resolved.path).value.contents == "export default " + Quote(importPath)
      && Unquote(Quote(importPath)) == Some(importPath)
  {
    QuoteRoundTrip(importPath);
  }

  /** Different images give different modules. */
  lemma LoadInjective(p1: string, p2: string)
    requires OnLoad(ImageNamespace, p1) == OnLoad(ImageNamespace, p2)
    ensures p1 == p2
  {
    var prefix := "export default ";
    var c1, c2 := ModuleSource(p1), ModuleSource(p2);
    assert c1 == c2;
    assert c1[|prefix|..] == Quote(p1);
    assert c2[|prefix|..] == Quote(p2);
    JsonTextProperties.QuoteInjective(p1, p2);
  }
}
