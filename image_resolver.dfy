/** The `image-resolver` esbuild plugin (packages/mdx-to-md/src/mdx-to-md.ts:42-58).
    Its resolve hook claims every import path that ends in `.png`, `.jpg`,
    `.jpeg`, `.gif` or `.svg` (the filter `\.(png|jpe?g|gif|svg)$` has no
    case-insensitive flag, so `.PNG` is not claimed) and puts it in the
    `image-url` namespace without changing it; its load hook answers every
    path in that namespace with a JavaScript module whose default export is
    the path as a string literal. The image file itself is never read. */
module ImageResolver {
  import opened Text
  import opened JsonText

  const PluginName: string := "image-resolver"
  const ImageNamespace: string := "image-url"
  const ImageExtensions: seq<string> := ["png", "jpg", "jpeg", "gif", "svg"]

  /** The filter of the resolve hook, alternative by alternative. */
  predicate IsImagePath(path: string) {
    || EndsWith(path, ".png")
    || EndsWith(path, ".jpg") || EndsWith(path, ".jpeg")
    || EndsWith(path, ".gif")
    || EndsWith(path, ".svg")
  }

  /** The index of the last `.` in `path`, searching down from `i`. */
  function LastDot(path: string, i: nat): (r: Option<nat>)
    requires i <= |path|
    ensures r.Some? ==> r.value < i && path[r.value] == '.'
    ensures r.Some? ==> forall j :: r.value < j < i ==> path[j] != '.'
    ensures r.None? ==> forall j :: 0 <= j < i ==> path[j] != '.'
  {
    if i == 0 then None
    else if path[i - 1] == '.' then Some(i - 1)
    else LastDot(path, i - 1)
  }

  /** The file extension: what follows the last `.`, if there is one. */
  function Extension(path: string): Option<string> {
    match LastDot(path, |path|)
    case None => None
    case Some(k) => Some(path[k + 1..])
  }

  /** What the resolve hook returns for a claimed path. */
  datatype ResolveResult = ResolveResult(path: string, namespace: string)

  /** What the load hook returns. */
  datatype LoadResult = LoadResult(contents: string, loader: string)

  /** `build.onResolve({ filter }, ...)`: `None` when the filter does not
      match, so esbuild goes on resolving the path its usual way. */
  function OnResolve(importPath: string): (r: Option<ResolveResult>)
    ensures r.Some? <==> IsImagePath(importPath)
    ensures r.Some? ==> r.value.path == importPath && r.value.namespace == ImageNamespace
  {
    if IsImagePath(importPath) then Some(ResolveResult(importPath, ImageNamespace)) else None
  }

  /** The module source the load hook produces for `path`. */
  function ModuleSource(path: string): string {
    "export default " + Quote(path)
  }

  /** `build.onLoad({ filter: /.*\/, namespace: "image-url" }, ...)`. The
      filter `.*` matches every path (if only with an empty match), so the
      namespace alone decides. */
  function OnLoad(namespace: string, path: string): (r: Option<LoadResult>)
    ensures r.Some? <==> namespace == ImageNamespace
    ensures r.Some? ==> r.value.loader == "js"
    ensures r.Some? ==> exists lit :: r.value.contents == "export default " + lit && Unquote(lit) == Some(path)
  {
    QuoteRoundTrip(path);
    assert ModuleSource(path) == "export default " + Quote(path);
    if namespace == ImageNamespace then Some(LoadResult(ModuleSource(path), "js")) else None
  }
}
