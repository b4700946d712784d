/** `mdxToMd(path, options)` (packages/mdx-to-md/src/mdx-to-md.ts:17-79):
    read the MDX file, bundle it with the configuration of `BundleConfig`,
    render the bundled component to HTML, turn the `<img>` tags back into
    Markdown images, and convert the HTML to Markdown. The file system, the
    bundler, the React renderer and the HTML-to-Markdown converter are
    outside the model and come in as functions; a rejected promise, or an
    error thrown by one of them, is a `Failure`. */
module Pipeline {
  import opened ImgRewrite
  import opened BundleConfig

  datatype Result<T> = Success(value: T) | Failure(error: string)

  /** The parts of the program the model does not look into. */
  datatype Env = Env(
    readFile: string -> Result<string>,
    dirname: string -> string,
    bundle: map<string, Value> -> Result<string>,
    render: string -> Result<string>,
    translate: string -> Result<string>)

  /** The HTML the bundled and rendered MDX file produces, or the first
      failure on the way. */
  function RenderedHtml(path: string, options: map<string, Value>, env: Env): Result<string>
    requires options.Keys <= CallerKeys
  {
    match env.readFile(path)
    case Failure(e) => Failure(e)
    case Success(contents) =>
      match env.bundle(BundleArgs(contents, env.dirname(path), options))
      case Failure(e) => Failure(e)
      case Success(code) => env.render(code)
  }

  /** The whole conversion: a failure before the HTML exists is the result,
      and otherwise the result is what the converter makes of the HTML with
      its `<img>` tags rewritten. */
  function MdxToMd(path: string, options: map<string, Value>, env: Env): (r: Result<string>)
    requires options.Keys <= CallerKeys
    ensures RenderedHtml(path, options, env).Failure? ==> r == Failure(RenderedHtml(path, options, env).error)
    ensures r.Success? ==> RenderedHtml(path, options, env).Success?
    ensures r.Success? ==> env.translate(Rewrite(RenderedHtml(path, options, env).value)) == r
  {
    match RenderedHtml(path, options, env)
    case Failure(e) => Failure(e)
    case Success(html) => env.translate(Rewrite(html))
  }
}
