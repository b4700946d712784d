/** What `mdxToMd` promises, step by step: a failure anywhere is the result,
    the bundler receives the file's text with this module's configuration,
    and on success the Markdown is the converter applied to the rendered
    HTML with its `<img>` tags rewritten. */
module PipelineProperties {
  import opened ImgRewrite
  import opened ImgRewriteProperties
  import opened BundleConfig
  import opened Pipeline

  /** Reading, bundling and rendering succeed, with these results. */
  ghost predicate Runs(path: string, options: map<string, Value>, env: Env, contents: string, code: string, html: string)
    requires options.Keys <= CallerKeys
  {
    && env.readFile(path) == Success(contents)
    && env.bundle(BundleArgs(contents, env.dirname(path), options)) == Success(code)
    && env.render(code) == Success(html)
  }

  /** Once the HTML exists, the result is what the converter makes of the
      rewritten HTML, its failure included. */
  lemma ConvertsRewrittenHtml(path: string, options: map<string, Value>, env: Env, contents: string, code: string, html: string)
    requires options.Keys <= CallerKeys
    requires Runs(path, options, env, contents, code, html)
    ensures MdxToMd(path, options, env) == env.translate(Rewrite(html))
  {
  }

  /** The bundler is asked to compile the file's text, in the file's
      directory, with this module's `esbuildOptions` callback closed over
      that same directory. */
  lemma BundlerInput(path: string, options: map<string, Value>, env: Env, contents: string)
    requires options.Keys <= CallerKeys
    requires env.readFile(path) == Success(contents)
    ensures var args := BundleArgs(contents, env.dirname(path), options);
      && args["source"] == Str(contents)
      && args["cwd"] == Str(env.dirname(path))
      && args["esbuildOptions"] == EsbuildCallback(env.dirname(path))
  {
  }

  /** A failure to read, to bundle, to render or to convert is the result,
      and nothing after it is consulted. */
  lemma FailuresPropagate(path: string, options: map<string, Value>, env: Env)
    requires options.Keys <= CallerKeys
    ensures env.readFile(path).Failure? ==> MdxToMd(path, options, env) == Failure(env.readFile(path).error)
    ensures env.readFile(path).Success? ==>
      var code := env.bundle(BundleArgs(env.readFile(path).value, env.dirname(path), options));
      && (code.Failure? ==> MdxToMd(path, options, env) == Failure(code.error))
      && (code.Success? && env.render(code.value).Failure? ==>
            MdxToMd(path, options, env) == Failure(env.render(code.value).error))
      && (code.Success? && env.render(code.value).Success? &&
          env.translate(Rewrite(env.render(code.value).value)).Failure? ==>
            MdxToMd(path, options, env).Failure?)
  {
  }

  /** HTML without an image tag goes to the converter unchanged. */
  lemma NoImagesUnchanged(path: string, options: map<string, Value>, env: Env, contents: string, code: string, html: string)
    requires options.Keys <= CallerKeys
    requires Runs(path, options, env, contents, code, html)
    requires forall m :: !IsMatch(html, m)
    ensures MdxToMd(path, options, env) == env.translate(html)
  {
    RewriteWithoutMatch(html);
  }

  /** The first image tag of the HTML reaches the converter as
      `![alt](src)` with the tag's own alt and src, after the HTML before it
      and before the rewrite of the HTML after it. */
  lemma FirstImageReachesConverter(path: string, options: map<string, Value>, env: Env, contents: string, code: string,
                                   html: string, m: Span)
    requires options.Keys <= CallerKeys
    requires Runs(path, options, env, contents, code, html)
    requires IsFirstMatchFrom(html, 0, m)
    ensures MdxToMd(path, options, env)
      == env.translate(html[..m.start] + ImageMarkdown(AltText(Post(html, m)), Src(html, m)) + Rewrite(html[m.close + 1..]))
  {
    RewriteStep(html, m);
  }

  /** An image tag after text with no `<img`, such as the `<p>` of the
      paragraph React renders around it, reaches the converter as
      `![alt](src)`, and the rest of the HTML is rewritten on its own. */
  lemma ImageReachesConverter(path: string, options: map<string, Value>, env: Env, contents: string, code: string,
                              left: string, pre: string, src: string, post: string, right: string)
    requires options.Keys <= CallerKeys
    requires Runs(path, options, env, contents, code, left + TagText(pre, src, post) + right)
    requires forall i: nat :: !ImgOpenAt(left, i)
    requires '>' !in pre && '"' !in src && '>' !in post
    requires NoSrcAttribute(src + "\"" + post)
    ensures MdxToMd(path, options, env)
      == env.translate(left + ImageMarkdown(AltText(post), src) + Rewrite(right))
  {
    RewriteTextThenTag(left, pre, src, post, right);
  }
}
