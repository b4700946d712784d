/** The configuration handed to the MDX bundler
    (packages/mdx-to-md/src/mdx-to-md.ts:29-61). A JavaScript object is a
    map from property names to values; an object spread `{ ...a, k: v }` is
    the map `a` overridden at `k`. The two functions passed along, the
    `esbuildOptions` callback and the plugin's `setup`, are values named by
    a `Callback` (with what the closure captures) and a `Plugin`; what they
    do is `EsbuildOptions` here and the `ImageResolver` module. */
module BundleConfig {
  import ImageResolver

  /** A JavaScript value, as far as the configuration looks into it. */
  datatype Value =
    | Str(s: string)
    | Arr(items: seq<Value>)
    | Obj(fields: map<string, Value>)
    | Plugin(name: string)
    | Callback(name: string, captured: seq<Value>)
    | Other(id: nat)

  /** The properties the caller's `options` may carry (its type is a `Pick`
      of these three). */
  const CallerKeys: set<string> := {"esbuildOptions", "grayMatterOptions", "mdxOptions"}

  /** The properties the callback sets, whatever the bundler passed in. */
  const EsbuildKeys: set<string> := {"outdir", "publicPath", "define", "plugins"}

  /** The closure this module passes as `esbuildOptions`, with the one
      value it captures: the MDX file's directory. Called with the bundler's
      build options `o`, it returns `EsbuildOptions(dir, o)`. */
  function EsbuildCallback(dir: string): Value {
    Callback("esbuildOptions", [Str(dir)])
  }

  const ImageResolverPlugin: Value := Plugin(ImageResolver.PluginName)

  /** Compile-time substitutions; each value is the source text of a
      JavaScript expression. */
  function Define(): map<string, Value> {
    map["process.env.NODE_ENV" := Str("\"production\""), "process.env.__TESTING__" := Str("true")]
  }

  /** `Array.isArray(options.plugins) ? options.plugins : []`: a missing or
      non-array `plugins` contributes nothing. */
  function IncomingPlugins(options: map<string, Value>): seq<Value> {
    if "plugins" in options && options["plugins"].Arr? then options["plugins"].items else []
  }

  /** The body of the `esbuildOptions` callback: the bundler's own build
      options, with the output directory set to the MDX file's directory, the
      public path to `.`, the two substitutions, and the image resolver put
      in front of the plugins already there. */
  function EsbuildOptions(dir: string, options: map<string, Value>): (r: map<string, Value>)
    ensures r.Keys == options.Keys + EsbuildKeys
    ensures forall k :: k in options && k !in EsbuildKeys ==> r[k] == options[k]
    ensures r["outdir"] == Str(dir) && r["publicPath"] == Str(".") && r["define"] == Obj(Define())
    ensures r["plugins"].Arr? && |r["plugins"].items| == 1 + |IncomingPlugins(options)|
    ensures r["plugins"].items[0] == ImageResolverPlugin
    ensures r["plugins"].items[1..] == IncomingPlugins(options)
  {
    var plugins := [ImageResolverPlugin] + IncomingPlugins(options);
    assert plugins[1..] == IncomingPlugins(options);
    options + map["outdir" := Str(dir), "publicPath" := Str("."), "define" := Obj(Define()), "plugins" := Arr(plugins)]
  }

  /** The argument of `bundleMDX`: the file's text as `source`, its directory
      as `cwd`, then the caller's options, then this module's callback, which
      replaces any `esbuildOptions` the caller gave. */
  function BundleArgs(contents: string, dir: string, options: map<string, Value>): (r: map<string, Value>)
    requires options.Keys <= CallerKeys
    ensures r.Keys == options.Keys + {"source", "cwd", "esbuildOptions"}
    ensures r["source"] == Str(contents) && r["cwd"] == Str(dir)
    ensures r["esbuildOptions"] == EsbuildCallback(dir)
    ensures forall k :: k in options && k != "esbuildOptions" ==> r[k] == options[k]
  {
    map["source" := Str(contents), "cwd" := Str(dir)] + options + map["esbuildOptions" := EsbuildCallback(dir)]
  }
}
