/** What the bundler configuration promises: a caller's `esbuildOptions` has
    no effect at all, the callback's own settings cannot be changed by the
    options it receives, and the image resolver always runs first. */
module BundleConfigProperties {
  import opened Text
  import opened JsonText
  import opened BundleConfig
  import JsonTextProperties

  /** Two callers whose options differ only in `esbuildOptions` get the same
      bundler arguments: the caller's callback is dropped. */
  lemma CallerEsbuildOptionsIgnored(contents: string, dir: string, o1: map<string, Value>, o2: map<string, Value>)
    requires o1.Keys <= CallerKeys && o2.Keys <= CallerKeys
    requires o1 - {"esbuildOptions"} == o2 - {"esbuildOptions"}
    ensures BundleArgs(contents, dir, o1) == BundleArgs(contents, dir, o2)
  {
    var r1, r2 := BundleArgs(contents, dir, o1), BundleArgs(contents, dir, o2);
    forall k | k in o1 && k != "esbuildOptions" ensures k in o2 && o1[k] == o2[k] {
      assert k in o1 - {"esbuildOptions"};
    }
    forall k | k in o2 && k != "esbuildOptions" ensures k in o1 && o1[k] == o2[k] {
      assert k in o2 - {"esbuildOptions"};
    }
    assert r1.Keys == r2.Keys;
  }

  /** Whatever the bundler passes in, the output directory, public path and
      substitutions come out the same. */
  lemma EsbuildSettingsFixed(dir: string, o1: map<string, Value>, o2: map<string, Value>)
    ensures var r1, r2 := EsbuildOptions(dir, o1), EsbuildOptions(dir, o2);
      forall k :: k in EsbuildKeys - {"plugins"} ==> r1[k] == r2[k]
  {
    var r1, r2 := EsbuildOptions(dir, o1), EsbuildOptions(dir, o2);
    forall k | k in EsbuildKeys - {"plugins"} ensures r1[k] == r2[k] {
      assert k == "outdir" || k == "publicPath" || k == "define";
    }
  }

  /** Running the callback on its own result changes nothing but the
      plugins, where the resolver appears a second time: the callback is
      not idempotent. */
  lemma EsbuildOptionsTwice(dir: string, options: map<string, Value>)
    ensures var once := EsbuildOptions(dir, options);
      var twice := EsbuildOptions(dir, once);
      && twice - {"plugins"} == once - {"plugins"}
      && twice["plugins"] == Arr([ImageResolverPlugin, ImageResolverPlugin] + IncomingPlugins(options))
  {
    var once := EsbuildOptions(dir, options);
    var twice := EsbuildOptions(dir, once);
    SettingsKept(dir, once);
    var p := once["plugins"].items;
    assert p == [ImageResolverPlugin] + IncomingPlugins(options) by {
      assert p == [p[0]] + p[1..];
    }
    assert IncomingPlugins(once) == p;
    var q := twice["plugins"].items;
    assert q == [q[0]] + q[1..];
  }

  /** The callback applied to its own result keeps everything but the
      plugins. */
  lemma SettingsKept(dir: string, once: map<string, Value>)
    requires once.Keys >= EsbuildKeys
    requires once["outdir"] == Str(dir) && once["publicPath"] == Str(".") && once["define"] == Obj(Define())
    ensures EsbuildOptions(dir, once) - {"plugins"} == once - {"plugins"}
  {
    var twice := EsbuildOptions(dir, once);
    assert (twice - {"plugins"}).Keys == (once - {"plugins"}).Keys;
  }

  /** The `NODE_ENV` substitution is a string literal that parses as
      `production`, so the bundled code sees that string. */
  lemma NodeEnvIsProduction()
    ensures Define()["process.env.NODE_ENV"].Str?
    ensures Unquote(Define()["process.env.NODE_ENV"].s) == Some("production")
  {
    NodeEnvLiteral();
    JsonTextProperties.UnquotePlain("production");
    ProductionLiteral();
  }

  lemma NodeEnvLiteral()
    ensures Define()["process.env.NODE_ENV"] == Str("\"production\"")
  {
  }

  lemma ProductionLiteral()
    ensures "\"" + "production" + "\"" == "\"production\""
  {
  }
}
