/**
 * Bundle creation in the package filter: a module's text prepared for a
 * bundle (`get_bundle_content`, `get_bundle_module`), a bundle's text
 * (`write_bundle`), and the split of the finder's modules into the
 * configured bundles and a main bundle (`get_bundles`).
 *
 * Writing a bundle through the compressor is a function `publish` from the
 * bundle text and file name to the URL it is served at.
 */
module Bundles {
  import opened Wrappers
  import opened Text
  import opened Patterns
  import opened Rewrite

  /** A module the finder found: its identifier, the location of its file, and whether its `define` names it. */
  datatype Module = Module(id: string, location: string, named: bool)

  /** Why a bundle could not be written: the error each raise of the source carries. */
  datatype BundleError =
      /** "Could not find module <id> on disk". */
    | NotOnDisk(id: string)
      /** "Module <id> is not an AMD module". */
    | NotAmd(id: string)

  /**
   * `get_bundle_content`: no value when the text has no define call; the
   * text unchanged for a named module; otherwise the text with (at most
   * eight of) its define calls given the module's identifier.
   */
  function BundleContent(m: Module, content: string): (r: Option<string>)
    ensures r.None? <==> forall q :: 0 <= q < |content| ==> MatchAt(DefineCall, content, q).None?
    ensures r.Some? && m.named ==> r.value == content
    ensures r.Some? && !m.named ==>
      (Ordered(content, Take(FindAll(DefineCall, content, 0), SubCount), 0)
       && r.value == Splice(content, Take(FindAll(DefineCall, content, 0), SubCount), m.id, 0))
  {
    FindAllEmptyIff(DefineCall, content, 0);
    RewriteDefinesSpec(content, m.id);
    if FindAll(DefineCall, content, 0) == [] then None
    else if m.named then Some(content)
    else Some(RewriteDefines(content, m.id))
  }

  /**
   * `get_bundle_module`: the module's file is looked up by location in
   * `sources` (the finder's `get_module_path` and the file read).
   */
  function BundleModule(sources: map<string, string>, m: Module): (r: Result<string, BundleError>)
    ensures m.location !in sources ==> r == Failure(NotOnDisk(m.id))
    ensures m.location in sources ==>
      match BundleContent(m, sources[m.location])
      case None => r == Failure(NotAmd(m.id))
      case Some(t) => r == Success(t)
  {
    if m.location !in sources then Failure(NotOnDisk(m.id))
    else
      match BundleContent(m, sources[m.location])
      case None => Failure(NotAmd(m.id))
      case Some(t) => Success(t)
  }

  /** Every member of `modules` can be prepared for a bundle. */
  predicate AllBundle(sources: map<string, string>, modules: seq<Module>) {
    forall k :: 0 <= k < |modules| ==> BundleModule(sources, modules[k]).Success?
  }

  /** The prepared texts of the members, in order. */
  function Texts(sources: map<string, string>, modules: seq<Module>): (ts: seq<string>)
    requires AllBundle(sources, modules)
    ensures |ts| == |modules| && forall k :: 0 <= k < |modules| ==> Success(ts[k]) == BundleModule(sources, modules[k])
  {
    seq(|modules|, k requires 0 <= k < |modules| => BundleModule(sources, modules[k]).value)
  }

  lemma AllBundleCons(sources: map<string, string>, modules: seq<Module>)
    requires modules != []
    ensures AllBundle(sources, modules)
        <==> BundleModule(sources, modules[0]).Success? && AllBundle(sources, modules[1..])
  {
    var rest := modules[1..];
    if BundleModule(sources, modules[0]).Success? && AllBundle(sources, rest) {
      forall k | 0 <= k < |modules| ensures BundleModule(sources, modules[k]).Success? {
        if k > 0 { assert modules[k] == rest[k - 1]; }
      }
    }
    if AllBundle(sources, modules) {
      forall k | 0 <= k < |rest| ensures BundleModule(sources, rest[k]).Success? {
        assert rest[k] == modules[k + 1];
      }
    }
  }

  /** The first member that cannot be prepared, and its error. */
  predicate FirstFailure(sources: map<string, string>, modules: seq<Module>, e: BundleError) {
    exists k :: 0 <= k < |modules| && AllBundle(sources, modules[..k]) && BundleModule(sources, modules[k]) == Failure(e)
  }

  lemma FirstFailureCons(sources: map<string, string>, modules: seq<Module>, e: BundleError)
    requires modules != [] && BundleModule(sources, modules[0]).Success? && FirstFailure(sources, modules[1..], e)
    ensures FirstFailure(sources, modules, e)
  {
    var rest := modules[1..];
    var k :| 0 <= k < |rest| && AllBundle(sources, rest[..k]) && BundleModule(sources, rest[k]) == Failure(e);
    assert modules[k + 1] == rest[k];
    var prefix := modules[..k + 1];
    forall j | 0 <= j < k + 1 ensures BundleModule(sources, prefix[j]).Success? {
      if j > 0 { assert prefix[j] == rest[..k][j - 1]; }
    }
  }

  lemma TextsCons(sources: map<string, string>, modules: seq<Module>)
    requires modules != [] && AllBundle(sources, modules) && AllBundle(sources, modules[1..])
    ensures Texts(sources, modules) == [BundleModule(sources, modules[0]).value] + Texts(sources, modules[1..])
  {
    var ts := Texts(sources, modules);
    var rs := [BundleModule(sources, modules[0]).value] + Texts(sources, modules[1..]);
    forall k | 0 <= k < |ts|
      ensures ts[k] == rs[k]
    {
      if k > 0 {
        assert modules[1..][k - 1] == modules[k];
      }
    }
  }

  /**
   * `'\n'.join([self.get_bundle_module(m) for m in modules])`: the first
   * member that cannot be prepared aborts the bundle with its error.
   */
  function BundleText(sources: map<string, string>, modules: seq<Module>): (r: Result<string, BundleError>)
    ensures r.Success? <==> AllBundle(sources, modules)
    ensures r.Success? && modules == [] ==> r.value == ""
    ensures r.Success? && modules != [] ==> r.value == Join(Texts(sources, modules), '\n')
    ensures r.Failure? ==> FirstFailure(sources, modules, r.error)
    decreases |modules|
  {
    if modules == [] then Success("")
    else
      var rest := modules[1..];
      AllBundleCons(sources, modules);
      match BundleModule(sources, modules[0])
      case Failure(e) =>
        assert AllBundle(sources, modules[..0]);
        Failure(e)
      case Success(t) =>
        if rest == [] then
          assert Texts(sources, modules) == [t];
          Success(t)
        else
          match BundleText(sources, rest)
          case Failure(e) =>
            FirstFailureCons(sources, modules, e);
            Failure(e)
          case Success(u) =>
            TextsCons(sources, modules);
            Success(t + "\n" + u)
  }

  /** `write_bundle`: the bundle text published as `<basename>.js`; the URL it is served at. */
  function WriteBundle(sources: map<string, string>, basename: string, modules: seq<Module>,
                       publish: (string, string) -> string): (r: Result<string, BundleError>)
    ensures r.Success? <==> AllBundle(sources, modules)
    ensures r.Success? ==> r.value == publish(BundleText(sources, modules).value, basename + ".js")
  {
    match BundleText(sources, modules)
    case Failure(e) => Failure(e)
    case Success(text) => Success(publish(text, basename + ".js"))
  }
}
