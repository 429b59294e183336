/**
 * The RequireJS configuration the filter writes and the identifiers the
 * finder starts from (`get_default_config` and `get_module_finder` of the
 * package filter).
 */
module Config {
  import opened Wrappers
  import opened Text

  /**
   * One entry of the `shim` configuration: the shimmed identifier and its
   * value, either the object form with an optional `deps` list or the
   * array shorthand that lists the dependencies directly.
   */
  datatype Shim =
    | ShimObject(name: string, deps: Option<seq<string>>)
    | ShimArray(name: string, list: seq<string>)

  /**
   * `s.get('deps', [])`: the object form gives its `deps`, or `[]` when it
   * has none; a list has no `get`, so the array shorthand raises.
   */
  function ShimDeps(s: Shim): (r: Option<seq<string>>)
    ensures r.None? <==> s.ShimArray?
    ensures s.ShimObject? && s.deps.Some? ==> r == s.deps
    ensures s.ShimObject? && s.deps.None? ==> r == Some([])
  {
    match s
    case ShimObject(_, deps) => Some(deps.GetOr([]))
    case ShimArray(_, _) => None
  }

  /**
   * The `deps` lists of the shims, concatenated in configuration order; no
   * value when any shim raises, since the whole list is built before the
   * chain is taken.
   */
  function FlattenShimDeps(shims: seq<Shim>): (r: Option<seq<string>>)
    ensures r.None? <==> exists k :: 0 <= k < |shims| && ShimDeps(shims[k]).None?
    ensures r.Some? ==> forall x :: x in r.value <==>
      exists k :: 0 <= k < |shims| && ShimDeps(shims[k]).Some? && x in ShimDeps(shims[k]).value
    decreases |shims|
  {
    if shims == [] then Some([])
    else
      var rest := FlattenShimDeps(shims[1..]);
      assert rest.None? <==> exists k :: 1 <= k < |shims| && ShimDeps(shims[k]).None? by {
        if rest.None? {
          var k :| 0 <= k < |shims[1..]| && ShimDeps(shims[1..][k]).None?;
          assert shims[1..][k] == shims[k + 1];
        }
        if exists k :: 1 <= k < |shims| && ShimDeps(shims[k]).None? {
          var k :| 1 <= k < |shims| && ShimDeps(shims[k]).None?;
          assert shims[1..][k - 1] == shims[k];
        }
      }
      assert rest.Some? ==> forall x :: x in rest.value <==>
        exists k :: 1 <= k < |shims| && ShimDeps(shims[k]).Some? && x in ShimDeps(shims[k]).value by {
        if rest.Some? {
          forall x ensures x in rest.value <==>
            exists k :: 1 <= k < |shims| && ShimDeps(shims[k]).Some? && x in ShimDeps(shims[k]).value {
            if x in rest.value {
              var k :| 0 <= k < |shims[1..]| && ShimDeps(shims[1..][k]).Some? && x in ShimDeps(shims[1..][k]).value;
              assert shims[1..][k] == shims[k + 1];
            }
            if exists k :: 1 <= k < |shims| && ShimDeps(shims[k]).Some? && x in ShimDeps(shims[k]).value {
              var k :| 1 <= k < |shims| && ShimDeps(shims[k]).Some? && x in ShimDeps(shims[k]).value;
              assert shims[1..][k - 1] == shims[k];
            }
          }
        }
      }
      match ShimDeps(shims[0])
      case None => None
      case Some(first) => if rest.None? then None else Some(first + rest.value)
  }

  /** The shimmed identifiers: the keys of the `shim` mapping. */
  function ShimNames(shims: seq<Shim>): (names: set<string>)
    ensures forall x :: x in names <==> exists k :: 0 <= k < |shims| && shims[k].name == x
  {
    set k | 0 <= k < |shims| :: shims[k].name
  }

  /**
   * `self.attrs.get("data-main", "").strip() if self.attrs else None`:
   * no value when the tag has no attributes (an empty mapping is falsy).
   */
  function DataMain(attrs: Option<map<string, string>>): (r: Option<string>)
    ensures r.Some? <==> attrs.Some? && attrs.value != map[]
    ensures r.Some? && "data-main" !in attrs.value ==> r.value == ""
    ensures r.Some? && "data-main" in attrs.value ==>
      exists i: nat :: i + |r.value| <= |attrs.value["data-main"]|
        && attrs.value["data-main"][i..i + |r.value|] == r.value
        && AllSpace(attrs.value["data-main"][..i]) && AllSpace(attrs.value["data-main"][i + |r.value|..])
    ensures r.Some? && r.value != [] ==> !IsSpace(r.value[0]) && !IsSpace(r.value[|r.value| - 1])
  {
    if attrs.Some? && attrs.value != map[] then
      Some(Strip(if "data-main" in attrs.value then attrs.value["data-main"] else ""))
    else None
  }

  /**
   * The finder's starting identifiers: every shim's `deps`, in order, then
   * the stripped `data-main` when it is not blank. A shim in the array
   * shorthand makes the filter's constructor raise, so there are none.
   */
  function StartingDependencies(shims: seq<Shim>, attrs: Option<map<string, string>>): (r: Option<seq<string>>)
    ensures r.None? <==> exists k :: 0 <= k < |shims| && shims[k].ShimArray?
    ensures r.Some? ==> forall x :: x in r.value <==>
      (exists k :: 0 <= k < |shims| && shims[k].ShimObject? && x in shims[k].deps.GetOr([]))
      || (Truthy(DataMain(attrs)) && x == DataMain(attrs).value)
    ensures r.Some? ==> |r.value| == |FlattenShimDeps(shims).value| + (if Truthy(DataMain(attrs)) then 1 else 0)
    ensures r.Some? && Truthy(DataMain(attrs)) ==> r.value[|r.value| - 1] == DataMain(attrs).value
    ensures r.Some? ==> forall k :: 0 <= k < |FlattenShimDeps(shims).value| ==> r.value[k] == FlattenShimDeps(shims).value[k]
  {
    var main := DataMain(attrs);
    match FlattenShimDeps(shims)
    case None => None
    case Some(deps) => Some(deps + (if Truthy(main) then [main.value] else []))
  }

  /**
   * `shim: {'jquery.scroll': ['jquery']}`, the array shorthand, leaves the
   * filter without starting identifiers, while the object form
   * `{'jquery.scroll': {'deps': ['jquery']}}` starts from `jquery`.
   */
  lemma ArrayShimFails()
    ensures StartingDependencies([ShimArray("jquery.scroll", ["jquery"])], None).None?
    ensures StartingDependencies([ShimObject("jquery.scroll", Some(["jquery"]))], None) == Some(["jquery"])
  {
    var shims := [ShimArray("jquery.scroll", ["jquery"])];
    assert shims[0].ShimArray?;
    var objects := [ShimObject("jquery.scroll", Some(["jquery"]))];
    assert FlattenShimDeps(objects[1..]) == Some([]);
    assert ShimDeps(objects[0]) == Some(["jquery"]);
    assert ["jquery"] + [] == ["jquery"];
    assert FlattenShimDeps(objects) == Some(["jquery"]);
  }

  /** The configuration mapping: `paths` and `baseUrl`, and every other key kept as is. */
  datatype RequireConfig<V> = RequireConfig(paths: Option<map<string, string>>, baseUrl: Option<string>, others: map<string, V>)

  /** `{app: '{app}/{alias}' for app in labels}`. */
  function AliasPaths(labels: seq<string>, alias: string): (r: map<string, string>)
    ensures forall l :: l in r <==> l in labels
    ensures forall l :: l in r ==> r[l] == l + "/" + alias
  {
    map l | l in labels :: l + "/" + alias
  }

  /**
   * `get_default_config`: a copy of the configured mapping whose `baseUrl`
   * is the static URL and whose `paths` map every installed app label to
   * `label/alias` when an alias is set.
   */
  function DefaultConfig<V>(config: RequireConfig<V>, alias: Option<string>, labels: seq<string>, staticUrl: string): (r: RequireConfig<V>)
    ensures r.baseUrl == Some(staticUrl) && r.others == config.others
    ensures Truthy(alias) ==> forall l :: l in labels ==> r.paths.Some? && l in r.paths.value && r.paths.value[l] == l + "/" + alias.value
    ensures forall k :: config.paths.Some? && k in config.paths.value && !(Truthy(alias) && k in labels) ==>
      r.paths.Some? && k in r.paths.value && r.paths.value[k] == config.paths.value[k]
    ensures r.paths.Some? ==> forall k :: k in r.paths.value ==>
      (config.paths.Some? && k in config.paths.value) || (Truthy(alias) && k in labels)
    ensures r.paths.None? <==> config.paths.None? && (!Truthy(alias) || labels == [])
  {
    var paths := config.paths.GetOr(map[]);
    var updated := if Truthy(alias) then paths + AliasPaths(labels, alias.value) else paths;
    assert Truthy(alias) && labels != [] ==> labels[0] in updated;
    RequireConfig(if updated != map[] then Some(updated) else config.paths, Some(staticUrl), config.others)
  }
}
