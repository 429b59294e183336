/**
 * `get_bundles`: the finder's modules, less the shimmed ones, are split
 * into the configured bundles (each claiming the remaining modules whose
 * identifier it lists) and a main bundle holding what is left.
 *
 * The source keys the resulting mapping by bundle URL; here it is the list
 * of entries in the order they are written.
 */
module Partition {
  import opened Wrappers
  import opened Bundles
  import Config

  /** One configured bundle: its name and the identifiers it lists. */
  datatype Configured = Configured(name: string, ids: seq<string>)

  /** One entry of the `bundles` option: the bundle's URL and the identifiers in it. */
  datatype BundleEntry = BundleEntry(url: string, ids: seq<string>)

  /** `[m.id for m in modules]`. */
  function Ids(modules: seq<Module>): (ids: seq<string>)
    ensures |ids| == |modules| && forall k :: 0 <= k < |modules| ==> ids[k] == modules[k].id
  {
    seq(|modules|, k requires 0 <= k < |modules| => modules[k].id)
  }

  /** `[m for m in modules if m.id not in shims]`. */
  function WithoutShims(modules: seq<Module>, shims: set<string>): (r: seq<Module>)
    ensures |r| <= |modules|
    decreases |modules|
  {
    if modules == [] then []
    else (if modules[0].id in shims then [] else [modules[0]]) + WithoutShims(modules[1..], shims)
  }

  /** `[m for m in modules if m.id in ids]`. */
  function Claimed(modules: seq<Module>, ids: seq<string>): (r: seq<Module>)
    ensures |r| <= |modules|
    decreases |modules|
  {
    if modules == [] then []
    else (if modules[0].id in ids then [modules[0]] else []) + Claimed(modules[1..], ids)
  }

  /** The members of `modules` whose identifier `ids` does not list, in order: the shim filter over the listed identifiers. */
  function Unclaimed(modules: seq<Module>, ids: seq<string>): (r: seq<Module>)
    ensures |r| <= |modules|
  {
    WithoutShims(modules, set x | x in ids)
  }

  lemma {:induction false} WithoutShimsMembers(modules: seq<Module>, shims: set<string>)
    ensures forall m :: m in WithoutShims(modules, shims) <==> m in modules && m.id !in shims
    decreases |modules|
  {
    if modules != [] {
      WithoutShimsMembers(modules[1..], shims);
      assert modules == [modules[0]] + modules[1..];
    }
  }

  lemma {:induction false} ClaimedMembers(modules: seq<Module>, ids: seq<string>)
    ensures forall m :: m in Claimed(modules, ids) <==> m in modules && m.id in ids
    ensures forall m :: m in Unclaimed(modules, ids) <==> m in modules && m.id !in ids
    decreases |modules|
  {
    WithoutShimsMembers(modules, set x | x in ids);
    if modules != [] {
      ClaimedMembers(modules[1..], ids);
      assert modules == [modules[0]] + modules[1..];
    }
  }

  /** `list.index(m)`: the position of the first occurrence of `m`. */
  function IndexOf(modules: seq<Module>, m: Module): (i: nat)
    requires m in modules
    ensures i < |modules| && modules[i] == m
    ensures forall k :: 0 <= k < i ==> modules[k] != m
    decreases |modules|
  {
    if modules[0] == m then 0 else 1 + IndexOf(modules[1..], m)
  }

  /** `list.remove(m)`: the first occurrence of `m` taken out. */
  function RemoveFirst(modules: seq<Module>, m: Module): (r: seq<Module>)
    requires m in modules
    ensures exists i :: 0 <= i < |modules| && modules[i] == m && m !in modules[..i] && r == modules[..i] + modules[i + 1..]
  {
    var i := IndexOf(modules, m);
    assert m !in modules[..i];
    modules[..i] + modules[i + 1..]
  }

  /** Removing `m` from a list whose head is `m`. */
  lemma RemoveFirstHead(modules: seq<Module>)
    requires modules != []
    ensures RemoveFirst(modules, modules[0]) == modules[1..]
  {
    assert IndexOf(modules, modules[0]) == 0;
    assert modules[..0] + modules[1..] == modules[1..];
  }

  /** Past a head that is not `m`, the first occurrence of `m` lies in the tail. */
  lemma IndexOfCons(modules: seq<Module>, m: Module)
    requires modules != [] && modules[0] != m && m in modules
    ensures m in modules[1..] && IndexOf(modules, m) == 1 + IndexOf(modules[1..], m)
  {
    var j :| 0 <= j < |modules| && modules[j] == m;
    assert modules[1..][j - 1] == m;
  }

  /** Removing `m` from a list whose head is not `m` keeps the head. */
  lemma RemoveFirstCons(modules: seq<Module>, m: Module)
    requires modules != [] && modules[0] != m && m in modules
    ensures m in modules[1..]
    ensures RemoveFirst(modules, m) == [modules[0]] + RemoveFirst(modules[1..], m)
  {
    IndexOfCons(modules, m);
    var t := modules[1..];
    var i := IndexOf(t, m);
    assert modules[..i + 1] == [modules[0]] + t[..i];
    assert modules[i + 2..] == t[i + 1..];
  }

  /** `for m in gone: modules.remove(m)` finds every module it removes (`remove` raises otherwise). */
  predicate Removable(modules: seq<Module>, gone: seq<Module>)
    decreases |gone|
  {
    gone == [] || (gone[0] in modules && Removable(RemoveFirst(modules, gone[0]), gone[1..]))
  }

  /** `for m in gone: modules.remove(m)`. */
  function RemoveEach(modules: seq<Module>, gone: seq<Module>): (r: seq<Module>)
    requires Removable(modules, gone)
    ensures |r| == |modules| - |gone|
    decreases |gone|
  {
    if gone == [] then modules
    else RemoveEach(RemoveFirst(modules, gone[0]), gone[1..])
  }

  /** Removals that never touch the head of the list. */
  lemma {:induction false} RemoveEachCons(modules: seq<Module>, gone: seq<Module>)
    requires modules != [] && modules[0] !in gone && Removable(modules[1..], gone)
    ensures Removable(modules, gone)
    ensures RemoveEach(modules, gone) == [modules[0]] + RemoveEach(modules[1..], gone)
    decreases |gone|
  {
    if gone != [] {
      assert gone[0] in gone;
      assert modules == [modules[0]] + modules[1..];
      RemoveFirstCons(modules, gone[0]);
      var tail := RemoveFirst(modules[1..], gone[0]);
      var next := RemoveFirst(modules, gone[0]);
      assert next[0] == modules[0] && next[1..] == tail;
      RemoveEachCons(next, gone[1..]);
    }
  }

  /** Removing the claimed modules one by one finds each of them and leaves exactly the unclaimed ones, in order. */
  lemma {:induction false} RemoveClaimed(modules: seq<Module>, ids: seq<string>)
    ensures Removable(modules, Claimed(modules, ids))
    ensures RemoveEach(modules, Claimed(modules, ids)) == Unclaimed(modules, ids)
    decreases |modules|
  {
    if modules != [] {
      RemoveClaimed(modules[1..], ids);
      if modules[0].id in ids {
        RemoveClaimedHead(modules, ids);
      } else {
        RemoveClaimedKept(modules, ids);
      }
    }
  }

  lemma RemoveClaimedHead(modules: seq<Module>, ids: seq<string>)
    requires modules != [] && modules[0].id in ids
    requires Removable(modules[1..], Claimed(modules[1..], ids))
    requires RemoveEach(modules[1..], Claimed(modules[1..], ids)) == Unclaimed(modules[1..], ids)
    ensures Removable(modules, Claimed(modules, ids))
    ensures RemoveEach(modules, Claimed(modules, ids)) == Unclaimed(modules, ids)
  {
    RemoveHead(modules, Claimed(modules, ids), Claimed(modules[1..], ids));
  }

  lemma RemoveClaimedKept(modules: seq<Module>, ids: seq<string>)
    requires modules != [] && modules[0].id !in ids
    requires Removable(modules[1..], Claimed(modules[1..], ids))
    requires RemoveEach(modules[1..], Claimed(modules[1..], ids)) == Unclaimed(modules[1..], ids)
    ensures Removable(modules, Claimed(modules, ids))
    ensures RemoveEach(modules, Claimed(modules, ids)) == Unclaimed(modules, ids)
  {
    var t := modules[1..];
    assert Claimed(modules, ids) == Claimed(t, ids);
    assert Unclaimed(modules, ids) == [modules[0]] + Unclaimed(t, ids);
    ClaimedMembers(t, ids);
    RemoveEachCons(modules, Claimed(t, ids));
  }

  /** Removing a list that starts with the head of `modules`. */
  lemma RemoveHead(modules: seq<Module>, gone: seq<Module>, more: seq<Module>)
    requires modules != [] && gone == [modules[0]] + more && Removable(modules[1..], more)
    ensures Removable(modules, gone)
    ensures RemoveEach(modules, gone) == RemoveEach(modules[1..], more)
  {
    assert gone[1..] == more;
    RemoveFirstHead(modules);
  }

  /*
   * The specification: each module goes to the first configured bundle
   * that lists its identifier, or to the main bundle.
   */

  /** The index of the first configured bundle listing `id`; `|configured|` when none does. */
  function FirstClaim(configured: seq<Configured>, id: string): (k: nat)
    ensures k <= |configured|
    ensures k < |configured| ==> id in configured[k].ids
    ensures forall j :: 0 <= j < k ==> id !in configured[j].ids
    decreases |configured|
  {
    if configured == [] then 0
    else if id in configured[0].ids then 0
    else 1 + FirstClaim(configured[1..], id)
  }

  /** The modules bundle `k` holds (`k == |configured|`: the main bundle), in the given order. */
  function Group(modules: seq<Module>, configured: seq<Configured>, k: nat): (r: seq<Module>)
    ensures |r| <= |modules|
    decreases |modules|
  {
    if modules == [] then []
    else (if FirstClaim(configured, modules[0].id) == k then [modules[0]] else []) + Group(modules[1..], configured, k)
  }

  lemma {:induction false} GroupMembers(modules: seq<Module>, configured: seq<Configured>, k: nat)
    ensures forall m :: m in Group(modules, configured, k) <==> m in modules && FirstClaim(configured, m.id) == k
    decreases |modules|
  {
    if modules != [] {
      GroupMembers(modules[1..], configured, k);
      assert modules == [modules[0]] + modules[1..];
    }
  }

  lemma GroupFirst(modules: seq<Module>, configured: seq<Configured>)
    requires configured != []
    ensures Group(modules, configured, 0) == Claimed(modules, configured[0].ids)
    decreases |modules|
  {
  }

  lemma GroupLater(modules: seq<Module>, configured: seq<Configured>, k: nat)
    requires configured != [] && k >= 1
    ensures Group(Unclaimed(modules, configured[0].ids), configured[1..], k - 1) == Group(modules, configured, k)
    decreases |modules|
  {
    if modules != [] {
      var x := modules[0];
      var t := modules[1..];
      GroupLater(t, configured, k);
      if x.id in configured[0].ids {
        assert Unclaimed(modules, configured[0].ids) == Unclaimed(t, configured[0].ids);
        assert Group(modules, configured, k) == Group(t, configured, k);
      } else {
        var u := Unclaimed(t, configured[0].ids);
        assert Unclaimed(modules, configured[0].ids) == [x] + u;
        assert FirstClaim(configured, x.id) == 1 + FirstClaim(configured[1..], x.id);
        assert ([x] + u)[1..] == u;
      }
    }
  }

  /*
   * The loop over the configured bundles, and `get_bundles`.
   */

  /** The configured bundles written in order, each removing its modules from the working list. */
  function WriteConfigured(sources: map<string, string>, modules: seq<Module>, configured: seq<Configured>,
                           publish: (string, string) -> string): (r: Result<(seq<BundleEntry>, seq<Module>), BundleError>)
    decreases |configured|
  {
    if configured == [] then Success(([], modules))
    else
      var claimed := Claimed(modules, configured[0].ids);
      RemoveClaimed(modules, configured[0].ids);
      match WriteBundle(sources, configured[0].name, claimed, publish)
      case Failure(e) => Failure(e)
      case Success(url) =>
        match WriteConfigured(sources, RemoveEach(modules, claimed), configured[1..], publish)
        case Failure(e) => Failure(e)
        case Success((entries, left)) => Success(([BundleEntry(url, Ids(claimed))] + entries, left))
  }

  /** Entry `k` is bundle `k` of the specification, written under its configured name. */
  predicate EntryIsGroup(sources: map<string, string>, modules: seq<Module>, configured: seq<Configured>,
                         publish: (string, string) -> string, entries: seq<BundleEntry>, k: nat)
    requires k < |configured| && k < |entries|
  {
    EntryFor(sources, configured[k].name, Group(modules, configured, k), publish, entries[k])
  }

  /** `entry` records the bundle named `name` written from `group`. */
  predicate EntryFor(sources: map<string, string>, name: string, group: seq<Module>,
                     publish: (string, string) -> string, entry: BundleEntry)
  {
    entry.ids == Ids(group) && WriteBundle(sources, name, group, publish) == Success(entry.url)
  }

  /** Every module some configured bundle lists can be prepared. */
  predicate ClaimedBundle(sources: map<string, string>, modules: seq<Module>, configured: seq<Configured>) {
    forall m :: m in modules && FirstClaim(configured, m.id) < |configured| ==> BundleModule(sources, m).Success?
  }

  /** What the loop leaves: one entry per configured bundle, each that bundle's group, and the unclaimed rest. */
  predicate LoopResult(sources: map<string, string>, modules: seq<Module>, configured: seq<Configured>,
                       publish: (string, string) -> string, entries: seq<BundleEntry>, left: seq<Module>)
  {
    && |entries| == |configured|
    && left == Group(modules, configured, |configured|)
    && forall k :: 0 <= k < |configured| ==> EntryIsGroup(sources, modules, configured, publish, entries, k)
  }

  /** One turn of the loop. */
  lemma WriteConfiguredStep(sources: map<string, string>, modules: seq<Module>, configured: seq<Configured>,
                            publish: (string, string) -> string)
    requires configured != []
    ensures var claimed := Claimed(modules, configured[0].ids);
      var w := WriteBundle(sources, configured[0].name, claimed, publish);
      var n := WriteConfigured(sources, Unclaimed(modules, configured[0].ids), configured[1..], publish);
      WriteConfigured(sources, modules, configured, publish)
        == if w.Success? && n.Success? then Success(([BundleEntry(w.value, Ids(claimed))] + n.value.0, n.value.1))
           else if w.Failure? then Failure(w.error) else Failure(n.error)
  {
    RemoveClaimed(modules, configured[0].ids);
  }

  /** The loop's result for the tail, preceded by the first bundle's entry, is the loop's result for the whole. */
  lemma LoopResultCons(sources: map<string, string>, modules: seq<Module>, configured: seq<Configured>,
                       publish: (string, string) -> string, url: string, entries: seq<BundleEntry>, left: seq<Module>)
    requires configured != []
    requires WriteBundle(sources, configured[0].name, Claimed(modules, configured[0].ids), publish) == Success(url)
    requires LoopResult(sources, Unclaimed(modules, configured[0].ids), configured[1..], publish, entries, left)
    ensures LoopResult(sources, modules, configured, publish,
                       [BundleEntry(url, Ids(Claimed(modules, configured[0].ids)))] + entries, left)
  {
    var head := BundleEntry(url, Ids(Claimed(modules, configured[0].ids)));
    GroupLater(modules, configured, |configured|);
    GroupFirst(modules, configured);
    forall k | 0 <= k < |configured| ensures EntryIsGroup(sources, modules, configured, publish, [head] + entries, k) {
      if k > 0 {
        EntryShift(sources, modules, configured, publish, head, entries, k);
      }
    }
  }

  lemma {:induction false} WriteConfiguredSpec(sources: map<string, string>, modules: seq<Module>,
                                               configured: seq<Configured>, publish: (string, string) -> string)
    ensures var r := WriteConfigured(sources, modules, configured, publish);
      && (r.Success? <==> ClaimedBundle(sources, modules, configured))
      && (r.Success? ==> LoopResult(sources, modules, configured, publish, r.value.0, r.value.1))
    decreases |configured|
  {
    if configured == [] {
      GroupAll(modules, configured);
    } else {
      var ids := configured[0].ids;
      WriteConfiguredStep(sources, modules, configured, publish);
      ClaimedBundleSplit(sources, modules, configured);
      WriteConfiguredSpec(sources, Unclaimed(modules, ids), configured[1..], publish);
      var w := WriteBundle(sources, configured[0].name, Claimed(modules, ids), publish);
      var n := WriteConfigured(sources, Unclaimed(modules, ids), configured[1..], publish);
      if w.Success? && n.Success? {
        LoopResultCons(sources, modules, configured, publish, w.value, n.value.0, n.value.1);
      }
    }
  }

  /** An entry of the loop's tail is an entry of the whole loop, one position on. */
  lemma EntryShift(sources: map<string, string>, modules: seq<Module>, configured: seq<Configured>,
                   publish: (string, string) -> string, head: BundleEntry, entries: seq<BundleEntry>, k: nat)
    requires configured != [] && 1 <= k < |configured| && k - 1 < |entries|
    requires EntryIsGroup(sources, Unclaimed(modules, configured[0].ids), configured[1..], publish, entries, k - 1)
    ensures EntryIsGroup(sources, modules, configured, publish, [head] + entries, k)
  {
    var tail := configured[1..];
    var g := Group(Unclaimed(modules, configured[0].ids), tail, k - 1);
    assert EntryFor(sources, tail[k - 1].name, g, publish, entries[k - 1]);
    assert tail[k - 1] == configured[k];
    GroupLater(modules, configured, k);
    assert ([head] + entries)[k] == entries[k - 1];
  }

  lemma GroupAll(modules: seq<Module>, configured: seq<Configured>)
    requires configured == []
    ensures Group(modules, configured, 0) == modules
    decreases |modules|
  {
    if modules != [] {
      GroupAll(modules[1..], configured);
      assert modules == [modules[0]] + modules[1..];
    }
  }

  /** What the first bundle must prepare, and what the rest of the loop must. */
  lemma ClaimedBundleSplit(sources: map<string, string>, modules: seq<Module>, configured: seq<Configured>)
    requires configured != []
    ensures ClaimedBundle(sources, modules, configured)
        <==> (AllBundle(sources, Claimed(modules, configured[0].ids))
              && ClaimedBundle(sources, Unclaimed(modules, configured[0].ids), configured[1..]))
  {
    var claimed := Claimed(modules, configured[0].ids);
    var left := Unclaimed(modules, configured[0].ids);
    ClaimedMembers(modules, configured[0].ids);
    if ClaimedBundle(sources, modules, configured) {
      forall k | 0 <= k < |claimed| ensures BundleModule(sources, claimed[k]).Success? {
        assert claimed[k] in claimed;
      }
      forall m | m in left && FirstClaim(configured[1..], m.id) < |configured[1..]|
        ensures BundleModule(sources, m).Success?
      {
        assert FirstClaim(configured, m.id) == 1 + FirstClaim(configured[1..], m.id);
      }
    }
    if AllBundle(sources, claimed) && ClaimedBundle(sources, left, configured[1..]) {
      forall m | m in modules && FirstClaim(configured, m.id) < |configured|
        ensures BundleModule(sources, m).Success?
      {
        if m.id in configured[0].ids {
          var k :| 0 <= k < |claimed| && claimed[k] == m;
        } else {
          assert m in left;
        }
      }
    }
  }

  /**
   * `get_bundles`: the bundle entries and the modules left for the main
   * bundle, which is written when any are left or when `skipMain` is set.
   */
  function GetBundles(sources: map<string, string>, modules: seq<Module>, shims: set<string>,
                      configured: seq<Configured>, skipMain: bool,
                      publish: (string, string) -> string): (r: Result<(seq<BundleEntry>, seq<Module>), BundleError>)
  {
    var candidates := WithoutShims(modules, shims);
    match WriteConfigured(sources, candidates, configured, publish)
    case Failure(e) => Failure(e)
    case Success((entries, left)) =>
      if left != [] || skipMain then
        match WriteBundle(sources, "main", left, publish)
        case Failure(e) => Failure(e)
        case Success(url) => Success((entries + [BundleEntry(url, Ids(left))], left))
      else Success((entries, left))
  }

  /**
   * The partition: configured bundle `k` holds, in finder order, the
   * non-shim modules whose identifier it is the first to list; the main
   * bundle and the returned remainder hold the non-shim modules no
   * configured bundle lists; the main bundle is written exactly when that
   * remainder is non-empty or `skipMain` is set. The whole call fails
   * exactly when a module that must be bundled cannot be prepared.
   */
  lemma GetBundlesSpec(sources: map<string, string>, modules: seq<Module>, shims: set<string>,
                       configured: seq<Configured>, skipMain: bool, publish: (string, string) -> string)
    ensures var candidates := WithoutShims(modules, shims);
      var r := GetBundles(sources, modules, shims, configured, skipMain, publish);
      var rest := Group(candidates, configured, |configured|);
      && (r.Success? <==> forall m :: m in candidates ==> BundleModule(sources, m).Success?)
      && (r.Success? ==>
        && r.value.1 == rest
        && |r.value.0| == |configured| + (if rest != [] || skipMain then 1 else 0)
        && (forall k :: 0 <= k < |configured| ==> EntryIsGroup(sources, candidates, configured, publish, r.value.0, k))
        && (rest != [] || skipMain ==>
             r.value.0[|configured|].ids == Ids(rest)
             && WriteBundle(sources, "main", rest, publish) == Success(r.value.0[|configured|].url)))
  {
    var candidates := WithoutShims(modules, shims);
    var rest := Group(candidates, configured, |configured|);
    GroupMembers(candidates, configured, |configured|);
    WriteConfiguredSpec(sources, candidates, configured, publish);
    var w := WriteConfigured(sources, candidates, configured, publish);
    var r := GetBundles(sources, modules, shims, configured, skipMain, publish);
    assert (forall m :: m in candidates ==> BundleModule(sources, m).Success?)
       <==> ClaimedBundle(sources, candidates, configured) && AllBundle(sources, rest) by {
      if ClaimedBundle(sources, candidates, configured) && AllBundle(sources, rest) {
        forall m | m in candidates ensures BundleModule(sources, m).Success? {
          if FirstClaim(configured, m.id) == |configured| {
            var k :| 0 <= k < |rest| && rest[k] == m;
          }
        }
      }
    }
    if w.Success? {
      var entries := w.value.0;
      if rest != [] || skipMain {
        if r.Success? {
          assert r.value.0 == entries + [BundleEntry(r.value.0[|configured|].url, Ids(rest))];
          forall k | 0 <= k < |configured| ensures EntryIsGroup(sources, candidates, configured, publish, r.value.0, k) {
            assert r.value.0[k] == entries[k];
            assert EntryIsGroup(sources, candidates, configured, publish, entries, k);
          }
        }
      } else {
        assert AllBundle(sources, rest);
      }
    }
  }

  /** Entry `k` lists the identifiers of bundle `k` of the specification, the main bundle included. */
  lemma EntryIds(sources: map<string, string>, modules: seq<Module>, shims: set<string>,
                 configured: seq<Configured>, skipMain: bool, publish: (string, string) -> string, k: nat)
    requires GetBundles(sources, modules, shims, configured, skipMain, publish).Success?
    requires k < |GetBundles(sources, modules, shims, configured, skipMain, publish).value.0|
    ensures GetBundles(sources, modules, shims, configured, skipMain, publish).value.0[k].ids
         == Ids(Group(WithoutShims(modules, shims), configured, k))
  {
    GetBundlesSpec(sources, modules, shims, configured, skipMain, publish);
    if k < |configured| {
      var entries := GetBundles(sources, modules, shims, configured, skipMain, publish).value.0;
      assert EntryIsGroup(sources, WithoutShims(modules, shims), configured, publish, entries, k);
    }
  }

  /** An identifier listed for bundle `k` belongs to a module of `modules` that bundle `k` is the first to claim. */
  lemma IdInGroup(modules: seq<Module>, configured: seq<Configured>, k: nat, x: string)
    requires x in Ids(Group(modules, configured, k))
    ensures FirstClaim(configured, x) == k
    ensures exists m :: m in modules && m.id == x
  {
    var g := Group(modules, configured, k);
    var i :| 0 <= i < |g| && Ids(g)[i] == x;
    GroupMembers(modules, configured, k);
    assert g[i] in g;
  }

  /** No shimmed identifier is ever put in a bundle. */
  lemma ShimsNeverBundled(sources: map<string, string>, modules: seq<Module>, shims: set<string>,
                          configured: seq<Configured>, skipMain: bool, publish: (string, string) -> string)
    requires GetBundles(sources, modules, shims, configured, skipMain, publish).Success?
    ensures var entries := GetBundles(sources, modules, shims, configured, skipMain, publish).value.0;
      forall k, x :: 0 <= k < |entries| && x in entries[k].ids ==> x !in shims
  {
    var entries := GetBundles(sources, modules, shims, configured, skipMain, publish).value.0;
    forall k, x | 0 <= k < |entries| && x in entries[k].ids ensures x !in shims {
      EntryIds(sources, modules, shims, configured, skipMain, publish, k);
      IdInGroup(WithoutShims(modules, shims), configured, k, x);
      WithoutShimsMembers(modules, shims);
    }
  }

  /**
   * The shims left out are the keys of the configuration's `shim` mapping,
   * the mapping whose `deps` the finder starts from: no configured shim's
   * own identifier is ever put in a bundle.
   */
  lemma ConfiguredShimsNeverBundled(sources: map<string, string>, modules: seq<Module>, shims: seq<Config.Shim>,
                                    configured: seq<Configured>, skipMain: bool, publish: (string, string) -> string)
    requires GetBundles(sources, modules, Config.ShimNames(shims), configured, skipMain, publish).Success?
    ensures var entries := GetBundles(sources, modules, Config.ShimNames(shims), configured, skipMain, publish).value.0;
      forall k, x, j :: 0 <= k < |entries| && x in entries[k].ids && 0 <= j < |shims| ==> x != shims[j].name
  {
    var names := Config.ShimNames(shims);
    var entries := GetBundles(sources, modules, names, configured, skipMain, publish).value.0;
    ShimsNeverBundled(sources, modules, names, configured, skipMain, publish);
    forall k, x, j | 0 <= k < |entries| && x in entries[k].ids && 0 <= j < |shims| ensures x != shims[j].name {
      assert x !in names;
      ShimNameListed(shims, j);
    }
  }

  lemma ShimNameListed(shims: seq<Config.Shim>, j: nat)
    requires j < |shims|
    ensures shims[j].name in Config.ShimNames(shims)
  {
    var names := Config.ShimNames(shims);
    assert 0 <= j < |shims| && shims[j].name == shims[j].name;
  }

  /** No identifier is in two bundles. */
  lemma BundlesDisjoint(sources: map<string, string>, modules: seq<Module>, shims: set<string>,
                        configured: seq<Configured>, skipMain: bool, publish: (string, string) -> string)
    requires GetBundles(sources, modules, shims, configured, skipMain, publish).Success?
    ensures var entries := GetBundles(sources, modules, shims, configured, skipMain, publish).value.0;
      forall j, k, x :: 0 <= j < k < |entries| && x in entries[j].ids ==> x !in entries[k].ids
  {
    var entries := GetBundles(sources, modules, shims, configured, skipMain, publish).value.0;
    forall j, k, x | 0 <= j < k < |entries| && x in entries[j].ids ensures x !in entries[k].ids {
      EntryIds(sources, modules, shims, configured, skipMain, publish, j);
      EntryIds(sources, modules, shims, configured, skipMain, publish, k);
      IdInGroup(WithoutShims(modules, shims), configured, j, x);
      if x in entries[k].ids {
        IdInGroup(WithoutShims(modules, shims), configured, k, x);
      }
    }
  }
}
