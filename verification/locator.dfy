/**
 * `find_module`: the static file of a module identifier. The static-file
 * finders become a map from lookup key (a path relative to a static root)
 * to file content, and the app registry becomes the set of installed
 * labels.
 */
module Locator {
  import opened Wrappers
  import opened Text
  import opened Extractor

  /** Which filter's extractor reads the module files. */
  datatype Dialect =
      /** `requirejs/finder.py`: guarded scanners. */
    | Package
      /** `requirejs.py`: greedy scanners. */
    | Legacy

  /**
   * What the locator and the resolver see of the project: the static files,
   * the installed app labels, the app alias (the segment inserted after
   * the app label on a retry) and the extractor in use.
   */
  datatype Env = Env(files: map<string, string>, installed: set<string>, alias: Option<string>, dialect: Dialect)

  /** The legacy filter: its fixed `js` alias, retried whenever the app is installed. */
  function LegacyEnv(files: map<string, string>, installed: set<string>): (env: Env)
    ensures env.files == files && env.installed == installed && Truthy(env.alias)
    ensures env.alias == Some("js") && env.dialect == Legacy
  {
    Env(files, installed, Some("js"), Legacy)
  }

  /** The lookup key tried first: `'{}.js'.format(name)`. */
  function ModuleKey(name: string): (key: string)
    ensures |key| == |name| + 3 && key[..|name|] == name && key[|name|..] == ".js"
  {
    name + ".js"
  }

  /** `key.split('/')[0]`: the part before the first `/`, or all of `key`. */
  function FirstSeg(key: string): (seg: string)
    ensures '/' !in seg && |seg| <= |key| && key[..|seg|] == seg
    ensures |seg| < |key| ==> key[|seg|] == '/'
  {
    var parts := Split(key, '/');
    FirstSegIsPrefix(parts);
    parts[0]
  }

  lemma FirstSegIsPrefix(parts: seq<string>)
    requires |parts| >= 1
    ensures |parts[0]| <= |Join(parts, '/')| && Join(parts, '/')[..|parts[0]|] == parts[0]
    ensures |parts[0]| < |Join(parts, '/')| ==> Join(parts, '/')[|parts[0]|] == '/'
  {
    if |parts| > 1 {
      assert Join(parts, '/') == parts[0] + ['/'] + Join(parts[1..], '/');
    }
  }

  /** Python's `list.insert(i, v)`: at `i`, or at the end when `i` is past it. */
  function Insert(xs: seq<string>, i: nat, v: string): (ys: seq<string>)
    ensures |ys| == |xs| + 1
    ensures i <= |xs| ==> ys[..i] == xs[..i] && ys[i] == v && ys[i + 1..] == xs[i..]
    ensures i > |xs| ==> ys == xs + [v]
  {
    if i <= |xs| then xs[..i] + [v] + xs[i..] else xs + [v]
  }

  /** The retried key: the segments of `key` with `alias` inserted as the second one. */
  function AliasedKey(key: string, alias: string): string {
    Join(Insert(Split(key, '/'), 1, alias), '/')
  }

  /**
   * The retried key is the first segment, `/`, the alias, and the rest of
   * the key unchanged: nothing is dropped or reordered.
   */
  lemma AliasedKeyShape(key: string, alias: string)
    ensures AliasedKey(key, alias) == FirstSeg(key) + "/" + alias + key[|FirstSeg(key)|..]
  {
    var parts := Split(key, '/');
    var ins := Insert(parts, 1, alias);
    if |parts| == 1 {
      assert ins == [parts[0], alias];
      assert Join(ins, '/') == parts[0] + ['/'] + Join(ins[1..], '/');
      assert key == parts[0];
    } else {
      var tail := Join(parts[1..], '/');
      assert ins == [parts[0], alias] + parts[1..];
      assert ins[1..][1..] == parts[1..];
      assert Join(ins, '/') == parts[0] + ['/'] + (alias + ['/'] + tail);
      assert key == parts[0] + ['/'] + tail;
      assert key[|parts[0]|..] == ['/'] + tail;
    }
  }

  /** Splitting the retried key gives the segments of `key` with the alias second. */
  lemma AliasedKeySegments(key: string, alias: string)
    requires '/' !in alias
    ensures Split(AliasedKey(key, alias), '/') == Insert(Split(key, '/'), 1, alias)
  {
    var parts := Split(key, '/');
    var ins := Insert(parts, 1, alias);
    forall k | 0 <= k < |ins| ensures '/' !in ins[k] {
      if k > 1 { assert ins[k] == parts[k - 1]; }
    }
    SplitJoin(ins, '/');
  }

  /** Whether the retry happens after a missed first lookup. */
  predicate Retries(env: Env, name: string) {
    ModuleKey(name) !in env.files && Truthy(env.alias) && FirstSeg(ModuleKey(name)) in env.installed
  }

  /** `find_module`: the key found, if any. */
  function Locate(env: Env, name: string): (r: Option<string>)
    ensures r.Some? ==> r.value in env.files
    ensures ModuleKey(name) in env.files ==> r == Some(name + ".js")
    ensures ModuleKey(name) !in env.files && !Retries(env, name) ==> r.None?
    ensures Retries(env, name) ==>
      var seg := FirstSeg(name + ".js");
      var retry := seg + "/" + env.alias.value + (name + ".js")[|seg|..];
      r == (if retry in env.files then Some(retry) else None)
  {
    var key := ModuleKey(name);
    if key in env.files then Some(key)
    else if Truthy(env.alias) && FirstSeg(key) in env.installed then
      var retry := AliasedKey(key, env.alias.value);
      AliasedKeyShape(key, env.alias.value);
      if retry in env.files then Some(retry) else None
    else None
  }

  predicate Located(env: Env, name: string) {
    Locate(env, name).Some?
  }

  /** The decoded dependencies of a located module's file, with the dialect's extractor. */
  function Deps(env: Env, name: string): Option<seq<string>>
    requires Located(env, name)
  {
    var content := env.files[Locate(env, name).value];
    match env.dialect
    case Package => ModuleDependencies(content)
    case Legacy => LegacyModuleDependencies(content)
  }

  /*
   * Every located identifier comes from a file key, so the located
   * identifiers form a finite set: the bound on the resolver's `known`.
   */

  predicate EndsJs(key: string) {
    |key| >= 3 && key[|key| - 3..] == ".js"
  }

  function DropJs(key: string): string
    requires EndsJs(key)
  {
    key[..|key| - 3]
  }

  /** The first key a retried file key could have come from. */
  function Unalias(key: string, alias: string): string
    requires |FirstSeg(key)| + 1 + |alias| <= |key|
  {
    FirstSeg(key) + key[|FirstSeg(key)| + 1 + |alias|..]
  }

  predicate Unaliasable(env: Env, key: string) {
    Truthy(env.alias) && |FirstSeg(key)| + 1 + |env.alias.value| <= |key|
    && EndsJs(Unalias(key, env.alias.value))
  }

  /** The identifiers some file key could locate. */
  function Universe(env: Env): set<string> {
    (set key | key in env.files && EndsJs(key) :: DropJs(key))
    + (set key | key in env.files && Unaliasable(env, key) :: DropJs(Unalias(key, env.alias.value)))
  }

  lemma FirstSegOf(seg: string, rest: string)
    requires '/' !in seg
    ensures FirstSeg(seg + "/" + rest) == seg
  {
    var s := seg + "/" + rest;
    var f := FirstSeg(s);
    assert s[|seg|] == '/';
    assert s[..|seg|] == seg;
    assert f == s[..|f|] == seg;
  }

  /** Taking the alias back out of `seg/alias rest`. */
  lemma UnaliasRetry(seg: string, a: string, rest: string)
    requires '/' !in seg
    ensures var retry := seg + "/" + a + rest;
      |FirstSeg(retry)| + 1 + |a| <= |retry| && Unalias(retry, a) == seg + rest
  {
    var retry := seg + "/" + a + rest;
    FirstSegOf(seg, a + rest);
    assert retry == seg + "/" + (a + rest);
    assert retry[|seg| + 1 + |a|..] == rest;
  }

  /** A key found on the retry comes from a key the universe accounts for. */
  lemma RetryInUniverse(env: Env, name: string)
    requires Located(env, name) && ModuleKey(name) !in env.files
    ensures name in Universe(env)
  {
    var key := ModuleKey(name);
    var a := env.alias.value;
    var seg := FirstSeg(key);
    var rest := key[|seg|..];
    var retry := seg + "/" + a + rest;
    assert retry in env.files;
    UnaliasRetry(seg, a, rest);
    assert key == seg + rest by {
      assert key == key[..|seg|] + rest;
    }
    assert Unaliasable(env, retry);
    assert DropJs(Unalias(retry, a)) == name;
  }

  /** Every located identifier is in the universe. */
  lemma LocatedInUniverse(env: Env, name: string)
    requires Located(env, name)
    ensures name in Universe(env)
  {
    var key := ModuleKey(name);
    if key in env.files {
      assert DropJs(key) == name;
    } else {
      RetryInUniverse(env, name);
    }
  }
}
