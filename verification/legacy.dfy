/**
 * The single-file filter `requirejs.py`: greedy scanners, a fixed `js`
 * app alias, the template scan from position 8, and an `input` that walks
 * the dependencies only to print them.
 */
module Legacy {
  import opened Wrappers
  import opened Text
  import opened Extractor
  import opened Locator
  import opened Resolver

  /** Why `input` raises: no file name, or a dependency array that does not decode. */
  datatype LegacyError = NoFilename | Undecodable

  /** The legacy `find_module`: the name with `.js`, else the same key with `js` after the app segment. */
  lemma LegacyLocate(files: map<string, string>, installed: set<string>, name: string)
    ensures var key := name + ".js";
      var seg := FirstSeg(key);
      var retry := seg + "/js" + key[|seg|..];
      Locate(LegacyEnv(files, installed), name)
        == if key in files then Some(key)
           else if seg in installed && retry in files then Some(retry)
           else None
  {
    var key := name + ".js";
    var seg := FirstSeg(key);
    assert seg + "/" + "js" + key[|seg|..] == seg + "/js" + key[|seg|..];
  }

  /** The dependencies the legacy filter reaches from its templates, or `None` when an array does not decode. */
  function LegacyModules(templates: seq<string>, files: map<string, string>, installed: set<string>): Option<set<string>> {
    match LegacyTemplateDependencies(templates)
    case None => None
    case Some(starts) => Resolve(LegacyEnv(files, installed), starts, {})
  }

  /**
   * `input`: with a file name, walks the dependencies (whose result is only
   * printed) and returns a `console.log` statement naming the file.
   */
  function LegacyInput(filename: Option<string>, templates: seq<string>, files: map<string, string>,
                       installed: set<string>): (r: Result<string, LegacyError>)
    ensures r.Success? ==> Truthy(filename)
    ensures r.Success? ==>
      var f := filename.value;
      && |r.value| == |f| + 16
      && r.value[..13] == "console.log(\"" && r.value[13..13 + |f|] == f && r.value[13 + |f|..] == "\");"
  {
    if !Truthy(filename) then Failure(NoFilename)
    else
      match LegacyModules(templates, files, installed)
      case None => Failure(Undecodable)
      case Some(_) => Success("console.log(\"" + filename.value + "\");")
  }

  /**
   * `input` fails for a missing or empty file name, and otherwise exactly
   * when a template or a reachable module file holds an array that does not
   * decode.
   */
  lemma LegacyInputSpec(filename: Option<string>, templates: seq<string>, files: map<string, string>,
                        installed: set<string>)
    ensures var r := LegacyInput(filename, templates, files, installed);
      && (r == Failure(NoFilename) <==> filename.None? || filename.value == "")
      && (r == Failure(Undecodable) <==>
            Truthy(filename)
            && (|| (exists k :: 0 <= k < |templates| && LegacyTemplateScan(templates[k]).None?)
                || (LegacyTemplateDependencies(templates).Some?
                    && exists y :: Reachable(LegacyEnv(files, installed), LegacyTemplateDependencies(templates).value, y)
                                   && Located(LegacyEnv(files, installed), y)
                                   && Deps(LegacyEnv(files, installed), y).None?)))
  {
    var t := LegacyTemplateDependencies(templates);
    if t.Some? {
      ResolveFromEmpty(LegacyEnv(files, installed), t.value);
    }
  }

  /** The walk's result never reaches the output: any two successful calls with one file name agree. */
  lemma LegacyInputIgnoresModules(filename: Option<string>, templates: seq<string>, files: map<string, string>,
                                  installed: set<string>, templates2: seq<string>, files2: map<string, string>,
                                  installed2: set<string>)
    requires LegacyInput(filename, templates, files, installed).Success?
    requires LegacyInput(filename, templates2, files2, installed2).Success?
    ensures LegacyInput(filename, templates, files, installed) == LegacyInput(filename, templates2, files2, installed2)
  {
  }
}
