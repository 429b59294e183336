/**
 * `get_modules`: every module the project's templates reach, through the
 * locator and the resolver. The template files become a parameter: the
 * list of their contents, in the order the directory walk yields them.
 */
module Discovery {
  import opened Wrappers
  import opened Extractor
  import opened Locator
  import opened Resolver

  /** The package finder: guarded scanners and the configured app alias. */
  function FinderEnv(files: map<string, string>, installed: set<string>, alias: Option<string>): (env: Env)
    ensures env.files == files && env.installed == installed && env.alias == alias && env.dialect == Package
  {
    Env(files, installed, alias, Package)
  }

  /**
   * `resolve_dependencies(get_template_dependencies())`. The template scan
   * is drained before the walk begins, so an array that does not decode in
   * any template fails the whole call.
   */
  function GetModules(env: Env, templates: seq<string>): Option<set<string>> {
    match TemplateDependencies(templates)
    case None => None
    case Some(starts) => Resolve(env, starts, {})
  }

  /** `y` is reachable from a require call of some template. */
  ghost predicate FromTemplates(env: Env, templates: seq<string>, y: string)
    requires TemplateDependencies(templates).Some?
  {
    Reachable(env, TemplateDependencies(templates).value, y)
  }

  /**
   * The modules found are exactly those reachable from the templates'
   * require calls; the call fails exactly when some template, or the file
   * of some reachable module, holds an array that does not decode.
   */
  lemma GetModulesSpec(env: Env, templates: seq<string>)
    ensures GetModules(env, templates).None?
        <==> (|| (exists k :: 0 <= k < |templates| && TemplateScan(templates[k]).None?)
              || (TemplateDependencies(templates).Some?
                  && exists y :: FromTemplates(env, templates, y) && Located(env, y) && Deps(env, y).None?))
    ensures GetModules(env, templates).Some? ==>
      forall y :: y in GetModules(env, templates).value <==> FromTemplates(env, templates, y)
    ensures GetModules(env, templates).Some? ==>
      forall y :: y in GetModules(env, templates).value ==> Located(env, y) && Deps(env, y).Some?
  {
    var t := TemplateDependencies(templates);
    if t.Some? {
      ResolveFromEmpty(env, t.value);
    }
  }

  /** Only the set of templates matters: the walk order of the template directories does not change the result. */
  lemma GetModulesTemplateOrder(env: Env, templates: seq<string>, others: seq<string>)
    requires forall t :: t in templates <==> t in others
    ensures GetModules(env, templates) == GetModules(env, others)
  {
    var a := TemplateDependencies(templates);
    var b := TemplateDependencies(others);
    assert a.Some? <==> forall t :: t in templates ==> TemplateScan(t).Some?;
    assert b.Some? <==> forall t :: t in others ==> TemplateScan(t).Some?;
    if a.Some? && b.Some? {
      forall x ensures x in a.value <==> x in b.value {
        TemplateDependenciesMembers(templates, x);
        TemplateDependenciesMembers(others, x);
        if x in a.value {
          var k :| 0 <= k < |templates| && x in TemplateScan(templates[k]).value;
          assert templates[k] in others;
        }
        if x in b.value {
          var k :| 0 <= k < |others| && x in TemplateScan(others[k]).value;
          assert others[k] in templates;
        }
      }
      ResolveSetOfStarts(env, a.value, b.value);
    }
  }
}
