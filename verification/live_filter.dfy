/**
 * The list walked by `resolve_dependencies` is filtered against `known`
 * once, before the loop starts, so an identifier that an earlier sibling's
 * expansion has already added is looked up and expanded a second time.
 * This module defines the walk that checks `known` afresh at every step
 * and proves that both walks give the same result.
 */
module LiveFilter {
  import opened Wrappers
  import opened Locator
  import opened Resolver

  lemma SubsetCard(u: set<string>, a: set<string>, b: set<string>)
    requires a <= b
    ensures |u - b| <= |u - a|
  {
    var small := u - b;
    var rest := (u - a) - small;
    assert u - a == small + rest;
    assert small !! rest;
  }

  /** The walk that skips every identifier already in the current `known`. */
  function ResolveFresh(env: Env, xs: seq<string>, known: set<string>): (r: Option<set<string>>)
    ensures r.Some? ==> known <= r.value && Settled(env, r.value, known)
    decreases |Universe(env) - known|, 1, 0
  {
    WalkFresh(env, xs, known)
  }

  function WalkFresh(env: Env, todo: seq<string>, known: set<string>): (r: Option<set<string>>)
    ensures r.Some? ==> known <= r.value && Settled(env, r.value, known)
    decreases |Universe(env) - known|, 0, |todo|
  {
    if todo == [] then Some(known)
    else
      var m := todo[0];
      if m in known || !Located(env, m) then WalkFresh(env, todo[1..], known)
      else
        match Deps(env, m)
        case None => None
        case Some(ds) =>
          LocatedInUniverse(env, m);
          Shrinks(Universe(env), known, known + {m}, m);
          match ResolveFresh(env, ds, known + {m})
          case None => None
          case Some(r2) =>
            SubsetCard(Universe(env), known, r2);
            WalkFresh(env, todo[1..], r2)
  }

  /** A list with nothing locatable changes nothing. */
  lemma {:induction false} WalkSkipsUnlocated(env: Env, todo: seq<string>, base: set<string>, known: set<string>)
    requires base <= known && forall m :: m in todo ==> m !in base
    requires forall m :: m in todo ==> !Located(env, m)
    ensures Walk(env, todo, base, known) == Some(known)
    decreases |todo|
  {
    if todo != [] {
      WalkSkipsUnlocated(env, todo[1..], base, known);
    }
  }

  /** Re-resolving from a `known` that already holds every located start is a no-op. */
  lemma ResolveNoop(env: Env, xs: seq<string>, known: set<string>)
    requires HoldsLocated(env, xs, known)
    ensures Resolve(env, xs, known) == Some(known)
  {
    WalkSkipsUnlocated(env, Unknown(xs, known), known, known);
  }

  /** Filtering once up front and filtering at every step give the same walk. */
  lemma {:induction false} SnapshotHarmless(env: Env, xs: seq<string>, known: set<string>)
    ensures Resolve(env, xs, known) == ResolveFresh(env, xs, known)
    decreases |Universe(env) - known|, 1, 0
  {
    WalkSame(env, xs, known, known);
  }

  lemma {:induction false} WalkSame(env: Env, xs: seq<string>, base: set<string>, known: set<string>)
    requires base <= known && Settled(env, known, base) && ClosedOutside(env, known, base)
    ensures Walk(env, Unknown(xs, base), base, known) == WalkFresh(env, xs, known)
    decreases |Universe(env) - base|, 0, |xs|
  {
    if xs != [] {
      var m := xs[0];
      var rest := xs[1..];
      assert xs == [m] + rest;
      if m in base {
        assert Unknown(xs, base) == Unknown(rest, base);
        WalkSame(env, rest, base, known);
      } else {
        var todo := Unknown(xs, base);
        assert todo == [m] + Unknown(rest, base);
        assert todo[1..] == Unknown(rest, base);
        if !Located(env, m) {
          WalkSame(env, rest, base, known);
        } else if m in known {
          var ds := Deps(env, m).value;
          assert Edges(env, m) == ds;
          assert known + {m} == known;
          ResolveNoop(env, ds, known);
          WalkSame(env, rest, base, known);
        } else if Deps(env, m).Some? {
          var ds := Deps(env, m).value;
          var known1 := known + {m};
          LocatedInUniverse(env, m);
          Shrinks(Universe(env), base, known1, m);
          SnapshotHarmless(env, ds, known1);
          var n := Resolve(env, ds, known1);
          if n.Some? {
            var r2 := n.value;
            ResolveCloses(env, ds, known1);
            ExtendClosed(env, base, known, m, r2);
            WalkSame(env, rest, base, r2);
          }
        }
      }
    }
  }
}
