/**
 * `resolve_dependencies`: the transitive walk from a list of identifiers
 * through the dependencies of every identifier that has a file, threading
 * the set `known` of identifiers already taken.
 *
 * The source mutates one `known` set across the recursion; here every call
 * returns the grown set. A dependency array that does not decode raises in
 * the source and nothing catches it, so the whole walk is `None`.
 */
module Resolver {
  import opened Wrappers
  import opened Locator

  /** `[m for m in xs if m not in known]`: the list the loop walks, fixed before it starts. */
  function Unknown(xs: seq<string>, known: set<string>): (ys: seq<string>)
    ensures forall y :: y in ys <==> y in xs && y !in known
    decreases |xs|
  {
    if xs == [] then []
    else (if xs[0] in known then [] else [xs[0]]) + Unknown(xs[1..], known)
  }

  /** Taking one more identifier of the universe strictly shrinks what is left of it. */
  lemma Shrinks(u: set<string>, base: set<string>, bigger: set<string>, m: string)
    requires base <= bigger && m in u && m !in base && m in bigger
    ensures |u - bigger| < |u - base|
  {
    var small := u - bigger;
    var rest := (u - base) - small;
    assert m in rest;
    assert u - base == small + rest;
    assert small !! rest;
    assert |u - base| == |small| + |rest|;
  }

  /** The identifiers of `r` beyond `known` have a file whose dependencies decode. */
  predicate Settled(env: Env, r: set<string>, known: set<string>) {
    forall y :: y in r && y !in known ==> Located(env, y) && Deps(env, y).Some?
  }

  /**
   * `resolve_dependencies(xs, known)`: `known`, grown by every identifier
   * reached from `xs`. Each nested call starts from a strictly larger
   * `known` inside the finite universe of locatable identifiers, which is
   * what bounds the recursion even on cyclic dependency graphs.
   */
  function Resolve(env: Env, xs: seq<string>, known: set<string>): (r: Option<set<string>>)
    ensures r.Some? ==> known <= r.value && Settled(env, r.value, known)
    decreases |Universe(env) - known|, 1, 0
  {
    Walk(env, Unknown(xs, known), known, known)
  }

  /**
   * The loop over the fixed list `todo`; `base` is the `known` the list was
   * filtered against, `known` the set as grown by earlier iterations.
   */
  function Walk(env: Env, todo: seq<string>, base: set<string>, known: set<string>): (r: Option<set<string>>)
    requires base <= known
    requires forall m :: m in todo ==> m !in base
    ensures r.Some? ==> known <= r.value && Settled(env, r.value, known)
    decreases |Universe(env) - base|, 0, |todo|
  {
    if todo == [] then Some(known)
    else
      var m := todo[0];
      if !Located(env, m) then Walk(env, todo[1..], base, known)
      else
        match Deps(env, m)
        case None => None
        case Some(ds) =>
          LocatedInUniverse(env, m);
          Shrinks(Universe(env), base, known + {m}, m);
          match Resolve(env, ds, known + {m})
          case None => None
          case Some(r2) => Walk(env, todo[1..], base, r2)
  }

  /*
   * The specification: reachability as the least closed set.
   */

  /** The dependencies followed out of a located identifier; none when its file does not decode. */
  function Edges(env: Env, y: string): seq<string>
    requires Located(env, y)
  {
    match Deps(env, y)
    case Some(ds) => ds
    case None => []
  }

  /** Every identifier of `xs` that has a file is in `s`. */
  predicate HoldsLocated(env: Env, xs: seq<string>, s: set<string>) {
    forall x :: x in xs && Located(env, x) ==> x in s
  }

  /**
   * `s` holds the located dependencies of each of its located members,
   * except the members of `k`, which the walk does not expand.
   */
  predicate ClosedOutside(env: Env, s: set<string>, k: set<string>) {
    forall y, d :: y in s && y !in k && Located(env, y) && d in Edges(env, y) && Located(env, d) ==> d in s
  }

  /** A set the walk from `xs`, starting with `k` known, cannot leave. */
  predicate Covers(env: Env, xs: seq<string>, k: set<string>, s: set<string>) {
    k <= s && HoldsLocated(env, xs, s) && ClosedOutside(env, s, k)
  }

  /** The loop's version of `Covers`, for the state `(todo, base, known)`. */
  predicate WalkCovers(env: Env, todo: seq<string>, base: set<string>, known: set<string>, s: set<string>) {
    known <= s && HoldsLocated(env, todo, s) && ClosedOutside(env, s, base)
  }

  /** `y` lies in every set the walk cannot leave. */
  ghost predicate Forced(env: Env, xs: seq<string>, k: set<string>, y: string) {
    forall s :: Covers(env, xs, k, s) ==> y in s
  }

  /**
   * `y` is reachable from `xs`: it belongs to every set that holds the
   * located members of `xs` and the located dependencies of its own
   * located members.
   */
  ghost predicate Reachable(env: Env, xs: seq<string>, y: string) {
    Forced(env, xs, {}, y)
  }

  /*
   * The walk's result covers the start list and is closed.
   */

  lemma {:induction false} ResolveCloses(env: Env, xs: seq<string>, known: set<string>)
    ensures Resolve(env, xs, known).Some? ==>
      HoldsLocated(env, xs, Resolve(env, xs, known).value) && ClosedOutside(env, Resolve(env, xs, known).value, known)
    decreases |Universe(env) - known|, 1, 0
  {
    WalkCloses(env, Unknown(xs, known), known, known);
  }

  lemma {:induction false} WalkCloses(env: Env, todo: seq<string>, base: set<string>, known: set<string>)
    requires base <= known
    requires forall m :: m in todo ==> m !in base
    requires ClosedOutside(env, known, base)
    ensures Walk(env, todo, base, known).Some? ==>
      HoldsLocated(env, todo, Walk(env, todo, base, known).value) && ClosedOutside(env, Walk(env, todo, base, known).value, base)
    decreases |Universe(env) - base|, 0, |todo|
  {
    if todo != [] {
      var m := todo[0];
      if !Located(env, m) {
        WalkCloses(env, todo[1..], base, known);
      } else if Deps(env, m).Some? {
        var ds := Deps(env, m).value;
        var known1 := known + {m};
        LocatedInUniverse(env, m);
        Shrinks(Universe(env), base, known1, m);
        ResolveCloses(env, ds, known1);
        var n := Resolve(env, ds, known1);
        if n.Some? {
          var r2 := n.value;
          ExtendClosed(env, base, known, m, r2);
          WalkCloses(env, todo[1..], base, r2);
        }
      }
    }
  }

  /**
   * Expanding `m` keeps the loop's invariant: once `m`'s located
   * dependencies and everything reached from them are in `r2`, the
   * identifiers taken since `base` are closed in `r2`.
   */
  lemma ExtendClosed(env: Env, base: set<string>, known: set<string>, m: string, r2: set<string>)
    requires base <= known && known + {m} <= r2
    requires Located(env, m) && Deps(env, m).Some?
    requires ClosedOutside(env, known, base)
    requires HoldsLocated(env, Deps(env, m).value, r2) && ClosedOutside(env, r2, known + {m})
    ensures ClosedOutside(env, r2, base)
  {
    forall y, d | y in r2 && y !in base && Located(env, y) && d in Edges(env, y) && Located(env, d)
      ensures d in r2
    {
      if y == m {
        assert Edges(env, m) == Deps(env, m).value;
      } else if y in known {
        assert d in known;
      }
    }
  }

  /*
   * The walk's result lies inside every set it cannot leave.
   */

  lemma {:induction false} ResolveLeast(env: Env, xs: seq<string>, known: set<string>, s: set<string>)
    requires Covers(env, xs, known, s)
    ensures Resolve(env, xs, known).Some? ==> Resolve(env, xs, known).value <= s
    decreases |Universe(env) - known|, 1, 0
  {
    WalkLeast(env, Unknown(xs, known), known, known, s);
  }

  lemma {:induction false} WalkLeast(env: Env, todo: seq<string>, base: set<string>, known: set<string>, s: set<string>)
    requires base <= known
    requires forall m :: m in todo ==> m !in base
    requires WalkCovers(env, todo, base, known, s)
    ensures Walk(env, todo, base, known).Some? ==> Walk(env, todo, base, known).value <= s
    decreases |Universe(env) - base|, 0, |todo|
  {
    if todo != [] {
      var m := todo[0];
      if !Located(env, m) {
        WalkLeast(env, todo[1..], base, known, s);
      } else if Deps(env, m).Some? {
        var ds := Deps(env, m).value;
        var known1 := known + {m};
        LocatedInUniverse(env, m);
        Shrinks(Universe(env), base, known1, m);
        assert Edges(env, m) == ds;
        ResolveLeast(env, ds, known1, s);
        var n := Resolve(env, ds, known1);
        if n.Some? {
          WalkLeast(env, todo[1..], base, n.value, s);
        }
      }
    }
  }

  /*
   * A failed walk names a module that must be expanded and does not decode.
   */

  lemma {:induction false} ResolveFails(env: Env, xs: seq<string>, known: set<string>)
    ensures Resolve(env, xs, known).None? ==>
      exists y :: Located(env, y) && Deps(env, y).None? && Forced(env, xs, known, y)
    decreases |Universe(env) - known|, 1, 0
  {
    var todo := Unknown(xs, known);
    WalkFails(env, todo, known, known);
    if Resolve(env, xs, known).None? {
      var y :| Located(env, y) && Deps(env, y).None?
        && forall s :: WalkCovers(env, todo, known, known, s) ==> y in s;
      forall s | Covers(env, xs, known, s) ensures y in s {
        assert WalkCovers(env, todo, known, known, s);
      }
    }
  }

  lemma {:induction false} WalkFails(env: Env, todo: seq<string>, base: set<string>, known: set<string>)
    requires base <= known
    requires forall m :: m in todo ==> m !in base
    ensures Walk(env, todo, base, known).None? ==>
      exists y :: Located(env, y) && Deps(env, y).None?
        && forall s :: WalkCovers(env, todo, base, known, s) ==> y in s
    decreases |Universe(env) - base|, 0, |todo|
  {
    if todo != [] {
      var m := todo[0];
      if !Located(env, m) {
        WalkFails(env, todo[1..], base, known);
        if Walk(env, todo, base, known).None? {
          var y :| Located(env, y) && Deps(env, y).None?
            && forall s :: WalkCovers(env, todo[1..], base, known, s) ==> y in s;
          forall s | WalkCovers(env, todo, base, known, s) ensures y in s {
            assert WalkCovers(env, todo[1..], base, known, s);
          }
        }
      } else if Deps(env, m).None? {
        forall s | WalkCovers(env, todo, base, known, s) ensures m in s {
        }
      } else {
        var ds := Deps(env, m).value;
        var known1 := known + {m};
        LocatedInUniverse(env, m);
        Shrinks(Universe(env), base, known1, m);
        assert Edges(env, m) == ds;
        ResolveFails(env, ds, known1);
        var n := Resolve(env, ds, known1);
        if n.None? {
          var y :| Located(env, y) && Deps(env, y).None? && Forced(env, ds, known1, y);
          forall s | WalkCovers(env, todo, base, known, s) ensures y in s {
            assert Covers(env, ds, known1, s);
          }
        } else {
          var r2 := n.value;
          WalkFails(env, todo[1..], base, r2);
          if Walk(env, todo, base, known).None? {
            var y :| Located(env, y) && Deps(env, y).None?
              && forall s :: WalkCovers(env, todo[1..], base, r2, s) ==> y in s;
            forall s | WalkCovers(env, todo, base, known, s) ensures y in s {
              assert Covers(env, ds, known1, s);
              ResolveLeast(env, ds, known1, s);
              assert WalkCovers(env, todo[1..], base, r2, s);
            }
          }
        }
      }
    }
  }

  /*
   * The walk from an empty `known`.
   */

  /** The located identifiers: a set every walk stays inside. */
  function LocatedSet(env: Env): (s: set<string>)
    ensures forall y :: y in s <==> Located(env, y)
  {
    var s := set y | y in Universe(env) && Located(env, y);
    assert forall y :: Located(env, y) ==> y in s by {
      forall y | Located(env, y) ensures y in s { LocatedInUniverse(env, y); }
    }
    s
  }

  /** Only identifiers that have a file are reachable. */
  lemma ReachableLocated(env: Env, xs: seq<string>, y: string)
    requires Reachable(env, xs, y)
    ensures Located(env, y)
  {
    assert Covers(env, xs, {}, LocatedSet(env));
  }

  /**
   * From an empty `known`, the walk succeeds with exactly the reachable
   * identifiers, or fails exactly when a reachable identifier's file holds
   * an array that does not decode.
   */
  lemma ResolveFromEmpty(env: Env, xs: seq<string>)
    ensures Resolve(env, xs, {}).Some? ==> forall y :: y in Resolve(env, xs, {}).value <==> Reachable(env, xs, y)
    ensures Resolve(env, xs, {}).None? <==> exists y :: Reachable(env, xs, y) && Located(env, y) && Deps(env, y).None?
  {
    var r := Resolve(env, xs, {});
    ResolveCloses(env, xs, {});
    ResolveFails(env, xs, {});
    if r.Some? {
      assert Covers(env, xs, {}, r.value);
      forall y ensures y in r.value <==> Reachable(env, xs, y) {
        if y in r.value {
          forall s | Covers(env, xs, {}, s) ensures y in s { ResolveLeast(env, xs, {}, s); }
        }
      }
      forall y | Reachable(env, xs, y) && Located(env, y) ensures Deps(env, y).Some? {
        assert Covers(env, xs, {}, r.value);
      }
    }
  }

  /** The start list matters only as a set: order and repetition do not change the result. */
  lemma ResolveSetOfStarts(env: Env, xs: seq<string>, ys: seq<string>)
    requires forall x :: x in xs <==> x in ys
    ensures Resolve(env, xs, {}) == Resolve(env, ys, {})
  {
    assert forall s :: Covers(env, xs, {}, s) <==> Covers(env, ys, {}, s);
    assert forall y :: Reachable(env, xs, y) <==> Reachable(env, ys, y);
    ResolveFromEmpty(env, xs);
    ResolveFromEmpty(env, ys);
    var a := Resolve(env, xs, {});
    var b := Resolve(env, ys, {});
    if a.Some? && b.Some? {
      assert a.value == b.value;
    }
  }
}
