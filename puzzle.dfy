/**
 * What solvePuzzle does to one directory catalog: every matcher rule in
 * table order, and within a rule every asset sidecar in name order, moves
 * the still unmatched files it accepts to the matched files, attaching
 * that sidecar's metadata; then the files left unmatched are matched
 * without metadata when JSON-less files are kept.
 */
module Puzzle {
  import opened Wrappers
  import opened GoStrings
  import opened TakeoutTypes

  /** No file is both matched and unmatched. */
  predicate Disjoint(cat: DirCatalog) {
    forall f :: f in cat.unmatched ==> f !in cat.matched
  }

  /** A catalog entry: the file's base name is its key, a non-empty single path element. */
  predicate FileOk(n: string, f: AssetFile) {
    f.base == n && n != [] && '/' !in n
  }

  /** A catalog as pass one builds it and solvePuzzle keeps it. */
  predicate CatalogOk(cat: DirCatalog) {
    Disjoint(cat)
    && (forall n :: n in cat.unmatched ==> FileOk(n, cat.unmatched[n]))
    && (forall n :: n in cat.matched ==> FileOk(n, cat.matched[n]))
  }

  /** Where a file name stands in a catalog. */
  datatype Fate = Absent | Unmatched(file: AssetFile) | Matched(file: AssetFile)

  function FateOf(cat: DirCatalog, f: string): Fate {
    if f in cat.unmatched then Unmatched(cat.unmatched[f])
    else if f in cat.matched then Matched(cat.matched[f])
    else Absent
  }

  /** One pass of rule `m` with sidecar `json` over the unmatched files. */
  function MoveMatching(matches: (Matcher, string, string) -> bool, m: Matcher, json: string, cat: DirCatalog): DirCatalog
    requires json in cat.jsons
  {
    var hit := set f | f in cat.unmatched && matches(m, json, f);
    DirCatalog(
      cat.jsons,
      map f | f in cat.unmatched && f !in hit :: cat.unmatched[f],
      map f | f in cat.matched.Keys + hit ::
        if f in hit then cat.unmatched[f].(md := Some(cat.jsons[json])) else cat.matched[f])
  }

  /** Rule `m` with each sidecar of `js` in turn. */
  function SolveRow(matches: (Matcher, string, string) -> bool, m: Matcher, js: seq<string>, cat: DirCatalog): (r: DirCatalog)
    requires forall j :: j in js ==> j in cat.jsons
    ensures r.jsons == cat.jsons
    decreases |js|
  {
    if js == [] then cat
    else MoveMatching(matches, m, js[|js| - 1], SolveRow(matches, m, js[..|js| - 1], cat))
  }

  /** Each rule of `ms` in turn, each with every sidecar of `js`. */
  function SolveAll(matches: (Matcher, string, string) -> bool, ms: seq<Matcher>, js: seq<string>, cat: DirCatalog): (r: DirCatalog)
    requires forall j :: j in js ==> j in cat.jsons
    ensures r.jsons == cat.jsons
    decreases |ms|
  {
    if ms == [] then cat
    else SolveRow(matches, ms[|ms| - 1], js, SolveAll(matches, ms[..|ms| - 1], js, cat))
  }

  /** The files still unmatched after the rules, matched without metadata when JSON-less files are kept. */
  function FinishDir(keepJSONLess: bool, cat: DirCatalog): DirCatalog {
    if keepJSONLess then DirCatalog(cat.jsons, map[], cat.matched + cat.unmatched) else cat
  }

  /** solvePuzzle for one directory. */
  ghost function SolveDir(env: Env, cat: DirCatalog): DirCatalog {
    FinishDir(env.keepJSONLess, SolveAll(env.matches, Matchers, Sorted(cat.jsons.Keys), cat))
  }

  // ---------------------------------------------------------------------
  // The first rule and sidecar that accept a file
  // ---------------------------------------------------------------------

  /** The position of the first sidecar of `js` that rule `m` pairs with file `f`. */
  function FirstJson(matches: (Matcher, string, string) -> bool, m: Matcher, js: seq<string>, f: string): (r: Option<nat>)
    ensures r.Some? ==> r.value < |js| && matches(m, js[r.value], f)
                        && forall i :: 0 <= i < r.value ==> !matches(m, js[i], f)
    ensures r.None? ==> forall i :: 0 <= i < |js| ==> !matches(m, js[i], f)
    decreases |js|
  {
    if js == [] then None
    else
      var r := FirstJson(matches, m, js[..|js| - 1], f);
      assert forall i :: 0 <= i < |js| - 1 ==> js[..|js| - 1][i] == js[i];
      if r.Some? then r
      else if matches(m, js[|js| - 1], f) then Some(|js| - 1)
      else None
  }

  /**
   * The first rule of `ms` that pairs some sidecar of `js` with `f`, and
   * the first such sidecar: the pair (rule position, sidecar position).
   */
  function FirstHit(matches: (Matcher, string, string) -> bool, ms: seq<Matcher>, js: seq<string>, f: string): (r: Option<(nat, nat)>)
    ensures r.Some? ==> r.value.0 < |ms| && FirstJson(matches, ms[r.value.0], js, f) == Some(r.value.1)
                        && forall k :: 0 <= k < r.value.0 ==> FirstJson(matches, ms[k], js, f).None?
    ensures r.None? ==> forall k :: 0 <= k < |ms| ==> FirstJson(matches, ms[k], js, f).None?
    decreases |ms|
  {
    if ms == [] then None
    else
      var r := FirstHit(matches, ms[..|ms| - 1], js, f);
      assert forall k :: 0 <= k < |ms| - 1 ==> ms[..|ms| - 1][k] == ms[k];
      if r.Some? then r
      else
        var j := FirstJson(matches, ms[|ms| - 1], js, f);
        if j.Some? then Some((|ms| - 1, j.value)) else None
  }

  // ---------------------------------------------------------------------
  // The fate of each file
  // ---------------------------------------------------------------------

  /** One rule-and-sidecar pass moves an accepted unmatched file and touches nothing else. */
  lemma MoveMatchingFate(matches: (Matcher, string, string) -> bool, m: Matcher, json: string, cat: DirCatalog, f: string)
    requires json in cat.jsons && Disjoint(cat)
    ensures var r := MoveMatching(matches, m, json, cat);
            Disjoint(r)
            && FateOf(r, f) == if FateOf(cat, f).Unmatched? && matches(m, json, f)
                               then Matched(FateOf(cat, f).file.(md := Some(cat.jsons[json])))
                               else FateOf(cat, f)
  {
  }

  /**
   * A row of sidecars moves an unmatched file with the first sidecar the
   * rule pairs it with, carrying that sidecar's metadata; any other file
   * keeps its place.
   */
  lemma {:induction false} SolveRowFate(matches: (Matcher, string, string) -> bool, m: Matcher, js: seq<string>,
                                        cat: DirCatalog, f: string)
    requires (forall j :: j in js ==> j in cat.jsons) && Disjoint(cat)
    ensures var r := SolveRow(matches, m, js, cat);
            var hit := FirstJson(matches, m, js, f);
            Disjoint(r)
            && FateOf(r, f) == if FateOf(cat, f).Unmatched? && hit.Some?
                               then Matched(FateOf(cat, f).file.(md := Some(cat.jsons[js[hit.value]])))
                               else FateOf(cat, f)
    decreases |js|
  {
    if js != [] {
      var front := js[..|js| - 1];
      assert forall j :: j in front ==> j in js;
      var mid := SolveRow(matches, m, front, cat);
      SolveRowFate(matches, m, front, cat, f);
      MoveMatchingFate(matches, m, js[|js| - 1], mid, f);
      assert forall i :: 0 <= i < |front| ==> front[i] == js[i];
    }
  }

  /**
   * All the rules move an unmatched file with the first rule, in table
   * order, that pairs it with some sidecar, and with that rule's first
   * sidecar in name order; a file no rule pairs stays unmatched, and
   * matched or absent files keep their place.
   */
  lemma {:induction false} SolveAllFate(matches: (Matcher, string, string) -> bool, ms: seq<Matcher>, js: seq<string>,
                                        cat: DirCatalog, f: string)
    requires (forall j :: j in js ==> j in cat.jsons) && Disjoint(cat)
    ensures var r := SolveAll(matches, ms, js, cat);
            var hit := FirstHit(matches, ms, js, f);
            Disjoint(r)
            && FateOf(r, f) == if FateOf(cat, f).Unmatched? && hit.Some?
                               then Matched(FateOf(cat, f).file.(md := Some(cat.jsons[js[hit.value.1]])))
                               else FateOf(cat, f)
    decreases |ms|
  {
    if ms != [] {
      var front := ms[..|ms| - 1];
      var mid := SolveAll(matches, front, js, cat);
      SolveAllFate(matches, front, js, cat, f);
      SolveRowFate(matches, ms[|ms| - 1], js, mid, f);
      assert forall k :: 0 <= k < |front| ==> front[k] == ms[k];
    }
  }

  /** Matching JSON-less files empties the unmatched files into the matched ones, metadata unchanged. */
  lemma FinishDirFate(keepJSONLess: bool, cat: DirCatalog, f: string)
    requires Disjoint(cat)
    ensures var r := FinishDir(keepJSONLess, cat);
            Disjoint(r) && r.jsons == cat.jsons
            && (keepJSONLess ==> r.unmatched == map[]
                                 && FateOf(r, f) == if FateOf(cat, f).Unmatched? then Matched(FateOf(cat, f).file)
                                                    else FateOf(cat, f))
            && (!keepJSONLess ==> r == cat)
  {
  }

  /**
   * solvePuzzle on one directory: a file unmatched after pass one ends
   * matched with the metadata of the first (rule, sidecar) pair that
   * accepts it; a file no pair accepts ends matched without metadata if
   * and only if JSON-less files are kept, and unmatched otherwise. No
   * file is gained or lost.
   */
  lemma SolveDirFate(env: Env, cat: DirCatalog, f: string)
    requires Disjoint(cat)
    ensures var r := SolveDir(env, cat);
            var js := Sorted(cat.jsons.Keys);
            var hit := FirstHit(env.matches, Matchers, js, f);
            Disjoint(r)
            && FateOf(r, f) == match FateOf(cat, f)
                               case Unmatched(file) =>
                                 if hit.Some? then Matched(file.(md := Some(cat.jsons[js[hit.value.1]])))
                                 else if env.keepJSONLess then Matched(file)
                                 else Unmatched(file)
                               case other => other
  {
    var js := Sorted(cat.jsons.Keys);
    SolveAllFate(env.matches, Matchers, js, cat, f);
    FinishDirFate(env.keepJSONLess, SolveAll(env.matches, Matchers, js, cat), f);
  }

  /**
   * Over the whole of solvePuzzle's work on a directory the set of files
   * is conserved and the unmatched files only shrink.
   */
  lemma SolveDirConserves(env: Env, cat: DirCatalog)
    requires Disjoint(cat)
    ensures var r := SolveDir(env, cat);
            r.unmatched.Keys + r.matched.Keys == cat.unmatched.Keys + cat.matched.Keys
            && r.unmatched.Keys <= cat.unmatched.Keys
  {
    var r := SolveDir(env, cat);
    forall f | true
      ensures (f in r.unmatched || f in r.matched) <==> (f in cat.unmatched || f in cat.matched)
      ensures f in r.unmatched ==> f in cat.unmatched
    {
      SolveDirFate(env, cat, f);
    }
  }

  /** solvePuzzle only attaches metadata: every file stays filed under its own base name. */
  lemma SolveDirKeepsCatalogOk(env: Env, cat: DirCatalog)
    requires CatalogOk(cat)
    ensures CatalogOk(SolveDir(env, cat))
  {
    var r := SolveDir(env, cat);
    SolveDirFate(env, cat, "");
    forall n | n in r.unmatched || n in r.matched
      ensures n in r.unmatched ==> FileOk(n, r.unmatched[n])
      ensures n in r.matched ==> FileOk(n, r.matched[n])
    {
      SolveDirFate(env, cat, n);
    }
  }
}
