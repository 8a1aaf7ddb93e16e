/**
 * Filter sets of `zutils/src/filters.rs`. The regex engine is abstract:
 * `compile` stands for `Regex::new` and `firstMatch(re, s)` for the text of
 * group 0 of `re.captures(s)`, the leftmost-first match, if there is one.
 */
module Filters {
  import opened Wrappers

  /** The patterns as given and one compiled regex per pattern. */
  datatype FilterSet<R> = FilterSet(filters: seq<string>, res: seq<R>)

  /** `FilterSet::new`: compile every pattern in order, stopping at the first failure. */
  method New<R>(filters: seq<string>, compile: string -> Result<R, string>) returns (r: Result<FilterSet<R>, string>)
    ensures r.Ok? <==> forall i :: 0 <= i < |filters| ==> compile(filters[i]).Ok?
    ensures r.Ok? ==> r.value.filters == filters && |r.value.res| == |filters|
    ensures r.Ok? ==> forall i :: 0 <= i < |filters| ==> r.value.res[i] == compile(filters[i]).value
    ensures r.Err? ==> exists i :: && 0 <= i < |filters|
                                   && compile(filters[i]) == Err(r.error)
                                   && forall j :: 0 <= j < i ==> compile(filters[j]).Ok?
  {
    var res: seq<R> := [];
    for i := 0 to |filters|
      invariant |res| == i
      invariant forall j :: 0 <= j < i ==> compile(filters[j]).Ok? && res[j] == compile(filters[j]).value
    {
      var re := compile(filters[i]);
      if re.Err? {
        return Err(re.error);
      }
      res := res + [re.value];
    }
    return Ok(FilterSet(filters, res));
  }

  /** The first match of `re` in `cand` is all of `cand`. */
  predicate FullMatch<R>(re: R, cand: string, firstMatch: (R, string) -> Option<string>) {
    firstMatch(re, cand) == Some(cand)
  }

  /** How many of `res` match all of `cand`: the `filter(..).count()` of `is_match`. */
  function CountMatches<R>(res: seq<R>, cand: string, firstMatch: (R, string) -> Option<string>): nat {
    if |res| == 0 then 0
    else (if FullMatch(res[0], cand, firstMatch) then 1 else 0) + CountMatches(res[1..], cand, firstMatch)
  }

  /**
   * `FilterSet::is_match`: an empty filter list passes everything; otherwise a
   * candidate passes exactly when some regex matches all of it.
   */
  function IsMatch<R>(fs: FilterSet<R>, cand: string, firstMatch: (R, string) -> Option<string>): (r: bool)
    ensures |fs.filters| == 0 ==> r
    ensures |fs.filters| > 0 ==> (r <==> exists i :: 0 <= i < |fs.res| && FullMatch(fs.res[i], cand, firstMatch))
  {
    CountMatchesPositive(fs.res, cand, firstMatch);
    if |fs.filters| == 0 then true
    else CountMatches(fs.res, cand, firstMatch) > 0
  }

  lemma {:induction false} CountMatchesPositive<R>(res: seq<R>, cand: string, firstMatch: (R, string) -> Option<string>)
    ensures CountMatches(res, cand, firstMatch) > 0 <==> exists i :: 0 <= i < |res| && FullMatch(res[i], cand, firstMatch)
  {
    if |res| > 0 {
      CountMatchesPositive(res[1..], cand, firstMatch);
      if CountMatches(res[1..], cand, firstMatch) > 0 {
        var i :| 0 <= i < |res[1..]| && FullMatch(res[1..][i], cand, firstMatch);
        assert FullMatch(res[i + 1], cand, firstMatch);
      }
      forall i | 1 <= i < |res| && FullMatch(res[i], cand, firstMatch)
        ensures CountMatches(res[1..], cand, firstMatch) > 0
      {
        assert res[1..][i - 1] == res[i];
      }
    }
  }

  /** For non-empty sets the answer depends only on which regexes there are, not their order. */
  lemma {:induction false} OrderIrrelevant<R>(fs1: FilterSet<R>, fs2: FilterSet<R>, cand: string, firstMatch: (R, string) -> Option<string>)
    requires |fs1.filters| > 0 && |fs2.filters| > 0
    requires forall re :: re in fs1.res <==> re in fs2.res
    ensures IsMatch(fs1, cand, firstMatch) == IsMatch(fs2, cand, firstMatch)
  {
    if IsMatch(fs1, cand, firstMatch) {
      var i :| 0 <= i < |fs1.res| && FullMatch(fs1.res[i], cand, firstMatch);
      assert fs1.res[i] in fs2.res;
    }
    if IsMatch(fs2, cand, firstMatch) {
      var i :| 0 <= i < |fs2.res| && FullMatch(fs2.res[i], cand, firstMatch);
      assert fs2.res[i] in fs1.res;
    }
  }

  /** Adding a filter (with its regex) never turns a match into a non-match. */
  lemma {:induction false} AddingFilterKeepsMatch<R>(fs: FilterSet<R>, f: string, re: R, cand: string, firstMatch: (R, string) -> Option<string>)
    requires |fs.filters| > 0 && IsMatch(fs, cand, firstMatch)
    ensures IsMatch(FilterSet(fs.filters + [f], fs.res + [re]), cand, firstMatch)
  {
    var bigger := FilterSet(fs.filters + [f], fs.res + [re]);
    var i :| 0 <= i < |fs.res| && FullMatch(fs.res[i], cand, firstMatch);
    assert bigger.res[i] == fs.res[i];
  }
}
