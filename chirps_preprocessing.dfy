/**
 * Download planning in `CHIRPS_PREPROCESSING.py`: which yearly files are
 * already on disk, which years still have to be fetched, and the local file
 * name and remote URL of each year.
 */
module ChirpsPreprocessing {
  import opened Wrappers
  import opened Text
  import opened Sequences

  /** The planner's first year (`range(2024, current_year + 1)`). */
  const FirstYear: int := 2024

  const LocalPrefix: string := "chirps_"
  const LocalSuffix: string := ".nc"
  const RemotePrefix: string := "chirps-v2.0."
  const RemoteSuffix: string := ".days_p05.nc"

  /** `f"chirps_{year}.nc"`, the name a downloaded year is stored under. */
  function LocalName(year: int): (name: string)
    ensures MatchesGlob(name)
  {
    LocalPrefix + IntToString(year) + LocalSuffix
  }

  /** `f"{base_url}chirps-v2.0.{year}.days_p05.nc"`. */
  function RemoteUrl(baseUrl: string, year: int): (url: string)
    ensures StartsWith(url, baseUrl) && EndsWith(url, RemoteSuffix)
  {
    baseUrl + RemotePrefix + IntToString(year) + RemoteSuffix
  }

  /** The glob `chirps_*.nc`: the prefix and the suffix, which may not overlap. */
  predicate MatchesGlob(name: string) {
    |name| >= |LocalPrefix| + |LocalSuffix| && StartsWith(name, LocalPrefix) && EndsWith(name, LocalSuffix)
  }

  /** `Path(name).stem` of a name ending in `.nc`. */
  function Stem(name: string): string
    requires EndsWith(name, LocalSuffix)
  {
    name[..|name| - |LocalSuffix|]
  }

  /** `s.split(sep)[-1]`: the text after the last `sep`, or all of `s` when there is none. */
  function LastField(s: string, sep: char): (r: string)
    ensures |r| <= |s| && r == s[|s| - |r|..]
    ensures sep !in r
    ensures |r| < |s| ==> s[|s| - |r| - 1] == sep
  {
    if |s| == 0 then ""
    else if s[|s| - 1] == sep then ""
    else
      var r := LastField(s[..|s| - 1], sep) + [s[|s| - 1]];
      assert s[..|s| - 1][|s| - |r|..] + [s[|s| - 1]] == s[|s| - |r|..];
      r
  }

  /** A field after a separator is recovered whole when it holds no separator itself. */
  lemma {:induction false} LastFieldOfJoined(p: string, sep: char, t: string)
    requires sep !in t
    ensures LastField(p + [sep] + t, sep) == t
    decreases |t|
  {
    var s := p + [sep] + t;
    if |t| == 0 {
      assert s[|s| - 1] == sep;
    } else {
      var t' := t[..|t| - 1];
      assert s[..|s| - 1] == p + [sep] + t';
      assert s[|s| - 1] == t[|t| - 1];
      LastFieldOfJoined(p, sep, t');
      assert t' + [t[|t| - 1]] == t;
    }
  }

  /** The year a matching file name stands for: `int(f.stem.split('_')[-1])`, or `None` where `int` raises. */
  function YearOfName(name: string): (year: Option<int>)
    requires MatchesGlob(name)
    ensures LastField(Stem(name), '_') == "" ==> year.None?
  {
    ParseInt(LastField(Stem(name), '_'))
  }

  /** Some file of the directory stands for `year`. */
  predicate NamesYear(names: seq<string>, year: int) {
    exists k :: 0 <= k < |names| && MatchesGlob(names[k]) && YearOfName(names[k]) == Some(year)
  }

  /** Some matching file of the directory does not end in an integer. */
  predicate HasUnparsable(names: seq<string>) {
    exists k :: 0 <= k < |names| && MatchesGlob(names[k]) && YearOfName(names[k]).None?
  }

  /**
   * `get_existing_years` over the names of the files in the raw directory;
   * `None` when some matching name does not end in an integer, where the set
   * comprehension raises `ValueError`.
   */
  function GetExistingYears(names: seq<string>): (years: Option<set<int>>)
    ensures years.Some? ==> forall y :: y in years.value ==> NamesYear(names, y)
  {
    if |names| == 0 then Some({})
    else
      var rest := GetExistingYears(names[1..]);
      var years :=
        if !MatchesGlob(names[0]) then rest
        else if YearOfName(names[0]).None? || rest.None? then None
        else Some({YearOfName(names[0]).value} + rest.value);
      assert years.Some? ==> forall y :: y in years.value ==> NamesYear(names, y) by {
        forall y | years.Some? && y in years.value ensures NamesYear(names, y) {
          NamesYearCons(names, y);
        }
      }
      years
  }

  /** The set holds exactly the years that matching names stand for, and the call fails exactly when one of them does not parse. */
  lemma {:induction false} ExistingYearsSpec(names: seq<string>)
    ensures GetExistingYears(names).None? <==> HasUnparsable(names)
    ensures GetExistingYears(names).Some? ==> forall y :: y in GetExistingYears(names).value <==> NamesYear(names, y)
  {
    if |names| > 0 {
      var tail := names[1..];
      ExistingYearsSpec(tail);
      HasUnparsableCons(names);
      forall y ensures NamesYear(names, y) <==>
        (MatchesGlob(names[0]) && YearOfName(names[0]) == Some(y)) || NamesYear(tail, y)
      {
        NamesYearCons(names, y);
      }
    }
  }

  /** A directory has an unparsable name when its first name is one or the rest has one. */
  lemma HasUnparsableCons(names: seq<string>)
    requires |names| > 0
    ensures HasUnparsable(names) <==>
      (MatchesGlob(names[0]) && YearOfName(names[0]).None?) || HasUnparsable(names[1..])
  {
    ExistsCons(names, (n: string) => MatchesGlob(n) && YearOfName(n).None?);
  }

  /** A directory names a year when its first name does or the rest does. */
  lemma NamesYearCons(names: seq<string>, y: int)
    requires |names| > 0
    ensures NamesYear(names, y) <==>
      (MatchesGlob(names[0]) && YearOfName(names[0]) == Some(y)) || NamesYear(names[1..], y)
  {
    ExistsCons(names, (n: string) => MatchesGlob(n) && YearOfName(n) == Some(y));
  }

  /** Some element satisfies `p` exactly when the first does or some later one does. */
  lemma ExistsCons<T>(xs: seq<T>, p: T -> bool)
    requires |xs| > 0
    ensures (exists k :: 0 <= k < |xs| && p(xs[k])) <==> p(xs[0]) || exists k :: 0 <= k < |xs[1..]| && p(xs[1..][k])
  {
    var tail := xs[1..];
    if exists k :: 0 <= k < |xs| && p(xs[k]) {
      var k :| 0 <= k < |xs| && p(xs[k]);
      if k > 0 {
        assert tail[k - 1] == xs[k];
      }
    }
    if exists k :: 0 <= k < |tail| && p(tail[k]) {
      var k :| 0 <= k < |tail| && p(tail[k]);
      assert xs[k + 1] == tail[k];
    }
  }

  /** The local name of a year matches the glob and parses back to that year. */
  lemma LocalNameRoundTrip(year: int)
    ensures MatchesGlob(LocalName(year)) && YearOfName(LocalName(year)) == Some(year)
  {
    var digits := IntToString(year);
    var name := LocalName(year);
    assert name[..|LocalPrefix|] == LocalPrefix;
    assert name[|name| - |LocalSuffix|..] == LocalSuffix;
    assert Stem(name) == "chirps" + ['_'] + digits;
    assert forall k :: 0 <= k < |digits| ==> digits[k] != '_';
    LastFieldOfJoined("chirps", '_', digits);
    ParseIntOfIntToString(year);
  }

  /** Different years are stored under different names. */
  lemma LocalNameInjective(y1: int, y2: int)
    requires LocalName(y1) == LocalName(y2)
    ensures y1 == y2
  {
    LocalNameRoundTrip(y1);
    LocalNameRoundTrip(y2);
  }

  /** Different years are fetched from different URLs. */
  lemma RemoteUrlInjective(baseUrl: string, y1: int, y2: int)
    requires RemoteUrl(baseUrl, y1) == RemoteUrl(baseUrl, y2)
    ensures y1 == y2
  {
    var u := RemoteUrl(baseUrl, y1);
    var lo := |baseUrl| + |RemotePrefix|;
    assert u[lo..|u| - |RemoteSuffix|] == IntToString(y1);
    assert RemoteUrl(baseUrl, y2)[lo..|u| - |RemoteSuffix|] == IntToString(y2);
    ParseIntOfIntToString(y1);
    ParseIntOfIntToString(y2);
  }

  /** The years `lo` to `hi`, both included. */
  function Years(lo: int, hi: int): (ys: set<int>)
    ensures forall y :: y in ys <==> lo <= y <= hi
    decreases hi - lo
  {
    if hi < lo then {} else Years(lo, hi - 1) + {hi}
  }

  /** `set(range(2024, current_year + 1))`. */
  function YearRange(currentYear: int): set<int> {
    Years(FirstYear, currentYear)
  }

  /** `determine_years_to_download`: `sorted(all_years - existing_years)`. */
  function DetermineYearsToDownload(existing: set<int>, currentYear: int): (plan: seq<int>)
    ensures StrictlyIncreasing(plan)
    ensures forall y :: y in plan <==> FirstYear <= y <= currentYear && y !in existing
  {
    SortedElements(YearRange(currentYear) - existing)
  }

  /** When every year of the range is present, nothing is planned. */
  lemma CompleteRangePlansNothing(existing: set<int>, currentYear: int)
    requires YearRange(currentYear) <= existing
    ensures DetermineYearsToDownload(existing, currentYear) == []
  {
  }

  /** `(url, local_file)` of each planned year, in plan order. */
  function DownloadTargets(baseUrl: string, years: seq<int>): (ts: seq<(string, string)>)
    ensures |ts| == |years|
    ensures forall k :: 0 <= k < |ts| ==> ts[k] == (RemoteUrl(baseUrl, years[k]), LocalName(years[k]))
  {
    seq(|years|, k requires 0 <= k < |years| => (RemoteUrl(baseUrl, years[k]), LocalName(years[k])))
  }

  /** A plan never writes two years to the same file. */
  lemma TargetsDistinct(baseUrl: string, existing: set<int>, currentYear: int)
    ensures var ts := DownloadTargets(baseUrl, DetermineYearsToDownload(existing, currentYear));
      forall k, l :: 0 <= k < l < |ts| ==> ts[k].0 != ts[l].0 && ts[k].1 != ts[l].1
  {
    var plan := DetermineYearsToDownload(existing, currentYear);
    var ts := DownloadTargets(baseUrl, plan);
    forall k, l | 0 <= k < l < |ts| ensures ts[k].0 != ts[l].0 && ts[k].1 != ts[l].1 {
      if ts[k].0 == ts[l].0 {
        RemoteUrlInjective(baseUrl, plan[k], plan[l]);
      }
      if ts[k].1 == ts[l].1 {
        LocalNameInjective(plan[k], plan[l]);
      }
    }
  }

  /** Adding files whose names all parse extends the read-back set by their years. */
  lemma ReadBackAppended(names: seq<string>, added: seq<string>, existing: set<int>, years: set<int>)
    requires GetExistingYears(names) == Some(existing)
    requires forall k :: 0 <= k < |added| ==> MatchesGlob(added[k]) && YearOfName(added[k]).Some?
    requires forall y :: y in years <==> NamesYear(added, y)
    ensures GetExistingYears(names + added) == Some(existing + years)
  {
    var after := names + added;
    ExistingYearsSpec(names);
    ExistingYearsSpec(after);
    assert forall k :: 0 <= k < |after| ==> after[k] == if k < |names| then names[k] else added[k - |names|];
    if HasUnparsable(after) {
      var k :| 0 <= k < |after| && MatchesGlob(after[k]) && YearOfName(after[k]).None?;
      if k < |names| {
        assert HasUnparsable(names);
      }
    }
    assert GetExistingYears(after).Some?;
    var r := GetExistingYears(after).value;
    forall y ensures y in r <==> y in existing + years {
      if NamesYear(after, y) {
        var k :| 0 <= k < |after| && MatchesGlob(after[k]) && YearOfName(after[k]) == Some(y);
        if k < |names| {
          assert NamesYear(names, y);
        } else {
          assert added[k - |names|] == after[k];
          assert NamesYear(added, y);
        }
      }
      if NamesYear(names, y) {
        var k :| 0 <= k < |names| && MatchesGlob(names[k]) && YearOfName(names[k]) == Some(y);
        assert after[k] == names[k];
      }
      if NamesYear(added, y) {
        var k :| 0 <= k < |added| && MatchesGlob(added[k]) && YearOfName(added[k]) == Some(y);
        assert after[|names| + k] == added[k];
      }
    }
    assert r == existing + years;
  }

  /** The local files of a plan. */
  function PlannedNames(plan: seq<int>): (ns: seq<string>)
    ensures |ns| == |plan| && forall k :: 0 <= k < |ns| ==> ns[k] == LocalName(plan[k])
  {
    seq(|plan|, k requires 0 <= k < |plan| => LocalName(plan[k]))
  }

  /**
   * After every planned file has been written next to the existing ones, the
   * directory reads back as the old years plus the planned ones, and planning
   * again asks for nothing.
   */
  lemma ReplanAfterDownloadIsEmpty(names: seq<string>, existing: set<int>, currentYear: int)
    requires GetExistingYears(names) == Some(existing)
    ensures var plan := DetermineYearsToDownload(existing, currentYear);
      var years := set y | y in plan;
      GetExistingYears(names + PlannedNames(plan)) == Some(existing + years)
      && DetermineYearsToDownload(existing + years, currentYear) == []
  {
    var plan := DetermineYearsToDownload(existing, currentYear);
    var added := PlannedNames(plan);
    var years := set y | y in plan;
    forall k | 0 <= k < |added| ensures MatchesGlob(added[k]) && YearOfName(added[k]) == Some(plan[k]) {
      LocalNameRoundTrip(plan[k]);
    }
    forall y ensures y in years <==> NamesYear(added, y) {
      if y in years {
        var k :| 0 <= k < |plan| && plan[k] == y;
        assert MatchesGlob(added[k]) && YearOfName(added[k]) == Some(y);
      }
    }
    ReadBackAppended(names, added, existing, years);
    CompleteRangePlansNothing(existing + years, currentYear);
  }
}
