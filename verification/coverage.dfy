/** The coverage reporter's choice of the one browser whose coverage is
    collected, the filters that forward only that browser's events to Karma's
    coverage reporter, and the startup status it reports. */
module CoverageSelection {
  import opened Base

  /** A captured browser. Browsers are compared by identity (`===`), so they
      are objects; `name` is `None` when the property is not a string. */
  class BrowserRef {
    const name: Option<string>

    constructor (name: Option<string>)
      ensures this.name == name
    {
      this.name := name;
    }
  }

  /** The name prefixes tried when several browsers run, most preferred
      first. */
  const Preferred: seq<string> := ["Chrome ", "Firefox ", "Safari ", "Opera "]

  /** `intellijUtil.isString(name) && name.indexOf(prefix) === 0`. */
  predicate NameStartsWith(b: BrowserRef, prefix: string) {
    b.name.Some? && prefix <= b.name.value
  }

  /** `bs[k]` is the first browser of the list whose name starts with
      `prefix`. */
  predicate FirstWith(bs: seq<BrowserRef>, prefix: string, k: nat) {
    k < |bs| && NameStartsWith(bs[k], prefix) && forall j :: 0 <= j < k ==> !NameStartsWith(bs[j], prefix)
  }

  predicate NoneWith(bs: seq<BrowserRef>, prefix: string) {
    forall j :: 0 <= j < |bs| ==> !NameStartsWith(bs[j], prefix)
  }

  /** `getAnyBrowser`: the `forEach` keeps the first element it sees. */
  method GetAnyBrowser(bs: seq<BrowserRef>) returns (r: Option<BrowserRef>)
    ensures bs == [] ==> r.None?
    ensures bs != [] ==> r == Some(bs[0])
  {
    r := None;
    for k := 0 to |bs|
      invariant k == 0 ==> r.None?
      invariant k > 0 ==> r == Some(bs[0])
    {
      if r.None? {
        r := Some(bs[k]);
      }
    }
  }

  /** `findBrowserByName`: the first browser whose name is a string starting
      with the prefix, or null when there is none. */
  method FindBrowserByName(bs: seq<BrowserRef>, prefix: string) returns (r: Option<BrowserRef>)
    ensures r.None? <==> NoneWith(bs, prefix)
    ensures r.Some? ==> exists k: nat :: FirstWith(bs, prefix, k) && r.value == bs[k]
    ensures r.Some? ==> r.value in bs
  {
    r := None;
    ghost var at: nat := 0;
    for k := 0 to |bs|
      invariant r.None? ==> forall j :: 0 <= j < k ==> !NameStartsWith(bs[j], prefix)
      invariant r.Some? ==> at < k && FirstWith(bs, prefix, at) && r.value == bs[at]
    {
      if r.None? && NameStartsWith(bs[k], prefix) {
        r := Some(bs[k]);
        at := k;
      }
    }
  }

  /** `containsBrowser`: identity membership. */
  method ContainsBrowser(bs: seq<BrowserRef>, target: BrowserRef) returns (found: bool)
    ensures found <==> target in bs
  {
    found := false;
    for k := 0 to |bs|
      invariant found <==> target in bs[..k]
    {
      assert bs[..k + 1] == bs[..k] + [bs[k]];
      if bs[k] == target {
        found := true;
      }
    }
    assert bs[..|bs|] == bs;
  }

  /** The browser `findBestBrowser` picks, as a rule: with fewer than two
      browsers the first one; otherwise the first browser carrying the most
      preferred prefix that any browser carries, and the first browser when
      none carries any. */
  ghost predicate BestChoice(bs: seq<BrowserRef>, r: Option<BrowserRef>) {
    if bs == [] then r.None?
    else if |bs| == 1 then r == Some(bs[0])
    else if forall p :: 0 <= p < |Preferred| ==> NoneWith(bs, Preferred[p]) then r == Some(bs[0])
    else exists p, k: nat :: 0 <= p < |Preferred| && FirstWith(bs, Preferred[p], k) && r == Some(bs[k])
                        && forall q :: 0 <= q < p ==> NoneWith(bs, Preferred[q])
  }

  /** `findBestBrowser`. */
  method FindBestBrowser(bs: seq<BrowserRef>) returns (r: Option<BrowserRef>)
    ensures BestChoice(bs, r)
    ensures r.Some? ==> r.value in bs
  {
    if |bs| <= 1 {
      r := GetAnyBrowser(bs);
      return;
    }
    var p := 0;
    while p < |Preferred|
      invariant 0 <= p <= |Preferred|
      invariant forall q :: 0 <= q < p ==> NoneWith(bs, Preferred[q])
    {
      var b := FindBrowserByName(bs, Preferred[p]);
      if b.Some? {
        r := b;
        return;
      }
      p := p + 1;
    }
    r := GetAnyBrowser(bs);
  }

  /** The preference rank of a browser: the index of the first preferred
      prefix its name starts with, and `|Preferred|` when none. */
  function Rank(b: BrowserRef): (n: nat)
    ensures n <= |Preferred|
    ensures n < |Preferred| ==> NameStartsWith(b, Preferred[n])
    ensures forall q :: 0 <= q < n && q < |Preferred| ==> !NameStartsWith(b, Preferred[q])
  {
    if NameStartsWith(b, Preferred[0]) then 0
    else if NameStartsWith(b, Preferred[1]) then 1
    else if NameStartsWith(b, Preferred[2]) then 2
    else if NameStartsWith(b, Preferred[3]) then 3
    else 4
  }

  /** The preferred prefixes exclude one another: no name starts with two of
      them. */
  lemma PrefixesExclusive(b: BrowserRef, p: nat, q: nat)
    requires p < q < |Preferred| && NameStartsWith(b, Preferred[p])
    ensures !NameStartsWith(b, Preferred[q])
  {
    assert Preferred[p][0] != Preferred[q][0];
    assert b.name.value[0] == Preferred[p][0];
  }

  /** `bs[k]` has the best rank of the list and every browser before it
      ranks worse. */
  predicate FirstOfMinimalRank(bs: seq<BrowserRef>, k: nat) {
    && k < |bs|
    && (forall j :: 0 <= j < |bs| ==> Rank(bs[k]) <= Rank(bs[j]))
    && (forall j :: 0 <= j < k ==> Rank(bs[k]) < Rank(bs[j]))
  }

  /** Among two or more browsers, the chosen one is the first of minimal
      rank. */
  lemma BestIsFirstOfMinimalRank(bs: seq<BrowserRef>, r: Option<BrowserRef>)
    requires |bs| >= 2 && BestChoice(bs, r)
    ensures r.Some? && exists k: nat :: FirstOfMinimalRank(bs, k) && r.value == bs[k]
  {
    if forall p :: 0 <= p < |Preferred| ==> NoneWith(bs, Preferred[p]) {
      forall j | 0 <= j < |bs| ensures Rank(bs[j]) == |Preferred| {
        RankAtLeast(bs, j, |Preferred|);
      }
      assert FirstOfMinimalRank(bs, 0);
    } else {
      var p, k: nat :| 0 <= p < |Preferred| && FirstWith(bs, Preferred[p], k) && r == Some(bs[k])
                       && forall q :: 0 <= q < p ==> NoneWith(bs, Preferred[q]);
      MatchIsFirstOfMinimalRank(bs, p, k);
    }
  }

  lemma MatchIsFirstOfMinimalRank(bs: seq<BrowserRef>, p: nat, k: nat)
    requires p < |Preferred| && FirstWith(bs, Preferred[p], k)
    requires forall q :: 0 <= q < p ==> NoneWith(bs, Preferred[q])
    ensures FirstOfMinimalRank(bs, k)
  {
    RankOfMatch(bs[k], p);
    forall j | 0 <= j < |bs| ensures p <= Rank(bs[j]) {
      RankAtLeast(bs, j, p);
    }
    forall j | 0 <= j < k ensures p < Rank(bs[j]) {
      RankAtLeast(bs, j, p);
    }
  }

  lemma RankOfMatch(b: BrowserRef, p: nat)
    requires p < |Preferred| && NameStartsWith(b, Preferred[p])
    ensures Rank(b) == p
  {
    if Rank(b) < p {
      PrefixesExclusive(b, Rank(b), p);
    }
  }

  lemma RankAtLeast(bs: seq<BrowserRef>, j: nat, p: nat)
    requires j < |bs| && p <= |Preferred| && forall q :: 0 <= q < p ==> NoneWith(bs, Preferred[q])
    ensures Rank(bs[j]) >= p
  {
  }

  // ---------------------------------------------------------------------
  // The overridden reporter events

  /** The arguments `onRunStart` hands to Karma's coverage reporter, and the
      browser it remembers. */
  datatype RunStart = RunStart(current: Option<BrowserRef>, forwarded: seq<BrowserRef>)

  method OnRunStart(browsers: seq<BrowserRef>) returns (s: RunStart)
    ensures BestChoice(browsers, s.current)
    ensures s.current.None? ==> s.forwarded == []
    ensures s.current.Some? ==> s.forwarded == [s.current.value] && s.current.value in browsers
  {
    var best := FindBestBrowser(browsers);
    if best.Some? {
      s := RunStart(best, [best.value]);
    } else {
      s := RunStart(best, []);
    }
  }

  /** `onSpecComplete` and `onBrowserComplete` pass an event on only for the
      remembered browser; Karma never hands over a null browser. */
  function Forwards(current: Option<BrowserRef>, browser: BrowserRef): (b: bool)
    ensures b <==> current.Some? && current.value == browser
  {
    current == Some(browser)
  }

  /** `onRunComplete`: the browsers passed on, or `None` when the remembered
      browser is absent from the completed run (nothing is forwarded and no
      report is collected). */
  method OnRunComplete(current: Option<BrowserRef>, browsers: seq<BrowserRef>)
    returns (forwarded: Option<seq<BrowserRef>>)
    ensures forwarded.Some? <==> current.Some? && current.value in browsers
    ensures forwarded.Some? ==> forwarded.value == [current.value]
  {
    if current.None? {
      return None;
    }
    var found := ContainsBrowser(browsers, current.value);
    if found {
      forwarded := Some([current.value]);
    } else {
      forwarded := None;
    }
  }

  /** A run that completes with the browsers it started with reports the
      coverage of exactly the chosen browser, unless there were none. */
  method StartThenComplete(browsers: seq<BrowserRef>) returns (forwarded: Option<seq<BrowserRef>>)
    ensures browsers == [] <==> forwarded.None?
    ensures forwarded.Some? ==> |forwarded.value| == 1 && forwarded.value[0] in browsers
  {
    var s := OnRunStart(browsers);
    forwarded := OnRunComplete(s.current, browsers);
  }

  // ---------------------------------------------------------------------
  // Startup status

  /** The `coverageStartupStatus` event. */
  datatype StartupStatus = StartupStatus(coverageReporterSpecifiedInConfig: bool, coverageReporterFound: bool)

  /** `reportCoverageStartupStatus`: a missing (null or undefined) `found`
      counts as found. */
  function ReportCoverageStartupStatus(specifiedInConfig: bool, found: Option<bool>): (e: StartupStatus)
    ensures e.coverageReporterSpecifiedInConfig == specifiedInConfig
    ensures e.coverageReporterFound <==> found != Some(false)
  {
    StartupStatus(specifiedInConfig, found.GetOr(true))
  }

  /** The status the reporter's constructor sends: always "specified in the
      configuration", and found exactly when Karma's coverage reporter could
      be looked up. */
  function ConstructorStartupStatus(delegateFound: bool): (e: StartupStatus)
    ensures e.coverageReporterSpecifiedInConfig
    ensures e.coverageReporterFound <==> delegateFound
  {
    ReportCoverageStartupStatus(true, Some(delegateFound))
  }
}
