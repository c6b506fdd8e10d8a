/** The per-domain loop of the dnstwist task: for every domain of the
    organisation, reconcile the scanner's permutation list with the stored
    dnstwist vulnerability so that each permutation keeps the date it was
    first observed, and accumulate one vulnerability per domain that was
    fetched, has a non-empty result and whose stored record could be read.

    In the repository this loop is commented out in the live handler; the
    model follows the block as written. The scanner output and the stored
    vulnerability are inputs (the subprocess, `JSON.parse` and the database
    lookup are not modelled), the run's `dateNow` is the parameter `now`,
    and every call of the storage helper is recorded in a log of the lists
    it was given. */
module DnsTwist {
  import opened Wrappers

  /** A value held under `date-first-observed`: JSON `null`, a string (as a
      stored date comes back from the database) or a `Date` object made
      during this run, given by its milliseconds since the epoch. */
  datatype Stamp = Null | Text(text: string) | Instant(ms: int)

  /** One permutation reported by dnstwist: its `domain-name`, its
      `date-first-observed` (`None` while the field is absent) and the
      scanner's other fields, which reconciliation never touches. */
  datatype Permutation = Permutation(name: string, firstObserved: Option<Stamp>, payload: map<string, string>)

  datatype Domain = Domain(id: string, name: string)

  /** A stored vulnerability. `domains` is `structuredData.domains`, `None`
      when the record has no such list. */
  datatype Vulnerability = Vulnerability(
    domain: Domain,
    lastSeen: int,
    title: string,
    state: string,
    source: string,
    severity: string,
    needsPopulation: bool,
    domains: Option<seq<Permutation>>,
    description: string
  )

  /** JavaScript truthiness of a field value: `undefined`, `null` and the
      empty string are falsy; a `Date` object never is. */
  predicate Truthy(v: Option<Stamp>)
  {
    match v
    case None => false
    case Some(Null) => false
    case Some(Text(t)) => t != ""
    case Some(Instant(_)) => true
  }

  // ---------------------------------------------------------------------
  // The history map (`existingVulnsMap`)
  // ---------------------------------------------------------------------

  /** `existingVulnsMap`: each stored `domain-name` to its
      `date-first-observed`, assigned in list order. */
  type History = map<string, Option<Stamp>>

  /** The map after assigning every entry of `entries` in order. */
  function HistoryOf(entries: seq<Permutation>): (h: History)
  {
    if entries == [] then map[]
    else
      var last := entries[|entries| - 1];
      HistoryOf(entries[..|entries| - 1])[last.name := last.firstObserved]
  }

  /** The history the block builds from the stored vulnerability: empty when
      there is none, and `None` when the stored record has no `domains` list
      (iterating over `undefined` throws, and the domain is skipped). */
  function ExistingHistory(existing: Option<Vulnerability>): (r: Option<History>)
    ensures r.None? <==> existing.Some? && existing.value.domains.None?
    ensures existing.None? ==> r == Some(map[])
    ensures existing.Some? && existing.value.domains.Some? ==>
      r.value.Keys == set i | 0 <= i < |existing.value.domains.value| :: existing.value.domains.value[i].name
  {
    match existing
    case None => Some(map[])
    case Some(v) =>
      match v.domains
      case None => None
      case Some(entries) =>
        HistoryKeys(entries);
        Some(HistoryOf(entries))
  }

  /** The names the history knows are exactly the stored names. */
  lemma {:induction false} HistoryKeys(entries: seq<Permutation>)
    ensures HistoryOf(entries).Keys == set i | 0 <= i < |entries| :: entries[i].name
  {
    if entries != [] {
      var init := entries[..|entries| - 1];
      HistoryKeys(init);
      var s := set i | 0 <= i < |entries| :: entries[i].name;
      var t := set i | 0 <= i < |init| :: init[i].name;
      assert s == t + {entries[|entries| - 1].name} by {
        forall x | x in s ensures x in t + {entries[|entries| - 1].name} {
          var i :| 0 <= i < |entries| && entries[i].name == x;
          if i < |init| { assert init[i] == entries[i]; }
        }
        forall x | x in t ensures x in s {
          var i :| 0 <= i < |init| && init[i].name == x;
          assert entries[i] == init[i];
        }
      }
    }
  }

  /** For a repeated name the later entry wins: the history holds the date
      of the last entry with that name. */
  lemma {:induction false} HistoryLastWins(entries: seq<Permutation>, i: nat)
    requires i < |entries|
    requires forall j :: i < j < |entries| ==> entries[j].name != entries[i].name
    ensures entries[i].name in HistoryOf(entries)
    ensures HistoryOf(entries)[entries[i].name] == entries[i].firstObserved
  {
    if i < |entries| - 1 {
      var init := entries[..|entries| - 1];
      assert init[i] == entries[i];
      forall j | i < j < |init| ensures init[j].name != init[i].name {
        assert init[j] == entries[j];
      }
      HistoryLastWins(init, i);
    }
  }

  /** The loop at the top of the block: fill the map from the stored
      record's `domains`, one entry at a time. */
  method BuildHistory(existing: Option<Vulnerability>) returns (h: Option<History>)
    ensures h == ExistingHistory(existing)
  {
    var m: History := map[];
    if existing.Some? {
      if existing.value.domains.None? {
        return None;
      }
      var entries := existing.value.domains.value;
      var i := 0;
      while i < |entries|
        invariant 0 <= i <= |entries|
        invariant m == HistoryOf(entries[..i])
      {
        assert entries[..i + 1][..i] == entries[..i];
        m := m[entries[i].name := entries[i].firstObserved];
        i := i + 1;
      }
      assert entries[..i] == entries;
    }
    return Some(m);
  }

  // ---------------------------------------------------------------------
  // Reconciliation
  // ---------------------------------------------------------------------

  /** `existingVulnsMap[name] || dateNow`: the stored date when the name was
      seen before with a truthy date, otherwise the run's date. */
  function FirstObservedFor(history: History, name: string, now: int): (d: Stamp)
    ensures Truthy(Some(d))
    ensures name in history && Truthy(history[name]) ==> Some(d) == history[name]
    ensures name !in history || !Truthy(history[name]) ==> d == Instant(now)
  {
    if name in history && Truthy(history[name]) then history[name].value else Instant(now)
  }

  /** The results after the second loop: every permutation with its
      `date-first-observed` replaced. */
  function Reconciled(results: seq<Permutation>, history: History, now: int): (r: seq<Permutation>)
  {
    seq(|results|, i requires 0 <= i < |results| =>
      results[i].(firstObserved := Some(FirstObservedFor(history, results[i].name, now))))
  }

  /** The second loop: overwrite `date-first-observed` of each result in place. */
  method Reconcile(results: array<Permutation>, history: History, now: int)
    modifies results
    ensures results[..] == Reconciled(old(results[..]), history, now)
  {
    for i := 0 to results.Length
      invariant forall k :: 0 <= k < i ==>
        results[k] == old(results[k]).(firstObserved := Some(FirstObservedFor(history, old(results[k]).name, now)))
      invariant forall k :: i <= k < results.Length ==> results[k] == old(results[k])
    {
      results[i] := results[i].(firstObserved := Some(FirstObservedFor(history, results[i].name, now)));
    }
  }

  /** Reconciliation changes only `date-first-observed`: the number of
      results, their order, their names and every other field stay. */
  lemma ReconciledKeepsEverythingElse(results: seq<Permutation>, history: History, now: int)
    ensures |Reconciled(results, history, now)| == |results|
    ensures forall i :: 0 <= i < |results| ==>
      Reconciled(results, history, now)[i].name == results[i].name &&
      Reconciled(results, history, now)[i].payload == results[i].payload
  {
  }

  /** A result whose name was stored with a truthy date carries that date;
      every other result (not stored, or stored with a falsy date) carries
      the run's date, the same for all of them. */
  lemma ReconciledDates(results: seq<Permutation>, history: History, now: int, i: nat)
    requires i < |results|
    ensures var name := results[i].name;
      var date := Reconciled(results, history, now)[i].firstObserved;
      (name in history && Truthy(history[name]) ==> date == history[name]) &&
      (name !in history || !Truthy(history[name]) ==> date == Some(Instant(now)))
  {
  }

  /** After reconciliation every result has a truthy first-observed date. */
  lemma ReconciledDatesAreTruthy(results: seq<Permutation>, history: History, now: int)
    ensures forall i :: 0 <= i < |results| ==> Truthy(Reconciled(results, history, now)[i].firstObserved)
  {
  }

  /** First-observed dates never regress: a permutation found in the stored
      record with a truthy date keeps that date, whatever the run's date. */
  lemma {:induction false} FirstObservedNeverRegresses(stored: seq<Permutation>, results: seq<Permutation>, now: int, i: nat, j: nat)
    requires i < |results| && j < |stored|
    requires stored[j].name == results[i].name && Truthy(stored[j].firstObserved)
    requires forall k :: j < k < |stored| ==> stored[k].name != stored[j].name
    ensures Reconciled(results, HistoryOf(stored), now)[i].firstObserved == stored[j].firstObserved
  {
    HistoryLastWins(stored, j);
  }

  /** Running the reconciliation again on the same scanner output, against
      the record the first run produced, gives the same list: the second run
      is idempotent whatever its date. */
  lemma {:induction false} ReconcileIdempotent(results: seq<Permutation>, history: History, now1: int, now2: int)
    ensures var first := Reconciled(results, history, now1);
      Reconciled(results, HistoryOf(first), now2) == first
  {
    var first := Reconciled(results, history, now1);
    var second := Reconciled(results, HistoryOf(first), now2);
    forall i | 0 <= i < |results| ensures second[i] == first[i] {
      // the last entry of `first` with this name carries the same date
      var j := LastWithName(first, i);
      HistoryLastWins(first, j);
    }
  }

  /** `entries` as they come back from storage: every first-observed value
      passed through `store` (a `Date` is written as a string, say). */
  function Stored(entries: seq<Permutation>, store: Stamp -> Stamp): (r: seq<Permutation>)
    ensures |r| == |entries|
    ensures forall i :: 0 <= i < |entries| ==> r[i].name == entries[i].name && r[i].payload == entries[i].payload
  {
    seq(|entries|, i requires 0 <= i < |entries| =>
      entries[i].(firstObserved := if entries[i].firstObserved.Some? then Some(store(entries[i].firstObserved.value)) else None))
  }

  /** Idempotence survives the trip through storage: whatever form storage
      gives the dates, as long as a truthy date stays truthy, a second run on
      identical scanner output against the stored record reproduces the
      stored list. */
  lemma {:induction false} ReconcileIdempotentThroughStorage(results: seq<Permutation>, history: History, now1: int, now2: int, store: Stamp -> Stamp)
    requires forall s :: Truthy(Some(s)) ==> Truthy(Some(store(s)))
    ensures var stored := Stored(Reconciled(results, history, now1), store);
      Reconciled(results, HistoryOf(stored), now2) == stored
  {
    var first := Reconciled(results, history, now1);
    var stored := Stored(first, store);
    var second := Reconciled(results, HistoryOf(stored), now2);
    forall i | 0 <= i < |results| ensures second[i] == stored[i] {
      var j := LastWithName(stored, i);
      HistoryLastWins(stored, j);
      assert Truthy(Some(store(FirstObservedFor(history, results[i].name, now1))));
    }
  }

  /** The index of the last entry with the same name as entry `i`. */
  function LastWithName(s: seq<Permutation>, i: nat): (j: nat)
    requires i < |s|
    ensures i <= j < |s| && s[j].name == s[i].name
    ensures forall k :: j < k < |s| ==> s[k].name != s[j].name
    decreases |s| - i
  {
    if forall k :: i < k < |s| ==> s[k].name != s[i].name then i
    else
      var k :| i < k < |s| && s[k].name == s[i].name;
      LastWithName(s, k)
  }

  // ---------------------------------------------------------------------
  // The vulnerability and the accumulation across domains
  // ---------------------------------------------------------------------

  /** The object pushed onto `vulns` for a domain that pushes. */
  function DnsTwistVulnerability(domain: Domain, lastSeen: int, reconciled: seq<Permutation>): (v: Vulnerability)
    ensures v.domain == domain && v.lastSeen == lastSeen && v.domains == Some(reconciled)
    ensures IsDnsTwistRecord(v) <==>
      |reconciled| > 0 && forall k :: 0 <= k < |reconciled| ==> Truthy(reconciled[k].firstObserved)
  {
    Vulnerability(
      domain, lastSeen, "DNS Twist Domains", "open", "dnstwist", "Low", false,
      Some(reconciled), "Registered domains similar to " + domain.name + ".")
  }

  /** The fixed shape of every vulnerability this task creates. */
  predicate IsDnsTwistRecord(v: Vulnerability)
  {
    && v.title == "DNS Twist Domains"
    && v.state == "open"
    && v.source == "dnstwist"
    && v.severity == "Low"
    && !v.needsPopulation
    && v.domains.Some? && |v.domains.value| > 0
    && (forall k :: 0 <= k < |v.domains.value| ==> Truthy(v.domains.value[k].firstObserved))
    && v.description == "Registered domains similar to " + v.domain.name + "."
  }

  /** What fetching a domain's inputs produced: `Failed` when the scanner run
      or the lookup of the stored record threw; otherwise the parsed results
      and the stored dnstwist vulnerability, if any. */
  datatype Fetch = Failed | Fetched(results: seq<Permutation>, existing: Option<Vulnerability>)

  /** One iteration's inputs: the domain, what was fetched for it, and the
      wall-clock time read for its `lastSeen`. */
  datatype DomainRun = DomainRun(domain: Domain, fetch: Fetch, lastSeen: int)

  /** What one iteration pushes onto `vulns`, if anything. */
  function Contribution(run: DomainRun, now: int): (r: Option<Vulnerability>)
    ensures r.Some? <==> run.fetch.Fetched? && |run.fetch.results| > 0 && ExistingHistory(run.fetch.existing).Some?
    ensures r.Some? ==> IsDnsTwistRecord(r.value) && r.value.domain == run.domain && r.value.lastSeen == run.lastSeen
    ensures r.Some? ==> r.value.domains == Some(Reconciled(run.fetch.results, ExistingHistory(run.fetch.existing).value, now))
  {
    match run.fetch
    case Failed => None
    case Fetched(results, existing) =>
      match ExistingHistory(existing)
      case None => None
      case Some(history) =>
        if |results| == 0 then None
        else
          ReconciledDatesAreTruthy(results, history, now);
          Some(DnsTwistVulnerability(run.domain, run.lastSeen, Reconciled(results, history, now)))
  }

  /** `vulns` after the loop has processed `runs` with run date `now`. */
  function Accumulated(runs: seq<DomainRun>, now: int): (vulns: seq<Vulnerability>)
  {
    if runs == [] then []
    else
      var before := Accumulated(runs[..|runs| - 1], now);
      match Contribution(runs[|runs| - 1], now)
      case None => before
      case Some(v) => before + [v]
  }

  /** The runs that push a vulnerability, in order. */
  function PushingRuns(runs: seq<DomainRun>, now: int): (pushing: seq<DomainRun>)
  {
    if runs == [] then []
    else
      var before := PushingRuns(runs[..|runs| - 1], now);
      if Contribution(runs[|runs| - 1], now).Some? then before + [runs[|runs| - 1]] else before
  }

  /** `vulns` holds one vulnerability per pushing run, in run order: its
      length is the number of domains processed so far that were fetched,
      have a non-empty result and a readable stored record, and each entry
      is what its domain pushed. */
  lemma {:induction false} AccumulatedMatchesPushingRuns(runs: seq<DomainRun>, now: int)
    ensures |Accumulated(runs, now)| == |PushingRuns(runs, now)| <= |runs|
    ensures forall k :: 0 <= k < |PushingRuns(runs, now)| ==>
      Contribution(PushingRuns(runs, now)[k], now) == Some(Accumulated(runs, now)[k])
    ensures forall k :: 0 <= k < |PushingRuns(runs, now)| ==>
      PushingRuns(runs, now)[k] in runs && PushingRuns(runs, now)[k].fetch.Fetched? &&
      |PushingRuns(runs, now)[k].fetch.results| > 0
  {
    if runs != [] {
      var init, last := runs[..|runs| - 1], runs[|runs| - 1];
      AccumulatedMatchesPushingRuns(init, now);
      var before, pushed := Accumulated(init, now), PushingRuns(init, now);
      forall k | 0 <= k < |pushed| ensures pushed[k] in runs {
        var i :| 0 <= i < |init| && init[i] == pushed[k];
        assert runs[i] == pushed[k];
      }
      assert last in runs;
      match Contribution(last, now)
      case None =>
        assert Accumulated(runs, now) == before && PushingRuns(runs, now) == pushed;
      case Some(v) =>
        assert Accumulated(runs, now) == before + [v] && PushingRuns(runs, now) == pushed + [last];
    }
  }

  /** No domain that pushes is lost: every such run is among the pushing runs. */
  lemma {:induction false} PushingRunsComplete(runs: seq<DomainRun>, now: int)
    ensures forall i :: 0 <= i < |runs| && Contribution(runs[i], now).Some? ==> runs[i] in PushingRuns(runs, now)
  {
    if runs != [] {
      var init, last := runs[..|runs| - 1], runs[|runs| - 1];
      PushingRunsComplete(init, now);
      var pushed := PushingRuns(init, now);
      forall i | 0 <= i < |runs| && Contribution(runs[i], now).Some? ensures runs[i] in PushingRuns(runs, now) {
        if i < |init| {
          assert init[i] == runs[i];
          assert runs[i] in pushed;
        }
      }
    }
  }

  /** Every accumulated vulnerability has the fixed dnstwist shape. */
  lemma {:induction false} AccumulatedAreDnsTwistRecords(runs: seq<DomainRun>, now: int)
    ensures forall k :: 0 <= k < |Accumulated(runs, now)| ==> IsDnsTwistRecord(Accumulated(runs, now)[k])
  {
    if runs != [] {
      AccumulatedAreDnsTwistRecords(runs[..|runs| - 1], now);
    }
  }

  /** A domain that pushes nothing adds nothing: one whose scan or lookup
      threw, one whose stored record has no `domains` list (iterating over it
      throws), and one whose result is empty. The loop goes on with the next
      domain as if it had not been there. */
  lemma {:induction false} SkippedRunsAddNothing(before: seq<DomainRun>, run: DomainRun, after: seq<DomainRun>, now: int)
    requires Contribution(run, now).None?
    ensures Accumulated(before + [run] + after, now) == Accumulated(before + after, now)
    decreases |after|
  {
    if after == [] {
      assert (before + [run])[..|before|] == before;
      assert before + [run] + [] == before + [run];
      assert before + [] == before;
    } else {
      var a := after[..|after| - 1];
      SkippedRunsAddNothing(before, run, a, now);
      assert (before + [run] + after)[..|before + [run] + after| - 1] == before + [run] + a;
      assert (before + after)[..|before + after| - 1] == before + a;
    }
  }

  /** The block's loop over the organisation's domains. `saves` records the
      list handed to the storage helper by each call; a call that throws is
      caught after the push, so it changes nothing here. */
  method ProcessDomains(runs: seq<DomainRun>, now: int) returns (vulns: seq<Vulnerability>, saves: seq<seq<Vulnerability>>)
    ensures vulns == Accumulated(runs, now)
    ensures |saves| == |vulns|
    ensures forall k :: 0 <= k < |saves| ==> saves[k] == vulns[..k + 1]
  {
    vulns, saves := [], [];
    var i := 0;
    while i < |runs|
      invariant 0 <= i <= |runs|
      invariant vulns == Accumulated(runs[..i], now)
      invariant |saves| == |vulns|
      invariant forall k :: 0 <= k < |saves| ==> saves[k] == vulns[..k + 1]
    {
      assert runs[..i + 1][..i] == runs[..i];
      var run := runs[i];
      if run.fetch.Fetched? {
        var output := run.fetch.results;
        var results := new Permutation[|output|](j requires 0 <= j < |output| => output[j]);
        assert results[..] == output;
        var history := BuildHistory(run.fetch.existing);
        if history.Some? {
          Reconcile(results, history.value, now);
          if results.Length != 0 {
            vulns := vulns + [DnsTwistVulnerability(run.domain, run.lastSeen, results[..])];
            saves := saves + [vulns];
          }
        }
      }
      i := i + 1;
    }
    assert runs[..i] == runs;
  }
}
