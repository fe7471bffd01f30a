/** The registry of accepted divergences: staleness, suppression, and the order they run in. */
module DivergenceRegistry {
  import opened Wrappers

  datatype Engine = Postgresql | Mysql | Mariadb | Sqlite | Mssql | Oracle

  datatype Kind = AnalyzerOverPessimistic

  datatype Entry = Entry(fixture: string, engine: Engine, column: string, kind: Kind, issue: string, reason: string)

  datatype Failure =
    | FidelityMismatch(column: string, analyzedNullable: bool, generatedNullable: bool)
    | UnsoundNullability(column: string, row: nat)
    | VacuousNullable(column: string)
    | JoinGroupIncoherent(group: string, row: nat, columns: seq<string>)

  datatype Verdict = Verdict(fixture: string, engine: Engine, failures: seq<Failure>)

  datatype Stale = Stale(fixture: string, engine: Engine, column: string)

  predicate KindSuppresses(kind: Kind, failure: Failure, column: string) {
    match (kind, failure)
    case (AnalyzerOverPessimistic, VacuousNullable(c)) => c == column
    case (AnalyzerOverPessimistic, FidelityMismatch(_, _, _)) => false
    case (AnalyzerOverPessimistic, UnsoundNullability(_, _)) => false
    case (AnalyzerOverPessimistic, JoinGroupIncoherent(_, _, _)) => false
  }

  predicate IsRegistered(entries: seq<Entry>, fixture: string, engine: Engine, failure: Failure) {
    exists e :: e in entries && e.fixture == fixture && e.engine == engine && KindSuppresses(e.kind, failure, e.column)
  }

  function Unregistered(entries: seq<Entry>, fixture: string, engine: Engine, failures: seq<Failure>): seq<Failure> {
    if failures == [] then []
    else (if IsRegistered(entries, fixture, engine, failures[0]) then [] else [failures[0]])
         + Unregistered(entries, fixture, engine, failures[1..])
  }

  function ApplyOne(entries: seq<Entry>, v: Verdict): Verdict {
    v.(failures := Unregistered(entries, v.fixture, v.engine, v.failures))
  }

  function Apply(entries: seq<Entry>, verdicts: seq<Verdict>): (r: seq<Verdict>)
    ensures |r| == |verdicts| && forall i :: 0 <= i < |r| ==> r[i] == ApplyOne(entries, verdicts[i])
  {
    seq(|verdicts|, i requires 0 <= i < |verdicts| => ApplyOne(entries, verdicts[i]))
  }

  predicate Matches(entry: Entry, v: Verdict) {
    && v.fixture == entry.fixture && v.engine == entry.engine
    && exists f :: f in v.failures && KindSuppresses(entry.kind, f, entry.column)
  }

  predicate StillReproduces(entry: Entry, verdicts: seq<Verdict>) {
    exists v :: v in verdicts && Matches(entry, v)
  }

  predicate IsStale(entry: Entry, verdicts: seq<Verdict>, enginesRun: seq<Engine>) {
    entry.engine in enginesRun && !StillReproduces(entry, verdicts)
  }

  function CheckStaleness(entries: seq<Entry>, verdicts: seq<Verdict>, enginesRun: seq<Engine>): Result<(), Stale> {
    if entries == [] then Ok(())
    else if IsStale(entries[0], verdicts, enginesRun) then
      Err(Stale(entries[0].fixture, entries[0].engine, entries[0].column))
    else CheckStaleness(entries[1..], verdicts, enginesRun)
  }

  function Reconcile(entries: seq<Entry>, verdicts: seq<Verdict>, enginesRun: seq<Engine>): Result<seq<Verdict>, Stale> {
    var checked := CheckStaleness(entries, verdicts, enginesRun);
    if checked.Err? then Err(checked.error) else Ok(Apply(entries, verdicts))
  }

  // ---------- what can be suppressed ----------

  lemma OnlyVacuityIsRegistered(entries: seq<Entry>, fixture: string, engine: Engine, failure: Failure)
    ensures IsRegistered(entries, fixture, engine, failure)
            <==> failure.VacuousNullable?
                 && exists e :: e in entries && e.fixture == fixture && e.engine == engine && e.column == failure.column
  {
    if failure.VacuousNullable? {
      assert forall e: Entry :: KindSuppresses(e.kind, failure, e.column) <==> failure.column == e.column;
    }
  }

  /** The failures the registry can never touch: fidelity, soundness and join-group coherence. */
  function Hard(failures: seq<Failure>): seq<Failure> {
    if failures == [] then []
    else (if failures[0].VacuousNullable? then [] else [failures[0]]) + Hard(failures[1..])
  }

  lemma HardCons(f: Failure, rest: seq<Failure>)
    ensures Hard([f] + rest) == (if f.VacuousNullable? then [] else [f]) + Hard(rest)
  {
    assert ([f] + rest)[1..] == rest;
  }

  /** Suppression drops exactly the registered vacuity failures and keeps the others in order. */
  lemma {:induction false} SuppressionIsExact(entries: seq<Entry>, v: Verdict)
    ensures var after := ApplyOne(entries, v);
            && after.fixture == v.fixture && after.engine == v.engine
            && Hard(after.failures) == Hard(v.failures)
            && (forall f :: f in after.failures <==> f in v.failures && !IsRegistered(entries, v.fixture, v.engine, f))
    decreases |v.failures|
  {
    hide IsRegistered;
    if v.failures != [] {
      var (f, rest) := (v.failures[0], v.(failures := v.failures[1..]));
      SuppressionIsExact(entries, rest);
      OnlyVacuityIsRegistered(entries, v.fixture, v.engine, f);
      var kept := Unregistered(entries, v.fixture, v.engine, v.failures[1..]);
      HardCons(f, kept);
      assert v.failures == [f] + v.failures[1..];
      assert [] + kept == kept;
    }
  }

  /** `at` lists, in order, the positions of the failures that survive, and `kept` is what stands there. */
  ghost predicate Survivors(entries: seq<Entry>, fixture: string, engine: Engine, failures: seq<Failure>, kept: seq<Failure>, at: seq<int>) {
    && |at| == |kept|
    && (forall k :: 0 <= k < |at| ==> 0 <= at[k] < |failures| && kept[k] == failures[at[k]])
    && (forall k, l :: 0 <= k < l < |at| ==> at[k] < at[l])
    && (forall i :: 0 <= i < |failures| ==> (i in at <==> !IsRegistered(entries, fixture, engine, failures[i])))
  }

  /** The survivors are the unregistered failures, each as often as it occurred, in their order. */
  lemma {:induction false} SurvivorsInOrder(entries: seq<Entry>, fixture: string, engine: Engine, failures: seq<Failure>)
    returns (at: seq<int>)
    ensures Survivors(entries, fixture, engine, failures, Unregistered(entries, fixture, engine, failures), at)
    decreases |failures|
  {
    hide IsRegistered, Survivors;
    if failures == [] {
      at := [];
      NoSurvivors(entries, fixture, engine);
    } else {
      var later := SurvivorsInOrder(entries, fixture, engine, failures[1..]);
      at := OneMoreFailure(entries, fixture, engine, failures, Unregistered(entries, fixture, engine, failures[1..]), later);
    }
  }

  lemma NoSurvivors(entries: seq<Entry>, fixture: string, engine: Engine)
    ensures Survivors(entries, fixture, engine, [], [], [])
  {
  }

  lemma OneMoreFailure(entries: seq<Entry>, fixture: string, engine: Engine, failures: seq<Failure>, kept: seq<Failure>, later: seq<int>)
    returns (at: seq<int>)
    requires failures != [] && Survivors(entries, fixture, engine, failures[1..], kept, later)
    ensures Survivors(entries, fixture, engine, failures,
                      (if IsRegistered(entries, fixture, engine, failures[0]) then [] else [failures[0]]) + kept, at)
  {
    hide IsRegistered, Survivors;
    at := Shifted(later);
    LaterSurvivors(entries, fixture, engine, failures, kept, later);
    if IsRegistered(entries, fixture, engine, failures[0]) {
      FirstDropped(entries, fixture, engine, failures, kept, at);
      assert [] + kept == kept;
    } else {
      FirstKept(entries, fixture, engine, failures, kept, at);
      at := [0] + at;
    }
  }

  /** Survivors among all failures but the first. */
  ghost predicate SurvivorsPastFirst(entries: seq<Entry>, fixture: string, engine: Engine, failures: seq<Failure>, kept: seq<Failure>, at: seq<int>) {
    && |at| == |kept|
    && (forall k :: 0 <= k < |at| ==> 0 < at[k] < |failures| && kept[k] == failures[at[k]])
    && (forall k, l :: 0 <= k < l < |at| ==> at[k] < at[l])
    && (forall i :: 0 < i < |failures| ==> (i in at <==> !IsRegistered(entries, fixture, engine, failures[i])))
  }

  lemma LaterSurvivors(entries: seq<Entry>, fixture: string, engine: Engine, failures: seq<Failure>, kept: seq<Failure>, later: seq<int>)
    requires failures != [] && Survivors(entries, fixture, engine, failures[1..], kept, later)
    ensures SurvivorsPastFirst(entries, fixture, engine, failures, kept, Shifted(later))
  {
    hide IsRegistered;
    var tail := failures[1..];
    forall i | 0 < i < |failures| ensures i in Shifted(later) <==> !IsRegistered(entries, fixture, engine, failures[i]) {
      assert failures[i] == tail[i - 1];
      assert i in Shifted(later) <==> i - 1 in later;
    }
  }

  lemma FirstDropped(entries: seq<Entry>, fixture: string, engine: Engine, failures: seq<Failure>, kept: seq<Failure>, at: seq<int>)
    requires failures != [] && IsRegistered(entries, fixture, engine, failures[0])
    requires SurvivorsPastFirst(entries, fixture, engine, failures, kept, at)
    ensures Survivors(entries, fixture, engine, failures, kept, at)
  {
    hide IsRegistered;
  }

  lemma FirstKept(entries: seq<Entry>, fixture: string, engine: Engine, failures: seq<Failure>, kept: seq<Failure>, at: seq<int>)
    requires failures != [] && !IsRegistered(entries, fixture, engine, failures[0])
    requires SurvivorsPastFirst(entries, fixture, engine, failures, kept, at)
    ensures Survivors(entries, fixture, engine, failures, [failures[0]] + kept, [0] + at)
  {
    hide IsRegistered;
    PickedAfterFirst(failures, kept, at);
    assert forall i :: i in [0] + at <==> i == 0 || i in at;
  }

  lemma PickedAfterFirst(failures: seq<Failure>, kept: seq<Failure>, at: seq<int>)
    requires failures != [] && |at| == |kept|
    requires forall k :: 0 <= k < |at| ==> 0 < at[k] < |failures| && kept[k] == failures[at[k]]
    requires forall k, l :: 0 <= k < l < |at| ==> at[k] < at[l]
    ensures var (xs, all) := ([failures[0]] + kept, [0] + at);
            && |all| == |xs|
            && (forall k :: 0 <= k < |all| ==> 0 <= all[k] < |failures| && xs[k] == failures[all[k]])
            && (forall k, l :: 0 <= k < l < |all| ==> all[k] < all[l])
  {
    var (xs, all) := ([failures[0]] + kept, [0] + at);
    forall k | 0 <= k < |all| ensures 0 <= all[k] < |failures| && xs[k] == failures[all[k]] {
      if k > 0 {
        assert all[k] == at[k - 1] && xs[k] == kept[k - 1];
      }
    }
    forall k, l | 0 <= k < l < |all| ensures all[k] < all[l] {
      assert all[l] == at[l - 1];
      if k > 0 {
        assert all[k] == at[k - 1];
      }
    }
  }

  function Shifted(later: seq<int>): (shifted: seq<int>)
    ensures |shifted| == |later| && forall k :: 0 <= k < |later| ==> shifted[k] == later[k] + 1
    ensures forall i :: i in shifted <==> i - 1 in later
  {
    var shifted := seq(|later|, k requires 0 <= k < |later| => later[k] + 1);
    assert forall k :: 0 <= k < |later| ==> shifted[k] == later[k] + 1;
    shifted
  }

  lemma {:induction false} NothingToSuppress(entries: seq<Entry>, fixture: string, engine: Engine, failures: seq<Failure>)
    requires forall f :: f in failures ==> !IsRegistered(entries, fixture, engine, f)
    ensures Unregistered(entries, fixture, engine, failures) == failures
    decreases |failures|
  {
    hide IsRegistered;
    if failures != [] {
      NothingToSuppress(entries, fixture, engine, failures[1..]);
      assert failures == [failures[0]] + failures[1..];
    }
  }

  lemma SuppressionIdempotent(entries: seq<Entry>, verdicts: seq<Verdict>)
    ensures Apply(entries, Apply(entries, verdicts)) == Apply(entries, verdicts)
  {
    hide IsRegistered;
    var once := Apply(entries, verdicts);
    forall i | 0 <= i < |verdicts| ensures ApplyOne(entries, once[i]) == once[i] {
      SuppressionIsExact(entries, verdicts[i]);
      NothingToSuppress(entries, once[i].fixture, once[i].engine, once[i].failures);
    }
  }

  // ---------- staleness ----------

  /** The check fails exactly when some entry is stale, and then names the first one. */
  lemma {:induction false} StalenessVerdict(entries: seq<Entry>, verdicts: seq<Verdict>, enginesRun: seq<Engine>)
    ensures var r := CheckStaleness(entries, verdicts, enginesRun);
            && (r.Ok? <==> forall e :: e in entries ==> !IsStale(e, verdicts, enginesRun))
            && (r.Err? ==> exists i :: 0 <= i < |entries| && IsStale(entries[i], verdicts, enginesRun)
                             && (forall j :: 0 <= j < i ==> !IsStale(entries[j], verdicts, enginesRun))
                             && r.error == Stale(entries[i].fixture, entries[i].engine, entries[i].column))
    decreases |entries|
  {
    hide IsStale;
    if entries != [] {
      StalenessVerdict(entries[1..], verdicts, enginesRun);
      assert entries == [entries[0]] + entries[1..];
      var tail := CheckStaleness(entries[1..], verdicts, enginesRun);
      if IsStale(entries[0], verdicts, enginesRun) {
        assert entries[0] in entries;
      } else if tail.Err? {
        var i :| 0 <= i < |entries[1..]| && IsStale(entries[1..][i], verdicts, enginesRun)
                 && (forall j :: 0 <= j < i ==> !IsStale(entries[1..][j], verdicts, enginesRun))
                 && tail.error == Stale(entries[1..][i].fixture, entries[1..][i].engine, entries[1..][i].column);
        assert entries[i + 1] == entries[1..][i];
        assert forall j :: 0 < j < i + 1 ==> entries[j] == entries[1..][j - 1];
      }
    }
  }

  lemma MatchIsVacuity(entry: Entry, v: Verdict)
    ensures Matches(entry, v)
            <==> v.fixture == entry.fixture && v.engine == entry.engine && VacuousNullable(entry.column) in v.failures
  {
    if VacuousNullable(entry.column) in v.failures {
      assert KindSuppresses(entry.kind, VacuousNullable(entry.column), entry.column);
    }
  }

  /**
   Reconciling succeeds exactly when every entry whose engine ran is matched by a raw vacuity
   failure. It then keeps every verdict, and in each one every other failure in order, dropping
   precisely the vacuity failures of registered columns.
   */
  lemma ReconcileVerdict(entries: seq<Entry>, verdicts: seq<Verdict>, enginesRun: seq<Engine>)
    ensures var r := Reconcile(entries, verdicts, enginesRun);
            && (r.Ok? <==> forall e :: e in entries && e.engine in enginesRun
                             ==> exists v :: v in verdicts && v.fixture == e.fixture && v.engine == e.engine
                                             && VacuousNullable(e.column) in v.failures)
            && (r.Ok? ==> |r.value| == |verdicts|
                          && forall i :: 0 <= i < |verdicts| ==>
                               && r.value[i].fixture == verdicts[i].fixture && r.value[i].engine == verdicts[i].engine
                               && Hard(r.value[i].failures) == Hard(verdicts[i].failures)
                               && forall f :: f in r.value[i].failures
                                    <==> f in verdicts[i].failures && !IsRegistered(entries, verdicts[i].fixture, verdicts[i].engine, f))
  {
    hide IsRegistered, Matches;
    StalenessVerdict(entries, verdicts, enginesRun);
    forall e: Entry, v: Verdict ensures Matches(e, v) <==> v.fixture == e.fixture && v.engine == e.engine && VacuousNullable(e.column) in v.failures {
      MatchIsVacuity(e, v);
    }
    forall i | 0 <= i < |verdicts|
      ensures var after := ApplyOne(entries, verdicts[i]);
              && after.fixture == verdicts[i].fixture && after.engine == verdicts[i].engine
              && Hard(after.failures) == Hard(verdicts[i].failures)
              && forall f :: f in after.failures <==> f in verdicts[i].failures && !IsRegistered(entries, verdicts[i].fixture, verdicts[i].engine, f)
    {
      SuppressionIsExact(entries, verdicts[i]);
    }
  }

  /** Why the order matters: after suppression every entry whose engine ran looks stale. */
  lemma StalenessAfterSuppressionFails(entries: seq<Entry>, verdicts: seq<Verdict>, enginesRun: seq<Engine>)
    ensures CheckStaleness(entries, Apply(entries, verdicts), enginesRun).Err?
            <==> exists e :: e in entries && e.engine in enginesRun
  {
    hide IsRegistered, Matches;
    var after := Apply(entries, verdicts);
    StalenessVerdict(entries, after, enginesRun);
    forall e | e in entries ensures !StillReproduces(e, after) {
      forall v | v in after ensures !Matches(e, v) {
        MatchIsVacuity(e, v);
        var i :| 0 <= i < |after| && after[i] == v;
        SuppressionIsExact(entries, verdicts[i]);
        OnlyVacuityIsRegistered(entries, v.fixture, v.engine, VacuousNullable(e.column));
      }
    }
  }

  /** A soundness failure survives any registry, so its verdict never passes. */
  lemma UnsoundNeverPasses(entries: seq<Entry>, verdicts: seq<Verdict>, enginesRun: seq<Engine>, i: nat, f: Failure)
    requires i < |verdicts| && f in verdicts[i].failures && !f.VacuousNullable?
    ensures var r := Reconcile(entries, verdicts, enginesRun);
            r.Ok? ==> i < |r.value| && f in r.value[i].failures
  {
    hide IsRegistered;
    SuppressionIsExact(entries, verdicts[i]);
    OnlyVacuityIsRegistered(entries, verdicts[i].fixture, verdicts[i].engine, f);
  }
}
