/** The real-time page of realtime.py, minus its widgets and charts: the default interface
    choice, one refresh of the session (sample, then append to the bounded history), and the
    selection of rows shown as anomalies. */
module Realtime {
  import opened Wrappers
  import opened Text
  import Seqs
  import NetworkUtils
  import History
  import Anomaly

  /** Name fragments that mark an interface as likely wireless, in the order the dashboard lists them. */
  const Keywords: seq<string> := ["wi-fi", "wifi", "wlan", "wl", "wlp"]

  /** Some fragment of `keys` occurs as a substring of `name`. */
  predicate MatchesAny(name: string, keys: seq<string>)
    decreases |keys|
  {
    |keys| > 0 && (Contains(name, keys[0]) || MatchesAny(name, keys[1..]))
  }

  predicate LooksWireless(iface: string)
  {
    MatchesAny(Lower(iface), Keywords)
  }

  /** The interfaces pre-selected in the widget: the wireless-looking ones in discovery order,
      or the first interface when none looks wireless. */
  function DefaultInterfaces(all: seq<string>): (d: seq<string>)
    ensures |all| == 0 ==> d == []
    ensures |d| <= |all|
  {
    var wireless := Seqs.Filter(all, LooksWireless);
    if |wireless| == 0 && |all| > 0 then [all[0]] else wireless
  }

  /** Testing "wlan" and "wlp" adds nothing: both begin with "wl". */
  lemma LooksWirelessReduced(iface: string)
    ensures LooksWireless(iface) <==>
              var name := Lower(iface);
              Contains(name, "wi-fi") || Contains(name, "wifi") || Contains(name, "wl")
  {
    var name := Lower(iface);
    if Contains(name, "wlan") {
      ContainsPrefix(name, "wlan", "wl");
    }
    if Contains(name, "wlp") {
      ContainsPrefix(name, "wlp", "wl");
    }
  }

  /** The default choice: a subsequence of the discovered interfaces that holds every
      wireless-looking one and nothing else, or the first interface when none looks wireless. */
  lemma DefaultInterfacesSpec(all: seq<string>)
    ensures var d := DefaultInterfaces(all);
      && Seqs.IsSubsequence(d, all)
      && ((exists k :: 0 <= k < |all| && LooksWireless(all[k])) ==>
            && |d| == Seqs.Count(all, LooksWireless)
            && forall x :: x in d <==> x in all && LooksWireless(x))
      && ((forall k :: 0 <= k < |all| ==> !LooksWireless(all[k])) ==>
            d == if |all| == 0 then [] else [all[0]])
  {
    var wireless := Seqs.Filter(all, LooksWireless);
    Seqs.FilterIsSubsequence(all, LooksWireless);
    forall x
      ensures x in wireless <==> x in all && LooksWireless(x)
    {
      Seqs.FilterMembership(all, LooksWireless, x);
    }
    if |wireless| == 0 && |all| > 0 {
      assert Seqs.IsSubsequence([all[0]], all);
      assert !LooksWireless(all[0]) by {
        assert all[0] in all;
      }
      assert forall k :: 0 <= k < |all| ==> !LooksWireless(all[k]) by {
        forall k | 0 <= k < |all|
          ensures !LooksWireless(all[k])
        {
          assert all[k] in all;
        }
      }
    }
    if |all| > 0 && forall k :: 0 <= k < |all| ==> !LooksWireless(all[k]) {
      assert forall x :: x in all ==> !LooksWireless(x);
    }
  }

  /** The state the page keeps across refreshes. */
  datatype Session = Session(prev: NetworkUtils.PrevCounters, history: seq<NetworkUtils.DeltaRow>)

  /** The state right after start-up: no previous counters and an empty history. */
  const Start := Session(map[], [])

  /** One refresh of the page: nothing happens without a selection; otherwise the selected
      interfaces are sampled and the new rows appended to the bounded history. */
  function Refresh(s: Session, selected: seq<string>, netIo: map<string, NetworkUtils.Counters>,
                   addrs: map<string, seq<NetworkUtils.Addr>>, now: NetworkUtils.Instant, env: NetworkUtils.Env): (s': Session)
    ensures |selected| == 0 ==> s' == s
    ensures |s.history| <= History.Cap ==> |s'.history| <= History.Cap
    ensures s.prev.Keys <= s'.prev.Keys
  {
    if |selected| == 0 then s
    else
      var out := NetworkUtils.Tick(s.prev, selected, netIo, addrs, now, env);
      Session(out.prev, History.Append(s.history, out.rows))
  }

  /** After a refresh the map is the one the tick left behind, and the newest rows of the history
      are exactly the rows the tick produced, in selection order: each reports the current
      counters, instant, address cells and protocol, and, with each interface selected once, its
      deltas are measured against the map as it stood before the refresh. */
  lemma RefreshAppendsTickRows(s: Session, selected: seq<string>, netIo: map<string, NetworkUtils.Counters>,
                               addrs: map<string, seq<NetworkUtils.Addr>>, now: NetworkUtils.Instant, env: NetworkUtils.Env)
    requires |selected| > 0
    ensures var s' := Refresh(s, selected, netIo, addrs, now, env);
      var out := NetworkUtils.Tick(s.prev, selected, netIo, addrs, now, env);
      var produced := Seqs.Filter(selected, NetworkUtils.HasStats(netIo));
      && s'.prev == out.prev
      && (|produced| <= History.Cap ==>
            && |produced| <= |s'.history|
            && s'.history[|s'.history| - |produced|..] == out.rows
            && NetworkUtils.Ifaces(s'.history[|s'.history| - |produced|..]) == produced
            && forall r :: r in s'.history[|s'.history| - |produced|..] ==>
                 && NetworkUtils.ReportsCurrent(r, netIo, addrs, now, env)
                 && (NetworkUtils.Distinct(selected) ==> NetworkUtils.DeltaAgainst(r, s.prev, netIo)))
  {
    var out := NetworkUtils.Tick(s.prev, selected, netIo, addrs, now, env);
    var produced := Seqs.Filter(selected, NetworkUtils.HasStats(netIo));
    TickRowFacts(s.prev, selected, netIo, addrs, now, env);
    var h := Refresh(s, selected, netIo, addrs, now, env).history;
    assert h == History.Append(s.history, out.rows);
    if |produced| <= History.Cap {
      History.AppendKeepsBatch(s.history, out.rows);
      assert h[|h| - |produced|..] == out.rows;
    }
  }

  /** The per-row facts behind the lemma above, stated on the tick's own rows. */
  lemma TickRowFacts(prev: NetworkUtils.PrevCounters, selected: seq<string>, netIo: map<string, NetworkUtils.Counters>,
                     addrs: map<string, seq<NetworkUtils.Addr>>, now: NetworkUtils.Instant, env: NetworkUtils.Env)
    ensures var out := NetworkUtils.Tick(prev, selected, netIo, addrs, now, env);
      && |out.rows| == |Seqs.Filter(selected, NetworkUtils.HasStats(netIo))|
      && NetworkUtils.Ifaces(out.rows) == Seqs.Filter(selected, NetworkUtils.HasStats(netIo))
      && forall r :: r in out.rows ==>
           && NetworkUtils.ReportsCurrent(r, netIo, addrs, now, env)
           && (NetworkUtils.Distinct(selected) ==> NetworkUtils.DeltaAgainst(r, prev, netIo))
  {
    NetworkUtils.TickRowsFollowSelection(prev, selected, netIo, addrs, now, env);
    NetworkUtils.TickRowsReportCurrent(prev, selected, netIo, addrs, now, env);
    if NetworkUtils.Distinct(selected) {
      NetworkUtils.TickDeltas(prev, selected, netIo, addrs, now, env);
    }
  }

  /** A refresh keeps the earlier history: the new history is the last `Cap` rows of the old
      history followed by the tick's rows, and a tick that yields no rows leaves it unchanged. */
  lemma RefreshKeepsEarlierRows(s: Session, selected: seq<string>, netIo: map<string, NetworkUtils.Counters>,
                                addrs: map<string, seq<NetworkUtils.Addr>>, now: NetworkUtils.Instant, env: NetworkUtils.Env)
    requires |selected| > 0
    ensures var s' := Refresh(s, selected, netIo, addrs, now, env);
      var out := NetworkUtils.Tick(s.prev, selected, netIo, addrs, now, env);
      && (|out.rows| == 0 ==> s'.history == s.history)
      && (|s.history| <= History.Cap ==> s'.history == Seqs.LastN(s.history + out.rows, History.Cap))
  {
    var out := NetworkUtils.Tick(s.prev, selected, netIo, addrs, now, env);
    if |s.history| <= History.Cap {
      History.AppendIsLastN(s.history, out.rows);
    }
  }

  /** The inputs of one refresh: the selection and what the system reported at that moment. */
  datatype Sample = Sample(selected: seq<string>, netIo: map<string, NetworkUtils.Counters>,
                           addrs: map<string, seq<NetworkUtils.Addr>>, now: NetworkUtils.Instant)

  /** A run of refreshes, oldest first. */
  function Replay(s: Session, samples: seq<Sample>, env: NetworkUtils.Env): (s': Session)
    ensures |s.history| <= History.Cap ==> |s'.history| <= History.Cap
    ensures s.prev.Keys <= s'.prev.Keys
    decreases |samples|
  {
    if |samples| == 0 then s
    else
      var x := samples[0];
      Replay(Refresh(s, x.selected, x.netIo, x.addrs, x.now, env), samples[1..], env)
  }

  /** The rows each refresh of a run sampled, one batch per refresh (none without a selection). */
  function Produced(s: Session, samples: seq<Sample>, env: NetworkUtils.Env): (batches: seq<seq<NetworkUtils.DeltaRow>>)
    ensures |batches| == |samples|
    decreases |samples|
  {
    if |samples| == 0 then []
    else
      var x := samples[0];
      var batch := if |x.selected| == 0 then [] else NetworkUtils.Tick(s.prev, x.selected, x.netIo, x.addrs, x.now, env).rows;
      [batch] + Produced(Refresh(s, x.selected, x.netIo, x.addrs, x.now, env), samples[1..], env)
  }

  /** A run of refreshes acts on the history as the batches it sampled, appended in turn. */
  lemma {:induction false} ReplayIsAppendAll(s: Session, samples: seq<Sample>, env: NetworkUtils.Env)
    ensures Replay(s, samples, env).history == History.AppendAll(s.history, Produced(s, samples, env))
    decreases |samples|
  {
    if |samples| > 0 {
      var x := samples[0];
      var s1 := Refresh(s, x.selected, x.netIo, x.addrs, x.now, env);
      var batches := Produced(s, samples, env);
      ReplayIsAppendAll(s1, samples[1..], env);
      assert batches[1..] == Produced(s1, samples[1..], env);
      assert s1.history == History.Append(s.history, batches[0]);
    }
  }

  /** After any run of refreshes the history holds exactly the most recent `Cap` rows of the
      earlier history and of everything sampled since, in arrival order. */
  lemma ReplayKeepsMostRecent(s: Session, samples: seq<Sample>, env: NetworkUtils.Env)
    requires |s.history| <= History.Cap
    ensures Replay(s, samples, env).history == Seqs.LastN(s.history + History.Flatten(Produced(s, samples, env)), History.Cap)
  {
    ReplayIsAppendAll(s, samples, env);
    History.AppendAllKeepsMostRecent(s.history, Produced(s, samples, env));
  }


  function DetectorInput(history: seq<NetworkUtils.DeltaRow>): (rows: seq<Anomaly.DetectorRow>)
    ensures |rows| == |history|
    ensures forall k :: 0 <= k < |history| ==>
              rows[k] == Anomaly.DetectorRow(Anomaly.Num(history[k].bytesSent), Anomaly.Num(history[k].bytesRecv))
  {
    seq(|history|, k requires 0 <= k < |history| =>
      Anomaly.DetectorRow(Anomaly.Num(history[k].bytesSent), Anomaly.Num(history[k].bytesRecv)))
  }

  function Tags(scored: seq<Anomaly.Scored>): (tags: seq<Anomaly.Label>)
    ensures |tags| == |scored|
    ensures forall k :: 0 <= k < |scored| ==> tags[k] == scored[k].anomaly
  {
    seq(|scored|, k requires 0 <= k < |scored| => scored[k].anomaly)
  }

  predicate IsAnomalous(tag: Anomaly.Label)
  {
    tag == Anomaly.Anomalous
  }

  /** The rows whose aligned tag is -1, in order, as the dashboard's anomaly table selects them. */
  function Flagged<R(==)>(rows: seq<R>, tags: seq<Anomaly.Label>): (f: seq<R>)
    requires |rows| == |tags|
    ensures |f| == Seqs.Count(tags, IsAnomalous)
    ensures Seqs.IsSubsequence(f, rows)
    decreases |rows|
  {
    if |rows| == 0 then []
    else
      var rest := Flagged(rows[1..], tags[1..]);
      if IsAnomalous(tags[0]) then
        assert ([rows[0]] + rest)[1..] == rest;
        [rows[0]] + rest
      else
        Seqs.SubsequenceOfTail(rest, rows);
        rest
  }

  /** A row is shown iff it sits at a position tagged -1. */
  lemma {:induction false} FlaggedExactly<R>(rows: seq<R>, tags: seq<Anomaly.Label>, x: R)
    requires |rows| == |tags|
    ensures x in Flagged(rows, tags) <==> exists k :: 0 <= k < |rows| && rows[k] == x && IsAnomalous(tags[k])
    decreases |rows|
  {
    if |rows| > 0 {
      FlaggedExactly(rows[1..], tags[1..], x);
      if exists k :: 0 <= k < |rows| && rows[k] == x && IsAnomalous(tags[k]) {
        var k :| 0 <= k < |rows| && rows[k] == x && IsAnomalous(tags[k]);
        if k > 0 {
          assert rows[1..][k - 1] == x && tags[1..][k - 1] == tags[k];
        }
      }
      if x in Flagged(rows[1..], tags[1..]) {
        var k :| 0 <= k < |rows| - 1 && rows[1..][k] == x && IsAnomalous(tags[1..][k]);
        assert rows[k + 1] == x && IsAnomalous(tags[k + 1]);
      }
    }
  }

  /** What the page shows under "Detected Anomalies": nothing before the first data; no verdicts
      when the detector declines; a clean bill; or the flagged rows, taken from the recent slice
      re-scored on its own (`Aligned`) or, if that re-scoring fails, from the full-history verdicts. */
  datatype View =
    | Waiting
    | NoVerdicts
    | AllNormal
    | Aligned(count: nat, shown: seq<NetworkUtils.DeltaRow>)
    | Unaligned(count: nat, verdicts: seq<Anomaly.Scored>)

  function AnomalyView(history: seq<NetworkUtils.DeltaRow>, predict: Anomaly.Predictor): (v: View)
    requires Anomaly.OneLabelPerPoint(predict)
    ensures |history| == 0 <==> v.Waiting?
    ensures 0 < |history| < Anomaly.MinRows ==> v.NoVerdicts?
    ensures v.Aligned? ==> 0 < v.count && forall r :: r in v.shown ==> r in History.Recent(history)
    ensures v.Unaligned? ==> 0 < v.count == |v.verdicts| && forall r :: r in v.verdicts ==> r.anomaly == Anomaly.Anomalous
  {
    if |history| == 0 then Waiting
    else match Anomaly.Detect(Some(DetectorInput(history)), predict)
      case None => NoVerdicts
      case Some(full) =>
        var anomalies := Flagged(full, Tags(full));
        if |anomalies| == 0 then AllNormal
        else
          var recent := History.Recent(history);
          match Anomaly.Detect(Some(DetectorInput(recent)), predict)
          case None =>
            assert forall r :: r in anomalies ==> r.anomaly == Anomaly.Anomalous by {
              forall r | r in anomalies
                ensures r.anomaly == Anomaly.Anomalous
              {
                FlaggedExactly(full, Tags(full), r);
              }
            }
            Unaligned(|anomalies|, anomalies)
          case Some(slice) =>
            var shown := Flagged(recent, Tags(slice));
            assert forall r :: r in shown ==> r in recent by {
              forall r | r in shown
                ensures r in recent
              {
                FlaggedExactly(recent, Tags(slice), r);
              }
            }
            Aligned(|anomalies|, shown)
  }

  /** The count is the number of -1 verdicts over the whole history, and the rows shown are
      exactly the recent rows the re-scoring of the recent slice tags -1: as many as it has -1
      verdicts, in their order in the history. */
  lemma AlignedViewExact(history: seq<NetworkUtils.DeltaRow>, predict: Anomaly.Predictor)
    requires Anomaly.OneLabelPerPoint(predict)
    ensures var v := AnomalyView(history, predict);
      var recent := History.Recent(history);
      v.Aligned? ==>
        && Anomaly.Detect(Some(DetectorInput(history)), predict).Some?
        && v.count == Seqs.Count(Tags(Anomaly.Detect(Some(DetectorInput(history)), predict).value), IsAnomalous)
        && Anomaly.Detect(Some(DetectorInput(recent)), predict).Some?
        && Seqs.IsSubsequence(v.shown, recent)
        && |v.shown| == Seqs.Count(Tags(Anomaly.Detect(Some(DetectorInput(recent)), predict).value), IsAnomalous)
        && forall r :: r in v.shown <==>
             exists k :: 0 <= k < |recent| && recent[k] == r &&
               Anomaly.Detect(Some(DetectorInput(recent)), predict).value[k].anomaly == Anomaly.Anomalous
  {
    var v := AnomalyView(history, predict);
    if v.Aligned? {
      var recent := History.Recent(history);
      var slice := Anomaly.Detect(Some(DetectorInput(recent)), predict).value;
      forall r
        ensures r in v.shown <==> exists k :: 0 <= k < |recent| && recent[k] == r && slice[k].anomaly == Anomaly.Anomalous
      {
        FlaggedExactly(recent, Tags(slice), r);
      }
    }
  }

  /** Which display the page chooses, for every history: it follows the full-history detection,
      the number of -1 verdicts in it, and the re-scoring of the recent slice; the fallback display
      holds exactly the full-history rows tagged -1, in order. */
  lemma AnomalyViewCases(history: seq<NetworkUtils.DeltaRow>, predict: Anomaly.Predictor)
    requires Anomaly.OneLabelPerPoint(predict)
    ensures var v := AnomalyView(history, predict);
      var full := Anomaly.Detect(Some(DetectorInput(history)), predict);
      var slice := Anomaly.Detect(Some(DetectorInput(History.Recent(history))), predict);
      var flagged := if full.Some? then Seqs.Count(Tags(full.value), IsAnomalous) else 0;
      && (v.NoVerdicts? <==> |history| > 0 && full.None?)
      && (v.AllNormal? <==> |history| > 0 && full.Some? && flagged == 0)
      && (v.Aligned? <==> |history| > 0 && full.Some? && flagged > 0 && slice.Some?)
      && (v.Unaligned? <==> |history| > 0 && full.Some? && flagged > 0 && slice.None?)
      && ((v.Aligned? || v.Unaligned?) ==> v.count == flagged)
      && (v.Unaligned? ==>
            && Seqs.IsSubsequence(v.verdicts, full.value)
            && forall r :: r in v.verdicts <==>
                 exists k :: 0 <= k < |full.value| && full.value[k] == r && r.anomaly == Anomaly.Anomalous)
  {
    var v := AnomalyView(history, predict);
    if v.Unaligned? {
      var full := Anomaly.Detect(Some(DetectorInput(history)), predict).value;
      forall r
        ensures r in v.verdicts <==> exists k :: 0 <= k < |full| && full[k] == r && r.anomaly == Anomaly.Anomalous
      {
        FlaggedExactly(full, Tags(full), r);
      }
    }
  }

  /** The page's promise that the first interval records deltas as 0: from the start-up state,
      every row a first refresh stores has zero deltas, even when an interface is selected twice,
      and the map it leaves holds the readings just taken. */
  lemma FirstRefreshRecordsZeroDeltas(selected: seq<string>, netIo: map<string, NetworkUtils.Counters>,
                                      addrs: map<string, seq<NetworkUtils.Addr>>, now: NetworkUtils.Instant, env: NetworkUtils.Env)
    ensures var s' := Refresh(Start, selected, netIo, addrs, now, env);
      && NetworkUtils.Settled(s'.prev, netIo)
      && forall r :: r in s'.history ==> r.bytesSent == 0 && r.bytesRecv == 0
  {
    if |selected| > 0 {
      var out := NetworkUtils.Tick(map[], selected, netIo, addrs, now, env);
      NetworkUtils.SettledTickZeroDeltas(map[], selected, netIo, addrs, now, env);
      var h := History.Append([], out.rows);
      forall r | r in h
        ensures r in out.rows
      {
        var k :| 0 <= k < |h| && h[k] == r;
        assert h[k] == out.rows[|out.rows| - |h| + k];
      }
    }
  }

  /** A predictor that tags the first point it is given as -1 and every other point as 1. */
  function FirstPointOnly(): (predict: Anomaly.Predictor)
    ensures Anomaly.OneLabelPerPoint(predict)
  {
    pts => Some(seq(|pts|, k => if k == 0 then Anomaly.Anomalous else Anomaly.Normal))
  }

  lemma {:induction false} FlaggedNone<R>(rows: seq<R>, tags: seq<Anomaly.Label>)
    requires |rows| == |tags|
    requires forall k :: 0 <= k < |tags| ==> tags[k] == Anomaly.Normal
    ensures Flagged(rows, tags) == []
    decreases |rows|
  {
    if |rows| > 0 {
      FlaggedNone(rows[1..], tags[1..]);
    }
  }

  /** Rows tagged -1 at the first position only: exactly the first row is kept. */
  lemma FlaggedFirstOnly<R>(rows: seq<R>, tags: seq<Anomaly.Label>)
    requires |rows| == |tags| > 0
    requires tags[0] == Anomaly.Anomalous
    requires forall k :: 1 <= k < |tags| ==> tags[k] == Anomaly.Normal
    ensures Flagged(rows, tags) == [rows[0]]
  {
    FlaggedNone(rows[1..], tags[1..]);
  }

  /** On enough rows, detection with `FirstPointOnly` tags the first row -1 and the rest 1. */
  lemma DetectFirstPointOnly(history: seq<NetworkUtils.DeltaRow>)
    requires |history| >= Anomaly.MinRows
    ensures var d := Anomaly.Detect(Some(DetectorInput(history)), FirstPointOnly());
      && d.Some?
      && |Tags(d.value)| == |history|
      && Tags(d.value)[0] == Anomaly.Anomalous
      && forall k :: 1 <= k < |history| ==> Tags(d.value)[k] == Anomaly.Normal
  {
    var rows := DetectorInput(history);
    var labels := FirstPointOnly()(Anomaly.Points(rows)).value;
    assert forall k :: 0 <= k < |labels| ==> labels[k] == if k == 0 then Anomaly.Anomalous else Anomaly.Normal;
  }

  /** The count and the rows shown can disagree: with more than `RecentSize` rows and a
      predictor that flags only the first point of each fit, the full fit flags the oldest row,
      while the display shows the first row of the recent slice, which the full fit scored 1. */
  lemma CountAndDisplayCanDisagree(history: seq<NetworkUtils.DeltaRow>)
    requires |history| > History.RecentSize
    ensures var full := Anomaly.Detect(Some(DetectorInput(history)), FirstPointOnly());
      && AnomalyView(history, FirstPointOnly()) == Aligned(1, [history[|history| - History.RecentSize]])
      && full.Some?
      && Flagged(history, Tags(full.value)) == [history[0]]
      && full.value[|history| - History.RecentSize].anomaly == Anomaly.Normal
  {
    var predict := FirstPointOnly();
    DetectFirstPointOnly(history);
    var full := Anomaly.Detect(Some(DetectorInput(history)), predict).value;
    FlaggedFirstOnly(history, Tags(full));
    var recent := History.Recent(history);
    DetectFirstPointOnly(recent);
    var slice := Anomaly.Detect(Some(DetectorInput(recent)), predict).value;
    FlaggedFirstOnly(recent, Tags(slice));
  }


  /** With a predictor that never fails, ten or more rows always yield verdicts, and the
      flagged rows are always shown aligned with the recent slice. */
  lemma TotalPredictorAlwaysAligns(history: seq<NetworkUtils.DeltaRow>, predict: Anomaly.Predictor)
    requires Anomaly.OneLabelPerPoint(predict)
    requires forall pts :: predict(pts).Some?
    ensures var v := AnomalyView(history, predict);
      && (|history| >= Anomaly.MinRows ==> !v.NoVerdicts?)
      && !v.Unaligned?
  {
  }
}
