/** What the HAL is told over whole runs: at every address, the last call it agreed to says what the status says. */
module HostCalls {
  import opened UsbTypes
  import opened HostPolicy
  import opened HostBroadcasts
  import opened HostTables
  import opened HostReviews
  import opened HostRuns

  ghost predicate HonestAt(h: Hosts, n: string) {
    AsksForChange(TraceAt(h, n)) && (n in h.devices && n in h.traces ==> Honest(At(h, n)))
  }

  ghost predicate AllHonest(h: Hosts) {
    forall n :: HonestAt(h, n)
  }

  lemma ManagedHonest(was: Hosts, now: Hosts)
    requires SameDevices(was, now) && AllHonest(was)
    ensures AllHonest(now)
  {
    forall n ensures HonestAt(now, n) {
      assert HonestAt(was, n);
      if n in was.devices {
        assert Kept(At(was, n), At(now, n));
      }
    }
  }

  lemma ArrivalHonest(was: Hosts, now: Hosts, d: Device, n: string, r: Review)
    requires ValidReview(r) && Arrived(was, now, d, n, r) && AllHonest(was)
    ensures AllHonest(now)
  {
    forall m ensures HonestAt(now, m) {
      assert HonestAt(was, m);
      if m == n {
        ArrivalHere(was, now, d, n, r);
      } else if m in was.devices {
        ArrivalElsewhere(was, now, d, n, r, m);
      }
    }
  }

  lemma DepartureHonest(s: Host, n: string, s': Host)
    requires Left(s, n, s') && AllHonest(s.table)
    ensures AllHonest(s'.table)
  {
    forall m ensures HonestAt(s'.table, m) {
      assert HonestAt(s.table, m);
      if m == n && n in s.table.devices && n in s.table.traces {
        DepartureBalance(At(s.table, n));
      }
    }
  }

  lemma StepHonest(c: Setup, s: Host, e: Event, s': Host)
    requires ValidSetup(c) && WellStructured(c, s) && AllHonest(s.table) && Step(c, s, e, s')
    ensures AllHonest(s'.table)
  {
    if e.Arrive? {
      ArrivalHonest(s.table, s'.table, e.dev, c.name(DevOf(e.dev)),
                    Review(e.policy, c.tables, s'.serials, e.hal, c.leq));
    } else if e.Leave? {
      DepartureHonest(s, c.name(e.address), s');
    } else {
      ManagedSame(c, s, e, s'.table);
      ManagedHonest(s.table, s'.table);
    }
  }

  lemma {:induction false} HonestAlways(c: Setup, run: seq<Host>, es: seq<Event>)
    requires ValidSetup(c) && IsRun(c, run, es)
    ensures AllHonest(run[|es|].table)
  {
    if es != [] {
      var k := |es| - 1;
      Shorter(c, run, es);
      HonestAlways(c, run[..k + 1], es[..k]);
      StructuredAlways(c, run[..k + 1], es[..k]);
      StepHonest(c, run[k], es[k], run[k + 1]);
    }
  }

  /** Over every run and at every address: a device is not disabled if and only if the HAL, going by its appearance and
      the calls that succeeded since, has it on; and every call asked for the opposite of what was. */
  lemma HalToldAlways(c: Setup, run: seq<Host>, es: seq<Event>, n: string)
    requires ValidSetup(c) && IsRun(c, run, es)
    ensures var h := run[|es|].table;
            n in h.devices ==> (h.devices[n].status != Disabled <==> On(TraceAt(h, n)))
    ensures var trace := TraceAt(run[|es|].table, n);
            forall k :: 0 <= k < |trace| && trace[k].HalAuthorize? ==> trace[k].authorized != On(trace[..k])
  {
    HonestAlways(c, run, es);
    StructuredAlways(c, run, es);
    var h := run[|es|].table;
    assert HonestAt(h, n);
    var trace := TraceAt(h, n);
    forall k | 0 <= k < |trace| && trace[k].HalAuthorize? ensures trace[k].authorized != On(trace[..k]) {
      AsksAt(trace, k);
    }
  }

  /** The last call that succeeded since the last appearance, if any, is what `On` goes by. */
  lemma {:induction false} OnIsLastSuccess(trace: seq<Action>, k: nat)
    requires k < |trace| && (trace[k].Appeared? || (trace[k].HalAuthorize? && trace[k].ok))
    requires forall j :: k < j < |trace| ==> !trace[j].Appeared? && (trace[j].HalAuthorize? ==> !trace[j].ok)
    ensures On(trace) == (trace[k].Appeared? || trace[k].authorized)
  {
    if k < |trace| - 1 {
      OnIsLastSuccess(trace[..|trace| - 1], k);
    }
  }
}
