/** The retry loops among other clients: a loop whose transactions read what the store holds, and whose commits go
    through only if the store's version test does, is a run of the concurrent model. */
module TransactionRuns {
  import opened DeviceIds
  import opened Results
  import opened Transactions
  import opened XenTransactions

  /** States of a domain and the events between them. */
  datatype Trace = Trace(states: seq<Domain>, events: seq<Event>)

  ghost predicate Steps(t: Trace) {
    && |t.states| == |t.events| + 1
    && forall i :: 0 <= i < |t.events| ==> Step(t.states[i], t.events[i], t.states[i + 1])
  }

  function Last(t: Trace): Domain
    requires |t.states| > 0
  {
    t.states[|t.states| - 1]
  }

  ghost predicate Leads(t: Trace, s: Domain, s': Domain) {
    Steps(t) && t.states[0] == s && Last(t) == s'
  }

  /** Nothing of what happens in between is done by client c. */
  ghost predicate Others(t: Trace, s: Domain, c: nat) {
    && Steps(t) && t.states[0] == s
    && forall i :: 0 <= i < |t.events| ==> t.events[i].c != c
  }

  // ----- one round among others -----

  /** What the other clients do before the first read of a transaction, between its two reads, and before its
      commit. */
  datatype Meanwhile = Meanwhile(first: Trace, second: Trace, third: Trace)

  /** The round's readings are what the store held, and its commit goes through only if neither node has changed
      since. */
  ghost predicate Meets(round: Round, job: Job, x: Meanwhile, s: Domain, c: nat)
    requires job.Remove? ==> InRange(job.device)
  {
    && Others(x.first, s, c) && c in Last(x.first).clients && round.devNode == Last(x.first).store.devNode
    && Others(x.second, Reading(round, x, c), c) && c in Last(x.second).clients
    && round.blkNode == Last(x.second).store.blkNode
    && match Work(job, Start(round))
       case None => true
       case Some(w) =>
         && Others(x.third, With(Last(x.second), c, Working(w)), c) && c in Last(x.third).clients
         && (round.granted ==> round.devNode.version == Last(x.third).store.devNode.version
                               && round.blkNode.version == Last(x.third).store.blkNode.version)
  }

  function Reading(round: Round, x: Meanwhile, c: nat): Domain
    requires |x.first.states| > 0 && c in Last(x.first).clients
  {
    With(Last(x.first), c, DevRead(Load(round.devNode), round.devNode.version))
  }

  /** The domain after the round. */
  ghost function After(round: Round, job: Job, x: Meanwhile, s: Domain, c: nat): Domain
    requires (job.Remove? ==> InRange(job.device)) && Meets(round, job, x, s, c)
  {
    match Work(job, Start(round))
    case None => With(Last(x.second), c, Dropped)
    case Some(w) =>
      var d := Last(x.third);
      if round.granted && WellFormed(w.dev) && WellFormed(w.blk) then
        Domain(Written(d.store, w), d.clients[c := Client(job, Committed(w.results))],
               if job.Add? then d.live + Elements(w.results) else d.live - {job.device})
      else With(d, c, Begun)
  }

  // ----- traces -----

  function Joined(a: Trace, b: Trace): Trace {
    Trace(a.states + if |b.states| > 0 then b.states[1..] else [], a.events + b.events)
  }

  lemma JoinLeads(a: Trace, b: Trace, s: Domain, m: Domain, s': Domain)
    requires Leads(a, s, m) && Leads(b, m, s')
    ensures Leads(Joined(a, b), s, s')
  {
    hide Step;
    var t := Joined(a, b);
    forall i | 0 <= i < |t.events|
      ensures Step(t.states[i], t.events[i], t.states[i + 1])
    {
      if i < |a.events| {
        assert Step(a.states[i], a.events[i], a.states[i + 1]);
      } else {
        assert t.states[i] == b.states[i - |a.events|];
        assert Step(b.states[i - |a.events|], b.events[i - |a.events|], b.states[i - |a.events| + 1]);
      }
    }
  }

  lemma OneStep(s: Domain, e: Event, s': Domain)
    requires Step(s, e, s')
    ensures Leads(Trace([s, s'], [e]), s, s')
  {
    hide Step;
  }

  lemma NoStep(s: Domain)
    ensures Leads(Trace([s], []), s, s)
  {
  }

  /** The invariant along a trace. */
  lemma {:induction false} StepsInv(t: Trace, n: nat)
    requires Steps(t) && Inv(t.states[0]) && n < |t.states|
    ensures Inv(t.states[n])
  {
    hide Inv, Step;
    if n > 0 {
      StepsInv(t, n - 1);
      StepInv(t.states[n - 1], t.events[n - 1], t.states[n]);
    }
  }

  /** Other clients leave a client alone. */
  lemma {:induction false} OthersKeep(t: Trace, s: Domain, c: nat, n: nat)
    requires Others(t, s, c) && c in s.clients && n < |t.states|
    ensures c in t.states[n].clients && t.states[n].clients[c] == s.clients[c]
  {
    if n > 0 {
      OthersKeep(t, s, c, n - 1);
      assert Step(t.states[n - 1], t.events[n - 1], t.states[n]);
      hide AddOne, Load, Written;
    }
  }

  // ----- the work of a round -----

  lemma WithTwice(s: Domain, c: nat, p: Phase, q: Phase)
    requires c in s.clients
    ensures With(With(s, c, p), c, q) == With(s, c, q)
  {
    assert s.clients[c := s.clients[c].(phase := p)][c := s.clients[c].(phase := q)]
        == s.clients[c := s.clients[c].(phase := q)];
  }

  /** Adding the remaining devices, one by one, to the end or until ids run out. */
  lemma {:induction false} AddSteps(s: Domain, c: nat, w: Attempt, disks: seq<bool>) returns (t: Trace)
    requires c in s.clients && s.clients[c] == Client(Add(disks), Working(w)) && Usable(w.dev) && Usable(w.blk)
    requires |w.results| <= |disks|
    ensures var r := AddAll(w, disks[|w.results|..]);
            && Leads(t, s, With(s, c, match r case None => Dropped case Some(w') => Working(w')))
            && (r.Some? ==>
                  && |r.value.results| == |disks| && Usable(r.value.dev) && Usable(r.value.blk)
                  && r.value.devVersion == w.devVersion && r.value.blkVersion == w.blkVersion)
    decreases |disks| - |w.results|
  {
    hide AddOne, Leads;
    var n := |w.results|;
    if n == |disks| {
      assert With(s, c, Working(w)) == s by {
        assert s.clients[c := s.clients[c]] == s.clients;
      }
      NoStep(s);
      t := Trace([s], []);
    } else {
      AddOneUsable(w, disks[n]);
      assert disks[n..][1..] == disks[n + 1..];
      var r := AddOne(w, disks[n]);
      var s1 := With(s, c, match r case None => Dropped case Some(w') => Working(w'));
      assert Step(s, Assign(c), s1);
      OneStep(s, Assign(c), s1);
      t := Trace([s, s1], [Assign(c)]);
      if r.Some? {
        var rest := AddSteps(s1, c, r.value, disks);
        var end := match AddAll(r.value, disks[n + 1..]) case None => Dropped case Some(w') => Working(w');
        WithTwice(s, c, Working(r.value), end);
        JoinLeads(t, rest, s, s1, With(s, c, end));
        t := Joined(t, rest);
      }
    }
  }

  lemma WorkSteps(s: Domain, c: nat, job: Job, w: Attempt) returns (t: Trace)
    requires c in s.clients && s.clients[c] == Client(job, Working(w)) && Usable(w.dev) && Usable(w.blk)
    requires w.results == [] && (job.Remove? ==> InRange(job.device))
    ensures var r := Work(job, w);
            && Leads(t, s, With(s, c, match r case None => Dropped case Some(w') => Working(w')))
            && (r.Some? ==>
                  && Finished(Client(job, Working(r.value))) && WellFormed(r.value.dev) && WellFormed(r.value.blk)
                  && r.value.devVersion == w.devVersion && r.value.blkVersion == w.blkVersion)
  {
    hide Leads, AddAll;
    match job
    case Add(disks) =>
      assert disks[0..] == disks;
      t := AddSteps(s, c, w, disks);
    case Remove(d) =>
      var s1 := With(s, c, Working(ReleaseOne(w, d)));
      assert Step(s, Release(c), s1);
      OneStep(s, Release(c), s1);
      t := Trace([s, s1], [Release(c)]);
  }

  /** One round is a run of steps: two reads, the work, and a commit or its refusal, with the others in between. */
  lemma RoundIsRun(round: Round, job: Job, x: Meanwhile, s: Domain, c: nat) returns (t: Trace)
    requires Inv(s) && c in s.clients && s.clients[c] == Client(job, Begun)
    requires (job.Remove? ==> InRange(job.device)) && Meets(round, job, x, s, c)
    ensures Leads(t, s, After(round, job, x, s, c))
  {
    hide Inv, Leads, Work, Load;
    var a, b := Last(x.first), Last(x.second);
    OthersLead(x.first, s, c);
    var s1 := Reading(round, x, c);
    OneStep(a, ReadDev(c), s1) by {
      assert Step(a, ReadDev(c), s1);
    }
    JoinLeads(x.first, Trace([a, s1], [ReadDev(c)]), s, a, s1);
    t := Joined(x.first, Trace([a, s1], [ReadDev(c)]));
    OthersLead(x.second, s1, c);
    JoinLeads(t, x.second, s, s1, b);
    t := Joined(t, x.second);
    var s2 := With(b, c, Working(Start(round)));
    OneStep(b, ReadBlk(c), s2) by {
      assert Step(b, ReadBlk(c), s2);
    }
    JoinLeads(t, Trace([b, s2], [ReadBlk(c)]), s, b, s2);
    t := Joined(t, Trace([b, s2], [ReadBlk(c)]));
    LeadsInv(t, s, s2);
    StartUsable(s2, c, round);
    var work := WorkSteps(s2, c, job, Start(round));
    var phase := match Work(job, Start(round)) case None => Dropped case Some(w) => Working(w);
    WithTwice(b, c, Working(Start(round)), phase);
    JoinLeads(t, work, s, s2, With(b, c, phase));
    t := Joined(t, work);
    if Work(job, Start(round)).Some? {
      var commit := CommitSteps(round, job, x, s, c);
      JoinLeads(t, commit, s, With(b, c, phase), After(round, job, x, s, c));
      t := Joined(t, commit);
    }
  }

  /** From the work's end to the round's end. */
  lemma CommitSteps(round: Round, job: Job, x: Meanwhile, s: Domain, c: nat) returns (t: Trace)
    requires (job.Remove? ==> InRange(job.device)) && Meets(round, job, x, s, c) && Work(job, Start(round)).Some?
    requires c in Last(x.second).clients && Last(x.second).clients[c].job == job
    requires var w := Work(job, Start(round)).value;
             && Finished(Client(job, Working(w))) && WellFormed(w.dev) && WellFormed(w.blk)
             && w.devVersion == round.devNode.version && w.blkVersion == round.blkNode.version
    ensures Leads(t, With(Last(x.second), c, Working(Work(job, Start(round)).value)), After(round, job, x, s, c))
  {
    hide Leads, Work, Load, Written;
    var w := Work(job, Start(round)).value;
    var s3, d, s' := With(Last(x.second), c, Working(w)), Last(x.third), After(round, job, x, s, c);
    OthersLead(x.third, s3, c);
    var e := if round.granted then CommitOk(c) else CommitAgain(c);
    assert Step(d, e, s');
    OneStep(d, e, s');
    JoinLeads(x.third, Trace([d, s'], [e]), s3, d, s');
    t := Joined(x.third, Trace([d, s'], [e]));
  }

  lemma OthersLead(t: Trace, s: Domain, c: nat)
    requires Others(t, s, c) && c in s.clients
    ensures Leads(t, s, Last(t)) && c in Last(t).clients && Last(t).clients[c] == s.clients[c]
  {
    hide Step;
    OthersKeep(t, s, c, |t.states| - 1);
  }

  lemma LeadsInv(t: Trace, s: Domain, s': Domain)
    requires Leads(t, s, s') && Inv(s)
    ensures Inv(s')
  {
    hide Inv, Step;
    StepsInv(t, |t.states| - 1);
  }

  lemma StartUsable(s: Domain, c: nat, round: Round)
    requires Inv(s) && c in s.clients && s.clients[c].phase == Working(Start(round))
    ensures Usable(Start(round).dev) && Usable(Start(round).blk)
  {
    hide Matches, Unique, Load;
    assert ClientOk(s, s.clients[c]);
  }

  // ----- the loop -----

  /** Every round of the loop meets the domain as the round before has left it. */
  ghost predicate LoopMeets(rounds: seq<Round>, job: Job, xs: seq<Meanwhile>, s: Domain, c: nat)
    requires job.Remove? ==> InRange(job.device)
    decreases |rounds|
  {
    && |xs| == |rounds|
    && (|rounds| > 0 ==>
          && Meets(rounds[0], job, xs[0], s, c)
          && (Refused(rounds[0], job) ==> LoopMeets(rounds[1..], job, xs[1..], After(rounds[0], job, xs[0], s, c), c)))
  }

  /** How the loop's outcome shows in the concurrent model. */
  predicate Shows(s: Domain, c: nat, outcome: Outcome) {
    && c in s.clients
    && match outcome
       case Retrying => s.clients[c].phase == Begun
       case Exhausted => s.clients[c].phase == Dropped
       case Done(results, dev, blk) =>
         && s.clients[c].phase == Committed(results)
         && s.store.devNode.value == Some(dev) && s.store.blkNode.value == Some(blk)
  }

  /** The loop, among any other clients, is a run of the concurrent model that ends with the loop's outcome: what is
      returned are the results of the commit that went through, and what it stored is in the store. The invariant
      holds at its end, and the devices are live, or the removed one is not. */
  lemma {:induction false} LoopIsRun(rounds: seq<Round>, job: Job, xs: seq<Meanwhile>, s: Domain, c: nat,
                                     outcome: Outcome, tries: nat)
    returns (t: Trace)
    requires Inv(s) && c in s.clients && s.clients[c] == Client(job, Begun)
    requires (job.Remove? ==> InRange(job.device)) && LoopMeets(rounds, job, xs, s, c)
    requires LoopDone(job, rounds, outcome, tries)
    ensures Steps(t) && t.states[0] == s && Shows(Last(t), c, outcome) && Inv(Last(t))
    ensures outcome.Done? ==>
              if job.Add? then Elements(outcome.results) <= Last(t).live else job.device !in Last(t).live
    decreases |rounds|
  {
    hide Inv, Step, Work, Load;
    if tries == 0 {
      t := Trace([s], []);
    } else {
      var s1 := After(rounds[0], job, xs[0], s, c);
      t := RoundIsRun(rounds[0], job, xs[0], s, c);
      LeadsInv(t, s, s1);
      RoundShows(rounds[0], job, xs[0], s, c);
      if tries > 1 || outcome.Retrying? {
        assert Refused(rounds[0], job);
        LaterRounds(rounds, job, outcome, tries);
        var rest := LoopIsRun(rounds[1..], job, xs[1..], s1, c, outcome, tries - 1);
        JoinLeads(t, rest, s, s1, Last(rest));
        t := Joined(t, rest);
      }
    }
  }

  lemma LaterRounds(rounds: seq<Round>, job: Job, outcome: Outcome, tries: nat)
    requires (job.Remove? ==> InRange(job.device)) && LoopDone(job, rounds, outcome, tries)
    requires tries > 1 || (tries > 0 && outcome.Retrying?)
    ensures LoopDone(job, rounds[1..], outcome, tries - 1)
  {
    hide Refused, Work;
    forall j | 0 <= j < tries - 1 && Refused(rounds[j + 1], job)
      ensures Refused(rounds[1..][j], job)
    {
    }
  }

  /** How one round ends for its client. */
  lemma RoundShows(round: Round, job: Job, x: Meanwhile, s: Domain, c: nat)
    requires c in s.clients && s.clients[c] == Client(job, Begun)
    requires (job.Remove? ==> InRange(job.device)) && Meets(round, job, x, s, c)
    ensures var s1 := After(round, job, x, s, c);
            && c in s1.clients && s1.clients[c].job == job
            && (Work(job, Start(round)).None? ==> s1.clients[c].phase == Dropped)
            && (Refused(round, job) ==> s1.clients[c].phase == Begun)
            && (Work(job, Start(round)).Some? && round.granted ==>
                  var w := Work(job, Start(round)).value;
                  WellFormed(w.dev) && WellFormed(w.blk) ==>
                    && s1.clients[c].phase == Committed(w.results)
                    && s1.store.devNode.value == Some(DeviceIds.Serialized(w.dev))
                    && s1.store.blkNode.value == Some(DeviceIds.Serialized(w.blk))
                    && if job.Add? then Elements(w.results) <= s1.live else job.device !in s1.live)
  {
    hide Work, Load, Step, DeviceIds.Serialized;
    OthersLead(x.first, s, c);
    OthersLead(x.second, Reading(round, x, c), c);
    if Work(job, Start(round)).Some? {
      OthersLead(x.third, With(Last(x.second), c, Working(Work(job, Start(round)).value)), c);
    }
  }
}
