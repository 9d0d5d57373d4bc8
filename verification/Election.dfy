// scheduleController_getActiveSchedule: which of a controller's schedules is in
// charge. A schedule is named by its position in the scheduler's list.
module Election {
  import opened Types
  import opened ScheduleSpec

  /** Member `a` outranks member `b`: higher priority, or equal priority and later start. */
  predicate Outranks(a: Sched, b: Sched) {
    a.prio > b.prio || (a.prio == b.prio && a.startTime > b.startTime)
  }

  predicate MembersExist(ss: seq<Sched>, members: seq<nat>) {
    forall p :: 0 <= p < |members| ==> members[p] < |ss|
  }

  /** One round of the election loop. */
  function Consider(ss: seq<Sched>, best: Option<nat>, m: nat): Option<nat>
    requires m < |ss| && (best.Some? ==> best.value < |ss|)
  {
    if ss[m].state == Running && (best.None? || Outranks(ss[m], ss[best.value])) then Some(m) else best
  }

  function Elect(ss: seq<Sched>, members: seq<nat>): (r: Option<nat>)
    requires MembersExist(ss, members)
    ensures r.Some? ==> r.value in members && r.value < |ss| && ss[r.value].state == Running
  {
    if members == [] then None
    else Consider(ss, Elect(ss, members[..|members| - 1]), members[|members| - 1])
  }

  /**
    * The definition the program has to meet: the member at position p runs, no
    * running member outranks it, and it outranks every running member listed
    * before it.
    */
  ghost predicate IsFirstMaximum(ss: seq<Sched>, members: seq<nat>, p: int)
    requires MembersExist(ss, members)
  {
    && 0 <= p < |members|
    && ss[members[p]].state == Running
    && (forall q :: 0 <= q < |members| && ss[members[q]].state == Running
          ==> !Outranks(ss[members[q]], ss[members[p]]))
    && (forall q :: 0 <= q < p && ss[members[q]].state == Running
          ==> Outranks(ss[members[p]], ss[members[q]]))
  }

  ghost predicate NoneRuns(ss: seq<Sched>, members: seq<nat>)
    requires MembersExist(ss, members)
  {
    forall q :: 0 <= q < |members| ==> ss[members[q]].state != Running
  }

  /** The election finds the first lexicographic maximum of (priority, start time), if anything runs. */
  lemma {:induction false} ElectFindsMaximum(ss: seq<Sched>, members: seq<nat>) returns (p: int)
    requires MembersExist(ss, members)
    ensures Elect(ss, members).None? <==> NoneRuns(ss, members)
    ensures Elect(ss, members).None? <==> p == -1
    ensures Elect(ss, members).Some? ==> IsFirstMaximum(ss, members, p) && Elect(ss, members) == Some(members[p])
  {
    p := -1;
    if members != [] {
      var n := |members| - 1;
      var before := members[..n];
      p := ElectFindsMaximum(ss, before);
      assert forall q :: 0 <= q < n ==> before[q] == members[q];
      if ss[members[n]].state == Running && (p == -1 || Outranks(ss[members[n]], ss[members[p]])) {
        p := n;
      }
    }
  }

  /** There is only one first maximum, so the election is determined by the definition. */
  lemma {:induction false} FirstMaximumUnique(ss: seq<Sched>, members: seq<nat>, p: int)
    requires MembersExist(ss, members) && IsFirstMaximum(ss, members, p)
    ensures Elect(ss, members) == Some(members[p])
  {
    var q := ElectFindsMaximum(ss, members);
    assert q == p;
  }

  /** What an election depends on. */
  predicate SameCandidate(a: Sched, b: Sched) {
    && (a.state == Running <==> b.state == Running)
    && (a.state == Running ==> a.prio == b.prio && a.startTime == b.startTime)
  }

  lemma {:induction false} ElectCongruence(ss: seq<Sched>, tt: seq<Sched>, members: seq<nat>)
    requires |ss| == |tt| && MembersExist(ss, members)
    requires forall p :: 0 <= p < |members| ==> SameCandidate(ss[members[p]], tt[members[p]])
    ensures Elect(ss, members) == Elect(tt, members)
  {
    if members != [] {
      ElectCongruence(ss, tt, members[..|members| - 1]);
    }
  }
}
