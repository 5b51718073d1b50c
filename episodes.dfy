/**
 * Reconstruction of one patient's treatment episodes
 * (prepare_treatment_data.py, lines 65-147).
 */
module Episodes {
  import opened Values
  import opened FieldExtraction

  /** The static columns copied unchanged from the patient's row into every episode. */
  type Attributes = map<string, string>

  /** One patient's row after fix_format: the static columns and the four column lists. */
  datatype Patient = Patient(
    id: string,
    status: int,        // int(row['status']): 1 for a deceased patient
    survival: int,      // survival_in_days
    attrs: Attributes,
    time: seq<Option<int>>,
    recc: seq<Option<int>>,
    types: seq<Option<int>>,
    resp: seq<Option<int>>)

  /** One row of the episode table. */
  datatype Episode = Episode(
    tindex: int,
    tnum: nat,
    group: int,
    time: int,
    recc: int,
    response: Option<int>,
    treatment: Option<int>,
    status: int,
    dft: Option<int>,
    id: string,
    attrs: Attributes)

  /** Treatment times below this value mark a record with bad data. */
  const BadTimeFloor := -5000

  /** Line 72: some present treatment time lies strictly below the floor. */
  predicate Rejected(p: Patient) {
    var d := Present(p.time);
    exists i :: 0 <= i < |d| && d[i] < BadTimeFloor
  }

  /**
   * The inputs on which lines 65-147 raise no exception: d[0] needs a present
   * treatment time (line 76); the response and treatment-type lists are read at
   * every position of d (lines 89, 93); and for a patient who is not deceased
   * rt[i] is read for every i of d without being extended (line 137).
   */
  predicate Reconstructible(p: Patient) {
    var d := Present(p.time);
    |d| > 0 &&
    (Rejected(p) ||
     (|d| <= |p.resp| && |d| <= |p.types| && (p.status == 1 || |d| <= |Present(p.recc)|)))
  }

  /** Whether the implicit baseline episode at time 0 is inserted (line 103). */
  predicate HasBaseline(p: Patient)
    requires |Present(p.time)| > 0
  {
    Present(p.time)[0] > 0
  }

  /** The aligned lists the episode loop walks: times, recurrences, responses, treatment types. */
  datatype Axis = Axis(d: seq<int>, rt: seq<int>, resp: seq<Option<int>>, treat: seq<Option<int>>)

  /** Lines 66-110: filter the times, take the responses and types at the same positions, add the baseline. */
  function Align(p: Patient): (a: Axis)
    requires Reconstructible(p) && !Rejected(p)
    ensures |a.d| == |a.resp| == |a.treat| > 0
    ensures p.status == 1 || |a.d| <= |a.rt|
    ensures a.d[0] <= 0
  {
    var d := Present(p.time);
    var rt := Present(p.recc);
    if d[0] > 0 then Axis([0] + d, [0] + rt, [None] + p.resp[..|d|], [None] + p.types[..|d|])
    else Axis(d, rt, p.resp[..|d|], p.types[..|d|])
  }

  /** Lines 129-134: the treatment group of an episode from its running count. */
  function Group(tnum: int): (g: int)
    ensures 1 <= g <= 3
  {
    if tnum == 1 then 1 else if 1 < tnum < 4 then 2 else 3
  }

  /** The number of present entries, counted from the front as the loop does. */
  function CountPresent(s: seq<Option<int>>): (n: nat)
    ensures n <= |s|
  {
    if s == [] then 0 else CountPresent(s[..|s| - 1]) + (if s[|s| - 1].Some? then 1 else 0)
  }

  /**
   * The disease-free time of episode i: up to the recurrence after the next
   * position of rt, else up to death, else censored.
   */
  function DiseaseFreeTime(p: Patient, a: Axis, i: nat): Option<int>
    requires i < |a.d|
  {
    if i + 1 < |a.rt| then Some(a.rt[i + 1] - a.d[i])
    else if p.status == 1 then Some(p.survival - a.d[i])
    else None
  }

  /** recc_time of episode i: rt[i], or the survival time that line 120 appended. */
  function RecurrenceTime(p: Patient, a: Axis, i: nat): int
    requires i < |a.rt| || p.status == 1
  {
    if i < |a.rt| then a.rt[i] else p.survival
  }

  predicate AxisFits(p: Patient, a: Axis) {
    |a.d| == |a.resp| == |a.treat| && (p.status == 1 || |a.d| <= |a.rt|)
  }

  function EpisodeAt(p: Patient, a: Axis, i: nat): Episode
    requires AxisFits(p, a) && i < |a.d|
  {
    var tnum := CountPresent(a.resp[..i + 1]);
    Episode(i + 1, tnum, Group(tnum), a.d[i], RecurrenceTime(p, a, i), a.resp[i], a.treat[i],
            p.status, DiseaseFreeTime(p, a, i), p.id, p.attrs)
  }

  /** The episodes a patient contributes to the table. */
  function EpisodesOf(p: Patient): (eps: seq<Episode>)
    requires Reconstructible(p)
    ensures Rejected(p) ==> eps == []
    ensures !Rejected(p) ==> |eps| > 0 && eps[0].time <= 0
    ensures forall i :: 0 <= i < |eps| ==> eps[i].tindex == i + 1 && eps[i].id == p.id && eps[i].status == p.status
  {
    if Rejected(p) then []
    else
      var a := Align(p);
      seq(|a.d|, i requires 0 <= i < |a.d| => EpisodeAt(p, a, i))
  }

  /**
   * The code lines 96-101 store for the patient: -30 - i for an absent response
   * and -20 - i for an absent treatment type, the later write winning.
   */
  function LostCode(resp: seq<Option<int>>, types: seq<Option<int>>, n: nat): Option<int>
    requires n <= |resp| && n <= |types|
  {
    if n == 0 then None
    else if types[n - 1].None? then Some(-20 - (n - 1))
    else if resp[n - 1].None? then Some(-30 - (n - 1))
    else LostCode(resp, types, n - 1)
  }

  /** Lines 84-102: the responses and treatment types at the positions of d, and the lost-response code. */
  method CollectLists(p: Patient, n: nat) returns (respList: seq<Option<int>>, treatList: seq<Option<int>>, lostCode: Option<int>)
    requires n <= |p.resp| && n <= |p.types|
    ensures respList == p.resp[..n] && treatList == p.types[..n]
    ensures lostCode == LostCode(p.resp, p.types, n)
  {
    respList, treatList, lostCode := [], [], None;
    var i := 0;
    while i < n
      invariant 0 <= i <= n
      invariant respList == p.resp[..i] && treatList == p.types[..i]
      invariant lostCode == LostCode(p.resp, p.types, i)
    {
      var resp := p.resp[i];
      var treat := p.types[i];
      if resp.None? {
        lostCode := Some(-3 * 10 - i);
      }
      respList := respList + [resp];
      if treat.None? {
        lostCode := Some(-2 * 10 - i);
      }
      treatList := treatList + [treat];
      i := i + 1;
    }
  }

  /** Lines 114-147: one episode per entry of the aligned time axis; rt grows by the survival time. */
  method EmitEpisodes(p: Patient, a: Axis) returns (eps: seq<Episode>)
    requires AxisFits(p, a)
    ensures |eps| == |a.d|
    ensures forall i :: 0 <= i < |a.d| ==> eps[i] == EpisodeAt(p, a, i)
  {
    var d, rt, respList, treatList := a.d, a.rt, a.resp, a.treat;
    var tnum := 0;
    eps := [];
    var i := 0;
    while i < |d|
      invariant 0 <= i <= |d|
      invariant |a.rt| <= |rt| && rt[..|a.rt|] == a.rt
      invariant forall j :: |a.rt| <= j < |rt| ==> rt[j] == p.survival
      invariant p.status != 1 ==> |rt| == |a.rt|
      invariant p.status == 1 ==> i <= |rt|
      invariant |rt| <= |a.rt| || |rt| <= i + 1
      invariant tnum == CountPresent(respList[..i])
      invariant |eps| == i && forall j :: 0 <= j < i ==> eps[j] == EpisodeAt(p, a, j)
    {
      var dft: Option<int>;
      if |rt| <= i + 1 {
        if p.status == 1 {
          dft := Some(p.survival - d[i]);
          rt := rt + [p.survival];
        } else {
          dft := None;
        }
      } else {
        dft := Some(rt[i + 1] - d[i]);
      }
      var treat := treatList[i];
      var resp := respList[i];
      if resp.Some? {
        tnum := tnum + 1;
      }
      assert respList[..i + 1][..i] == respList[..i];
      eps := eps + [Episode(i + 1, tnum, Group(tnum), d[i], rt[i], resp, treat, p.status, dft, p.id, p.attrs)];
      i := i + 1;
    }
  }

  /** Lines 65-147 for one row: the episodes, the lost-time entry and the lost-response entry. */
  method ReconstructPatient(p: Patient) returns (eps: seq<Episode>, lostTime: Option<int>, lostCode: Option<int>)
    requires Reconstructible(p)
    ensures eps == EpisodesOf(p)
    ensures lostTime == if Rejected(p) then Some(-1) else None
    ensures lostCode == if Rejected(p) then None else LostCode(p.resp, p.types, |Present(p.time)|)
  {
    var d := Present(p.time);
    var rt := Present(p.recc);
    if Rejected(p) {
      return [], Some(-1), None;
    }
    // d holds no absent entry, so the test of line 76 never skips, the gap test of
    // line 85 never holds and the test of line 87 always does.
    var respList, treatList;
    respList, treatList, lostCode := CollectLists(p, |d|);
    lostTime := None;
    if d[0] > 0 {
      d := [0] + d;
      rt := [0] + rt;
    }
    // The two lists grow in lockstep: the RuntimeError of line 107 cannot be raised.
    assert |respList| == |treatList|;
    if |d| > |respList| {
      respList := [None] + respList;
      treatList := [None] + treatList;
    }
    assert Axis(d, rt, respList, treatList) == Align(p);
    eps := EmitEpisodes(p, Axis(d, rt, respList, treatList));
  }

  /** How far the aligned axis is shifted by the baseline episode. */
  function Offset(p: Patient): nat
    requires |Present(p.time)| > 0
  {
    if HasBaseline(p) then 1 else 0
  }

  /** One episode per present treatment time, plus the baseline; none for a rejected patient. */
  lemma EpisodeCount(p: Patient)
    requires Reconstructible(p)
    ensures |EpisodesOf(p)| == if Rejected(p) then 0 else |Present(p.time)| + Offset(p)
  {
  }

  /** tindex numbers the episodes from 1; status, patient and static columns are copied. */
  lemma EpisodeFields(p: Patient, i: nat)
    requires Reconstructible(p) && i < |EpisodesOf(p)|
    ensures var e := EpisodesOf(p)[i];
      e.tindex == i + 1 && e.group == Group(e.tnum) &&
      e.status == p.status && e.id == p.id && e.attrs == p.attrs
  {
  }

  /** The first episode starts at or before time 0; the inserted baseline is empty. */
  lemma BaselineEpisode(p: Patient)
    requires Reconstructible(p) && !Rejected(p)
    ensures EpisodesOf(p)[0].time <= 0
    ensures HasBaseline(p) ==>
      var e := EpisodesOf(p)[0];
      e.time == 0 && e.recc == 0 && e.response == None && e.treatment == None &&
      e.tnum == 0 && e.group == 3
  {
    var a := Align(p);
    assert EpisodesOf(p)[0] == EpisodeAt(p, a, 0);
    assert a.resp[..1] == [a.resp[0]];
  }

  /**
   * Episode i (after the baseline) takes the i-th present treatment time and the
   * response, treatment type and recurrence time at that same position of their
   * own lists.
   */
  lemma EpisodeTakesSamePosition(p: Patient, i: nat)
    requires Reconstructible(p) && !Rejected(p)
    requires Offset(p) <= i < |EpisodesOf(p)|
    ensures var e := EpisodesOf(p)[i];
      var k := i - Offset(p);
      var rt := Present(p.recc);
      e.time == Present(p.time)[k] && e.response == p.resp[k] && e.treatment == p.types[k] &&
      e.recc == (if k < |rt| then rt[k] else p.survival)
  {
    var a := Align(p);
    assert EpisodesOf(p)[i] == EpisodeAt(p, a, i);
  }

  /** tnum grows by one exactly on the episodes that carry a response. */
  lemma TnumCounts(p: Patient, i: nat)
    requires Reconstructible(p) && i < |EpisodesOf(p)|
    ensures var eps := EpisodesOf(p);
      eps[i].tnum == (if i == 0 then 0 else eps[i - 1].tnum) + (if eps[i].response.Some? then 1 else 0)
  {
    var a := Align(p);
    var eps := EpisodesOf(p);
    assert eps[i] == EpisodeAt(p, a, i);
    if i > 0 {
      assert eps[i - 1] == EpisodeAt(p, a, i - 1);
      assert a.resp[..i + 1][..i] == a.resp[..i];
    }
  }

  /** tnum never decreases along a patient's episodes. */
  lemma {:induction false} TnumMonotone(p: Patient, i: nat, j: nat)
    requires Reconstructible(p) && i <= j < |EpisodesOf(p)|
    ensures EpisodesOf(p)[i].tnum <= EpisodesOf(p)[j].tnum
  {
    if i < j {
      TnumMonotone(p, i, j - 1);
      TnumCounts(p, j);
    }
  }

  /** tnum is the number of episodes so far that carry a response. */
  lemma TnumIsResponsesSoFar(p: Patient, i: nat)
    requires Reconstructible(p) && i < |EpisodesOf(p)|
    ensures EpisodesOf(p)[i].tnum <= EpisodesOf(p)[i].tindex
    ensures EpisodesOf(p)[i].tnum == |Present(Align(p).resp[..i + 1])|
  {
    var a := Align(p);
    assert EpisodesOf(p)[i] == EpisodeAt(p, a, i);
    CountPresentIsPresentLength(a.resp[..i + 1]);
  }

  /** Counting from the front agrees with filtering the absent entries out. */
  lemma {:induction false} CountPresentIsPresentLength(s: seq<Option<int>>)
    ensures CountPresent(s) == |Present(s)|
  {
    if s != [] {
      var init := s[..|s| - 1];
      CountPresentIsPresentLength(init);
      assert s == init + [s[|s| - 1]];
      PresentAppend(init, [s[|s| - 1]]);
    }
  }

  /** The group thresholds of lines 129-134. */
  lemma GroupThresholds(t: int)
    ensures Group(t) == 1 <==> t == 1
    ensures Group(t) == 2 <==> 2 <= t <= 3
    ensures Group(t) == 3 <==> t <= 0 || 4 <= t
  {
  }

  /** From the first response on, the group never decreases; before it (tnum 0) the group is 3. */
  lemma GroupOrder(s: int, t: int)
    requires 1 <= s <= t
    ensures Group(s) <= Group(t)
    ensures Group(0) == 3 > Group(1)
  {
  }

  /** Every episode but the last runs until the next episode's recurrence time. */
  lemma DftChainsToNextEpisode(p: Patient, i: nat)
    requires Reconstructible(p) && i + 1 < |EpisodesOf(p)|
    ensures EpisodesOf(p)[i].dft == Some(EpisodesOf(p)[i + 1].recc - EpisodesOf(p)[i].time)
  {
    var a := Align(p);
    assert EpisodesOf(p)[i] == EpisodeAt(p, a, i);
    assert EpisodesOf(p)[i + 1] == EpisodeAt(p, a, i + 1);
  }

  /**
   * The last episode runs until the recurrence time after the last treatment's
   * position, else until death; a living patient without one is censored.
   */
  lemma LastEpisodeDft(p: Patient)
    requires Reconstructible(p) && !Rejected(p)
    ensures var eps := EpisodesOf(p);
      var last := eps[|eps| - 1];
      var d := Present(p.time);
      var rt := Present(p.recc);
      last.dft == if |d| < |rt| then Some(rt[|d|] - last.time)
                  else if p.status == 1 then Some(p.survival - last.time)
                  else None
  {
    var a := Align(p);
    var eps := EpisodesOf(p);
    assert eps[|eps| - 1] == EpisodeAt(p, a, |a.d| - 1);
  }

  /** Only the last episode of a patient who is not deceased can be censored. */
  lemma CensoredOnlyAtEnd(p: Patient, i: nat)
    requires Reconstructible(p) && i < |EpisodesOf(p)|
    ensures EpisodesOf(p)[i].dft.None? <==>
      p.status != 1 && i == |EpisodesOf(p)| - 1 && |Present(p.recc)| <= |Present(p.time)|
  {
    var a := Align(p);
    assert EpisodesOf(p)[i] == EpisodeAt(p, a, i);
  }

  /** The lost-response code names the last position with a gap, the treatment type winning. */
  lemma {:induction false} LostCodeMeaning(resp: seq<Option<int>>, types: seq<Option<int>>, n: nat)
    requires n <= |resp| && n <= |types|
    ensures LostCode(resp, types, n).None? <==>
      forall j :: 0 <= j < n ==> resp[j].Some? && types[j].Some?
    ensures LostCode(resp, types, n).Some? ==>
      exists j :: 0 <= j < n && (resp[j].None? || types[j].None?) &&
        LostCode(resp, types, n).value == (if types[j].None? then -20 - j else -30 - j) &&
        forall j' :: j < j' < n ==> resp[j'].Some? && types[j'].Some?
  {
    if n > 0 {
      LostCodeMeaning(resp, types, n - 1);
      if types[n - 1].Some? && resp[n - 1].Some? && LostCode(resp, types, n).Some? {
        var j :| 0 <= j < n - 1 && (resp[j].None? || types[j].None?) &&
          LostCode(resp, types, n - 1).value == (if types[j].None? then -20 - j else -30 - j) &&
          forall j' :: j < j' < n - 1 ==> resp[j'].Some? && types[j'].Some?;
        assert forall j' :: j < j' < n ==> resp[j'].Some? && types[j'].Some?;
      }
    }
  }

  /**
   * A living patient with treatment times 0 and 100, one recurrence at 250 and
   * 400 days of survival makes line 137 read rt[1] of a one-element list.
   */
  lemma LivingExampleRaises()
    ensures !Reconstructible(Patient("p", 0, 400, map[], [Some(0), Some(100)], [None, Some(250)],
                                     [Some(1), Some(2)], [Some(0), Some(1)]))
  {
    var p := Patient("p", 0, 400, map[], [Some(0), Some(100)], [None, Some(250)],
                     [Some(1), Some(2)], [Some(0), Some(1)]);
    assert Present(p.time) == [0, 100];
    assert Present(p.recc) == [250];
  }

  /**
   * The same patient, deceased: the first episode runs to death (400 days), not to
   * the recurrence at 250, because it reads rt[i + 1].
   */
  lemma DeceasedExample()
    ensures EpisodesOf(Patient("p", 1, 400, map[], [Some(0), Some(100)], [None, Some(250)],
                               [Some(1), Some(2)], [Some(0), Some(1)]))
         == [Episode(1, 1, 1, 0, 250, Some(0), Some(1), 1, Some(400), "p", map[]),
             Episode(2, 2, 2, 100, 400, Some(1), Some(2), 1, Some(300), "p", map[])]
  {
    var p := Patient("p", 1, 400, map[], [Some(0), Some(100)], [None, Some(250)],
                     [Some(1), Some(2)], [Some(0), Some(1)]);
    assert Present(p.time) == [0, 100];
    assert Present(p.recc) == [250];
    var a := Align(p);
    assert a == Axis([0, 100], [250], [Some(0), Some(1)], [Some(1), Some(2)]);
    assert a.resp[..1] == [Some(0)];
    assert a.resp[..2] == [Some(0), Some(1)];
    assert CountPresent([Some(0), Some(1)]) == 2;
  }
}
