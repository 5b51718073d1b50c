/**
 * The input table of prepare_treatment_data.py and the passes over all its rows:
 * the cut at the 'none' placeholder, fix_format on every list column, and the
 * reconstruction loop that fills the episode table and the two diagnostic dicts.
 */
module TreatmentFrame {
  import opened Values
  import opened FieldExtraction
  import opened Truncation
  import opened Episodes
  import opened Outcomes

  /** The columns of a row that are not column lists. */
  datatype PatientInfo = PatientInfo(id: string, status: int, survival: int, attrs: Attributes)

  /** fix_format on the four column lists of a row (lines 37-48). */
  function ConvertRow(l: Lists<Cell>): Lists<Option<int>> {
    Lists(Normalise(l.time), Normalise(l.recc), Normalise(l.types), Normalise(l.resp))
  }

  /** fix_format as written returns, rather than raises, on all four lists of the row. */
  predicate Convertible(l: Lists<Cell>) {
    FixFormatAsWritten(l.time).Some? && FixFormatAsWritten(l.recc).Some? &&
    FixFormatAsWritten(l.types).Some? && FixFormatAsWritten(l.resp).Some?
  }

  predicate AllConvertible(lists: seq<Lists<Cell>>) {
    forall i :: 0 <= i < |lists| ==> Convertible(lists[i])
  }

  /** On a row where nothing raises, the conversion is exactly what fix_format as written returns. */
  lemma ConvertRowAsWritten(l: Lists<Cell>)
    requires Convertible(l)
    ensures FixFormatAsWritten(l.time) == Some(ConvertRow(l).time)
    ensures FixFormatAsWritten(l.recc) == Some(ConvertRow(l).recc)
    ensures FixFormatAsWritten(l.types) == Some(ConvertRow(l).types)
    ensures FixFormatAsWritten(l.resp) == Some(ConvertRow(l).resp)
  {
    AsWrittenAgreesWhenNoRaise(l.time);
    AsWrittenAgreesWhenNoRaise(l.recc);
    AsWrittenAgreesWhenNoRaise(l.types);
    AsWrittenAgreesWhenNoRaise(l.resp);
  }

  /** A row as the reconstruction loop reads it (lines 68-71), from converted lists. */
  function PatientWith(info: PatientInfo, c: Lists<Option<int>>): Patient {
    Patient(info.id, info.status, info.survival, info.attrs, c.time, c.recc, c.types, c.resp)
  }

  /** A row as the reconstruction loop reads it: every list passed through fix_format. */
  function PatientOf(info: PatientInfo, l: Lists<Cell>): Patient {
    PatientWith(info, ConvertRow(l))
  }

  function PatientsOf(info: seq<PatientInfo>, lists: seq<Lists<Cell>>): (ps: seq<Patient>)
    requires |info| == |lists|
    ensures |ps| == |info|
  {
    seq(|info|, i requires 0 <= i < |info| => PatientOf(info[i], lists[i]))
  }

  function TruncateAll(lists: seq<Lists<Cell>>): (r: seq<Lists<Cell>>)
    ensures |r| == |lists|
  {
    seq(|lists|, i requires 0 <= i < |lists| => TruncateRow(lists[i], Str("none")))
  }

  /** The list columns after lines 37-48: the converted lists, stored back as ints and None. */
  function ConvertAll(lists: seq<Lists<Cell>>): (r: seq<Lists<Cell>>)
    ensures |r| == |lists|
  {
    seq(|lists|, i requires 0 <= i < |lists| => LiftRow(ConvertRow(lists[i])))
  }

  /** The rows read back from the converted columns. */
  function RowsOf(info: seq<PatientInfo>, lists: seq<Lists<Cell>>): (ps: seq<Patient>)
    requires |info| == |lists|
    ensures |ps| == |info|
  {
    seq(|info|, i requires 0 <= i < |info| => PatientWith(info[i], LowerRow(lists[i])))
  }

  /** Reading the converted columns back gives the rows fix_format made of the raw ones. */
  lemma RowsOfConverted(info: seq<PatientInfo>, lists: seq<Lists<Cell>>)
    requires |info| == |lists|
    ensures RowsOf(info, ConvertAll(lists)) == PatientsOf(info, lists)
  {
    forall i | 0 <= i < |info|
      ensures RowsOf(info, ConvertAll(lists))[i] == PatientsOf(info, lists)[i]
    {
      var c := ConvertRow(lists[i]);
      LowerLift(c.time);
      LowerLift(c.recc);
      LowerLift(c.types);
      LowerLift(c.resp);
    }
  }

  /**
   * In the order of the script, the cut of lines 50-59 runs on converted columns,
   * which hold no str 'none', and changes nothing.
   */
  lemma ConvertedColumnsAreNotCut(lists: seq<Lists<Cell>>)
    ensures TruncateAll(ConvertAll(lists)) == ConvertAll(lists)
  {
    forall i | 0 <= i < |lists|
      ensures TruncateAll(ConvertAll(lists))[i] == ConvertAll(lists)[i]
    {
      ConvertedRowIsNotCut(ConvertRow(lists[i]));
    }
  }

  /** fix_format on the example row below: ints stay, the str 'none' becomes None. */
  lemma PlaceholderRowConversion()
    ensures var raw := Lists([Int(0), Int(30)], [], [Int(1), Str("none")], [Int(1), Str("none")]);
      Convertible(raw) && ConvertRow(raw) == Lists([Some(0), Some(30)], [], [Some(1), None], [Some(1), None])
  {
    var raw := Lists([Int(0), Int(30)], [], [Int(1), Str("none")], [Int(1), Str("none")]);
    NormaliseOne(Int(0));
    NormaliseOne(Int(30));
    NormaliseOne(Int(1));
    NormaliseOne(Str("none"));
    NormaliseAppend([Int(0)], [Int(30)]);
    NormaliseAppend([Int(1)], [Str("none")]);
    assert [Int(0)] + [Int(30)] == raw.time;
    assert [Int(1)] + [Str("none")] == raw.types;
    assert StepAsWritten(Int(0)) != Raise && StepAsWritten(Int(30)) != Raise;
    assert StepAsWritten(Int(1)) != Raise && StepAsWritten(Str("none")) != Raise;
  }

  /**
   * A deceased patient treated at days 0 and 30, whose second treatment type and
   * response are the str 'none'. In the order of the script the row keeps both
   * treatments, two episodes, and code -21 for the missing treatment type; cut
   * before conversion, it keeps one episode and no code.
   */
  lemma PlaceholderRowExample()
    ensures var info := PatientInfo("p", 1, 400, map[]);
      var raw := Lists([Int(0), Int(30)], [], [Int(1), Str("none")], [Int(1), Str("none")]);
      var asWritten := PatientOf(info, raw);
      var cut := PatientOf(info, TruncateRow(raw, Str("none")));
      Convertible(raw) && Reconstructible(asWritten) && |EpisodesOf(asWritten)| == 2 &&
      LostCode(asWritten.resp, asWritten.types, 2) == Some(-21) &&
      Convertible(TruncateRow(raw, Str("none"))) && Reconstructible(cut) && |EpisodesOf(cut)| == 1 &&
      LostCode(cut.resp, cut.types, 1) == None
  {
    var info := PatientInfo("p", 1, 400, map[]);
    var raw := Lists([Int(0), Int(30)], [], [Int(1), Str("none")], [Int(1), Str("none")]);
    PlaceholderRowConversion();
    var asWritten := PatientOf(info, raw);
    assert asWritten == Patient("p", 1, 400, map[], [Some(0), Some(30)], [], [Some(1), None], [Some(1), None]);
    assert Present(asWritten.time) == [0, 30];
    EpisodeCount(asWritten);
    PlaceholderCutExample();
    var cutRaw := TruncateRow(raw, Str("none"));
    assert cutRaw == Lists([Int(0)], [], [Int(1)], [Int(1)]);
    NormaliseOne(Int(0));
    NormaliseOne(Int(1));
    assert StepAsWritten(Int(0)) != Raise && StepAsWritten(Int(1)) != Raise;
    var cut := PatientOf(info, cutRaw);
    assert cut == Patient("p", 1, 400, map[], [Some(0)], [], [Some(1)], [Some(1)]);
    assert Present(cut.time) == [0];
    EpisodeCount(cut);
  }

  predicate AllReconstructible(ps: seq<Patient>) {
    forall k :: 0 <= k < |ps| ==> Reconstructible(ps[k])
  }

  /** transf_dataset: the episodes of every row, row after row. */
  function AllEpisodes(ps: seq<Patient>): seq<Episode>
    requires AllReconstructible(ps)
  {
    if ps == [] then [] else AllEpisodes(ps[..|ps| - 1]) + EpisodesOf(ps[|ps| - 1])
  }

  /** list_of_lost_times: -1 for every rejected patient (line 73). */
  function LostTimes(ps: seq<Patient>): map<string, int> {
    if ps == [] then map[]
    else
      var m := LostTimes(ps[..|ps| - 1]);
      if Rejected(ps[|ps| - 1]) then m[ps[|ps| - 1].id := -1] else m
  }

  /** list_of_lost_repsonse_treatment: the last code written for each patient (lines 97, 101). */
  function LostResponses(ps: seq<Patient>): map<string, int>
    requires AllReconstructible(ps)
  {
    if ps == [] then map[]
    else
      var m := LostResponses(ps[..|ps| - 1]);
      var p := ps[|ps| - 1];
      if Rejected(p) then m
      else
        match LostCode(p.resp, p.types, |Present(p.time)|)
        case None => m
        case Some(c) => m[p.id := c]
  }

  /** Lines 65-147 over all rows. */
  method ReconstructAll(ps: seq<Patient>) returns (rows: seq<Episode>, lostTimes: map<string, int>, lostResponses: map<string, int>)
    requires AllReconstructible(ps)
    ensures rows == AllEpisodes(ps)
    ensures lostTimes == LostTimes(ps)
    ensures lostResponses == LostResponses(ps)
  {
    rows, lostTimes, lostResponses := [], map[], map[];
    var k := 0;
    while k < |ps|
      invariant 0 <= k <= |ps|
      invariant rows == AllEpisodes(ps[..k])
      invariant lostTimes == LostTimes(ps[..k])
      invariant lostResponses == LostResponses(ps[..k])
    {
      assert ps[..k + 1][..k] == ps[..k];
      var p := ps[k];
      var eps, lostTime, lostCode := ReconstructPatient(p);
      if lostTime.Some? {
        lostTimes := lostTimes[p.id := lostTime.value];
      }
      if lostCode.Some? {
        lostResponses := lostResponses[p.id := lostCode.value];
      }
      rows := rows + eps;
      k := k + 1;
    }
    assert ps[..k] == ps;
  }

  /** A patient is in list_of_lost_times exactly when one of its rows was rejected, always with -1. */
  lemma {:induction false} LostTimesMeaning(ps: seq<Patient>, id: string)
    ensures id in LostTimes(ps) <==> exists k :: 0 <= k < |ps| && ps[k].id == id && Rejected(ps[k])
    ensures id in LostTimes(ps) ==> LostTimes(ps)[id] == -1
  {
    if ps != [] {
      var init := ps[..|ps| - 1];
      LostTimesMeaning(init, id);
      assert forall k :: 0 <= k < |init| ==> init[k] == ps[k];
    }
  }

  /** Every row of the episode table belongs to a patient that was not rejected. */
  lemma {:induction false} EpisodesComeFromAcceptedPatients(ps: seq<Patient>, e: Episode)
    requires AllReconstructible(ps)
    requires e in AllEpisodes(ps)
    ensures exists k :: 0 <= k < |ps| && !Rejected(ps[k]) && e in EpisodesOf(ps[k]) && e.id == ps[k].id
  {
    var init := ps[..|ps| - 1];
    assert AllReconstructible(init) by {
      assert forall k :: 0 <= k < |init| ==> init[k] == ps[k];
    }
    var last := ps[|ps| - 1];
    if e in AllEpisodes(init) {
      EpisodesComeFromAcceptedPatients(init, e);
      var k :| 0 <= k < |init| && !Rejected(init[k]) && e in EpisodesOf(init[k]) && e.id == init[k].id;
      assert init[k] == ps[k];
    } else {
      assert e in EpisodesOf(last);
      var i :| 0 <= i < |EpisodesOf(last)| && EpisodesOf(last)[i] == e;
      EpisodeFields(last, i);
    }
  }

  /** The number of rows of the episode table is the sum of the patients' episode counts. */
  function EpisodeTotal(ps: seq<Patient>): nat
    requires AllReconstructible(ps)
  {
    if ps == [] then 0
    else
      var p := ps[|ps| - 1];
      EpisodeTotal(ps[..|ps| - 1]) + (if Rejected(p) then 0 else |Present(p.time)| + Offset(p))
  }

  lemma {:induction false} EpisodeTableSize(ps: seq<Patient>)
    requires AllReconstructible(ps)
    ensures |AllEpisodes(ps)| == EpisodeTotal(ps)
  {
    if ps != [] {
      var init := ps[..|ps| - 1];
      assert AllReconstructible(init) by {
        assert forall k :: 0 <= k < |init| ==> init[k] == ps[k];
      }
      EpisodeTableSize(init);
      EpisodeCount(ps[|ps| - 1]);
    }
  }

  /** The input table: per row the static columns and the four list columns. */
  class Frame {
    var info: seq<PatientInfo>
    var lists: seq<Lists<Cell>>

    ghost predicate Valid()
      reads this
    {
      |info| == |lists|
    }

    constructor (info: seq<PatientInfo>, lists: seq<Lists<Cell>>)
      requires |info| == |lists|
      ensures Valid() && this.info == info && this.lists == lists
    {
      this.info := info;
      this.lists := lists;
    }

    /** Lines 37-48: fix_format on every list column, the result written back to the column. */
    method Extract()
      requires Valid() && AllConvertible(lists)
      modifies this
      ensures Valid() && info == old(info)
      ensures lists == ConvertAll(old(lists))
    {
      var i := 0;
      while i < |lists|
        invariant 0 <= i <= |lists| == |old(lists)|
        invariant info == old(info)
        invariant forall j :: 0 <= j < i ==> lists[j] == LiftRow(ConvertRow(old(lists)[j]))
        invariant forall j :: i <= j < |lists| ==> lists[j] == old(lists)[j]
      {
        var time := FixFormat(lists[i].time);
        var recc := FixFormat(lists[i].recc);
        var types := FixFormat(lists[i].types);
        var resp := FixFormat(lists[i].resp);
        lists := lists[i := LiftRow(Lists(time, recc, types, resp))];
        i := i + 1;
      }
    }

    /**
     * Lines 50-59: the three lists of a row are cut where the str 'none' first
     * appears, the response's position winning.
     */
    method TruncateAtSentinel()
      requires Valid()
      modifies this
      ensures Valid() && info == old(info)
      ensures lists == TruncateAll(old(lists))
    {
      var i := 0;
      while i < |lists|
        invariant 0 <= i <= |lists| == |old(lists)|
        invariant info == old(info)
        invariant forall j :: 0 <= j < i ==> lists[j] == TruncateRow(old(lists)[j], Str("none"))
        invariant forall j :: i <= j < |lists| ==> lists[j] == old(lists)[j]
      {
        var row := lists[i];
        var endIndex := EndIndex(row.types, row.resp, Str("none"));
        if endIndex.Some? {
          var k := endIndex.value;
          row := row.(types := Take(row.types, k));
          row := row.(resp := Take(row.resp, k));
          row := row.(time := Take(row.time, k));
          lists := lists[i := row];
        }
        i := i + 1;
      }
    }

    /**
     * The whole script in its own order: convert, cut (which finds nothing), reconstruct,
     * then the pass over the episode table. The results are those of the raw rows
     * passed through fix_format, uncut.
     */
    method Prepare() returns (table: seq<FinalRow>, lostTimes: map<string, int>, lostResponses: map<string, int>)
      requires Valid() && AllConvertible(lists)
      requires AllReconstructible(PatientsOf(info, lists))
      requires AllEpisodes(PatientsOf(info, lists)) != []
      modifies this
      ensures Valid() && info == old(info) && lists == ConvertAll(old(lists))
      ensures table == Finalize(AllEpisodes(PatientsOf(info, old(lists))))
      ensures lostTimes == LostTimes(PatientsOf(info, old(lists)))
      ensures lostResponses == LostResponses(PatientsOf(info, old(lists)))
    {
      Extract();
      TruncateAtSentinel();
      ConvertedColumnsAreNotCut(old(lists));
      RowsOfConverted(info, old(lists));
      var ps := RowsOf(info, lists);
      var rows;
      rows, lostTimes, lostResponses := ReconstructAll(ps);
      table := Finalize(rows);
    }

    /**
     * The script with the cut moved before fix_format, where the str 'none' can still
     * be seen: the results are those of the cut rows.
     */
    method PrepareCorrected() returns (table: seq<FinalRow>, lostTimes: map<string, int>, lostResponses: map<string, int>)
      requires Valid() && AllConvertible(TruncateAll(lists))
      requires AllReconstructible(PatientsOf(info, TruncateAll(lists)))
      requires AllEpisodes(PatientsOf(info, TruncateAll(lists))) != []
      modifies this
      ensures Valid() && info == old(info) && lists == ConvertAll(TruncateAll(old(lists)))
      ensures table == Finalize(AllEpisodes(PatientsOf(info, TruncateAll(old(lists)))))
      ensures lostTimes == LostTimes(PatientsOf(info, TruncateAll(old(lists))))
      ensures lostResponses == LostResponses(PatientsOf(info, TruncateAll(old(lists))))
    {
      TruncateAtSentinel();
      ghost var cut := lists;
      Extract();
      RowsOfConverted(info, cut);
      var ps := RowsOf(info, lists);
      var rows;
      rows, lostTimes, lostResponses := ReconstructAll(ps);
      table := Finalize(rows);
    }
  }
}
