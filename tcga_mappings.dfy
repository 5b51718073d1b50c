/**
 * The per-cell column mappings of prepare_tcga_data.py: group renaming, race
 * bucketing, the p16/status/smoking/alcohol flags, the survival fill, toint and
 * the survival filter.
 */
module TcgaMappings {
  import opened Values

  /**
   * apply_group_rename: the first key, in dict order, whose list holds x; None
   * when no list does. A dict is a sequence of (key, values) pairs in insertion order.
   */
  function ApplyGroupRename<K, V(==)>(x: V, groups: seq<(K, seq<V>)>): (r: Option<K>)
    ensures r.None? <==> forall k :: 0 <= k < |groups| ==> x !in groups[k].1
    ensures r.Some? ==> exists k :: 0 <= k < |groups| && r.value == groups[k].0 && x in groups[k].1 &&
                                    forall j :: 0 <= j < k ==> x !in groups[j].1
  {
    if groups == [] then None
    else if x in groups[0].1 then Some(groups[0].0)
    else
      var r := ApplyGroupRename(x, groups[1..]);
      assert forall k :: 1 <= k < |groups| ==> groups[k] == groups[1..][k - 1];
      r
  }

  /** No value is listed under two keys. */
  predicate Disjoint<K, V(==)>(groups: seq<(K, seq<V>)>) {
    forall i, j :: 0 <= i < j < |groups| ==> forall v :: v in groups[i].1 ==> v !in groups[j].1
  }

  /** With disjoint lists the order of the dict does not matter: x gets the key of the list holding it. */
  lemma RenameDisjoint<K, V>(x: V, groups: seq<(K, seq<V>)>, k: nat)
    requires Disjoint(groups)
    requires k < |groups| && x in groups[k].1
    ensures ApplyGroupRename(x, groups) == Some(groups[k].0)
  {
    var r := ApplyGroupRename(x, groups);
    var k' :| 0 <= k' < |groups| && r.value == groups[k'].0 && x in groups[k'].1 &&
              forall j :: 0 <= j < k' ==> x !in groups[j].1;
    if k' != k {
      assert false;
    }
  }

  /** diagnosis_groups_dict (lines 56-60). */
  function DiagnosisGroups(): seq<(string, seq<Cell>)> {
    [("Oral Cavity", [Str("Oral Tongue"), Str("Floor of mouth"), Str("Buccal Mucosa"),
                      Str("Alveolar Ridge"), Str("Hard Palate"), Str("Oral Cavity"), Str("Lip")]),
     ("Oropharynx", [Str("Base of tongue"), Str("Tonsil"), Str("Oropharynx")]),
     ("Hypopharynx", [Str("Hypopharynx")]),
     ("Larynx", [Str("Larynx")])]
  }

  /** stage_groups_dict (line 62). */
  function StageGroups(): seq<(int, seq<Cell>)> {
    [(1, [Str("Stage I")]), (2, [Str("Stage II")]), (3, [Str("Stage III")]),
     (4, [Str("Stage IV"), Str("Stage IVA"), Str("Stage IVB"), Str("Stage IVC")])]
  }

  /** vi_dict (line 63). */
  function ViGroups(): seq<(string, seq<Cell>)> {
    [("Y", [Str("YES")]), ("N", [Str("NO")]), ("Unknown", [Str("NA")])]
  }

  /** The lists of stage_groups_dict share no value. */
  lemma StageGroupsDisjoint()
    ensures Disjoint(StageGroups())
  {
  }

  /** Every sub-stage of stage IV becomes 4; a stage the dict does not list becomes None. */
  lemma StageGroupsExamples()
    ensures ApplyGroupRename(Str("Stage IVB"), StageGroups()) == Some(4)
    ensures ApplyGroupRename(Str("Stage III"), StageGroups()) == Some(3)
  {
    StageGroupsDisjoint();
    RenameDisjoint(Str("Stage IVB"), StageGroups(), 3);
    RenameDisjoint(Str("Stage III"), StageGroups(), 2);
  }

  lemma StageGroupsMissing()
    ensures ApplyGroupRename(Str("[Not Available]"), StageGroups()) == None
  {
  }

  lemma StageGroupsNaN()
    ensures ApplyGroupRename(NaN, StageGroups()) == None
  {
  }

  /** A tonsil tumour is oropharyngeal; an unlisted site gets no cancer type. */
  lemma DiagnosisGroupsExamples()
    ensures ApplyGroupRename(Str("Tonsil"), DiagnosisGroups()) == Some("Oropharynx")
    ensures ApplyGroupRename(Str("Lip"), DiagnosisGroups()) == Some("Oral Cavity")
    ensures ApplyGroupRename(Str("Nasal Cavity"), DiagnosisGroups()) == None
  {
    var g := DiagnosisGroups();
    assert Str("Tonsil") in g[1].1 && Str("Tonsil") !in g[0].1;
    assert Str("Lip") in g[0].1;
  }

  /** The 'NA' string maps to 'Unknown', while a missing cell maps to None. */
  lemma ViGroupsExamples()
    ensures ApplyGroupRename(Str("NA"), ViGroups()) == Some("Unknown")
    ensures ApplyGroupRename(Str("YES"), ViGroups()) == Some("Y")
    ensures ApplyGroupRename(NaN, ViGroups()) == None
  {
    var g := ViGroups();
    assert Str("NA") in g[2].1 && Str("NA") !in g[0].1 && Str("NA") !in g[1].1;
    assert Str("YES") in g[0].1;
  }

  /** race_group (lines 72-80); pd.isnull holds for None and NaN. */
  function RaceGroup(x: Cell): (r: string)
    ensures r in {"white", "black", "Unknown", "other"}
    ensures IsNA(x) ==> r == "Unknown"
  {
    if x == Str("WHITE") then "white"
    else if x == Str("BLACK OR AFRICAN AMERICAN") then "black"
    else if x == Str("") || IsNA(x) then "Unknown"
    else "other"
  }

  lemma RaceGroupCases(x: Cell)
    ensures RaceGroup(x) in {"white", "black", "Unknown", "other"}
    ensures RaceGroup(x) == "white" <==> x == Str("WHITE")
    ensures RaceGroup(x) == "black" <==> x == Str("BLACK OR AFRICAN AMERICAN")
    ensures RaceGroup(x) == "Unknown" <==> x == Str("") || x == Null || x == NaN
  {
  }

  /**
   * Lines 39-40: the missing cells are filled with False first, and False is not
   * the str 'Positive'.
   */
  function P16(x: Cell): char {
    var filled := if IsNA(x) then None else Some(x);
    if filled == Some(Str("Positive")) then 'Y' else 'N'
  }

  /** Line 50. */
  function IsDead(x: Cell): bool {
    x == Str("Dead")
  }

  /** Line 87. */
  function Smoking(x: Cell): int {
    if x == Str("smoker") then 1 else 0
  }

  /** Line 88: missing when the history is neither 'YES' nor 'NO'. */
  function Alcohol(x: Cell): Option<int> {
    if x == Str("YES") then Some(1) else if x == Str("NO") then Some(0) else None
  }

  /** p16 is 'Y' exactly for 'Positive', a missing cell included among the 'N's. */
  lemma P16Cases(x: Cell)
    ensures P16(x) in {'Y', 'N'}
    ensures P16(x) == 'Y' <==> x == Str("Positive")
    ensures IsNA(x) ==> P16(x) == 'N'
  {
  }

  lemma StatusCases(x: Cell)
    ensures IsDead(x) <==> x == Str("Dead")
    ensures IsDead(Str("DEAD")) == false
  {
  }

  /** smoking is a 0/1 flag; alcohol is 1, 0 or missing. */
  lemma HabitCases(x: Cell)
    ensures Smoking(x) in {0, 1} && (Smoking(x) == 1 <==> x == Str("smoker"))
    ensures Alcohol(x) == Some(1) <==> x == Str("YES")
    ensures Alcohol(x) == Some(0) <==> x == Str("NO")
    ensures Alcohol(x).None? <==> x != Str("YES") && x != Str("NO")
  {
  }

  /**
   * Lines 46-47: death_days_to, filled from last_contact_days_to where missing,
   * then the str '0' replaced by the str '1'. A number 0 is not the str '0'.
   */
  function SurvivalCell(death: Cell, lastContact: Cell): (r: Cell) {
    var filled := if IsNA(death) then lastContact else death;
    if filled == Str("0") then Str("1") else filled
  }

  /** toint (lines 129-133): int(), and -1 on any exception. */
  function ToInt(x: Cell): (r: int)
    ensures PyInt(x) == Converted(r) || (r == -1 && !PyInt(x).Converted?)
  {
    match PyInt(x)
    case Converted(n) => n
    case _ => -1
  }

  lemma ToIntCases(x: Cell)
    ensures PyInt(x).Converted? ==> ToInt(x) == PyInt(x).n
    ensures x == Null || x == NaN ==> ToInt(x) == -1
    ensures x.Str? && ParseInt(x.s).None? ==> ToInt(x) == -1
  {
  }

  /** toint reads back every integer written in decimal. */
  lemma ToIntShowInt(n: int)
    ensures ToInt(Str(ShowInt(n))) == n
  {
    ParseShowInt(n);
  }

  /** The survival column after the fill, the replacement and toint (line 134). */
  function SurvivalInDays(death: Cell, lastContact: Cell): (r: int)
    ensures r == -1 || PyInt(if IsNA(death) then lastContact else death) == Converted(r) || r == 1
    ensures r == 0 ==> (if IsNA(death) then lastContact else death) != Str("0")
  {
    ToInt(SurvivalCell(death, lastContact))
  }

  /**
   * The death day is used when present, the last contact otherwise; a recorded
   * '0' days survives the filter as 1 day; an unreadable value becomes -1.
   */
  lemma SurvivalInDaysCases(death: Cell, lastContact: Cell, n: int)
    ensures !IsNA(death) && death != Str("0") ==> SurvivalInDays(death, lastContact) == ToInt(death)
    ensures IsNA(death) && lastContact != Str("0") ==> SurvivalInDays(death, lastContact) == ToInt(lastContact)
    ensures death == Str(ShowInt(n)) && n != 0 ==> SurvivalInDays(death, lastContact) == n
    ensures death == Str("0") || (IsNA(death) && lastContact == Str("0")) ==> SurvivalInDays(death, lastContact) == 1
    ensures death == Str("[Not Applicable]") ==> SurvivalInDays(death, lastContact) == -1
  {
    ToIntShowInt(n);
    assert ShowInt(n) != "0" ==> Str(ShowInt(n)) != Str("0");
    if n != 0 {
      assert ParseInt(ShowInt(n)) == Some(n);
      assert ShowInt(n) != "0";
    }
    assert ToInt(Str("1")) == 1 by {
      assert ParseInt("1") == Some(1);
    }
    assert !IsDigit('[');
  }

  /** A survival read as the number 0 is not replaced, so the row is dropped. */
  lemma NumericZeroIsDropped()
    ensures SurvivalInDays(Int(0), NaN) == 0
    ensures SurvivalInDays(Float(0.0), NaN) == 0
  {
  }

  /** A clinical record: the raw cells the mappings read. */
  datatype ClinicalRecord = ClinicalRecord(
    barcode: string, race: Cell, organ: Cell, stage: Cell, lvi: Cell, pni: Cell,
    hpv: Cell, vital: Cell, tobacco: Cell, alcoholHistory: Cell, death: Cell, lastContact: Cell)

  /** A row of the output table, without the age level and the gene columns. */
  datatype ClinicalRow = ClinicalRow(
    barcode: string, race: string, cancerType: Option<string>, anatomicStage: Option<int>,
    lvi: Option<string>, pni: Option<string>, p16: char, status: bool,
    smoking: int, alcohol: Option<int>, survival: int)

  /** Lines 39-88 and 134, one record at a time. */
  function DeriveRow(rec: ClinicalRecord): (r: ClinicalRow)
    ensures r.barcode == rec.barcode
    ensures r.p16 in {'Y', 'N'} && r.smoking in {0, 1} && r.race in {"white", "black", "Unknown", "other"}
    ensures r.status <==> rec.vital == Str("Dead")
    ensures r.anatomicStage.Some? ==> 1 <= r.anatomicStage.value <= 4
  {
    ClinicalRow(rec.barcode, RaceGroup(rec.race),
                ApplyGroupRename(rec.organ, DiagnosisGroups()),
                ApplyGroupRename(rec.stage, StageGroups()),
                ApplyGroupRename(rec.lvi, ViGroups()),
                ApplyGroupRename(rec.pni, ViGroups()),
                P16(rec.hpv), IsDead(rec.vital), Smoking(rec.tobacco), Alcohol(rec.alcoholHistory),
                SurvivalInDays(rec.death, rec.lastContact))
  }

  /** Line 135: the rows with a positive survival, in their order. */
  function KeepPositiveSurvival(rows: seq<ClinicalRow>): (kept: seq<ClinicalRow>)
    ensures |kept| <= |rows|
    ensures forall r :: r in kept <==> r in rows && r.survival > 0
  {
    if rows == [] then []
    else (if rows[0].survival > 0 then [rows[0]] else []) + KeepPositiveSurvival(rows[1..])
  }

  /** The output rows: every derived row whose survival is positive. */
  function PatientTable(recs: seq<ClinicalRecord>): seq<ClinicalRow> {
    KeepPositiveSurvival(seq(|recs|, i requires 0 <= i < |recs| => DeriveRow(recs[i])))
  }

  /** A row is in the output exactly when it is derived from a record with a positive survival. */
  lemma PatientTableMembership(recs: seq<ClinicalRecord>, row: ClinicalRow)
    ensures row in PatientTable(recs) <==>
      (exists i :: 0 <= i < |recs| && DeriveRow(recs[i]) == row) && row.survival > 0
  {
    var derived := seq(|recs|, i requires 0 <= i < |recs| => DeriveRow(recs[i]));
    if row in derived {
      var i :| 0 <= i < |derived| && derived[i] == row;
      assert DeriveRow(recs[i]) == row;
    }
    if exists i :: 0 <= i < |recs| && DeriveRow(recs[i]) == row {
      var i :| 0 <= i < |recs| && DeriveRow(recs[i]) == row;
      assert derived[i] == row;
    }
  }

  /** Filtering the output again removes nothing. */
  lemma {:induction false} KeepPositiveSurvivalIdempotent(rows: seq<ClinicalRow>)
    ensures KeepPositiveSurvival(KeepPositiveSurvival(rows)) == KeepPositiveSurvival(rows)
  {
    if rows != [] {
      KeepPositiveSurvivalIdempotent(rows[1..]);
      var rest := KeepPositiveSurvival(rows[1..]);
      if rows[0].survival > 0 {
        var once := [rows[0]] + rest;
        assert once[0] == rows[0] && once[1..] == rest;
        assert KeepPositiveSurvival(once) == [rows[0]] + KeepPositiveSurvival(rest);
      } else {
        assert [] + rest == rest;
      }
    }
  }
}
