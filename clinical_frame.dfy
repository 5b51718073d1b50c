/**
 * The two passes of prepare_tcga_data.py that overwrite columns of the clinical
 * table in place: the age_level binning (lines 90-103) and the gene flags
 * (lines 107-118).
 */
module ClinicalFrame {
  import opened Values

  /** Numeric order of the thresholds. */
  predicate Sorted(t: seq<real>) {
    forall i, j :: 0 <= i < j < |t| ==> t[i] <= t[j]
  }

  /**
   * The rows group g of the loop writes: the first bin is closed above, the last
   * open below, the others half-open. A missing age compares false everywhere.
   */
  predicate InBin(age: Option<real>, t: seq<real>, g: nat)
    requires |t| >= 1
  {
    match age
    case None => false
    case Some(x) =>
      if g == 0 then x <= t[0]
      else if g == |t| then x > t[g - 1]
      else g < |t| && t[g - 1] < x <= t[g]
  }

  /** The level of one row after groups 0 .. g-1 have written theirs; the column starts at 0. */
  function LevelAfter(age: Option<real>, t: seq<real>, g: nat): (level: nat)
    requires |t| >= 1
    ensures g > 0 ==> level < g
    ensures level > 0 ==> InBin(age, t, level)
  {
    if g == 0 then 0
    else if InBin(age, t, g - 1) then g - 1
    else LevelAfter(age, t, g - 1)
  }

  /** The level after every group has run. */
  function AgeLevel(age: Option<real>, t: seq<real>): (level: nat)
    requires |t| >= 1
    ensures level <= |t|
    ensures level > 0 ==> InBin(age, t, level)
    ensures age.None? ==> level == 0
  {
    LevelAfter(age, t, |t| + 1)
  }

  /** The number of thresholds strictly below x. */
  function CountBelow(t: seq<real>, x: real): (c: nat)
    ensures c <= |t|
  {
    if t == [] then 0 else (if t[0] < x then 1 else 0) + CountBelow(t[1..], x)
  }

  /** In sorted thresholds, those below x come first. */
  lemma {:induction false} CountBelowSplits(t: seq<real>, x: real)
    requires Sorted(t)
    ensures forall i :: 0 <= i < CountBelow(t, x) ==> t[i] < x
    ensures forall i :: CountBelow(t, x) <= i < |t| ==> x <= t[i]
  {
    if t != [] {
      var rest := t[1..];
      CountBelowSplits(rest, x);
      assert forall i :: 1 <= i < |t| ==> t[i] == rest[i - 1];
      if t[0] >= x && CountBelow(rest, x) > 0 {
        assert false;
      }
    }
  }

  /** With sorted thresholds, group g writes the row exactly when g thresholds lie below its age. */
  lemma InBinIffCount(x: real, t: seq<real>, g: nat)
    requires Sorted(t) && |t| >= 1 && g <= |t|
    ensures InBin(Some(x), t, g) <==> g == CountBelow(t, x)
  {
    CountBelowSplits(t, x);
  }

  /** When one group alone writes the row, the row ends with that group's level. */
  lemma {:induction false} LevelAfterSingle(age: Option<real>, t: seq<real>, g0: nat, g: nat)
    requires |t| >= 1
    requires forall h :: 0 <= h < g ==> (InBin(age, t, h) <==> h == g0)
    ensures LevelAfter(age, t, g) == if g0 < g then g0 else 0
  {
    if g > 0 {
      LevelAfterSingle(age, t, g0, g - 1);
    }
  }

  /**
   * With sorted thresholds t0 .. t(k-1), the bins partition the line: every age
   * is written by exactly one group, and its level is the number of thresholds below it.
   */
  lemma AgeLevelIsCount(x: real, t: seq<real>)
    requires Sorted(t) && |t| >= 1
    ensures AgeLevel(Some(x), t) == CountBelow(t, x)
    ensures forall g :: 0 <= g <= |t| ==> (InBin(Some(x), t, g) <==> g == AgeLevel(Some(x), t))
  {
    forall h | 0 <= h <= |t|
      ensures InBin(Some(x), t, h) <==> h == CountBelow(t, x)
    {
      InBinIffCount(x, t, h);
    }
    LevelAfterSingle(Some(x), t, CountBelow(t, x), |t| + 1);
  }

  /** The bins, one by one. */
  lemma AgeLevelBins(x: real, t: seq<real>)
    requires Sorted(t) && |t| >= 1
    ensures x <= t[0] ==> AgeLevel(Some(x), t) == 0
    ensures forall j :: 1 <= j < |t| && t[j - 1] < x <= t[j] ==> AgeLevel(Some(x), t) == j
    ensures x > t[|t| - 1] ==> AgeLevel(Some(x), t) == |t|
  {
    AgeLevelIsCount(x, t);
    assert x <= t[0] ==> InBin(Some(x), t, 0);
    assert x > t[|t| - 1] ==> InBin(Some(x), t, |t|);
    forall j | 1 <= j < |t| && t[j - 1] < x <= t[j]
      ensures AgeLevel(Some(x), t) == j
    {
      assert InBin(Some(x), t, j);
    }
  }

  /** A row without an age is never written and keeps level 0. */
  lemma {:induction false} MissingAgeIsLevelZero(t: seq<real>, g: nat)
    requires |t| >= 1
    ensures LevelAfter(None, t, g) == 0
  {
    if g > 0 {
      MissingAgeIsLevelZero(t, g - 1);
    }
  }

  /** Python's < on str: code point by code point, a proper prefix first. */
  predicate StrLess(a: string, b: string) {
    if a == [] then b != []
    else if b == [] then false
    else a[0] < b[0] || (a[0] == b[0] && StrLess(a[1..], b[1..]))
  }

  /**
   * Line 91 sorts the thresholds as strings, so '10' comes before '9.5', and the
   * loop then runs on [10.0, 9.5]: an age of 9.7 falls in the last bin, where the
   * numeric order puts it in the middle one.
   */
  lemma StringSortedThresholds()
    ensures StrLess("10", "9.5")
    ensures AgeLevel(Some(9.7), [10.0, 9.5]) == 2
    ensures AgeLevel(Some(9.7), [9.5, 10.0]) == 1
  {
    assert "10"[0] == '1' && "9.5"[0] == '9';
    AgeLevelBins(9.7, [9.5, 10.0]);
  }

  /** A row of the mutation table. */
  datatype MutationRecord = MutationRecord(sampleBarcode: string, hugoSymbol: string)

  /** Some sample of the patient, its barcode starting with the patient's, carries the gene. */
  predicate HasMutation(table: seq<MutationRecord>, patient: string, gene: string) {
    exists k :: 0 <= k < |table| && patient <= table[k].sampleBarcode && table[k].hugoSymbol == gene
  }

  /** Lines 113 and 118: the Hugo symbols of the samples whose barcode starts with the patient's. */
  function SymbolsOf(table: seq<MutationRecord>, patient: string): (r: seq<string>)
    ensures forall s :: s in r <==> HasMutation(table, patient, s)
  {
    if table == [] then []
    else
      var rest := SymbolsOf(table[1..], patient);
      assert forall k :: 1 <= k < |table| ==> table[k] == table[1..][k - 1];
      assert forall s :: HasMutation(table[1..], patient, s) ==> HasMutation(table, patient, s) by {
        forall s | HasMutation(table[1..], patient, s)
          ensures HasMutation(table, patient, s)
        {
          var k :| 0 <= k < |table[1..]| && patient <= table[1..][k].sampleBarcode && table[1..][k].hugoSymbol == s;
          assert table[k + 1] == table[1..][k];
        }
      }
      (if patient <= table[0].sampleBarcode then [table[0].hugoSymbol] else []) + rest
  }

  /** The clinical table: one row per patient, with the columns the two passes write. */
  class ClinicalTable {
    const barcode: seq<string>
    const age: seq<Option<real>>
    const genes: seq<string>
    const ageLevel: array<int>
    const geneFlag: array2<bool>

    ghost predicate Valid()
      reads this
    {
      ageLevel.Length == |barcode| == |age| &&
      geneFlag.Length0 == |barcode| && geneFlag.Length1 == |genes|
    }

    constructor (barcode: seq<string>, age: seq<Option<real>>, genes: seq<string>)
      requires |barcode| == |age|
      ensures Valid() && this.barcode == barcode && this.age == age && this.genes == genes
      ensures fresh(ageLevel) && fresh(geneFlag)
    {
      this.barcode := barcode;
      this.age := age;
      this.genes := genes;
      ageLevel := new int[|barcode|];
      geneFlag := new bool[|barcode|, |genes|];
    }

    /** Lines 92-103: the column is set to 0, then each group writes its level into its bin's rows. */
    method AssignAgeLevels(t: seq<real>)
      requires Valid() && |t| >= 1
      modifies ageLevel
      ensures forall r :: 0 <= r < ageLevel.Length ==> ageLevel[r] == AgeLevel(age[r], t)
    {
      forall r | 0 <= r < ageLevel.Length {
        ageLevel[r] := 0;
      }
      var g := 0;
      while g <= |t|
        invariant 0 <= g <= |t| + 1
        invariant forall r :: 0 <= r < ageLevel.Length ==> ageLevel[r] == LevelAfter(age[r], t, g)
      {
        if g == 0 {
          forall r | 0 <= r < ageLevel.Length && age[r].Some? && age[r].value <= t[0] {
            ageLevel[r] := g;
          }
        } else if g == |t| {
          forall r | 0 <= r < ageLevel.Length && age[r].Some? && age[r].value > t[g - 1] {
            ageLevel[r] := g;
          }
        } else {
          forall r | 0 <= r < ageLevel.Length && age[r].Some? && t[g - 1] < age[r].value <= t[g] {
            ageLevel[r] := g;
          }
        }
        g := g + 1;
      }
    }

    /** Lines 107-118: every flag starts false, then is set row by row and gene by gene. */
    method AssignGeneFlags(table: seq<MutationRecord>)
      requires Valid()
      modifies geneFlag
      ensures forall r, g :: 0 <= r < geneFlag.Length0 && 0 <= g < geneFlag.Length1 ==>
        (geneFlag[r, g] <==> HasMutation(table, barcode[r], genes[g]))
    {
      forall r, g | 0 <= r < geneFlag.Length0 && 0 <= g < geneFlag.Length1 {
        geneFlag[r, g] := false;
      }
      var r := 0;
      while r < geneFlag.Length0
        invariant 0 <= r <= geneFlag.Length0
        invariant forall i, g :: 0 <= i < r && 0 <= g < geneFlag.Length1 ==>
          (geneFlag[i, g] <==> HasMutation(table, barcode[i], genes[g]))
      {
        var symbols := SymbolsOf(table, barcode[r]);
        var g := 0;
        while g < geneFlag.Length1
          invariant 0 <= g <= geneFlag.Length1
          invariant forall i, h :: 0 <= i < r && 0 <= h < geneFlag.Length1 ==>
            (geneFlag[i, h] <==> HasMutation(table, barcode[i], genes[h]))
          invariant forall h :: 0 <= h < g ==> (geneFlag[r, h] <==> HasMutation(table, barcode[r], genes[h]))
        {
          geneFlag[r, g] := genes[g] in symbols;
          g := g + 1;
        }
        r := r + 1;
      }
    }
  }
}
