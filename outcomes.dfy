/**
 * The pass over the whole episode table: drop rows, derive the binary response,
 * override the status per patient (prepare_treatment_data.py, lines 160-172).
 */
module Outcomes {
  import opened Values
  import opened Episodes

  /** A row of the output table: the episode (status possibly overridden) and the derived columns. */
  datatype FinalRow = FinalRow(ep: Episode, responseTmp: int, binaryResponse: int, maxTnum: nat)

  /** NaN compares false, so an absent disease-free time fails the test of line 163. */
  predicate HasNonNegativeDft(e: Episode) {
    e.dft.Some? && e.dft.value >= 0
  }

  /** Line 163: keep the rows whose disease-free time is at least 0, in their order. */
  function KeepNonNegativeDft(rows: seq<Episode>): (kept: seq<Episode>)
    ensures |kept| <= |rows|
    ensures forall e :: e in kept <==> e in rows && HasNonNegativeDft(e)
  {
    if rows == [] then []
    else (if HasNonNegativeDft(rows[0]) then [rows[0]] else []) + KeepNonNegativeDft(rows[1..])
  }

  /** Lines 165-167: a str response becomes 2, and so does an absent one. */
  function ResponseTmp(response: Option<int>): int {
    if response.Some? then response.value else 2
  }

  /** Lines 168-169: read from the response column itself, in which an absent value compares false. */
  function BinaryResponse(e: Episode): int {
    if e.response.Some? &&
       (e.response.value < 2 || (e.response.value == 2 && e.dft.Some? && e.dft.value < 180))
    then 1 else 0
  }

  /** Line 171: the largest tnum among the rows of one patient. */
  function MaxTnum(rows: seq<Episode>, id: string): (m: nat)
    ensures forall k :: 0 <= k < |rows| && rows[k].id == id ==> rows[k].tnum <= m
    ensures (exists k :: 0 <= k < |rows| && rows[k].id == id) ==>
      exists k :: 0 <= k < |rows| && rows[k].id == id && rows[k].tnum == m
    ensures (forall k :: 0 <= k < |rows| ==> rows[k].id != id) ==> m == 0
  {
    if rows == [] then 0
    else
      var m := MaxTnum(rows[1..], id);
      assert forall k :: 1 <= k < |rows| ==> rows[k] == rows[1..][k - 1];
      if rows[0].id == id && rows[0].tnum >= m then rows[0].tnum else m
  }

  /** Line 172: rows below the patient's largest tnum get status 1, the others keep theirs. */
  function FinalizeRow(e: Episode, maxTnum: nat): FinalRow {
    FinalRow(e.(status := if e.tnum < maxTnum then 1 else e.status),
             ResponseTmp(e.response), BinaryResponse(e), maxTnum)
  }

  /**
   * Lines 160-172. pd.DataFrame of an empty list has no disease_free_time column,
   * so line 163 needs at least one episode. When no episode carries a response,
   * the response column holds None rather than NaN and line 169 raises on
   * None < 2.0; the rows computed here are those of a table with some response.
   */
  function Finalize(rows: seq<Episode>): (out: seq<FinalRow>)
    requires rows != []
    ensures |out| == |KeepNonNegativeDft(rows)| <= |rows|
    ensures forall k :: 0 <= k < |out| ==>
      out[k].ep.dft.Some? && out[k].ep.dft.value >= 0 &&
      (out[k].ep.tnum < out[k].maxTnum ==> out[k].ep.status == 1)
  {
    var kept := KeepNonNegativeDft(rows);
    var out := seq(|kept|, k requires 0 <= k < |kept| => FinalizeRow(kept[k], MaxTnum(kept, kept[k].id)));
    assert forall k :: 0 <= k < |kept| ==> HasNonNegativeDft(kept[k]) by {
      assert forall k :: 0 <= k < |kept| ==> kept[k] in kept;
    }
    out
  }

  /** Dropping rows twice drops nothing more. */
  lemma {:induction false} KeepIdempotent(rows: seq<Episode>)
    ensures KeepNonNegativeDft(KeepNonNegativeDft(rows)) == KeepNonNegativeDft(rows)
  {
    if rows != [] {
      KeepIdempotent(rows[1..]);
      var head := if HasNonNegativeDft(rows[0]) then [rows[0]] else [];
      KeepAppend(head, KeepNonNegativeDft(rows[1..]));
      assert KeepNonNegativeDft(head) == head;
    }
  }

  lemma {:induction false} KeepAppend(a: seq<Episode>, b: seq<Episode>)
    ensures KeepNonNegativeDft(a + b) == KeepNonNegativeDft(a) + KeepNonNegativeDft(b)
  {
    if a == [] {
      assert a + b == b;
    } else {
      assert (a + b)[1..] == a[1..] + b;
      KeepAppend(a[1..], b);
    }
  }

  /** A table whose rows all have a non-negative disease-free time is kept whole. */
  lemma {:induction false} KeepAllWhenAllNonNegative(rows: seq<Episode>)
    requires forall k :: 0 <= k < |rows| ==> HasNonNegativeDft(rows[k])
    ensures KeepNonNegativeDft(rows) == rows
  {
    if rows != [] {
      KeepAllWhenAllNonNegative(rows[1..]);
    }
  }

  /** What each output row holds, in terms of the kept rows. */
  lemma FinalRowContents(rows: seq<Episode>, k: nat)
    requires rows != []
    requires k < |Finalize(rows)|
    ensures var kept := KeepNonNegativeDft(rows);
      var r := Finalize(rows)[k];
      |Finalize(rows)| == |kept| &&
      r.ep == kept[k].(status := r.ep.status) &&
      r.ep.dft.Some? && r.ep.dft.value >= 0 &&
      r.ep.status == (if kept[k].tnum < r.maxTnum then 1 else kept[k].status) &&
      r.responseTmp == ResponseTmp(kept[k].response) &&
      r.binaryResponse == BinaryResponse(kept[k])
  {
    var kept := KeepNonNegativeDft(rows);
    assert kept[k] in kept;
  }

  /** maxtnum is the largest tnum among the patient's kept rows. */
  lemma MaxTnumOfPatient(rows: seq<Episode>, k: nat)
    requires rows != []
    requires k < |Finalize(rows)|
    ensures var kept := KeepNonNegativeDft(rows);
      var m := Finalize(rows)[k].maxTnum;
      (forall j :: 0 <= j < |kept| && kept[j].id == kept[k].id ==> kept[j].tnum <= m) &&
      (exists j :: 0 <= j < |kept| && kept[j].id == kept[k].id && kept[j].tnum == m)
  {
    var kept := KeepNonNegativeDft(rows);
    assert Finalize(rows)[k] == FinalizeRow(kept[k], MaxTnum(kept, kept[k].id));
  }

  /**
   * Every patient left in the table has a row that keeps its original status: one
   * carrying the largest tnum.
   */
  lemma SomeRowKeepsStatus(rows: seq<Episode>, k: nat)
    requires rows != []
    requires k < |Finalize(rows)|
    ensures var kept := KeepNonNegativeDft(rows);
      var out := Finalize(rows);
      exists j :: 0 <= j < |out| && out[j].ep.id == out[k].ep.id &&
        out[j].ep.tnum == out[k].maxTnum && out[j].ep.status == kept[j].status
  {
    var kept := KeepNonNegativeDft(rows);
    var out := Finalize(rows);
    var j :| 0 <= j < |kept| && kept[j].id == kept[k].id && kept[j].tnum == MaxTnum(kept, kept[k].id);
    assert out[j].maxTnum == MaxTnum(kept, kept[j].id);
  }

  /**
   * binary_response is 1 for a response below 2, and for a response of 2 with less
   * than 180 disease-free days; an absent response gives 0, not the value response_tmp
   * would give.
   */
  lemma BinaryResponseCases(e: Episode)
    requires e.dft.Some?
    ensures e.response.Some? && e.response.value < 2 ==> BinaryResponse(e) == 1
    ensures e.response == Some(2) ==> (BinaryResponse(e) == 1 <==> e.dft.value < 180)
    ensures e.response.Some? && e.response.value > 2 ==> BinaryResponse(e) == 0
    ensures e.response.None? ==> BinaryResponse(e) == 0 && ResponseTmp(e.response) == 2
  {
  }
}
