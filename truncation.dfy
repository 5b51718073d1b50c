/**
 * The cut of a patient's column lists at the 'none' placeholder
 * (prepare_treatment_data.py, lines 50-59).
 */
module Truncation {
  import opened Values

  /** The four column lists of one patient, in the element type at hand. */
  datatype Lists<T> = Lists(time: seq<T>, recc: seq<T>, types: seq<T>, resp: seq<T>)

  /** list.index(x): the first position holding x. */
  function IndexOf<T(==)>(l: seq<T>, x: T): (r: nat)
    requires x in l
    ensures r < |l| && l[r] == x && x !in l[..r]
  {
    if l[0] == x then 0
    else
      assert l[1..][..IndexOf(l[1..], x)] == l[1..1 + IndexOf(l[1..], x)];
      1 + IndexOf(l[1..], x)
  }

  /** end_index: the response list's placeholder is looked up last, so its position wins. */
  function EndIndex<T(==)>(types: seq<T>, resp: seq<T>, token: T): Option<nat> {
    var k: Option<nat> := if token in types then Some(IndexOf(types, token)) else None;
    if token in resp then Some(IndexOf(resp, token)) else k
  }

  /** Python's l[:k]. */
  function Take<T>(l: seq<T>, k: nat): (r: seq<T>)
    ensures r <= l
    ensures |r| == if k <= |l| then k else |l|
  {
    if k <= |l| then l[..k] else l
  }

  /** Lines 56-59: treatment type, response and treatment time are cut; recurrence time is not. */
  function TruncateRow<T(==)>(row: Lists<T>, token: T): (r: Lists<T>)
    ensures r.recc == row.recc
    ensures r.types <= row.types && r.resp <= row.resp && r.time <= row.time
    ensures token in row.resp ==> token !in r.resp
  {
    match EndIndex(row.types, row.resp, token)
    case None => row
    case Some(k) => row.(types := Take(row.types, k), resp := Take(row.resp, k), time := Take(row.time, k))
  }

  /** What the cut does to one patient, case by case. */
  lemma TruncateRowCases<T>(row: Lists<T>, token: T)
    ensures TruncateRow(row, token).recc == row.recc
    ensures token !in row.types && token !in row.resp ==> TruncateRow(row, token) == row
    ensures token in row.resp ==>
      var k := IndexOf(row.resp, token);
      TruncateRow(row, token) == row.(types := Take(row.types, k), resp := row.resp[..k], time := Take(row.time, k)) &&
      token !in TruncateRow(row, token).resp
    ensures token !in row.resp && token in row.types ==>
      var k := IndexOf(row.types, token);
      TruncateRow(row, token) == row.(types := row.types[..k], resp := Take(row.resp, k), time := Take(row.time, k)) &&
      token !in TruncateRow(row, token).types
  {
  }

  /** When the response's placeholder comes later, the treatment type keeps its own placeholder. */
  lemma ResponsePositionWins()
    ensures TruncateRow(Lists([Int(0), Int(10), Int(20)], [], [Int(1), Str("none"), Int(2)],
                              [Int(1), Int(1), Str("none")]), Str("none"))
         == Lists([Int(0), Int(10)], [], [Int(1), Str("none")], [Int(1), Int(1)])
  {
    var resp := [Int(1), Int(1), Str("none")];
    assert resp[0] != Str("none") && resp[1] != Str("none") && resp[2] == Str("none");
    assert IndexOf(resp, Str("none")) == 2;
  }

  /** A converted list element as a Python value: an int or None. */
  function Lift(l: seq<Option<int>>): (r: seq<Cell>)
    ensures |r| == |l|
    ensures forall i :: 0 <= i < |l| ==> r[i] == if l[i].Some? then Int(l[i].value) else Null
  {
    if l == [] then [] else [if l[0].Some? then Int(l[0].value) else Null] + Lift(l[1..])
  }

  /** A converted list read back from its cells. */
  function Lower(l: seq<Cell>): (r: seq<Option<int>>)
    ensures |r| == |l|
    ensures forall i :: 0 <= i < |l| ==> r[i] == if l[i].Int? then Some(l[i].n) else None
  {
    if l == [] then [] else [if l[0].Int? then Some(l[0].n) else None] + Lower(l[1..])
  }

  /** Storing a converted list in cells loses nothing. */
  lemma LowerLift(l: seq<Option<int>>)
    ensures Lower(Lift(l)) == l
  {
  }

  function LiftRow(row: Lists<Option<int>>): Lists<Cell> {
    Lists(Lift(row.time), Lift(row.recc), Lift(row.types), Lift(row.resp))
  }

  function LowerRow(row: Lists<Cell>): Lists<Option<int>> {
    Lists(Lower(row.time), Lower(row.recc), Lower(row.types), Lower(row.resp))
  }

  /** The cut of lines 50-59 finds nothing to cut in lists that hold only ints and None. */
  lemma {:induction false} ConvertedRowIsNotCut(row: Lists<Option<int>>)
    ensures TruncateRow(LiftRow(row), Str("none")) == LiftRow(row)
  {
    assert Str("none") !in Lift(row.types);
    assert Str("none") !in Lift(row.resp);
  }

  /**
   * Lines 50-59 as written: they run on the lists fix_format returned, whose
   * elements are ints and None, and look for the str 'none' in them.
   */
  function TruncateAsWritten(row: Lists<Option<int>>): (r: Lists<Option<int>>)
    ensures r.recc == row.recc
    ensures r.types <= row.types && r.resp <= row.resp && r.time <= row.time
  {
    match EndIndex(Lift(row.types), Lift(row.resp), Str("none"))
    case None => row
    case Some(k) => row.(types := Take(row.types, k), resp := Take(row.resp, k), time := Take(row.time, k))
  }

  /** As written, the cut never happens: no int and no None equals the str 'none'. */
  lemma TruncateAsWrittenIsIdentity(row: Lists<Option<int>>)
    ensures TruncateAsWritten(row) == row
  {
    assert Str("none") !in Lift(row.types);
    assert Str("none") !in Lift(row.resp);
  }

  /**
   * A patient whose treatment type ends with 'none': as written all three lists keep
   * their length; the cut the code is written for shortens them to one entry.
   */
  lemma PlaceholderCutExample()
    ensures TruncateAsWritten(Lists([Some(0), Some(30)], [], [Some(1), None], [Some(1), None]))
         == Lists([Some(0), Some(30)], [], [Some(1), None], [Some(1), None])
    ensures TruncateRow(Lists([Int(0), Int(30)], [], [Int(1), Str("none")], [Int(1), Str("none")]), Str("none"))
         == Lists([Int(0)], [], [Int(1)], [Int(1)])
  {
    TruncateAsWrittenIsIdentity(Lists([Some(0), Some(30)], [], [Some(1), None], [Some(1), None]));
    var resp := [Int(1), Str("none")];
    assert resp[0] != Str("none") && resp[1] == Str("none");
    assert IndexOf(resp, Str("none")) == 1;
  }
}
