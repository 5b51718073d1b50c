/**
 * fix_format: turns the list of cells of one column group into a list of integers
 * and absent markers (prepare_treatment_data.py, lines 26-36).
 */
module FieldExtraction {
  import opened Values

  /** What fix_format does with one cell: append a value, skip it, or raise. */
  datatype Step = Append(v: Option<int>) | Skip | Raise

  /** The cells line 32 turns into None: the strs 'none' and 'unknown', and NaN. */
  predicate IsPlaceholder(c: Cell) {
    c == Str("none") || c == Str("unknown") || c == NaN
  }

  /**
   * One cell as the source handles it: int() first; on ValueError the tests
   * x == 'none', x == 'unknown' and np.isnan(x), in that order. np.isnan raises
   * TypeError on a str, and int(None) raises TypeError, neither of which is caught.
   */
  function StepAsWritten(c: Cell): Step {
    match PyInt(c)
    case Converted(n) => Append(Some(n))
    case RaisesTypeError => Raise
    case RaisesValueError =>
      if IsPlaceholder(c) then Append(None)
      else if c.Str? then Raise
      else Skip
  }

  /** fix_format as written: None when it raises. */
  function FixFormatAsWritten(l: seq<Cell>): (r: Option<seq<Option<int>>>)
    ensures r.None? <==> exists i :: 0 <= i < |l| && StepAsWritten(l[i]) == Raise
    ensures r.Some? ==> |r.value| == |l|
  {
    if l == [] then Some([])
    else
      assert forall i :: 1 <= i < |l| ==> l[1..][i - 1] == l[i];
      assert (exists i :: 0 <= i < |l| && StepAsWritten(l[i]) == Raise) <==>
        StepAsWritten(l[0]) == Raise || exists i :: 0 <= i < |l[1..]| && StepAsWritten(l[1..][i]) == Raise;
      match StepAsWritten(l[0])
      case Raise => None
      case Append(v) =>
        var rest := FixFormatAsWritten(l[1..]);
        if rest.None? then None else Some([v] + rest.value)
  }

  /** The branch that reports "Bad element" and drops the cell is never taken. */
  lemma ReportBranchUnreachable(c: Cell)
    ensures StepAsWritten(c) != Skip
  {
  }

  /** An ordinary word in a treatment column stops the run instead of being dropped. */
  lemma AsWrittenRaisesOnWord()
    ensures FixFormatAsWritten([Int(3), Str("surgery")]) == None
  {
    assert !IsDigit('s');
    assert StepAsWritten(Str("surgery")) == Raise;
    assert FixFormatAsWritten([Str("surgery")]) == None;
    assert [Int(3), Str("surgery")][1..] == [Str("surgery")];
  }

  /**
   * One cell as the source evidently intends: integers kept, the placeholders
   * 'none' and 'unknown' and NaN become absent, every other value is reported
   * and dropped.
   */
  function Classify(c: Cell): Step {
    match PyInt(c)
    case Converted(n) => Append(Some(n))
    case RaisesTypeError => Skip
    case RaisesValueError =>
      if IsPlaceholder(c) then Append(None) else Skip
  }

  /** The list fix_format is meant to return. */
  function Normalise(l: seq<Cell>): (r: seq<Option<int>>)
    ensures |r| <= |l|
  {
    if l == [] then []
    else (if Classify(l[0]).Append? then [Classify(l[0]).v] else []) + Normalise(l[1..])
  }

  /** One cell on its own: an integer, an absent marker for a placeholder, or nothing. */
  lemma NormaliseOne(c: Cell)
    ensures Normalise([c]) == if IsPlaceholder(c) then [None]
                              else if PyInt(c).Converted? then [Some(PyInt(c).n)]
                              else []
  {
    assert [c][1..] == [];
  }

  /** The list is converted cell by cell, so every cell's result stays at its own place. */
  lemma {:induction false} NormaliseAppend(a: seq<Cell>, b: seq<Cell>)
    ensures Normalise(a + b) == Normalise(a) + Normalise(b)
  {
    if a == [] {
      assert a + b == b;
    } else {
      assert (a + b)[0] == a[0];
      assert (a + b)[1..] == a[1..] + b;
      NormaliseAppend(a[1..], b);
    }
  }

  /** Normalise never raises and never grows the list. */
  lemma {:induction false} NormaliseLength(l: seq<Cell>)
    ensures |Normalise(l)| <= |l|
    ensures |Normalise(l)| == |l| <==> forall i :: 0 <= i < |l| ==> Classify(l[i]).Append?
  {
    if l != [] {
      NormaliseLength(l[1..]);
      if Classify(l[0]).Append? {
        assert forall i :: 1 <= i < |l| ==> l[1..][i - 1] == l[i];
      } else {
        assert !(forall i :: 0 <= i < |l| ==> Classify(l[i]).Append?);
      }
      assert (forall i :: 0 <= i < |l| ==> Classify(l[i]).Append?) <==>
        Classify(l[0]).Append? && (forall i :: 0 <= i < |l[1..]| ==> Classify(l[1..][i]).Append?);
    }
  }

  /** An entry of the result is an integer int() reads from the cell, or absent for a placeholder. */
  predicate ComesFrom(v: Option<int>, c: Cell) {
    match v
    case Some(n) => PyInt(c) == Converted(n)
    case None => IsPlaceholder(c)
  }

  /** Each entry of the result comes from a cell: an integer from int(), or absent from a placeholder. */
  lemma {:induction false} NormaliseEntries(l: seq<Cell>, k: nat)
    requires k < |Normalise(l)|
    ensures exists i :: 0 <= i < |l| && ComesFrom(Normalise(l)[k], l[i])
  {
    if Classify(l[0]).Append? && k == 0 {
      assert ComesFrom(Normalise(l)[0], l[0]);
    } else {
      var k' := if Classify(l[0]).Append? then k - 1 else k;
      assert Normalise(l)[k] == Normalise(l[1..])[k'];
      NormaliseEntries(l[1..], k');
      var i :| 0 <= i < |l[1..]| && ComesFrom(Normalise(l[1..])[k'], l[1..][i]);
      assert l[1..][i] == l[i + 1];
    }
  }

  /** The integers of the result are the int() values of the cells, in the cells' order. */
  function IntValues(l: seq<Cell>): seq<int> {
    if l == [] then []
    else (if PyInt(l[0]).Converted? then [PyInt(l[0]).n] else []) + IntValues(l[1..])
  }

  function Present(l: seq<Option<int>>): (r: seq<int>)
    ensures |r| <= |l|
    ensures forall x :: x in r <==> Some(x) in l
  {
    if l == [] then []
    else
      assert forall x :: Some(x) in l <==> Some(x) == l[0] || Some(x) in l[1..];
      (if l[0].Some? then [l[0].value] else []) + Present(l[1..])
  }

  lemma {:induction false} NormaliseKeepsIntsInOrder(l: seq<Cell>)
    ensures Present(Normalise(l)) == IntValues(l)
  {
    if l != [] {
      NormaliseKeepsIntsInOrder(l[1..]);
      var head := if Classify(l[0]).Append? then [Classify(l[0]).v] else [];
      PresentAppend(head, Normalise(l[1..]));
    }
  }

  lemma {:induction false} PresentAppend(a: seq<Option<int>>, b: seq<Option<int>>)
    ensures Present(a + b) == Present(a) + Present(b)
  {
    if a == [] {
      assert a + b == b;
    } else {
      assert (a + b)[1..] == a[1..] + b;
      PresentAppend(a[1..], b);
    }
  }

  /** Where the source does not raise, the intended list is exactly what it returns. */
  lemma {:induction false} AsWrittenAgreesWhenNoRaise(l: seq<Cell>)
    requires FixFormatAsWritten(l).Some?
    ensures FixFormatAsWritten(l) == Some(Normalise(l))
  {
    if l != [] {
      AsWrittenAgreesWhenNoRaise(l[1..]);
    }
  }

  /** The intended behaviour drops the word and keeps the rest. */
  lemma IntendedDropsWord()
    ensures Normalise([Int(3), Str("surgery")]) == [Some(3)]
  {
    assert !IsDigit('s');
    assert Classify(Str("surgery")) == Skip;
    assert [Int(3), Str("surgery")][1..] == [Str("surgery")];
    assert Normalise([Str("surgery")]) == [];
  }

  /** fix_format: builds the list cell by cell. */
  method FixFormat(l: seq<Cell>) returns (lout: seq<Option<int>>)
    ensures lout == Normalise(l)
  {
    lout := [];
    var i := 0;
    while i < |l|
      invariant 0 <= i <= |l|
      invariant lout + Normalise(l[i..]) == Normalise(l)
    {
      assert l[i..][1..] == l[i + 1..];
      var step := Classify(l[i]);
      if step.Append? {
        lout := lout + [step.v];
      }
      i := i + 1;
    }
    assert l[i..] == [];
  }
}
