/**
 * The two vector helpers of src/File.cpp that collect flash page indices:
 * `addToArrayIfNotAlreadyPresent` and `addToArrayIfDifferentFromLastElement`.
 * The vector passed by reference is a sequence passed in and returned.
 */
module PageLists {

  ghost predicate NoDuplicates(s: seq<int>)
  {
    forall p, q :: 0 <= p < q < |s| ==> s[p] != s[q]
  }

  ghost predicate NoAdjacentDuplicates(s: seq<int>)
  {
    forall i :: 0 < i < |s| ==> s[i] != s[i - 1]
  }

  /**
   * `addToArrayIfNotAlreadyPresent`: appends val when it is absent. It returns
   * whether val was already present (its comment promises the opposite).
   */
  method AddIfNotAlreadyPresent(val: int, vec: seq<int>) returns (present: bool, res: seq<int>)
    ensures present <==> val in vec
    ensures res == AppendIfAbsent(vec, val)
  {
    present := false;
    for i := 0 to |vec|
      invariant present <==> val in vec[..i]
    {
      if vec[i] == val {
        present := true;
      }
    }
    assert vec[..|vec|] == vec;
    if !present {
      res := vec + [val];
    } else {
      res := vec;
    }
  }

  /** The vector after `addToArrayIfNotAlreadyPresent`. */
  function AppendIfAbsent(vec: seq<int>, val: int): (r: seq<int>)
    ensures vec <= r && val in r
    ensures r == vec <==> val in vec
    ensures forall x :: x in r <==> x in vec || x == val
    ensures NoDuplicates(vec) ==> NoDuplicates(r)
  {
    if val in vec then vec else vec + [val]
  }

  /** Every index of run passed in turn to `addToArrayIfNotAlreadyPresent`. */
  function AddAllAbsent(vec: seq<int>, run: seq<int>): (r: seq<int>)
    ensures vec <= r
    ensures forall x :: x in r <==> x in vec || x in run
    ensures NoDuplicates(vec) ==> NoDuplicates(r)
    decreases |run|
  {
    if |run| == 0 then vec
    else
      assert run == [run[0]] + run[1..];
      AddAllAbsent(AppendIfAbsent(vec, run[0]), run[1..])
  }

  /** The vector after `addToArrayIfDifferentFromLastElement`. */
  function AppendIfNewLast(vec: seq<int>, val: int): (r: seq<int>)
    ensures |r| > 0 && r[|r| - 1] == val
    ensures vec <= r && |r| <= |vec| + 1
    ensures r == vec <==> |vec| > 0 && vec[|vec| - 1] == val
    ensures NoAdjacentDuplicates(vec) ==> NoAdjacentDuplicates(r)
  {
    if |vec| > 0 && vec[|vec| - 1] == val then vec else vec + [val]
  }

  /**
   * `addToArrayIfDifferentFromLastElement`: appends val unless the vector
   * ends with it, and returns whether it appended.
   */
  method AddIfDifferentFromLastElement(val: int, vec: seq<int>) returns (added: bool, res: seq<int>)
    ensures added <==> |vec| == 0 || vec[|vec| - 1] != val
    ensures res == AppendIfNewLast(vec, val)
  {
    added := true;
    if |vec| != 0 {
      added := vec[|vec| - 1] != val;
    }
    res := if added then vec + [val] else vec;
  }

  /** Every index of run passed in turn to `addToArrayIfDifferentFromLastElement`. */
  function AppendRun(vec: seq<int>, run: seq<int>): (r: seq<int>)
    ensures vec <= r && |r| <= |vec| + |run|
    ensures NoAdjacentDuplicates(vec) ==> NoAdjacentDuplicates(r)
    ensures |run| > 0 ==> |r| > 0 && r[|r| - 1] == run[|run| - 1]
    ensures |run| == 0 ==> r == vec
    decreases |run|
  {
    if |run| == 0 then vec
    else
      var next := AppendIfNewLast(vec, run[0]);
      var r := AppendRun(next, run[1..]);
      assert vec <= next <= r;
      assert |run| > 1 ==> run[1..][|run| - 2] == run[|run| - 1];
      r
  }

  /** Appending a run loses nothing and adds only the run's own indices. */
  lemma {:induction false} AppendRunMembers(vec: seq<int>, run: seq<int>, x: int)
    ensures x in AppendRun(vec, run) <==> x in vec || x in run
    decreases |run|
  {
    if |run| > 0 {
      var next := AppendIfNewLast(vec, run[0]);
      AppendRunMembers(next, run[1..], x);
      assert x in next <==> x in vec || x == run[0];
      assert x in run <==> x == run[0] || x in run[1..] by {
        assert run == [run[0]] + run[1..];
      }
    }
  }

  /** The inner loop of `getConcernedPagesIndexes`: each index of run offered in turn. */
  method AddEachIfNotAlreadyPresent(vec: seq<int>, run: seq<int>) returns (res: seq<int>)
    ensures res == AddAllAbsent(vec, run)
  {
    res := vec;
    for j := 0 to |run|
      invariant AddAllAbsent(res, run[j..]) == AddAllAbsent(vec, run)
    {
      assert run[j..][1..] == run[j + 1..];
      var _, next := AddIfNotAlreadyPresent(run[j], res);
      res := next;
    }
  }

  /** The inner loop of the page walk: each index of run offered in turn. */
  method AppendEachIfDifferentFromLast(vec: seq<int>, run: seq<int>) returns (res: seq<int>)
    ensures res == AppendRun(vec, run)
  {
    res := vec;
    for j := 0 to |run|
      invariant AppendRun(res, run[j..]) == AppendRun(vec, run)
    {
      assert run[j..][1..] == run[j + 1..];
      var _, next := AddIfDifferentFromLastElement(run[j], res);
      res := next;
    }
  }
}
