/**
 * Order-preserving selection from a sequence: the shape shared by the
 * contact loader (keep rows that have a phone) and the dispatch loop
 * (send to contacts whose phone is in international format).
 */
module Selection {

  /** The indices of `s` whose element satisfies `keep`, in increasing order (see PositionsExact). */
  function Positions<T>(keep: T -> bool, s: seq<T>): (r: seq<nat>)
    ensures |r| <= |s|
    ensures forall j :: 0 <= j < |r| ==> r[j] < |s|
  {
    if s == [] then []
    else
      var init := Positions(keep, s[..|s| - 1]);
      if keep(s[|s| - 1]) then init + [|s| - 1] else init
  }

  /**
   * Positions enumerates exactly the indices whose element satisfies `keep`,
   * each once, in increasing order.
   */
  lemma {:induction false} PositionsExact<T>(keep: T -> bool, s: seq<T>)
    ensures forall j :: 0 <= j < |Positions(keep, s)| ==> keep(s[Positions(keep, s)[j]])
    ensures forall j, k :: 0 <= j < k < |Positions(keep, s)| ==>
              Positions(keep, s)[j] < Positions(keep, s)[k]
    ensures forall i :: 0 <= i < |s| && keep(s[i]) ==> i in Positions(keep, s)
  {
    if s != [] {
      var init := s[..|s| - 1];
      PositionsExact(keep, init);
      var pos := Positions(keep, init);
      assert forall j :: 0 <= j < |pos| ==> s[pos[j]] == init[pos[j]];
      assert forall i :: 0 <= i < |init| ==> s[i] == init[i];
    }
  }

  /** `f` applied to each element of `s` that satisfies `keep`, in the order of `s`. */
  function Select<T, U>(keep: T -> bool, f: T -> U, s: seq<T>): (r: seq<U>)
    ensures |r| <= |s|
  {
    if s == [] then []
    else
      var init := Select(keep, f, s[..|s| - 1]);
      if keep(s[|s| - 1]) then init + [f(s[|s| - 1])] else init
  }

  /**
   * Select picks exactly the elements at Positions, in order: the j-th
   * selected value is `f` of the j-th element that satisfies `keep`.
   */
  lemma {:induction false} SelectAt<T, U>(keep: T -> bool, f: T -> U, s: seq<T>)
    ensures |Select(keep, f, s)| == |Positions(keep, s)|
    ensures forall j :: 0 <= j < |Positions(keep, s)| ==>
              Select(keep, f, s)[j] == f(s[Positions(keep, s)[j]])
  {
    if s != [] {
      var init := s[..|s| - 1];
      SelectAt(keep, f, init);
      var sel, pos := Select(keep, f, init), Positions(keep, init);
      forall j | 0 <= j < |pos| ensures Select(keep, f, s)[j] == f(s[Positions(keep, s)[j]]) {
        assert Select(keep, f, s)[j] == sel[j];
        assert Positions(keep, s)[j] == pos[j];
        assert s[pos[j]] == init[pos[j]];
      }
    }
  }

  /** Selecting from a prefix of `s` gives a prefix of the selection from `s`. */
  lemma {:induction false} SelectPrefix<T, U>(keep: T -> bool, f: T -> U, s: seq<T>, k: nat)
    requires k <= |s|
    ensures Select(keep, f, s[..k]) <= Select(keep, f, s)
    decreases |s| - k
  {
    if k < |s| {
      var init := s[..|s| - 1];
      SelectPrefix(keep, f, init, k);
      assert init[..k] == s[..k];
      var a, b := Select(keep, f, s[..k]), Select(keep, f, init);
      assert b <= Select(keep, f, s);
      assert a <= b;
    } else {
      assert s[..k] == s;
    }
  }

  /** Nothing is selected exactly when no element satisfies `keep`. */
  lemma SelectEmpty<T, U>(keep: T -> bool, f: T -> U, s: seq<T>)
    ensures Select(keep, f, s) == [] <==> forall i :: 0 <= i < |s| ==> !keep(s[i])
  {
    SelectAt(keep, f, s);
    PositionsExact(keep, s);
    if Select(keep, f, s) == [] {
      assert Positions(keep, s) == [];
    }
  }
}
