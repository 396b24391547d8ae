/**
 The two JavaScript array primitives the sequencer leans on, stated over
 Dafny sequences: `Array.prototype.indexOf` (strict equality, -1 when
 absent) and `Array.prototype.splice(start, 1)` with a non-negative start.
 */
module SeqUtil {

  datatype Option<+T> = None | Some(value: T)

  /** First position of `x` in `s`, or -1 when `x` does not occur. */
  function IndexOf<T(==)>(s: seq<T>, x: T): (r: int)
    ensures -1 <= r < |s|
    ensures r == -1 <==> x !in s
    ensures 0 <= r ==> s[r] == x && x !in s[..r]
  {
    if |s| == 0 then -1
    else if s[0] == x then 0
    else
      var r' := IndexOf(s[1..], x);
      if r' == -1 then -1
      else
        assert s[..r' + 1] == [s[0]] + s[1..][..r'];
        r' + 1
  }

  /** Anything occurring before position `k` is found before `k`. */
  lemma IndexOfBefore<T>(s: seq<T>, k: nat, x: T)
    requires k <= |s|
    ensures x in s[..k] <==> 0 <= IndexOf(s, x) < k
  {
    var r := IndexOf(s, x);
    if x in s[..k] {
      var i :| 0 <= i < k && s[..k][i] == x;
      assert s[i] == x;
    }
    if 0 <= r < k {
      assert s[..k][r] == x;
    }
  }

  /** Within a prefix that holds `x`, the first position of `x` is the same as in the whole sequence. */
  lemma IndexOfPrefix<T>(s: seq<T>, m: nat, x: T)
    requires m <= |s| && x in s[..m]
    ensures IndexOf(s[..m], x) == IndexOf(s, x)
  {
    var a, b := IndexOf(s, x), IndexOf(s[..m], x);
    IndexOfBefore(s, m, x);
    assert s[..m][a] == x;
    assert s[b] == x;
  }

  /**
   `s.splice(k, 1)` for a non-negative `k`: the element at `k` is removed;
   a start at or past the end removes nothing.
   */
  function Splice1<T>(s: seq<T>, k: nat): (r: seq<T>)
    ensures k < |s| ==> |r| == |s| - 1
    ensures k >= |s| ==> r == s
    ensures forall i :: 0 <= i < k && i < |r| ==> r[i] == s[i]
    ensures forall i :: k <= i < |r| ==> r[i] == s[i + 1]
    ensures k < |s| ==> multiset(r) == multiset(s) - multiset{s[k]}
  {
    if k < |s| then
      assert s == s[..k] + [s[k]] + s[k + 1..];
      s[..k] + s[k + 1..]
    else s
  }
}
