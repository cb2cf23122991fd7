/** Sequence helpers standing in for Python list operations: slicing with
    `[:n]`, `list.index`, and concatenating a list of lists. */
module Seqs {
  import opened Results

  /** Python's `s[:n]` for n >= 0: the longest prefix of at most n elements. */
  function Truncate<T>(s: seq<T>, n: nat): (r: seq<T>)
    ensures |r| <= n && |r| <= |s|
    ensures |r| == n || |r| == |s|
    ensures r == s[..|r|]
  {
    if |s| <= n then s else s[..n]
  }

  /** Python's `s.index(x)`, with the ValueError case as None. */
  function IndexOf<T(==)>(s: seq<T>, x: T): (r: Option<nat>)
    ensures r.None? <==> x !in s
    ensures r.Some? ==> r.value < |s| && s[r.value] == x && x !in s[..r.value]
  {
    if |s| == 0 then None
    else if s[0] == x then Some(0)
    else match IndexOf(s[1..], x)
      case None => None
      case Some(i) =>
        assert s[1..][..i] == s[1..i + 1];
        assert s[..i + 1] == [s[0]] + s[1..i + 1];
        Some(i + 1)
  }

  /** Index of the first element satisfying `p`, as a left-to-right loop
      that stops at the first hit finds it. */
  function FirstWhere<T>(s: seq<T>, p: T -> bool): (r: Option<nat>)
    ensures r.None? <==> forall i :: 0 <= i < |s| ==> !p(s[i])
    ensures r.Some? ==> r.value < |s| && p(s[r.value])
    ensures r.Some? ==> forall i :: 0 <= i < r.value ==> !p(s[i])
  {
    if |s| == 0 then None
    else if p(s[0]) then Some(0)
    else match FirstWhere(s[1..], p)
      case None => None
      case Some(i) => Some(i + 1)
  }

  /** The elements of every inner sequence, in order. */
  function Flatten<T>(ss: seq<seq<T>>): seq<T>
  {
    if |ss| == 0 then [] else ss[0] + Flatten(ss[1..])
  }

  /** Sum of the inner lengths (the running `+= len(...)` counters). */
  function TotalLength<T>(ss: seq<seq<T>>): nat
  {
    if |ss| == 0 then 0 else |ss[0]| + TotalLength(ss[1..])
  }

  /** Two nested sequences with the same outer and inner lengths. */
  predicate SameShape<T, U>(ss: seq<seq<T>>, tt: seq<seq<U>>)
  {
    |ss| == |tt| && forall i :: 0 <= i < |ss| ==> |ss[i]| == |tt[i]|
  }

  lemma {:induction false} FlattenLength<T>(ss: seq<seq<T>>)
    ensures |Flatten(ss)| == TotalLength(ss)
  {
    if |ss| > 0 {
      FlattenLength(ss[1..]);
    }
  }

  lemma {:induction false} SameShapeTotalLength<T, U>(ss: seq<seq<T>>, tt: seq<seq<U>>)
    requires SameShape(ss, tt)
    ensures TotalLength(ss) == TotalLength(tt)
  {
    if |ss| > 0 {
      assert SameShape(ss[1..], tt[1..]) by {
        forall i | 0 <= i < |ss[1..]| ensures |ss[1..][i]| == |tt[1..][i]| {
          assert ss[1..][i] == ss[i + 1];
          assert tt[1..][i] == tt[i + 1];
        }
      }
      SameShapeTotalLength(ss[1..], tt[1..]);
    }
  }

  /** Every element of the flattened sequence comes from one of the inner ones. */
  lemma {:induction false} FlattenMember<T>(ss: seq<seq<T>>, x: T)
    requires x in Flatten(ss)
    ensures exists i :: 0 <= i < |ss| && x in ss[i]
  {
    if x in ss[0] {
      assert 0 < |ss|;
    } else {
      FlattenMember(ss[1..], x);
      var i :| 0 <= i < |ss[1..]| && x in ss[1..][i];
      assert x in ss[i + 1];
    }
  }

  /** Appending one more inner sequence at the end. */
  lemma {:induction false} FlattenSnoc<T>(ss: seq<seq<T>>, t: seq<T>)
    ensures Flatten(ss + [t]) == Flatten(ss) + t
  {
    if |ss| == 0 {
      assert ss + [t] == [t];
      assert Flatten([t][1..]) == [];
    } else {
      assert (ss + [t])[1..] == ss[1..] + [t];
      FlattenSnoc(ss[1..], t);
    }
  }

  lemma {:induction false} TotalLengthSnoc<T>(ss: seq<seq<T>>, t: seq<T>)
    ensures TotalLength(ss + [t]) == TotalLength(ss) + |t|
  {
    if |ss| == 0 {
      assert ss + [t] == [t];
      assert [t][1..] == [];
    } else {
      assert (ss + [t])[1..] == ss[1..] + [t];
      TotalLengthSnoc(ss[1..], t);
    }
  }

  /** Position m of the flattened sequence is element i of inner sequence
      s, where m counts all elements of the inner sequences before s. */
  lemma {:induction false} FlattenIndex<T>(ss: seq<seq<T>>, m: nat) returns (s: nat, i: nat)
    requires m < |Flatten(ss)|
    ensures s < |ss| && i < |ss[s]| && Flatten(ss)[m] == ss[s][i]
    ensures m == TotalLength(ss[..s]) + i
  {
    FlattenLength(ss);
    if m < |ss[0]| {
      s, i := 0, m;
    } else {
      FlattenLength(ss[1..]);
      var s', i' := FlattenIndex(ss[1..], m - |ss[0]|);
      s, i := s' + 1, i';
      assert ss[..s][1..] == ss[1..][..s'];
    }
  }
}
