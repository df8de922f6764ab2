/**
 The member set of one room. A JavaScript `Set` holds each element once and
 iterates in insertion order, so it is modelled as a duplicate-free sequence:
 `add` appends a new element at the end, `delete` removes it in place.
 */
module Members {
  import opened Messages

  predicate NoDup(s: seq<ConnId>)
  {
    forall i, j :: 0 <= i < j < |s| ==> s[i] != s[j]
  }

  /** The set a member sequence stands for. */
  function Elems(s: seq<ConnId>): set<ConnId>
  {
    set x | x in s
  }

  /** `Set.prototype.add`: the element is present afterwards, nothing else
      changes, and a new element goes last. */
  function Add(s: seq<ConnId>, c: ConnId): (r: seq<ConnId>)
    ensures Elems(r) == Elems(s) + {c}
    ensures NoDup(s) ==> NoDup(r)
    ensures |s| <= |r| && r[..|s|] == s
    ensures c in s ==> r == s
  {
    if c in s then s else s + [c]
  }

  /** `Set.prototype.delete`: the element is absent afterwards and the other
      elements stay; `RemoveCutsOut` shows they keep their order. */
  function Remove(s: seq<ConnId>, c: ConnId): (r: seq<ConnId>)
    ensures Elems(r) == Elems(s) - {c}
    ensures NoDup(s) ==> NoDup(r)
    ensures c !in s ==> r == s
    ensures r == [] <==> Elems(s) <= {c}
  {
    if s == [] then []
    else
      var rest := Remove(s[1..], c);
      assert Elems(s) == {s[0]} + Elems(s[1..]) by {
        assert forall x :: x in s <==> x == s[0] || x in s[1..];
      }
      if s[0] == c then rest
      else
        assert NoDup(s) ==> s[0] !in rest by {
          if NoDup(s) {
            forall k | 0 <= k < |s[1..]| ensures s[1..][k] != s[0] {
              assert s[1..][k] == s[k + 1] && s[0] != s[k + 1];
            }
            assert s[0] !in s[1..];
            assert s[0] !in Elems(rest);
          }
        }
        assert Elems([s[0]] + rest) == {s[0]} + Elems(rest) by {
          assert forall x :: x in [s[0]] + rest <==> x == s[0] || x in rest;
        }
        ConsNoDup(s[0], rest);
        [s[0]] + rest
  }

  lemma ConsNoDup(x: ConnId, s: seq<ConnId>)
    ensures NoDup([x] + s) <==> x !in s && NoDup(s)
  {
    var t := [x] + s;
    if x !in s && NoDup(s) {
      forall i, j | 0 <= i < j < |t| ensures t[i] != t[j] {
        if i > 0 { assert t[i] == s[i - 1] && t[j] == s[j - 1]; }
        else { assert t[j] == s[j - 1]; }
      }
    }
    if NoDup(t) {
      forall i, j | 0 <= i < j < |s| ensures s[i] != s[j] {
        assert s[i] == t[i + 1] && s[j] == t[j + 1];
      }
      forall k | 0 <= k < |s| ensures s[k] != x {
        assert s[k] == t[k + 1] && t[0] != t[k + 1];
      }
    }
  }

  /** Deleting a member of a duplicate-free sequence cuts out its one
      occurrence: every other element keeps its place in the iteration order. */
  lemma {:induction false} RemoveCutsOut(s: seq<ConnId>, c: ConnId) returns (k: nat)
    requires NoDup(s) && c in s
    ensures k < |s| && s[k] == c && Remove(s, c) == s[..k] + s[k + 1..]
  {
    assert [s[0]] + s[1..] == s;
    if s[0] == c {
      assert c !in s[1..] by { ConsNoDup(s[0], s[1..]); }
      k := 0;
    } else {
      assert NoDup(s[1..]) && c in s[1..] by { ConsNoDup(s[0], s[1..]); }
      var k' := RemoveCutsOut(s[1..], c);
      k := k' + 1;
      assert Remove(s, c) == [s[0]] + Remove(s[1..], c);
      ConsCut(s, k');
    }
  }

  /** Cutting position `k` out of the tail, then putting the head back, is
      cutting position `k + 1` out of the whole. */
  lemma ConsCut(s: seq<ConnId>, k: nat)
    requires k + 1 < |s|
    ensures [s[0]] + (s[1..][..k] + s[1..][k + 1..]) == s[..k + 1] + s[k + 2..]
  {
  }
}
