/**
  A strict total order on state keys (lexicographic by character) and the
  sorted key sequence of a finite key set. The encoder writes a mapping's
  members in this order, so that equal mappings always have equal text.
 */
module KeyOrder {

  /** `a` sorts strictly before `b`: a proper prefix, or smaller at the first difference. */
  predicate Below(a: string, b: string)
    decreases |a|
  {
    if |a| == 0 then |b| > 0
    else if |b| == 0 then false
    else if a[0] == b[0] then Below(a[1..], b[1..])
    else a[0] < b[0]
  }

  lemma {:induction false} BelowIrreflexive(a: string)
    ensures !Below(a, a)
    decreases |a|
  {
    if |a| > 0 {
      BelowIrreflexive(a[1..]);
    }
  }

  lemma {:induction false} BelowTransitive(a: string, b: string, c: string)
    requires Below(a, b) && Below(b, c)
    ensures Below(a, c)
    decreases |a|
  {
    if |a| > 0 && a[0] == b[0] && b[0] == c[0] {
      BelowTransitive(a[1..], b[1..], c[1..]);
    }
  }

  lemma {:induction false} BelowTotal(a: string, b: string)
    requires a != b
    ensures Below(a, b) || Below(b, a)
    decreases |a|
  {
    if |a| > 0 && |b| > 0 && a[0] == b[0] {
      assert a == [a[0]] + a[1..] && b == [b[0]] + b[1..];
      BelowTotal(a[1..], b[1..]);
    }
  }

  /** `m` is the least key of `ks`. */
  predicate IsLeast(m: string, ks: set<string>)
  {
    m in ks && forall k :: k in ks && k != m ==> Below(m, k)
  }

  /** Every non-empty finite key set has a least key. */
  lemma {:induction false} LeastExists(ks: set<string>)
    requires ks != {}
    ensures exists m :: IsLeast(m, ks)
    decreases |ks|
  {
    var x :| x in ks;
    if ks == {x} {
      assert IsLeast(x, ks);
    } else {
      LeastExists(ks - {x});
      var m :| IsLeast(m, ks - {x});
      if Below(x, m) {
        forall k | k in ks && k != x
          ensures Below(x, k)
        {
          if k != m {
            BelowTransitive(x, m, k);
          }
        }
        assert IsLeast(x, ks);
      } else {
        BelowTotal(x, m);
        assert IsLeast(m, ks);
      }
    }
  }

  lemma LeastUnique(m1: string, m2: string, ks: set<string>)
    requires IsLeast(m1, ks) && IsLeast(m2, ks)
    ensures m1 == m2
  {
    if m1 != m2 {
      BelowTransitive(m1, m2, m1);
      BelowIrreflexive(m1);
    }
  }

  /** The least key of a non-empty key set. */
  function Least(ks: set<string>): (m: string)
    requires ks != {}
    ensures IsLeast(m, ks)
  {
    LeastExists(ks);
    assert forall m1, m2 :: IsLeast(m1, ks) && IsLeast(m2, ks) ==> m1 == m2 by {
      forall m1, m2 | IsLeast(m1, ks) && IsLeast(m2, ks)
        ensures m1 == m2
      {
        LeastUnique(m1, m2, ks);
      }
    }
    var m :| IsLeast(m, ks);
    m
  }

  predicate Ascending(s: seq<string>)
  {
    forall i, j :: 0 <= i < j < |s| ==> Below(s[i], s[j])
  }

  /** The keys of `ks`, each exactly once, in ascending order. */
  function SortedKeys(ks: set<string>): (r: seq<string>)
    ensures Ascending(r)
    ensures forall k :: k in r <==> k in ks
    ensures |r| == |ks|
    decreases |ks|
  {
    if ks == {} then []
    else
      var m := Least(ks);
      var rest := SortedKeys(ks - {m});
      assert forall j :: 0 <= j < |rest| ==> rest[j] in ks - {m};
      [m] + rest
  }

  /** In an ascending sequence no key occurs twice. */
  lemma AscendingDistinct(s: seq<string>, i: nat, j: nat)
    requires Ascending(s)
    requires i < |s| && j < |s| && i != j
    ensures s[i] != s[j]
  {
    if i < j {
      BelowIrreflexive(s[i]);
    } else {
      BelowIrreflexive(s[j]);
    }
  }

  /**
    The first element of a non-empty sequence is in it. Stated once outside
    the branch of `AscendingUnique` that cannot happen, so that no index into
    `a` or `b` is checked under that branch's clashing facts.
   */
  lemma HeadIn(s: seq<string>)
    ensures |s| > 0 ==> s[0] in s
  {
  }

  /** Two ascending sequences holding the same keys are the same sequence. */
  lemma {:induction false} AscendingUnique(a: seq<string>, b: seq<string>)
    requires Ascending(a) && Ascending(b)
    requires forall k :: k in a <==> k in b
    ensures a == b
    decreases |a|
  {
    if |a| == 0 || |b| == 0 {
      if |a| != |b| {
        HeadIn(a);
        HeadIn(b);
        assert false;
      }
    } else {
      if a[0] != b[0] {
        assert b[0] in a;
        var i :| 0 <= i < |a| && a[i] == b[0];
        assert a[0] in b;
        var j :| 0 <= j < |b| && b[j] == a[0];
        BelowTransitive(a[0], b[0], a[0]);
        BelowIrreflexive(a[0]);
      }
      forall k
        ensures k in a[1..] <==> k in b[1..]
      {
        if k in a[1..] {
          var i :| 0 <= i < |a[1..]| && a[1..][i] == k;
          AscendingDistinct(a, 0, i + 1);
          assert k in b;
          var j :| 0 <= j < |b| && b[j] == k;
          assert j != 0;
          assert b[1..][j - 1] == k;
        }
        if k in b[1..] {
          var j :| 0 <= j < |b[1..]| && b[1..][j] == k;
          AscendingDistinct(b, 0, j + 1);
          assert k in a;
          var i :| 0 <= i < |a| && a[i] == k;
          assert i != 0;
          assert a[1..][i - 1] == k;
        }
      }
      AscendingUnique(a[1..], b[1..]);
      assert a == [a[0]] + a[1..] && b == [b[0]] + b[1..];
    }
  }

  /** `s` without its element at position `i`. */
  function Drop(s: seq<string>, i: nat): (r: seq<string>)
    requires i < |s|
    ensures |r| == |s| - 1
    ensures forall p :: 0 <= p < i ==> r[p] == s[p]
    ensures forall p :: i <= p < |r| ==> r[p] == s[p + 1]
  {
    s[..i] + s[i + 1..]
  }

  lemma DropAscending(s: seq<string>, i: nat)
    requires i < |s| && Ascending(s)
    ensures Ascending(Drop(s, i))
  {
  }

  lemma DropContents(s: seq<string>, i: nat, x: string)
    requires i < |s| && Ascending(s)
    ensures x in Drop(s, i) <==> x in s && x != s[i]
  {
    var t := Drop(s, i);
    if x in t {
      var p :| 0 <= p < |t| && t[p] == x;
      var q := if p < i then p else p + 1;
      assert s[q] == x;
      AscendingDistinct(s, q, i);
    }
    if x in s && x != s[i] {
      var q :| 0 <= q < |s| && s[q] == x;
      if q < i {
        assert t[q] == x;
      } else {
        assert t[q - 1] == x;
      }
    }
  }

  /**
    Removing a key from the set removes exactly that key from its sorted
    sequence, at the position it had there; every other key keeps its order.
   */
  lemma SortedKeysRemove(ks: set<string>, k: string) returns (i: nat)
    requires k in ks
    ensures i < |SortedKeys(ks)| && SortedKeys(ks)[i] == k
    ensures SortedKeys(ks - {k}) == Drop(SortedKeys(ks), i)
  {
    var s := SortedKeys(ks);
    i :| 0 <= i < |s| && s[i] == k;
    DropAscending(s, i);
    forall x
      ensures x in Drop(s, i) <==> x in SortedKeys(ks - {k})
    {
      DropContents(s, i, x);
    }
    AscendingUnique(Drop(s, i), SortedKeys(ks - {k}));
  }
}
