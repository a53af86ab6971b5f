/** The order in which the task visits the submitted files: Python's
    `sorted` over string keys, which compares code point by code point, a
    proper prefix coming first. So `"file_10"` sorts before `"file_2"`. */
module KeyOrder {

  /** Python's `a <= b` on `str`. */
  predicate LexLe(a: string, b: string)
    decreases |a|
  {
    |a| == 0 || (|b| > 0 && (a[0] < b[0] || (a[0] == b[0] && LexLe(a[1..], b[1..]))))
  }

  lemma {:induction false} LexLeReflexive(a: string)
    ensures LexLe(a, a)
    decreases |a|
  {
    if |a| > 0 {
      LexLeReflexive(a[1..]);
    }
  }

  lemma {:induction false} LexLeTotal(a: string, b: string)
    ensures LexLe(a, b) || LexLe(b, a)
    decreases |a|
  {
    if |a| > 0 && |b| > 0 && a[0] == b[0] {
      LexLeTotal(a[1..], b[1..]);
    }
  }

  lemma {:induction false} LexLeAntisymmetric(a: string, b: string)
    requires LexLe(a, b) && LexLe(b, a)
    ensures a == b
    decreases |a|
  {
    if |a| > 0 {
      LexLeAntisymmetric(a[1..], b[1..]);
      assert a == [a[0]] + a[1..] && b == [b[0]] + b[1..];
    }
  }

  lemma {:induction false} LexLeTransitive(a: string, b: string, c: string)
    requires LexLe(a, b) && LexLe(b, c)
    ensures LexLe(a, c)
    decreases |a|
  {
    if |a| > 0 && a[0] == b[0] && b[0] == c[0] {
      LexLeTransitive(a[1..], b[1..], c[1..]);
    }
  }

  predicate IsLeast(k: string, keys: set<string>)
  {
    k in keys && forall j :: j in keys ==> LexLe(k, j)
  }

  /** Every non-empty finite set of strings has a least element. */
  lemma {:induction false} LeastExists(keys: set<string>)
    requires keys != {}
    ensures exists k :: IsLeast(k, keys)
    decreases |keys|
  {
    var x :| x in keys;
    LexLeReflexive(x);
    if keys == {x} {
      assert IsLeast(x, keys);
    } else {
      LeastExists(keys - {x});
      var m :| IsLeast(m, keys - {x});
      LexLeTotal(m, x);
      if LexLe(m, x) {
        assert IsLeast(m, keys);
      } else {
        forall j | j in keys ensures LexLe(x, j) {
          if j != x {
            LexLeTransitive(x, m, j);
          }
        }
        assert IsLeast(x, keys);
      }
    }
  }

  lemma LeastUnique(keys: set<string>)
    ensures forall a, b :: IsLeast(a, keys) && IsLeast(b, keys) ==> a == b
  {
    forall a, b | IsLeast(a, keys) && IsLeast(b, keys) ensures a == b {
      LexLeAntisymmetric(a, b);
    }
  }

  /** `sorted(keys)`: every key exactly once, in strictly increasing order. */
  function SortedKeys(keys: set<string>): (r: seq<string>)
    ensures |r| == |keys|
    ensures forall k :: k in keys <==> k in r
    ensures forall i, j :: 0 <= i < j < |r| ==> LexLe(r[i], r[j]) && r[i] != r[j]
    decreases |keys|
  {
    if keys == {} then []
    else
      LeastExists(keys);
      LeastUnique(keys);
      var k :| IsLeast(k, keys);
      [k] + SortedKeys(keys - {k})
  }

  /** The keys the web layer builds, `file_0`, `file_1`, ..., are not visited
      in numeric order once there are more than ten files. */
  lemma TenthFileBeforeSecond()
    ensures SortedKeys({"file_2", "file_10"}) == ["file_10", "file_2"]
  {
    var r := SortedKeys({"file_2", "file_10"});
    assert "file_10"[1..] == "ile_10" && "file_2"[1..] == "ile_2";
    assert !LexLe("file_2", "file_10");
    assert |r| == 2 && r[0] != r[1];
    assert r[0] in {"file_2", "file_10"} && r[1] in {"file_2", "file_10"};
  }
}
