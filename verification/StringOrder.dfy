// Byte-wise ordering of strings, as sort.Strings uses it.
module StringOrder {

  ghost predicate Distinct(names: seq<string>) {
    forall i, j :: 0 <= i < j < |names| ==> names[i] != names[j]
  }

  // The order sort.Strings sorts by.
  predicate Before(a: string, b: string) {
    a == [] || (b != [] && (a[0] < b[0] || (a[0] == b[0] && Before(a[1..], b[1..]))))
  }

  // At the first character where they differ the smaller one decides; without one the
  // shorter string comes first.
  lemma {:induction false} BeforeDecides(a: string, b: string, k: nat)
    requires k <= |a| && k <= |b| && a[..k] == b[..k]
    requires k < |a| && k < |b| ==> a[k] != b[k]
    ensures Before(a, b) <==> if k < |a| && k < |b| then a[k] < b[k] else |a| <= |b|
    decreases k
  {
    if k > 0 {
      assert a[..k][0] == a[0] && b[..k][0] == b[0];
      assert a[1..][..k - 1] == a[..k][1..] && b[1..][..k - 1] == b[..k][1..];
      BeforeDecides(a[1..], b[1..], k - 1);
    }
  }

  lemma {:induction false} BeforeTotal(a: string, b: string)
    ensures Before(a, b) || Before(b, a)
    ensures Before(a, b) && Before(b, a) ==> a == b
  {
    if a != [] && b != [] && a[0] == b[0] {
      BeforeTotal(a[1..], b[1..]);
      if a[1..] == b[1..] {
        assert a == [a[0]] + a[1..] && b == [b[0]] + b[1..];
      }
    }
  }

  lemma {:induction false} BeforeTransitive(a: string, b: string, c: string)
    requires Before(a, b) && Before(b, c)
    ensures Before(a, c)
  {
    if a != [] && a[0] == b[0] == c[0] {
      BeforeTransitive(a[1..], b[1..], c[1..]);
    }
  }

  lemma {:induction false} FirstExists(names: set<string>) returns (m: string)
    requires names != {}
    ensures m in names && forall n :: n in names ==> Before(m, n)
  {
    var x :| x in names;
    BeforeTotal(x, x);
    if names == {x} {
      m := x;
    } else {
      var rest := names - {x};
      assert names == rest + {x};
      m := FirstExists(rest);
      BeforeTotal(m, x);
      if !Before(m, x) {
        forall n | n in names ensures Before(x, n) {
          if n != x {
            BeforeTransitive(x, m, n);
          }
        }
        m := x;
      }
    }
  }

  // The strings in ascending order, which is what sort.Strings leaves.
  function Sorted(names: set<string>): (r: seq<string>)
    ensures forall n :: n in r <==> n in names
    ensures Distinct(r)
  {
    if names == {} then []
    else
      assert exists m :: m in names && forall n :: n in names ==> Before(m, n) by {
        var m := FirstExists(names);
      }
      assert forall a, b :: a in names && b in names && Before(a, b) && Before(b, a) ==> a == b by {
        forall a, b | a in names && b in names && Before(a, b) && Before(b, a) ensures a == b {
          BeforeTotal(a, b);
        }
      }
      var m :| m in names && forall n :: n in names ==> Before(m, n);
      [m] + Sorted(names - {m})
  }

  lemma {:induction false} SortedAscends(names: set<string>, i: nat, j: nat)
    requires i < j < |Sorted(names)|
    ensures Before(Sorted(names)[i], Sorted(names)[j])
  {
    var r := Sorted(names);
    if i == 0 {
      assert r[j] in names;
    } else {
      SortedAscends(names - {r[0]}, i - 1, j - 1);
    }
  }
}
