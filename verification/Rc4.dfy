// networking/crypto/diffie/rc4.go: the key schedule and the stateful stream.
module Rc4 {
  import opened Octets

  const TABLE: nat := 256

  type Table = t: seq<Byte> | |t| == TABLE witness seq(256, _ => 0)

  datatype State = State(i: Byte, j: Byte, table: Table)

  // Addition of bytes wraps around.
  function Add(a: Byte, b: Byte): Byte {
    (a as int + b as int) % 256
  }

  function Swap(t: Table, i: Byte, j: Byte): Table {
    t[i := t[j]][j := t[i]]
  }

  // Every byte value occurs exactly once.
  ghost predicate Permutation(t: Table) {
    forall x, y :: 0 <= x < y < TABLE ==> t[x] != t[y]
  }

  lemma SwapPermutes(t: Table, i: Byte, j: Byte)
    requires Permutation(t)
    ensures Permutation(Swap(t, i, j))
  {
  }

  // ---------------------------------------------------------------- key schedule

  function Identity(): Table {
    seq(TABLE, k requires 0 <= k < TABLE => k)
  }

  // The table and j after k rounds.
  function Rounds(key: seq<Byte>, k: nat): (Table, Byte)
    requires key != [] && k <= TABLE
  {
    if k == 0 then (Identity(), 0)
    else
      var (t, j) := Rounds(key, k - 1);
      var next := Add(j, Add(t[k - 1], key[(k - 1) % |key|]));
      (Swap(t, k - 1, next), next)
  }

  function Initial(key: seq<Byte>): State
    requires key != []
  {
    State(0, 0, Rounds(key, TABLE).0)
  }

  // The schedule starts from the table in order, with j zero.
  lemma RoundsStart(key: seq<Byte>, k: Byte)
    requires key != []
    ensures Rounds(key, 0).0[k] == k && Rounds(key, 0).1 == 0
  {
  }

  lemma RoundsUnfold(key: seq<Byte>, k: Byte)
    requires key != []
    ensures var (t, j) := Rounds(key, k);
            var next := Add(j, Add(t[k], key[k % |key|]));
            Rounds(key, k + 1) == (Swap(t, k, next), next)
  {
  }

  // Round k moves j on by entry k and the key octet at k, counted around the key, and
  // exchanges the entries at k and j.
  lemma RoundsNext(key: seq<Byte>, k: Byte, x: Byte)
    requires key != []
    ensures var (t, j) := Rounds(key, k);
            var next := (j as int + t[k] as int + key[k % |key|] as int) % 256;
            && Rounds(key, k + 1).1 == next
            && Rounds(key, k + 1).0[x] == if x == next then t[k] else if x == k then t[next] else t[x]
  {
    hide Rounds;
    RoundsUnfold(key, k);
    AddThree(Rounds(key, k).1, Rounds(key, k).0[k], key[k % |key|]);
  }

  lemma AddThree(a: Byte, b: Byte, c: Byte)
    ensures Add(a, Add(b, c)) == (a as int + b as int + c as int) % 256
  {
  }

  // The stream starts behind the last round, with both indexes zero.
  lemma StreamStart(key: seq<Byte>)
    requires key != []
    ensures Initial(key).i == 0 && Initial(key).j == 0 && Initial(key).table == Rounds(key, 256).0
  {
  }

  lemma {:induction false} RoundsPermute(key: seq<Byte>, k: nat)
    requires key != [] && k <= TABLE
    ensures Permutation(Rounds(key, k).0)
  {
    if k > 0 {
      RoundsPermute(key, k - 1);
      var (t, j) := Rounds(key, k - 1);
      SwapPermutes(t, k - 1, Add(j, Add(t[k - 1], key[(k - 1) % |key|])));
    }
  }

  // ---------------------------------------------------------------- the stream

  function Step(s: State): (State, Byte) {
    var i := Add(s.i, 1);
    var j := Add(s.j, s.table[i]);
    var t := Swap(s.table, i, j);
    (State(i, j, t), t[Add(t[i], t[j])])
  }

  // The state after source has passed, and the transformed bytes.
  function Apply(s: State, source: seq<Byte>): (r: (State, seq<Byte>))
    ensures |r.1| == |source|
  {
    if source == [] then (s, [])
    else
      var (before, out) := Apply(s, source[..|source| - 1]);
      var (after, key) := Step(before);
      (after, out + [Xor(source[|source| - 1], key)])
  }

  lemma SwapKeepsSum(t: Table, i: Byte, j: Byte)
    ensures Add(Swap(t, i, j)[i], Swap(t, i, j)[j]) == (t[i] as int + t[j] as int) % 256
  {
  }

  // One octet of the stream: i moves on by one and j by the entry at i, the entries at i and
  // j are exchanged, and the key octet is the entry at their sum.
  lemma OneOctet(s: State, x: Byte)
    ensures var i: Byte := (s.i as int + 1) % 256;
            var j: Byte := (s.j as int + s.table[i] as int) % 256;
            var k: Byte := (s.table[i] as int + s.table[j] as int) % 256;
            var t: Table := s.table[i := s.table[j]][j := s.table[i]];
            && Apply(s, [x]).0.i == i && Apply(s, [x]).0.j == j && Apply(s, [x]).0.table == t
            && Apply(s, [x]).1 == [Xor(x, t[k])]
  {
    hide Apply, Xor;
    ApplyOne(s, x);
    var i := Add(s.i, 1);
    SwapKeepsSum(s.table, i, Add(s.j, s.table[i]));
  }

  lemma ApplyOne(s: State, x: Byte)
    ensures Apply(s, [x]) == (Step(s).0, [Xor(x, Step(s).1)])
  {
    hide Apply, Xor, Step;
    ApplyNone(s);
    ApplySnoc(s, [], x);
    assert [] + [x] == [x] && [] + [Xor(x, Step(s).1)] == [Xor(x, Step(s).1)];
  }

  lemma ApplySnoc(s: State, init: seq<Byte>, last: Byte)
    ensures var (before, out) := Apply(s, init);
      Apply(s, init + [last]) == (Step(before).0, out + [Xor(last, Step(before).1)])
  {
    var source := init + [last];
    assert source[..|source| - 1] == init && source[|source| - 1] == last;
  }

  // Fragmenting the source does not matter.
  lemma {:induction false} ApplyConcat(s: State, a: seq<Byte>, b: seq<Byte>)
    ensures var (mid, first) := Apply(s, a);
      var (end, second) := Apply(mid, b);
      Apply(s, a + b) == (end, first + second)
  {
    hide Apply, Step;
    if b == [] {
      assert a + b == a;
      ApplyNone(Apply(s, a).0);
      assert Apply(s, a).1 + [] == Apply(s, a).1;
    } else {
      var init, last := b[..|b| - 1], b[|b| - 1];
      ApplyConcat(s, a, init);
      assert b == init + [last];
      ConcatSnoc(s, a, init, last);
    }
  }

  lemma ApplyNone(s: State)
    ensures Apply(s, []) == (s, [])
  {
  }

  lemma ConcatSnoc(s: State, a: seq<Byte>, init: seq<Byte>, last: Byte)
    requires var (mid, first) := Apply(s, a);
      var (end, second) := Apply(mid, init);
      Apply(s, a + init) == (end, first + second)
    ensures var (mid, first) := Apply(s, a);
      var (end, second) := Apply(mid, init + [last]);
      Apply(s, a + (init + [last])) == (end, first + second)
  {
    hide Apply, Step;
    assert a + (init + [last]) == (a + init) + [last];
    ApplySnoc(s, a + init, last);
    ApplySnoc(Apply(s, a).0, init, last);
    var (mid, first) := Apply(s, a);
    var (end, second) := Apply(mid, init);
    var key := Step(end).1;
    assert (first + second) + [Xor(last, key)] == first + (second + [Xor(last, key)]);
  }

  // A second stream in the same state undoes the first and ends in the same state.
  lemma {:induction false} ApplyCancels(s: State, source: seq<Byte>)
    ensures Apply(s, Apply(s, source).1) == (Apply(s, source).0, source)
  {
    if source == [] {
    } else {
      var init, last := source[..|source| - 1], source[|source| - 1];
      ApplyCancels(s, init);
      assert source == init + [last];
      CancelSnoc(s, init, last);
    }
  }

  lemma CancelSnoc(s: State, init: seq<Byte>, last: Byte)
    requires Apply(s, Apply(s, init).1) == (Apply(s, init).0, init)
    ensures Apply(s, Apply(s, init + [last]).1) == (Apply(s, init + [last]).0, init + [last])
  {
    hide Apply, Step;
    var (before, out) := Apply(s, init);
    ApplySnoc(s, init, last);
    ApplySnoc(s, out, Xor(last, Step(before).1));
    XorCancels(last, Step(before).1);
  }

  // The table stays a permutation for as long as the stream runs.
  lemma {:induction false} ApplyPermutes(s: State, source: seq<Byte>)
    requires Permutation(s.table)
    ensures Permutation(Apply(s, source).0.table)
  {
    if source != [] {
      ApplyPermutes(s, source[..|source| - 1]);
      var before := Apply(s, source[..|source| - 1]).0;
      var i := Add(before.i, 1);
      SwapPermutes(before.table, i, Add(before.j, before.table[i]));
    }
  }

  // ---------------------------------------------------------------- what the key octets do

  // The next n key octets of the stream are all zero: it lets n octets pass unchanged.
  predicate Silent(s: State, n: nat) {
    Apply(s, Zeros(n)).1 == Zeros(n)
  }

  // A stream that leaves some octets unchanged would leave any others unchanged too, and
  // where it goes does not depend on them.
  lemma {:induction false} Unmoved(s: State, x: seq<Byte>, y: seq<Byte>)
    requires |x| == |y|
    ensures Apply(s, x).0 == Apply(s, y).0
    ensures Apply(s, x).1 == x ==> Apply(s, y).1 == y
  {
    hide Step;
    if x != [] {
      var n := |x| - 1;
      Unmoved(s, x[..n], y[..n]);
      var k := Step(Apply(s, x[..n]).0).1;
      if Apply(s, x).1 == x {
        assert Apply(s, x).1 == Apply(s, x[..n]).1 + [Xor(x[n], k)];
        assert x == x[..n] + [x[n]] && y == y[..n] + [y[n]];
        XorNeutral(x[n], y[n], k);
      }
    }
  }

  lemma UnchangedIsSilent(s: State, x: seq<Byte>)
    ensures Apply(s, x).1 == x <==> Silent(s, |x|)
  {
    Unmoved(s, x, Zeros(|x|));
    Unmoved(s, Zeros(|x|), x);
  }

  lemma SilentSooner(s: State, m: nat, n: nat)
    requires m <= n && Silent(s, n)
    ensures Silent(s, m)
  {
    hide Apply;
    assert Zeros(n) == Zeros(m) + Zeros(n - m);
    ApplyConcat(s, Zeros(m), Zeros(n - m));
    assert Apply(s, Zeros(m)).1 == Zeros(n)[..m];
  }

  // ---------------------------------------------------------------- the cipher object

  class Cipher {
    var i: Byte
    var j: Byte
    const table: array<Byte>

    ghost predicate Valid() {
      table.Length == TABLE
    }

    ghost function Abstract(): State
      requires Valid()
      reads this, table
    {
      State(i, j, table[..])
    }

    // The key schedule.
    constructor (key: seq<Byte>)
      requires key != []
      ensures Valid() && fresh(table) && Abstract() == Initial(key)
    {
      i, j := 0, 0;
      table := new Byte[TABLE](k => if 0 <= k < TABLE then k else 0);
      new;
      assert table[..] == Identity();
      var next: Byte := 0;
      for index := 0 to TABLE
        invariant (table[..], next) == Rounds(key, index)
        invariant i == 0 && j == 0
      {
        next := Add(next, Add(table[index], key[index % |key|]));
        ghost var before := table[..];
        table[index], table[next] := table[next], table[index];
        assert table[..] == Swap(before, index, next);
      }
    }

    method Transform(source: seq<Byte>) returns (result: seq<Byte>)
      requires Valid()
      modifies this`i, this`j, table
      ensures (Abstract(), result) == Apply(old(Abstract()), source)
    {
      result := [];
      for index := 0 to |source|
        invariant (Abstract(), result) == Apply(old(Abstract()), source[..index])
      {
        assert source[..index + 1] == source[..index] + [source[index]];
        ApplySnoc(old(Abstract()), source[..index], source[index]);
        var key := NextKey();
        result := result + [Xor(source[index], key)];
      }
      assert source[..|source|] == source;
    }

    method NextKey() returns (key: Byte)
      requires Valid()
      modifies this`i, this`j, table
      ensures (Abstract(), key) == Step(old(Abstract()))
    {
      i := Add(i, 1);
      j := Add(j, table[i]);
      table[i], table[j] := table[j], table[i];
      assert table[..] == Swap(old(table[..]), i, j);
      key := table[Add(table[i], table[j])];
    }
  }

  // newRC4Cipher refuses the empty key, and only that.
  method NewCipher(key: seq<Byte>) returns (cipher: Cipher?)
    ensures cipher == null <==> key == []
    ensures cipher != null ==>
              cipher.Valid() && fresh(cipher) && fresh(cipher.table) && cipher.Abstract() == Initial(key)
  {
    if |key| == 0 {
      return null;
    }
    cipher := new Cipher(key);
  }
}
