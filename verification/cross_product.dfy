/**
 * `itertools.product(*lists)`: the cross product of option lists, in row-major
 * order (the first list varies slowest, the last list fastest).
 */
module CrossProduct {

  /** Number of combinations: the product of the list lengths (1 for no lists at all). */
  function Count<T>(ls: seq<seq<T>>): nat
    decreases |ls|
  {
    if |ls| == 0 then 1 else |ls[0]| * Count(ls[1..])
  }

  /** Every tail prefixed with `x`. */
  function Prepend<T>(x: T, tails: seq<seq<T>>): (r: seq<seq<T>>)
    ensures |r| == |tails|
    ensures forall i :: 0 <= i < |r| ==> r[i] == [x] + tails[i]
  {
    seq(|tails|, i requires 0 <= i < |tails| => [x] + tails[i])
  }

  /** One block of `tails` per option, each block prefixed with that option. */
  function Spread<T>(opts: seq<T>, tails: seq<seq<T>>): (r: seq<seq<T>>)
    ensures |r| == |opts| * |tails|
    decreases |opts|
  {
    if |opts| == 0 then [] else Prepend(opts[0], tails) + Spread(opts[1..], tails)
  }

  /** `c` takes its `j`-th component from the `j`-th list, for every list. */
  predicate IsCombination<T(==)>(c: seq<T>, ls: seq<seq<T>>) {
    |c| == |ls| && forall j :: 0 <= j < |c| ==> c[j] in ls[j]
  }

  /** The combinations of `ls` in row-major order. */
  function Product<T(==)>(ls: seq<seq<T>>): (r: seq<seq<T>>)
    ensures |r| == Count(ls)
    ensures forall i :: 0 <= i < |r| ==> IsCombination(r[i], ls)
    decreases |ls|
  {
    if |ls| == 0 then [[]]
    else
      var tails := Product(ls[1..]);
      SpreadMembers(ls[0], tails, ls[1..]);
      Spread(ls[0], tails)
  }

  /** The members of `Spread` are an option followed by a tail. */
  lemma {:induction false} SpreadMembers<T>(opts: seq<T>, tails: seq<seq<T>>, rest: seq<seq<T>>)
    requires forall i :: 0 <= i < |tails| ==> IsCombination(tails[i], rest)
    ensures forall i :: 0 <= i < |Spread(opts, tails)| ==> IsCombination(Spread(opts, tails)[i], [opts] + rest)
    decreases |opts|
  {
    if |opts| > 0 {
      SpreadMembers(opts[1..], tails, rest);
      var s := Spread(opts, tails);
      var p := Prepend(opts[0], tails);
      var s' := Spread(opts[1..], tails);
      assert s == p + s';
      forall i | 0 <= i < |s|
        ensures IsCombination(s[i], [opts] + rest)
      {
        if i < |p| {
          assert s[i] == [opts[0]] + tails[i];
          forall j | 0 < j < |s[i]|
            ensures s[i][j] in ([opts] + rest)[j]
          {
            assert s[i][j] == tails[i][j - 1];
          }
        } else {
          assert s[i] == s'[i - |p|];
          assert IsCombination(s'[i - |p|], [opts[1..]] + rest);
          assert s[i][0] in opts[1..];
          forall j | 0 < j < |s[i]|
            ensures s[i][j] in ([opts] + rest)[j]
          {
            assert ([opts] + rest)[j] == ([opts[1..]] + rest)[j];
          }
        }
      }
    }
  }

  /** The `k`-th block of `Spread` holds option `k` in front of every tail, in order. */
  lemma {:induction false} SpreadAt<T>(opts: seq<T>, tails: seq<seq<T>>, k: nat, r: nat)
    requires k < |opts| && r < |tails|
    ensures k * |tails| + r < |Spread(opts, tails)|
    ensures Spread(opts, tails)[k * |tails| + r] == [opts[k]] + tails[r]
    decreases k
  {
    var p := Prepend(opts[0], tails);
    var s' := Spread(opts[1..], tails);
    assert Spread(opts, tails) == p + s';
    if k > 0 {
      SpreadAt(opts[1..], tails, k - 1, r);
      assert k * |tails| + r == |tails| + ((k - 1) * |tails| + r);
    }
  }

  /** Option index vector `d` picks one option from every list. */
  predicate ValidChoice<T>(ls: seq<seq<T>>, d: seq<nat>) {
    |d| == |ls| && forall j :: 0 <= j < |d| ==> d[j] < |ls[j]|
  }

  /** The combination that option index vector `d` picks. */
  function Pick<T>(ls: seq<seq<T>>, d: seq<nat>): (c: seq<T>)
    requires ValidChoice(ls, d)
    ensures |c| == |ls|
  {
    seq(|ls|, j requires 0 <= j < |ls| => ls[j][d[j]])
  }

  /**
   * Mixed-radix position of choice `d`: the sum over `j` of `d[j]` times the number
   * of combinations of the lists after `j`.
   */
  function RowMajorIndex<T>(ls: seq<seq<T>>, d: seq<nat>): (i: nat)
    requires ValidChoice(ls, d)
    ensures i < Count(ls)
    decreases |ls|
  {
    if |ls| == 0 then 0
    else
      var rest := RowMajorIndex(ls[1..], d[1..]);
      MulStep(d[0], |ls[0]|, Count(ls[1..]), rest);
      d[0] * Count(ls[1..]) + rest
  }

  /** `a * c + r` stays below `n * c` when `a < n` and `r < c`. */
  lemma MulStep(a: nat, n: nat, c: nat, r: nat)
    requires a < n && r < c
    ensures a * c + r < n * c
  {
    assert (a + 1) * c <= n * c;
  }

  /** Row-major order: the combination at position `RowMajorIndex(ls, d)` is the one `d` picks. */
  lemma {:induction false} ProductAt<T>(ls: seq<seq<T>>, d: seq<nat>)
    requires ValidChoice(ls, d)
    ensures RowMajorIndex(ls, d) < |Product(ls)|
    ensures Product(ls)[RowMajorIndex(ls, d)] == Pick(ls, d)
    decreases |ls|
  {
    if |ls| > 0 {
      var tails := Product(ls[1..]);
      var r := RowMajorIndex(ls[1..], d[1..]);
      ProductAt(ls[1..], d[1..]);
      assert Product(ls) == Spread(ls[0], tails);
      assert RowMajorIndex(ls, d) == d[0] * |tails| + r;
      SpreadAt(ls[0], tails, d[0], r);
      var c := [ls[0][d[0]]] + Pick(ls[1..], d[1..]);
      forall j | 0 <= j < |ls|
        ensures c[j] == Pick(ls, d)[j]
      {
        if j > 0 {
          assert c[j] == Pick(ls[1..], d[1..])[j - 1];
        }
      }
      assert c == Pick(ls, d);
    }
  }

  /** Multiplying by a natural number keeps the order. */
  lemma MulMono(a: nat, b: nat, c: nat)
    ensures a >= b ==> a * c >= b * c
  {
    if a >= b {
      var e: nat := a - b;
      assert a * c == b * c + e * c;
    }
  }

  /** One more factor adds one more `c`. */
  lemma MulSucc(a: nat, c: nat)
    ensures (a + 1) * c == a * c + c
  {
  }

  /** Quotient and remainder of `i` by a positive `c`, by repeated subtraction. */
  function QuotRem(i: nat, c: nat): (r: (nat, nat))
    requires c > 0
    ensures r.0 * c + r.1 == i && r.1 < c
    decreases i
  {
    if i < c then (0, i)
    else
      var p := QuotRem(i - c, c);
      MulSucc(p.0, c);
      (p.0 + 1, p.1)
  }

  /** A quotient of a position below `n * c` is below `n`. */
  lemma QuotBound(i: nat, n: nat, c: nat, q: nat, m: nat)
    requires q * c + m == i && i < n * c
    ensures q < n
  {
    MulMono(q, n, c);
  }

  /** A position below `n * c` leaves room for at least one tail. */
  lemma PositiveFactor(i: nat, n: nat, c: nat)
    requires i < n * c
    ensures c > 0
  {
    MulMono(c, 1, n);
    assert c * n == n * c;
  }

  /** The quotient and remainder of `a * c + r` with `r < c` are `a` and `r`. */
  lemma QuotRemUnique(a: nat, c: nat, r: nat)
    requires r < c
    ensures QuotRem(a * c + r, c) == (a, r)
  {
    var p := QuotRem(a * c + r, c);
    var q, m := p.0, p.1;
    MulMono(a, q + 1, c);
    MulMono(q, a + 1, c);
    MulSucc(q, c);
    MulSucc(a, c);
  }

  /** One unfolding of `RowMajorIndex`: the first digit weighs as many positions as the tails hold. */
  lemma RowMajorStep<T>(ls: seq<seq<T>>, d: seq<nat>)
    requires ValidChoice(ls, d) && |ls| > 0
    ensures ValidChoice(ls[1..], d[1..])
    ensures RowMajorIndex(ls, d) == d[0] * Count(ls[1..]) + RowMajorIndex(ls[1..], d[1..])
  {
  }

  /** A first digit in front of a choice for the remaining lists is a choice for all of them. */
  lemma ConsChoice<T>(ls: seq<seq<T>>, q: nat, tail: seq<nat>)
    requires |ls| > 0 && q < |ls[0]| && ValidChoice(ls[1..], tail)
    ensures ValidChoice(ls, [q] + tail)
    ensures RowMajorIndex(ls, [q] + tail) == q * Count(ls[1..]) + RowMajorIndex(ls[1..], tail)
  {
    var d := [q] + tail;
    assert d[1..] == tail;
    RowMajorStep(ls, d);
  }

  /** The option choice at position `i`: the mixed-radix digits of `i`, one per list. */
  function Decode<T>(ls: seq<seq<T>>, i: nat): (d: seq<nat>)
    requires i < Count(ls)
    ensures |d| == |ls|
    decreases |ls|
  {
    if |ls| == 0 then []
    else
      PositiveFactor(i, |ls[0]|, Count(ls[1..]));
      var p := QuotRem(i, Count(ls[1..]));
      [p.0] + Decode(ls[1..], p.1)
  }

  /** The decoded digits are a choice, and its position is `i` again. */
  lemma {:induction false} DecodeCorrect<T>(ls: seq<seq<T>>, i: nat)
    requires i < Count(ls)
    ensures ValidChoice(ls, Decode(ls, i))
    ensures RowMajorIndex(ls, Decode(ls, i)) == i
    decreases |ls|
  {
    if |ls| > 0 {
      var c := Count(ls[1..]);
      PositiveFactor(i, |ls[0]|, c);
      var p := QuotRem(i, c);
      QuotBound(i, |ls[0]|, c, p.0, p.1);
      DecodeCorrect(ls[1..], p.1);
      var tail := Decode(ls[1..], p.1);
      ConsChoice(ls, p.0, tail);
      assert Decode(ls, i) == [p.0] + tail;
    }
  }

  /** Decoding the position of a choice gives the choice back, so distinct choices have distinct positions. */
  lemma {:induction false} DecodeIndex<T>(ls: seq<seq<T>>, d: seq<nat>)
    requires ValidChoice(ls, d)
    ensures Decode(ls, RowMajorIndex(ls, d)) == d
    decreases |ls|
  {
    if |ls| > 0 {
      var c := Count(ls[1..]);
      var rest := RowMajorIndex(ls[1..], d[1..]);
      RowMajorStep(ls, d);
      QuotRemUnique(d[0], c, rest);
      DecodeIndex(ls[1..], d[1..]);
      assert Decode(ls, RowMajorIndex(ls, d)) == [d[0]] + d[1..];
    }
  }

  /** Every position of the product holds the combination its decoded choice picks. */
  lemma ProductDecode<T>(ls: seq<seq<T>>, i: nat)
    requires i < |Product(ls)|
    ensures ValidChoice(ls, Decode(ls, i))
    ensures Product(ls)[i] == Pick(ls, Decode(ls, i))
  {
    DecodeCorrect(ls, i);
    ProductAt(ls, Decode(ls, i));
  }

  /** A list with no options makes the whole product empty. */
  lemma {:induction false} EmptyListEmptiesProduct<T>(ls: seq<seq<T>>, j: nat)
    requires j < |ls| && |ls[j]| == 0
    ensures Product(ls) == []
    decreases |ls|
  {
    if j > 0 {
      EmptyListEmptiesProduct(ls[1..], j - 1);
    }
  }
}
