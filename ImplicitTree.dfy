// Index arithmetic of an implicit complete binary tree stored in an array:
// node `x` has children `2x` and `2x + 1`, the root is 1, and with
// `Exp2(h)` leaves the leaves are the indices `Exp2(h) .. 2 * Exp2(h) - 1`.
// cpp/src/Reactive.hpp lays its tree out this way; rust/src/reactive/flat_fat.rs
// uses the same shape shifted down by one (root 0, children 2i+1 and 2i+2).
module ImplicitTree {

  function Exp2(k: nat): (r: nat)
    ensures r >= 1
  {
    if k == 0 then 1 else 2 * Exp2(k - 1)
  }

  lemma {:induction false} Exp2Add(a: nat, b: nat)
    ensures Exp2(a + b) == Exp2(a) * Exp2(b)
  {
    if b > 0 {
      Exp2Add(a, b - 1);
      var x, y := Exp2(a), Exp2(b - 1);
      assert Exp2(a + b) == 2 * (x * y);
      assert Exp2(b) == 2 * y;
      assert x * (2 * y) == 2 * (x * y);
    }
  }

  lemma Exp2Even(k: nat)
    requires k > 0
    ensures Exp2(k) % 2 == 0 && Exp2(k) >= 2
  {
  }

  lemma {:induction false} Exp2Mono(a: nat, b: nat)
    requires a <= b
    ensures Exp2(a) <= Exp2(b)
  {
    if a < b {
      Exp2Mono(a, b - 1);
    }
  }

  /** `x` is a node at height `j` (leaves have height 0, the root height `h`)
      of the tree with `Exp2(h)` leaves. */
  ghost predicate Node(h: nat, j: nat, x: nat)
  {
    j <= h && Exp2(h - j) <= x < 2 * Exp2(h - j)
  }

  lemma MulTwice(a: int, e: int)
    ensures (2 * a) * e == 2 * (a * e) && (a + 1) * e == a * e + e
  {
  }

  lemma MulLe(a: int, b: int, e: int)
    requires a <= b && e >= 0
    ensures a * e <= b * e
  {
  }

  /** Division and multiplication bound each other. */
  lemma DivMul(x: int, e: int, b: int)
    requires e > 0
    ensures x * e <= b <==> x <= b / e
  {
    var d := b / e;
    assert b == d * e + b % e;
    if x <= d {
      MulLe(x, d, e);
    } else {
      MulLe(d + 1, x, e);
      assert (d + 1) * e == d * e + e;
    }
  }

  lemma DivUnique(a: nat, b: nat, q: nat, r: nat)
    requires b > 0 && r < b && a == q * b + r
    ensures a / b == q && a % b == r
  {
    var q' := a / b;
    if q' < q {
      MulTwice(q', b);
      MulLe(q' + 1, q, b);
    } else if q < q' {
      MulTwice(q, b);
      MulLe(q + 1, q', b);
    }
  }

  lemma DivDiv(a: nat, b: nat, c: nat)
    requires b > 0 && c > 0
    ensures a / b / c == a / (b * c)
  {
    var bc := b * c;
    var q, r := a / bc, a % bc;
    assert a == q * bc + r;
    var u, v := r / b, r % b;
    assert r == u * b + v;
    assert u < c;
    var w := q * c + u;
    assert q * bc == (q * c) * b;
    assert w * b == (q * c) * b + u * b;
    assert a == w * b + v;
    DivUnique(a, b, w, v);
    DivUnique(w, c, q, u);
  }

  /** Climbing one level divides by two. */
  lemma DivExp2Step(a: nat, k: nat)
    ensures a / Exp2(k) / 2 == a / Exp2(k + 1)
  {
    DivDiv(a, Exp2(k), 2);
  }

  /** The leaves below node `x` of height `j` are `x * Exp2(j) ..
      (x + 1) * Exp2(j) - 1`, all of them leaves of the tree. */
  lemma NodeLeaves(h: nat, j: nat, x: nat)
    requires Node(h, j, x)
    ensures Exp2(h) <= x * Exp2(j) < (x + 1) * Exp2(j) <= 2 * Exp2(h)
  {
    var a, e := Exp2(h - j), Exp2(j);
    Exp2Add(h - j, j);
    assert h - j + j == h;
    assert Exp2(h) == a * e;
    MulBounds(a, x, e);
  }

  lemma MulBounds(a: nat, x: nat, e: nat)
    requires a <= x < 2 * a && e >= 1
    ensures a * e <= x * e < (x + 1) * e <= 2 * (a * e)
  {
    MulLe(a, x, e);
    MulLe(x + 1, 2 * a, e);
    MulTwice(a, e);
    MulTwice(x, e);
  }

  /** The ancestor at height `k` of leaf `l` is `l / Exp2(k)`. */
  lemma LeafAncestor(h: nat, k: nat, l: nat)
    requires k <= h && Exp2(h) <= l < 2 * Exp2(h)
    ensures Node(h, k, l / Exp2(k))
  {
    var a, e := Exp2(h - k), Exp2(k);
    Exp2Add(h - k, k);
    assert Exp2(h) == a * e;
    DivMul(a, e, l);
    DivMul(2 * a, e, l);
    MulTwice(a, e);
  }

  lemma Children(h: nat, j: nat, p: nat)
    requires Node(h, j + 1, p)
    ensures Node(h, j, 2 * p) && Node(h, j, 2 * p + 1)
  {
    assert Exp2(h - j) == 2 * Exp2(h - j - 1);
  }

  lemma ParentNode(h: nat, j: nat, c: nat)
    requires Node(h, j, c) && j < h
    ensures Node(h, j + 1, c / 2)
  {
    assert Exp2(h - j) == 2 * Exp2(h - j - 1);
  }

  /** A node has one height. */
  lemma HeightUnique(h: nat, j: nat, j': nat, x: nat)
    requires Node(h, j, x)
    ensures Node(h, j', x) ==> j == j'
  {
    if Node(h, j', x) && j < j' {
      assert Exp2(h - j' + 1) == 2 * Exp2(h - j');
      Exp2Mono(h - j' + 1, h - j);
    } else if Node(h, j', x) && j' < j {
      assert Exp2(h - j + 1) == 2 * Exp2(h - j);
      Exp2Mono(h - j + 1, h - j');
    }
  }

  /** The root is the only node of height `h`. */
  lemma NodeRoot(h: nat, k: nat, c: nat)
    requires Node(h, k, c)
    ensures (k == h) == (c == 1)
    ensures k < h ==> Exp2(h - k) == 2 * Exp2(h - k - 1)
  {
  }

  /** Halving maps the leaves of `x` at depth `e` twice over onto its leaves
      at depth `e`. */
  lemma HalfBounds(x: int, e: int, y: int)
    requires e >= 1 && x * (2 * e) <= y < (x + 1) * (2 * e)
    ensures x * e <= y / 2 < (x + 1) * e
  {
    MulTwice(x, e);
    assert x * (2 * e) == 2 * (x * e);
    assert (x + 1) * (2 * e) == 2 * ((x + 1) * e);
  }

  /** The subtree of node `x` of height `j + 1` is the subtree of its left
      child followed by that of its right child. */
  lemma ChildRanges(j: nat, x: nat)
    ensures x * Exp2(j + 1) == (2 * x) * Exp2(j)
    ensures (2 * x + 1) * Exp2(j) == (2 * x) * Exp2(j) + Exp2(j)
    ensures (x + 1) * Exp2(j + 1) == (2 * x + 1) * Exp2(j) + Exp2(j)
  {
  }
}
