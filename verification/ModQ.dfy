/** Congruence modulo q = 3329, for integers and coefficientwise for sequences. */
module ModQ {
  import opened Arithmetic

  const Q: int := 3329

  ghost predicate Cong(a: int, b: int) {
    (a - b) % Q == 0
  }

  ghost predicate CongSeq(f: seq<int>, g: seq<int>) {
    |f| == |g| && forall i :: 0 <= i < |f| ==> Cong(f[i], g[i])
  }

  /** A multiple of q between two numbers makes them congruent, and conversely. */
  lemma CongFrom(a: int, b: int, k: int)
    requires a - b == Q * k
    ensures Cong(a, b)
  {
    DivUnique(a - b, Q, k, 0);
  }

  lemma CongTo(a: int, b: int) returns (k: int)
    requires Cong(a, b)
    ensures a - b == Q * k
  {
    k := (a - b) / Q;
    Euclid(a - b, Q);
  }

  lemma CongRefl(a: int)
    ensures Cong(a, a)
  {
  }

  lemma CongSym(a: int, b: int)
    requires Cong(a, b)
    ensures Cong(b, a)
  {
    hide Cong;
    var k := CongTo(a, b);
    CongFrom(b, a, -k);
  }

  lemma CongTrans(a: int, b: int, c: int)
    requires Cong(a, b) && Cong(b, c)
    ensures Cong(a, c)
  {
    hide Cong;
    var k := CongTo(a, b);
    var m := CongTo(b, c);
    CongFrom(a, c, k + m);
  }

  lemma CongAdd(a: int, b: int, c: int, d: int)
    requires Cong(a, b) && Cong(c, d)
    ensures Cong(a + c, b + d)
    ensures Cong(a - c, b - d)
  {
    hide Cong;
    var k := CongTo(a, b);
    var m := CongTo(c, d);
    CongFrom(a + c, b + d, k + m);
    CongFrom(a - c, b - d, k - m);
  }

  lemma CongScale(x: int, a: int, b: int)
    requires Cong(a, b)
    ensures Cong(x * a, x * b)
    ensures Cong(a * x, b * x)
  {
    hide Cong;
    var k := CongTo(a, b);
    Distribute(x, b, a - b);
    Exchange(x, Q, k);
    CongFrom(x * a, x * b, x * k);
  }

  lemma CongMul(a: int, b: int, c: int, d: int)
    requires Cong(a, b) && Cong(c, d)
    ensures Cong(a * c, b * d)
  {
    hide Cong;
    CongScale(c, a, b);
    CongScale(b, c, d);
    CongTrans(a * c, b * c, b * d);
  }

  /** A factor congruent to one can be dropped. */
  lemma CongUnit(u: int, a: int)
    requires Cong(u, 1)
    ensures Cong(u * a, a)
  {
    hide Cong;
    CongScale(a, u, 1);
  }
}
