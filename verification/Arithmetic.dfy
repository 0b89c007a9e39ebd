/** The few facts about multiplication, division and remainder the other modules need. */
module Arithmetic {
  lemma MultipleAtLeast(m: nat, d: int)
    ensures d >= 1 ==> m * d >= m
    ensures d <= -1 ==> m * d + m <= 0
  {
    if d >= 1 {
      assert m * d == m + m * (d - 1);
    } else if d <= -1 {
      assert m * d + m == m * (d + 1);
    }
  }

  /** A number written as m * q + r with r < m has quotient q and remainder r. */
  lemma DivisionIsUnique(q: int, r: nat, m: nat)
    requires r < m
    ensures (m * q + r) / m == q && (m * q + r) % m == r
  {
    var v := m * q + r;
    var q', r' := v / m, v % m;
    assert v == m * q' + r';
    assert m * (q - q') == r' - r;
    MultipleAtLeast(m, q - q');
  }

  lemma ModOfMultiple(m: nat, q: int)
    requires m > 0
    ensures (m * q) % m == 0
  {
    DivisionIsUnique(q, 0, m);
  }

  lemma ModSuccessor(a: nat, m: nat)
    requires m > 0
    ensures (a % m + 1) % m == (a + 1) % m
  {
    var q, r := a / m, a % m;
    assert a == m * q + r;
    if r + 1 == m {
      assert a + 1 == m * (q + 1);
      DivisionIsUnique(q + 1, 0, m);
      DivisionIsUnique(1, 0, m);
    } else {
      DivisionIsUnique(q, r + 1, m);
      DivisionIsUnique(0, r + 1, m);
    }
  }
}
