/** Ring storage shared by the bounded queues: a fixed array of slots read
    through a cursor taken modulo the number of slots.  `Window` is the
    abstraction every ring-based queue maps its concrete state to: the
    `n` items starting at cursor `start`, oldest first. */
module Circular {

  /** The `n` slots read from cursor `start` onwards, wrapping modulo `|slots|`. */
  function Window<T>(slots: seq<T>, start: nat, n: nat): (w: seq<T>)
    requires n == 0 || |slots| > 0
    ensures |w| == n
    ensures forall i :: 0 <= i < n ==> w[i] == slots[(start + i) % |slots|]
  {
    seq(n, i requires 0 <= i < n => slots[(start + i) % |slots|])
  }

  /** The quotient and remainder of a division are the only ones that fit. */
  lemma ModUnique(x: int, c: int, q: int, r: int)
    requires c > 0 && 0 <= r < c && x == q * c + r
    ensures x % c == r && x / c == q
  {
    var q0, r0 := x / c, x % c;
    assert (q - q0) * c == r0 - r;
    if q > q0 {
      MulAtLeast(q - q0, c);
      assert false;
    } else if q < q0 {
      MulAtLeast(q0 - q, c);
      assert false;
    }
  }

  lemma MulAtLeast(d: int, c: int)
    requires d >= 1 && c > 0
    ensures d * c >= c
  {
  }

  /** Taking a cursor modulo the capacity first does not change the slot it names. */
  lemma ModAdd(a: nat, b: nat, c: nat)
    requires c > 0
    ensures (a % c + b) % c == (a + b) % c
  {
    var y := a % c + b;
    ModUnique(y, c, y / c, y % c);
    ModUnique(a + b, c, a / c + y / c, y % c);
  }

  /** Two cursors closer together than the capacity name different slots. */
  lemma ModDistinct(a: nat, b: nat, c: nat)
    requires 0 < c && a < b < a + c
    ensures a % c != b % c
  {
    if a % c == b % c {
      assert b - a == (b / c - a / c) * c;
      if b / c - a / c <= 0 {
        assert false;
      } else {
        MulAtLeast(b / c - a / c, c);
        assert false;
      }
    }
  }

  /** A cursor `c` slots further on names the same slot. */
  lemma ModWrap(a: nat, c: nat)
    requires c > 0
    ensures (a + c) % c == a % c
  {
    ModUnique(a + c, c, a / c + 1, a % c);
  }

  /** Advancing a cursor by one moves to the next slot, wrapping after the last. */
  lemma ModSucc(a: nat, c: nat)
    requires c > 0
    ensures (a + 1) % c == if a % c == c - 1 then 0 else a % c + 1
  {
    if a % c == c - 1 {
      ModUnique(a + 1, c, a / c + 1, 0);
    } else {
      ModUnique(a + 1, c, a / c, a % c + 1);
    }
  }

  lemma WindowMod<T>(slots: seq<T>, start: nat, n: nat)
    requires |slots| > 0
    ensures Window(slots, start % |slots|, n) == Window(slots, start, n)
  {
    forall i | 0 <= i < n
      ensures Window(slots, start % |slots|, n)[i] == Window(slots, start, n)[i]
    {
      ModAdd(start, i, |slots|);
    }
  }

  /** Writing the slot just past a window that is not full appends to it. */
  lemma {:induction false} WindowPush<T>(slots: seq<T>, start: nat, n: nat, x: T)
    requires n < |slots|
    ensures Window(slots[(start + n) % |slots| := x], start, n + 1) == Window(slots, start, n) + [x]
  {
    var c := |slots|;
    var slots' := slots[(start + n) % c := x];
    forall i | 0 <= i < n
      ensures Window(slots', start, n + 1)[i] == Window(slots, start, n)[i]
    {
      ModDistinct(start + i, start + n, c);
    }
  }

  /** Writing the slot just past a window that is not full leaves the window as it was. */
  lemma {:induction false} WindowWriteBeyond<T>(slots: seq<T>, start: nat, n: nat, x: T)
    requires n < |slots|
    ensures Window(slots[(start + n) % |slots| := x], start, n) == Window(slots, start, n)
  {
    var c := |slots|;
    var slots' := slots[(start + n) % c := x];
    forall i | 0 <= i < n
      ensures Window(slots', start, n)[i] == Window(slots, start, n)[i]
    {
      ModDistinct(start + i, start + n, c);
    }
  }

  /** Dropping the oldest item of a window is advancing its start cursor. */
  lemma WindowPop<T>(slots: seq<T>, start: nat, n: nat)
    requires 0 < n && 0 < |slots|
    ensures Window(slots, start, n)[0] == slots[start % |slots|]
    ensures Window(slots, start + 1, n - 1) == Window(slots, start, n)[1..]
  {
  }

  /** Writing a full window's oldest slot drops the oldest item and appends the new one. */
  lemma {:induction false} WindowOverwrite<T>(slots: seq<T>, start: nat, x: T)
    requires 0 < |slots|
    ensures Window(slots[start % |slots| := x], start + 1, |slots|)
            == Window(slots, start, |slots|)[1..] + [x]
  {
    var c := |slots|;
    var slots' := slots[start % c := x];
    var lhs := Window(slots', start + 1, c);
    var rhs := Window(slots, start, c)[1..] + [x];
    forall i | 0 <= i < c
      ensures lhs[i] == rhs[i]
    {
      if i < c - 1 {
        ModDistinct(start, start + 1 + i, c);
      } else {
        ModWrap(start, c);
      }
    }
  }
}
