/**
 The mode-cycling cursor of `gop_next_mode`: a static counter that starts at
 1, is handed to `SetMode` and post-incremented, and is reset to 0 once it
 reaches the number of modes the firmware advertises.
 */
module GopCycle {
  import opened GopArith

  /** Value of the static cursor before the first call. */
  const INITIAL_CURSOR: nat := 1

  /** The cursor after one call, given the cursor before it. */
  function Advance(cursor: nat, numModes: nat): (next: nat)
    ensures numModes >= 1 ==> next < numModes
    ensures cursor < numModes ==> next == (cursor + 1) % numModes
    ensures next == 0 || next == cursor + 1
    ensures next == cursor + 1 <==> cursor + 1 < numModes
  {
    if cursor + 1 >= numModes then 0 else cursor + 1
  }

  /** The cursor after `k` calls; call number `k` (counting from 0)
      requests mode `CursorAfter(k, numModes)`. */
  function CursorAfter(k: nat, numModes: nat): (cursor: nat)
  {
    if k == 0 then INITIAL_CURSOR else Advance(CursorAfter(k - 1, numModes), numModes)
  }

  /** Every request after the first names an existing mode, and so does the
      first one when there are at least two modes. */
  lemma RequestedModeExists(k: nat, numModes: nat)
    requires numModes >= 2 || (numModes == 1 && k >= 1)
    ensures CursorAfter(k, numModes) < numModes
  {
  }

  /** With a single mode the first call requests mode 1, which does not
      exist (the `SetMode` result is not checked). */
  lemma FirstRequestWithOneMode()
    ensures CursorAfter(0, 1) == 1
    ensures CursorAfter(1, 1) == 0
  {
  }

  /** With at least two modes, call `k` requests mode `(k + 1) mod numModes`:
      modes 1, 2, ..., numModes - 1, 0, 1, ... */
  lemma {:induction false} CursorClosedForm(k: nat, numModes: nat)
    requires numModes >= 2
    ensures CursorAfter(k, numModes) == (k + 1) % numModes
  {
    if k > 0 {
      var n := numModes;
      CursorClosedForm(k - 1, n);
      assert CursorAfter(k, n) == Advance(k % n, n);
      ModSuccessor(k + 1, n);
    }
  }

  /** With at most one mode every call after the first requests mode 0. */
  lemma CursorSettlesAtZero(k: nat, numModes: nat)
    requires numModes <= 1 && k >= 1
    ensures CursorAfter(k, numModes) == 0
  {
  }

  /** `numModes` further calls bring the cursor back to where it was. */
  lemma CursorPeriodic(k: nat, numModes: nat)
    requires numModes >= 2 || k >= 1
    ensures CursorAfter(k + numModes, numModes) == CursorAfter(k, numModes)
  {
    if numModes >= 2 {
      var n := numModes;
      CursorClosedForm(k, n);
      CursorClosedForm(k + n, n);
      ModAddPeriod(k + 1, n);
      assert k + n + 1 == k + 1 + n;
    } else {
      CursorSettlesAtZero(k, numModes);
      CursorSettlesAtZero(k + numModes, numModes);
    }
  }

  /** Within any `numModes` consecutive calls, from call `s` on, some call
      requests `mode`. */
  lemma CallRequestingMode(s: nat, numModes: nat, mode: nat) returns (j: nat)
    requires numModes >= 2 && mode < numModes
    ensures s <= j < s + numModes
    ensures CursorAfter(j, numModes) == mode
  {
    var n := numModes;
    var q, r := (s + 1) / n, (s + 1) % n;
    assert s + 1 == q * n + r;
    if r <= mode {
      j := s + (mode - r);
      assert j + 1 == q * n + mode;
      DivModUnique(j + 1, n, q, mode);
    } else {
      j := s + (mode + n - r);
      assert j + 1 == (q + 1) * n + mode;
      DivModUnique(j + 1, n, q + 1, mode);
    }
    CursorClosedForm(j, n);
  }

  /** No two of any `numModes` consecutive calls request the same mode;
      with `CallRequestingMode`, each mode is requested exactly once. */
  lemma CallsWithinCycleDistinct(s: nat, numModes: nat)
    requires numModes >= 2
    ensures forall i, j :: s <= i < j < s + numModes ==>
              CursorAfter(i, numModes) != CursorAfter(j, numModes)
  {
    var n := numModes;
    forall i: nat, j: nat | s <= i < j < s + n
      ensures CursorAfter(i, n) != CursorAfter(j, n)
    {
      CursorClosedForm(i, n);
      CursorClosedForm(j, n);
      ModDistinct(i + 1, j + 1, n);
    }
  }

  /** Numbers less than `n` apart have different remainders modulo `n`. */
  lemma ModDistinct(a: nat, b: nat, n: nat)
    requires 0 < n && a < b < a + n
    ensures a % n != b % n
  {
    var q, r, d := a / n, a % n, b - a;
    assert a == q * n + r;
    if r + d < n {
      assert b == q * n + (r + d);
      DivModUnique(b, n, q, r + d);
    } else {
      assert b == (q + 1) * n + (r + d - n);
      DivModUnique(b, n, q + 1, r + d - n);
    }
  }

  /** Adding `n` does not change the remainder modulo `n`. */
  lemma ModAddPeriod(a: nat, n: nat)
    requires n >= 1
    ensures (a + n) % n == a % n
  {
    var q, r := a / n, a % n;
    assert a + n == (q + 1) * n + r;
    DivModUnique(a + n, n, q + 1, r);
  }

  /** The remainder of `k` is one more than that of `k - 1`, except that
      it wraps to 0. */
  lemma ModSuccessor(k: nat, n: nat)
    requires k >= 1 && n >= 1
    ensures ((k - 1) % n + 1) % n == k % n
  {
    var q, r := (k - 1) / n, (k - 1) % n;
    assert k == q * n + (r + 1);
    if r + 1 < n {
      DivModUnique(k, n, q, r + 1);
    } else {
      assert k == (q + 1) * n + 0;
      DivModUnique(k, n, q + 1, 0);
    }
  }
}
