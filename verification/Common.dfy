/** Machine words and the option type shared by all components. */
module Common {
  type byte = x: nat | x < 0x100
  type uint16 = x: nat | x < 0x1_0000
  type uint32 = x: nat | x < 0x1_0000_0000

  const WORD := 0x1_0000_0000

  /** The uint32_t that C gives for a sum or difference of two uint32_t values whose exact value is x. */
  function Wrap32(x: int): uint32
    requires -WORD <= x < 2 * WORD
  {
    if x < 0 then x + WORD else if x < WORD then x else x - WORD
  }

  lemma SubsetSize<T>(a: set<T>, b: set<T>)
    requires a <= b
    ensures |a| <= |b|
  {
    assert b == a + (b - a);
  }

  predicate Within(k: nat, lo: nat, hi: nat) {
    lo <= k < hi
  }

  ghost function Interval(lo: nat, hi: nat): set<nat> {
    set k: nat | k < hi && Within(k, lo, hi)
  }

  lemma {:induction false} IntervalSize(lo: nat, hi: nat)
    requires lo <= hi
    ensures |Interval(lo, hi)| == hi - lo
    decreases hi
  {
    if lo == hi {
      assert Interval(lo, hi) == {};
    } else {
      IntervalSize(lo, hi - 1);
      assert Interval(lo, hi) == Interval(lo, hi - 1) + {hi - 1};
    }
  }

  datatype Option<+T> = None | Some(value: T)
}
