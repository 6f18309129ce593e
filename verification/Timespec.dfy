/**
 Points in time split into seconds and nanoseconds, and their comparison.
 */
module Timespec {

  datatype Timespec = Timespec(sec: nat, nsec: nat)

  const NSEC: nat := 1_000_000_000

  /** `set_timespec_time_nsec` on an unsigned 64-bit count. */
  function Split(t: nat): Timespec {
    Timespec(t / NSEC, t % NSEC)
  }

  predicate Normalised(t: Timespec) {
    t.nsec < NSEC
  }

  function Nanoseconds(t: Timespec): nat {
    t.sec * NSEC + t.nsec
  }

  /** `cmp_timespec` */
  function CmpTimespec(a: Timespec, b: Timespec): int {
    if a.sec > b.sec || (a.sec == b.sec && a.nsec > b.nsec) then 1
    else if a.sec < b.sec || (a.sec == b.sec && a.nsec < b.nsec) then -1
    else 0
  }

  /** `CMP_NUM` */
  function CmpNum(a: int, b: int): int {
    if a < b then -1 else if a == b then 0 else 1
  }

  /** On normalised values the field-by-field comparison is the comparison of the counts, and splitting
      and counting undo each other; so it is a total order, and the order of the original counts. */
  lemma CmpTimespecIsCmpNum(x: Timespec, y: Timespec, a: nat, b: nat)
    ensures Normalised(x) && Normalised(y) ==> CmpTimespec(x, y) == CmpNum(Nanoseconds(x), Nanoseconds(y))
    ensures Normalised(x) ==> Split(Nanoseconds(x)) == x
    ensures Normalised(Split(a)) && Nanoseconds(Split(a)) == a
    ensures CmpTimespec(Split(a), Split(b)) == CmpNum(a, b)
  {
  }

  const ULONGLONG: nat := 0x1_0000_0000_0000_0000

  /** `set_timespec_nsec`: the deadline `nsec` after the clock reading `now`, in unsigned 64-bit arithmetic. */
  function Deadline(now: nat, nsec: nat): Timespec {
    Split((now * 1000 + nsec) % ULONGLONG)
  }

  /** Of two waits from the same instant, the longer one has the later deadline if and only if the sum
      does not wrap around between them. */
  lemma LongerWaitLaterIff(now: nat, a: nat, b: nat)
    requires a < b < ULONGLONG
    ensures var n := (now * 1000) % ULONGLONG;
            CmpTimespec(Deadline(now, a), Deadline(now, b)) == -1 <==> !(n + a < ULONGLONG <= n + b)
  {
    var n, q := (now * 1000) % ULONGLONG, (now * 1000) / ULONGLONG;
    assert now * 1000 == q * ULONGLONG + n;
    Reduce(q, n, a);
    Reduce(q, n, b);
    var x, y := (now * 1000 + a) % ULONGLONG, (now * 1000 + b) % ULONGLONG;
    CmpTimespecIsCmpNum(Split(x), Split(y), x, y);
  }

  lemma Reduce(q: nat, n: nat, a: nat)
    requires n < ULONGLONG && a < ULONGLONG
    ensures (q * ULONGLONG + n + a) % ULONGLONG == if n + a < ULONGLONG then n + a else n + a - ULONGLONG
  {
  }

  /** The clock counts microseconds and waits count nanoseconds: a second more of either is one second more
      of the deadline, unless the sum wraps. */
  lemma OneSecondMore(now: nat, nsec: nat)
    requires now * 1000 + nsec + 1_000_000_000 < ULONGLONG
    ensures var d := Deadline(now, nsec);
            Deadline(now, nsec + 1_000_000_000) == Deadline(now + 1_000_000, nsec) == d.(sec := d.sec + 1)
  {
    assert (now + 1_000_000) * 1000 == now * 1000 + 1_000_000_000;
  }

  /** In the year 2554 no wait, and then a wait of a microsecond: the sum has wrapped, and the longer wait
      is over first. */
  lemma LongerWaitEarlier()
    ensures var now := 18_446_744_073_709_551;
            CmpTimespec(Deadline(now, 0), Deadline(now, 1000)) == 1
  {
    LongerWaitLaterIff(18_446_744_073_709_551, 0, 1000);
  }
}
