/**
 Write counters that wrap at 256 and the scan that picks the newest record by them.
 Both stores keep an eight-bit counter in every record; the logical number of a write is
 unbounded, and these lemmas say when comparing the wrapped values is as good as
 comparing the logical numbers.
 */
module CyclicCounters {
  import opened Bytes
  import opened Options

  type Comparison = (byte, byte) -> bool

  /** The stored counter of the write with logical number `n`. */
  function Wrap(n: int): byte {
    n % 256
  }

  /** AVR: newer if the difference modulo 256 is in 1..127. */
  predicate NewerSequence(candidate: byte, newest: byte) {
    var diff := Wrap(candidate - newest);
    diff != 0 && diff < 128
  }

  const COUNTER_VALID_WINDOW := 112

  /** PIC: greater if the opposite difference modulo 256 is in 144..255. */
  predicate CounterGreat(candidate: byte, newest: byte) {
    Wrap(newest - candidate) >= 256 - COUNTER_VALID_WINDOW
  }

  /** The comparison orders the counters of writes at most `window` apart as their numbers. */
  ghost predicate Orders(newer: Comparison, window: nat) {
    forall a: int, b: int :: a - b <= window && b - a <= window ==> (newer(Wrap(a), Wrap(b)) <==> a > b)
  }

  lemma SequenceOrders()
    ensures Orders(NewerSequence, 127)
  {
    hide Wrap;
    forall a: int, b: int | a - b <= 127 && b - a <= 127
      ensures NewerSequence(Wrap(a), Wrap(b)) <==> a > b
    {
      WrapDifference(a, b);
      WrapSmall(a - b);
    }
  }

  lemma CounterOrders()
    ensures Orders(CounterGreat, 112)
  {
    hide Wrap;
    forall a: int, b: int | a - b <= 112 && b - a <= 112
      ensures CounterGreat(Wrap(a), Wrap(b)) <==> a > b
    {
      WrapDifference(b, a);
      WrapSmall(b - a);
    }
  }

  /** The windows cannot be widened: one step further apart the newer write is not seen. */
  lemma WindowsAreTight(n: int)
    ensures !NewerSequence(Wrap(n + 128), Wrap(n))
    ensures !CounterGreat(Wrap(n + 113), Wrap(n))
  {
    hide Wrap;
    WrapDifference(n + 128, n);
    WrapDifference(n, n + 113);
    WrapSmall(128);
    WrapSmall(-113);
  }

  lemma WrapDifference(a: int, b: int)
    ensures Wrap(Wrap(a) - Wrap(b)) == Wrap(a - b)
  {
    var p, q := a / 256, b / 256;
    assert a == 256 * p + a % 256 && b == 256 * q + b % 256;
    assert a - b == 256 * (p - q) + (a % 256 - b % 256);
    WrapShift(a % 256 - b % 256, p - q);
  }

  lemma WrapSmall(n: int)
    requires -256 <= n < 256
    ensures Wrap(n) == if n < 0 then n + 256 else n
  {
  }

  lemma {:induction false} WrapShift(n: int, laps: int)
    ensures Wrap(256 * laps + n) == Wrap(n)
    decreases if laps < 0 then -laps else laps
  {
    if laps > 0 {
      WrapShift(n, laps - 1);
    } else if laps < 0 {
      WrapShift(n, laps + 1);
    }
  }

  /** Wrapping before adding changes nothing. */
  lemma WrapAgain(a: int, b: int)
    ensures Wrap(Wrap(a) as int + b) == Wrap(a + b)
  {
    var q := a / 256;
    assert a == 256 * q + a % 256;
    WrapShift(a % 256 + b, q);
  }

  lemma WrapOfByte(b: byte)
    ensures Wrap(b) == b
  {
  }

  lemma WrapDistinct(a: int, b: int)
    requires 0 < a - b < 256
    ensures Wrap(a) != Wrap(b)
  {
  }

  /**
   Position of the newest entry after looking at the first `n`, or -1: the first valid
   entry, replaced by every later one that compares newer.
   */
  function Newest(newer: Comparison, entries: seq<Option<byte>>, n: nat): (p: int)
    requires n <= |entries|
    ensures -1 <= p < n
    ensures p >= 0 ==> entries[p].Some?
    ensures p < 0 ==> forall i :: 0 <= i < n ==> entries[i].None?
  {
    if n == 0 then -1
    else
      var p := Newest(newer, entries, n - 1);
      if entries[n - 1].Some? && (p < 0 || newer(entries[n - 1].value, entries[p].value)) then n - 1 else p
  }

  /** Every valid entry carries the wrapped counter of its logical number, all within `window`. */
  ghost predicate Numbered(entries: seq<Option<byte>>, numbers: seq<int>, window: nat) {
    && |numbers| == |entries|
    && (forall i :: 0 <= i < |entries| && entries[i].Some? ==> entries[i].value == Wrap(numbers[i]))
    && (forall i, j :: 0 <= i < |entries| && 0 <= j < |entries| && entries[i].Some? && entries[j].Some?
          ==> numbers[i] - numbers[j] <= window)
  }

  lemma Wider(entries: seq<Option<byte>>, numbers: seq<int>, window: nat, wider: nat)
    requires Numbered(entries, numbers, window) && window <= wider
    ensures Numbered(entries, numbers, wider)
  {
  }

  /**
   In whatever order the entries are scanned, the scan ends at the logically newest one,
   and at the first of several with the same number.
   */
  lemma {:induction false} NewestIsLogicallyNewest(
      newer: Comparison, window: nat, entries: seq<Option<byte>>, numbers: seq<int>, n: nat)
    requires Orders(newer, window)
    requires Numbered(entries, numbers, window)
    requires n <= |entries|
    ensures var p := Newest(newer, entries, n);
      p >= 0 ==>
        && (forall i :: 0 <= i < n && entries[i].Some? ==> numbers[i] <= numbers[p])
        && (forall i :: 0 <= i < p && entries[i].Some? ==> numbers[i] < numbers[p])
  {
    if n > 0 {
      NewestIsLogicallyNewest(newer, window, entries, numbers, n - 1);
      var p := Newest(newer, entries, n - 1);
      if entries[n - 1].Some? && p >= 0 {
        var a, b := numbers[n - 1], numbers[p];
        assert newer(Wrap(a), Wrap(b)) <==> a > b;
      }
    }
  }

  // ---------- The scan when only four entries can be valid ----------

  /** The choice between the newest entry so far and entry `i`. */
  function Choose(newer: Comparison, s: seq<Option<byte>>, p: int, i: nat): int
    requires -1 <= p < |s| && i < |s| && (p >= 0 ==> s[p].Some?)
  {
    if s[i].Some? && (p < 0 || newer(s[i].value, s[p].value)) then i else p
  }

  lemma {:induction false} ScanSkips(newer: Comparison, s: seq<Option<byte>>, a: nat, b: nat)
    requires a <= b <= |s| && forall i :: a <= i < b ==> s[i].None?
    ensures Newest(newer, s, b) == Newest(newer, s, a)
  {
    if a < b {
      ScanSkips(newer, s, a, b - 1);
    }
  }

  lemma ScanTo(newer: Comparison, s: seq<Option<byte>>, a: nat, i: nat)
    requires a <= i < |s| && forall k :: a <= k < i ==> s[k].None?
    ensures Newest(newer, s, i + 1) == Choose(newer, s, Newest(newer, s, a), i)
  {
    ScanSkips(newer, s, a, i);
  }

  lemma ScanFour(newer: Comparison, s: seq<Option<byte>>, p: nat, q: nat, r: nat, t: nat)
    requires p < q < r < t < |s|
    requires forall i :: 0 <= i < |s| && i != p && i != q && i != r && i != t ==> s[i].None?
    ensures Newest(newer, s, |s|)
         == Choose(newer, s, Choose(newer, s, Choose(newer, s, Choose(newer, s, -1, p), q), r), t)
  {
    hide Newest;
    NothingScanned(newer, s);
    ScanTo(newer, s, 0, p);
    ScanTo(newer, s, p + 1, q);
    ScanTo(newer, s, q + 1, r);
    ScanTo(newer, s, r + 1, t);
    ScanSkips(newer, s, t + 1, |s|);
  }

  lemma NothingScanned(newer: Comparison, s: seq<Option<byte>>)
    ensures Newest(newer, s, 0) == -1
  {
  }
}
