/**
 * The choice of the tuner's centre frequency for the rtl-sdr input
 * (src/rtl.c:40-70): the requested channel frequencies are bubble-sorted in place,
 * a set spread wider than the tuner's band is refused, and the centre is put in a
 * gap between two channels, so that no channel falls on the centre itself.
 */
module Tuner {

  /** `unsigned int`. */
  newtype u32 = x: int | 0 <= x < 0x1_0000_0000

  /** The sample rate of one channel, `RTLRATE`. */
  const RtlRate: int := 24000
  /** The tuner's sample rate, `RTLINRATE` = `RTLRATE*RTLMULT`. */
  const RtlInRate: int := RtlRate * 50
  /** `MDF`: the widest spread of channels the tuner's band can hold. */
  const Mdf: int := RtlInRate / 2 - 2 * RtlRate

  /** Unsigned 32-bit arithmetic: the result modulo 2^32. */
  function Wrap(x: int): (r: u32)
    ensures 0 <= x < 0x1_0000_0000 ==> r as int == x
  {
    (x % 0x1_0000_0000) as u32
  }

  predicate Sorted(s: seq<u32>)
  {
    forall i, j :: 0 <= i < j < |s| ==> s[i] <= s[j]
  }

  /**
   * The first `b` frequencies are each at most every frequency from `b` on, and
   * those from `b` on are sorted: after k bubble passes this holds for b = |s| - k.
   */
  predicate Settled(s: seq<u32>, b: int)
  {
    && (forall i, j :: 0 <= i < b <= j < |s| ==> s[i] <= s[j])
    && (forall i, j :: 0 <= i && b <= i < j < |s| ==> s[i] <= s[j])
  }

  /** Channels `n-1` and `n` leave room for a centre at least `RTLRATE` from both, in unsigned arithmetic. */
  predicate Gap(s: seq<u32>, n: int)
    requires 1 <= n < |s|
  {
    Wrap(s[n - 1] as int + RtlRate) <= Wrap(s[n] as int - RtlRate)
  }

  /** The midpoint of channels `n-1` and `n`, their sum taken modulo 2^32. */
  function Mid(s: seq<u32>, n: int): u32
    requires 1 <= n < |s|
  {
    Wrap(s[n - 1] as int + s[n] as int) / 2
  }

  /** The scan for the first pair from `n` on with a gap; `RTLRATE` below the lowest channel if there is none. */
  function FirstGap(s: seq<u32>, n: nat): u32
    requires 1 <= |s|
    decreases |s| - n
  {
    if n == 0 || n >= |s| then Wrap(s[0] as int - RtlRate)
    else if Gap(s, n) then Mid(s, n)
    else FirstGap(s, n + 1)
  }

  /**
   * The centre frequency chosen for the sorted channels `s`: 0 when they are spread
   * wider than `MDF`, two channel rates below a single channel, the midpoint of the
   * middle pair when it has a gap, else of the first pair with one.
   */
  function Centre(s: seq<u32>): u32
    requires 1 <= |s|
  {
    if Wrap(s[|s| - 1] as int - s[0] as int) as int > Mdf then 0
    else if |s| == 1 then Wrap(s[0] as int - 2 * RtlRate)
    else if Gap(s, |s| / 2) then Mid(s, |s| / 2)
    else FirstGap(s, 1)
  }

  /**
   * `chooseFc` (src/rtl.c:41-70): sorts the first `nbch` frequencies of `Fd` in place
   * and returns the centre frequency for them, 0 when they do not fit.  `nbch` is at
   * least 1: with none, the unsigned `nbch-1` sends the sort out of the array.
   */
  method ChooseFc(Fd: array<u32>, nbch: nat) returns (fc: u32)
    requires 1 <= nbch <= Fd.Length
    modifies Fd
    ensures Sorted(Fd[..nbch]) && multiset(Fd[..nbch]) == multiset(old(Fd[..nbch]))
    ensures Fd[nbch..] == old(Fd[nbch..])
    ensures fc == Centre(Fd[..nbch])
  {
    SortChannels(Fd, nbch);
    fc := PickCentre(Fd, nbch);
  }

  /** The choice of src/rtl.c:57-69 on the sorted channels. */
  method PickCentre(Fd: array<u32>, nbch: nat) returns (fc: u32)
    requires 1 <= nbch <= Fd.Length
    ensures fc == Centre(Fd[..nbch])
  {
    ghost var s := Fd[..nbch];
    if Wrap(Fd[nbch - 1] as int - Fd[0] as int) as int > Mdf {
      return 0;
    }
    if nbch == 1 {
      return Wrap(Fd[0] as int - 2 * RtlRate);
    }
    if Wrap(Fd[nbch / 2 - 1] as int + RtlRate) <= Wrap(Fd[nbch / 2] as int - RtlRate) {
      return Wrap(Fd[nbch / 2 - 1] as int + Fd[nbch / 2] as int) / 2;
    }
    fc := ScanGaps(Fd, nbch);
  }

  /** The `for` loop of src/rtl.c:67-69: the first pair with a gap, from the lowest up. */
  method ScanGaps(Fd: array<u32>, nbch: nat) returns (fc: u32)
    requires 1 <= nbch <= Fd.Length
    ensures fc == FirstGap(Fd[..nbch], 1)
  {
    ghost var s := Fd[..nbch];
    var n := 1;
    while n < nbch
      invariant 1 <= n <= nbch
      invariant FirstGap(s, n) == FirstGap(s, 1)
    {
      if Wrap(Fd[n - 1] as int + RtlRate) <= Wrap(Fd[n] as int - RtlRate) {
        assert Gap(s, n);
        return Wrap(Fd[n - 1] as int + Fd[n] as int) / 2;
      }
      n := n + 1;
    }
    return Wrap(Fd[0] as int - RtlRate);
  }

  /**
   * The do-while of src/rtl.c:46-55: passes over the channels until one makes no
   * exchange.  After k passes the k highest frequencies are in place, so a pass
   * that still exchanges something is followed by at most `nbch - k` more.
   */
  method SortChannels(Fd: array<u32>, nbch: nat)
    requires 1 <= nbch <= Fd.Length
    modifies Fd
    ensures Sorted(Fd[..nbch]) && multiset(Fd[..nbch]) == multiset(old(Fd[..nbch]))
    ensures Fd[nbch..] == old(Fd[nbch..])
  {
    ghost var b := nbch;
    var ne := true;
    while ne
      invariant 0 <= b <= nbch && (ne ==> 1 <= b)
      invariant Settled(Fd[..nbch], b)
      invariant !ne ==> Sorted(Fd[..nbch])
      invariant multiset(Fd[..]) == multiset(old(Fd[..])) && Fd[nbch..] == old(Fd[nbch..])
      decreases b + (if ne then 1 else 0)
    {
      ne := Pass(Fd, nbch, b);
      b := b - 1;
    }
    PrefixPermutation(old(Fd[..]), Fd[..], nbch);
  }

  /**
   * One pass of the `for` loop of src/rtl.c:48-54: each neighbouring pair out of
   * order is exchanged and `ne` records that one was.  The highest of the first `b`
   * frequencies ends at `b-1`; a pass exchanges something only when the channels
   * were not sorted, and leaves them sorted when it exchanges nothing.
   */
  method Pass(Fd: array<u32>, nbch: nat, ghost b: nat) returns (ne: bool)
    requires 1 <= b <= nbch <= Fd.Length && Settled(Fd[..nbch], b)
    modifies Fd
    ensures Settled(Fd[..nbch], b - 1)
    ensures multiset(Fd[..]) == multiset(old(Fd[..])) && Fd[nbch..] == old(Fd[nbch..])
    ensures ne ==> !Sorted(old(Fd[..nbch]))
    ensures !ne ==> Sorted(Fd[..nbch])
  {
    ghost var s0 := Fd[..];
    ne := false;
    var n := 0;
    while n < nbch - 1
      invariant 0 <= n <= nbch - 1
      invariant Fd[..] == Bubbled(s0, n) && ne == Exchanged(s0, n)
    {
      var exchanged := OrderPair(Fd, n);
      ne := ne || exchanged;
      n := n + 1;
    }
    BubbledInv(s0, nbch, n, b);
    PassEnds(s0, Fd[..], nbch, n, b, ne);
  }

  /** The frequencies after the first `n` comparisons of a pass over `s`. */
  function Bubbled(s: seq<u32>, n: nat): (t: seq<u32>)
    requires n < |s|
    ensures |t| == |s|
  {
    if n == 0 then s
    else
      var t := Bubbled(s, n - 1);
      if t[n - 1] > t[n] then t[n - 1 := t[n]][n := t[n - 1]] else t
  }

  /** Whether one of the first `n` comparisons of a pass over `s` exchanged a pair. */
  function Exchanged(s: seq<u32>, n: nat): bool
    requires n < |s|
  {
    n > 0 && (Exchanged(s, n - 1) || Bubbled(s, n - 1)[n - 1] > Bubbled(s, n - 1)[n])
  }

  /** Exchanging two neighbours keeps the multiset of frequencies. */
  lemma SwapKeeps(t: seq<u32>, i: nat)
    requires i + 1 < |t|
    ensures multiset(if t[i] > t[i + 1] then t[i := t[i + 1]][i + 1 := t[i]] else t) == multiset(t)
  {
  }

  /** Every prefix of a pass over settled frequencies is in the state `PassInv` describes. */
  lemma {:induction false} BubbledInv(s0: seq<u32>, nbch: nat, n: nat, b: nat)
    requires 1 <= b <= nbch <= |s0| && n <= nbch - 1 && Settled(s0[..nbch], b)
    ensures PassInv(s0, Bubbled(s0, n), nbch, n, b, Exchanged(s0, n))
  {
    if n == 0 {
      PassStarts(s0, nbch, b);
    } else {
      BubbledInv(s0, nbch, n - 1, b);
      BubbledStep(s0, nbch, n - 1, b);
    }
  }

  /** The comparison after the first `m` keeps the state of the pass. */
  lemma BubbledStep(s0: seq<u32>, nbch: nat, m: nat, b: nat)
    requires m < nbch - 1 && nbch <= |s0|
    requires PassInv(s0, Bubbled(s0, m), nbch, m, b, Exchanged(s0, m))
    ensures PassInv(s0, Bubbled(s0, m + 1), nbch, m + 1, b, Exchanged(s0, m + 1))
  {
    var t := Bubbled(s0, m);
    var exchanged := t[m] > t[m + 1];
    SwapKeeps(t, m);
    PassStep(s0, t, Bubbled(s0, m + 1), nbch, m, b, Exchanged(s0, m), exchanged, Exchanged(s0, m + 1));
  }

  /** The index the pass has carried the highest frequency so far to. */
  function Top(n: int, b: int): int
  {
    if n < b then n else b - 1
  }

  /**
   * The state of a pass over `s0` once the pairs before `n` were compared: a
   * permutation of `s0` that differs from it only up to `n`, below `b`; the
   * frequencies below `b` still at most those from `b` on; the highest so far at
   * `Top(n, b)`; and, without an exchange yet, `s0` itself, sorted up to `n`.
   */
  ghost predicate PassInv(s0: seq<u32>, s: seq<u32>, nbch: nat, n: nat, b: nat, ne: bool)
  {
    && |s| == |s0| && 1 <= b <= nbch <= |s| && n <= nbch - 1
    && Settled(s0[..nbch], b)
    && multiset(s) == multiset(s0)
    && (forall j :: (n + 1 <= j || b <= j) && j < |s| ==> s[j] == s0[j])
    && (forall i, j :: 0 <= i < b <= j < nbch ==> s[i] <= s[j])
    && (forall i :: 0 <= i <= n && i <= b - 1 ==> s[i] <= s[Top(n, b)])
    && (!ne ==> s == s0 && forall i, j :: 0 <= i < j <= n ==> s[i] <= s[j])
    && (ne ==> !Sorted(s0[..nbch]))
  }

  lemma PassStarts(s0: seq<u32>, nbch: nat, b: nat)
    requires 1 <= b <= nbch <= |s0| && Settled(s0[..nbch], b)
    ensures PassInv(s0, s0, nbch, 0, b, false)
  {
  }

  /** One comparison keeps the state of the pass. */
  lemma PassStep(s0: seq<u32>, s: seq<u32>, s': seq<u32>, nbch: nat, n: nat, b: nat, ne: bool, exchanged: bool, ne': bool)
    requires PassInv(s0, s, nbch, n, b, ne) && n < nbch - 1
    requires exchanged == (s[n] > s[n + 1])
    requires s' == if exchanged then s[n := s[n + 1]][n + 1 := s[n]] else s
    requires multiset(s') == multiset(s) && ne' == (ne || exchanged)
    ensures PassInv(s0, s', nbch, n + 1, b, ne')
  {
    if n + 1 < b {
      StepBelow(s0, s, s', nbch, n, b, ne, exchanged);
    } else {
      StepAbove(s0, s, nbch, n, b, ne);
    }
  }

  /** From `b-1` on the frequencies are in order already: nothing is exchanged. */
  lemma StepAbove(s0: seq<u32>, s: seq<u32>, nbch: nat, n: nat, b: nat, ne: bool)
    requires PassInv(s0, s, nbch, n, b, ne) && n < nbch - 1 && b <= n + 1
    ensures s[n] <= s[n + 1] && PassInv(s0, s, nbch, n + 1, b, ne)
  {
    if n + 1 == b {
      assert s[n] <= s[n + 1];
    } else {
      assert s[n] == s0[n] && s[n + 1] == s0[n + 1];
      assert s0[..nbch][n] <= s0[..nbch][n + 1];
    }
    assert Top(n + 1, b) == Top(n, b);
  }

  /** Below `b-1` the higher of the pair moves up, carrying the highest so far. */
  lemma StepBelow(s0: seq<u32>, s: seq<u32>, s': seq<u32>, nbch: nat, n: nat, b: nat, ne: bool, exchanged: bool)
    requires PassInv(s0, s, nbch, n, b, ne) && n + 1 < b
    requires exchanged == (s[n] > s[n + 1])
    requires s' == if exchanged then s[n := s[n + 1]][n + 1 := s[n]] else s
    requires multiset(s') == multiset(s)
    ensures PassInv(s0, s', nbch, n + 1, b, ne || exchanged)
  {
    if exchanged {
      SwapBelow(s0, s, nbch, n, b, ne);
    } else {
      KeepBelow(s0, s, nbch, n, b, ne);
    }
  }

  /** A pair out of order below `b-1` is exchanged: the higher moves up. */
  lemma SwapBelow(s0: seq<u32>, s: seq<u32>, nbch: nat, n: nat, b: nat, ne: bool)
    requires PassInv(s0, s, nbch, n, b, ne) && n + 1 < b && s[n] > s[n + 1]
    ensures PassInv(s0, s[n := s[n + 1]][n + 1 := s[n]], nbch, n + 1, b, true)
  {
    var s' := s[n := s[n + 1]][n + 1 := s[n]];
    assert Top(n, b) == n && Top(n + 1, b) == n + 1;
    assert multiset(s') == multiset(s0) by {
      SwapKeeps(s, n);
    }
    assert forall j :: (n + 2 <= j || b <= j) && j < |s'| ==> s'[j] == s0[j];
    assert forall i, j :: 0 <= i < b <= j < nbch ==> s'[i] <= s'[j];
    assert forall i :: 0 <= i <= n + 1 && i <= b - 1 ==> s'[i] <= s'[n + 1];
    assert !Sorted(s0[..nbch]) by {
      if !ne {
        assert s0[..nbch][n] > s0[..nbch][n + 1];
      }
    }
  }

  /** A pair in order below `b-1` stays: the higher is already above. */
  lemma KeepBelow(s0: seq<u32>, s: seq<u32>, nbch: nat, n: nat, b: nat, ne: bool)
    requires PassInv(s0, s, nbch, n, b, ne) && n + 1 < b && s[n] <= s[n + 1]
    ensures PassInv(s0, s, nbch, n + 1, b, ne)
  {
    assert Top(n, b) == n && Top(n + 1, b) == n + 1;
  }

  /** The state at the end of a pass gives what a pass promises. */
  lemma PassEnds(s0: seq<u32>, s: seq<u32>, nbch: nat, n: nat, b: nat, ne: bool)
    requires 1 <= nbch && n == nbch - 1 && PassInv(s0, s, nbch, n, b, ne)
    ensures Settled(s[..nbch], b - 1)
    ensures multiset(s) == multiset(s0) && s[nbch..] == s0[nbch..]
    ensures ne ==> !Sorted(s0[..nbch])
    ensures !ne ==> Sorted(s[..nbch])
  {
  }

  /** The body of the `for` loop (src/rtl.c:49-53): a pair out of order is exchanged. */
  method OrderPair(Fd: array<u32>, n: nat) returns (exchanged: bool)
    requires n + 1 < Fd.Length
    modifies Fd
    ensures exchanged == (old(Fd[n]) > old(Fd[n + 1]))
    ensures Fd[..] == if exchanged then old(Fd[..])[n := old(Fd[n + 1])][n + 1 := old(Fd[n])] else old(Fd[..])
    ensures multiset(Fd[..]) == multiset(old(Fd[..]))
  {
    exchanged := false;
    if Fd[n] > Fd[n + 1] {
      var t := Fd[n + 1];
      Fd[n + 1] := Fd[n];
      Fd[n] := t;
      exchanged := true;
    }
  }

  /** Equal multisets of whole arrays with equal tails have equal multisets of their heads. */
  lemma PrefixPermutation(a: seq<u32>, c: seq<u32>, n: nat)
    requires n <= |a| == |c| && multiset(a) == multiset(c) && a[n..] == c[n..]
    ensures multiset(a[..n]) == multiset(c[..n])
  {
    assert a == a[..n] + a[n..];
    assert c == c[..n] + c[n..];
    assert multiset(a) == multiset(a[..n]) + multiset(a[n..]);
    assert multiset(c) == multiset(c[..n]) + multiset(c[n..]);
    assert multiset(a[..n]) == multiset(a) - multiset(a[n..]);
    assert multiset(c[..n]) == multiset(c) - multiset(c[n..]);
  }

  /** How far apart two frequencies are. */
  function Distance(a: u32, b: u32): (d: nat)
    ensures d == 0 <==> a == b
  {
    if a >= b then (a - b) as nat else (b - a) as nat
  }

  /** Every channel is at least one channel rate from `fc` and at most half the tuner's rate. */
  predicate Clear(s: seq<u32>, fc: u32)
  {
    forall i :: 0 <= i < |s| ==> RtlRate <= Distance(s[i], fc) <= RtlInRate / 2
  }

  /** Frequencies far enough from 0 and from 2^32 that no subtraction or sum of two wraps. */
  predicate Unwrapped(s: seq<u32>)
  {
    forall i :: 0 <= i < |s| ==> 2 * RtlRate < s[i] as int < 0x8000_0000
  }

  /**
   * The scan returns the midpoint of the first pair from `n` on with a gap, and
   * `RTLRATE` below the lowest channel when no pair has one.
   */
  lemma {:induction false} FirstGapLeast(s: seq<u32>, n: nat)
    requires 1 <= n && 1 <= |s|
    ensures (forall k :: n <= k < |s| ==> !Gap(s, k)) ==> FirstGap(s, n) == Wrap(s[0] as int - RtlRate)
    ensures forall k :: n <= k < |s| && Gap(s, k) && (forall j :: n <= j < k ==> !Gap(s, j)) ==>
      FirstGap(s, n) == Mid(s, k)
    decreases |s| - n
  {
    if n < |s| && !Gap(s, n) {
      FirstGapLeast(s, n + 1);
    }
  }

  /** The scan returns the fallback or the midpoint of some pair with a gap. */
  lemma {:induction false} FirstGapFound(s: seq<u32>, n: nat)
    requires 1 <= n && 1 <= |s|
    ensures FirstGap(s, n) == Wrap(s[0] as int - RtlRate)
      || exists k :: n <= k < |s| && Gap(s, k) && FirstGap(s, n) == Mid(s, k)
    decreases |s| - n
  {
    if n < |s| && !Gap(s, n) {
      FirstGapFound(s, n + 1);
    }
  }

  /** The midpoint of a pair with a gap is clear of every channel of a narrow enough set. */
  lemma MidClear(s: seq<u32>, k: nat)
    requires 1 <= k < |s| && Sorted(s) && Unwrapped(s) && s[|s| - 1] - s[0] <= Mdf as u32
    requires Gap(s, k)
    ensures Clear(s, Mid(s, k))
  {
    var fc := Mid(s, k);
    assert s[k - 1] as int + RtlRate <= s[k] as int - RtlRate;
    assert fc as int == (s[k - 1] as int + s[k] as int) / 2;
    forall i | 0 <= i < |s|
      ensures RtlRate <= Distance(s[i], fc) <= RtlInRate / 2
    {
      if i < k {
        assert s[0] <= s[i] <= s[k - 1];
      } else {
        assert s[k] <= s[i] <= s[|s| - 1];
      }
    }
  }

  /** `RTLRATE` below the lowest channel is clear of every channel of a narrow enough set. */
  lemma BelowClear(s: seq<u32>)
    requires 1 <= |s| && Sorted(s) && Unwrapped(s) && s[|s| - 1] - s[0] <= Mdf as u32
    ensures Clear(s, Wrap(s[0] as int - RtlRate))
  {
    forall i | 0 <= i < |s|
      ensures RtlRate <= Distance(s[i], Wrap(s[0] as int - RtlRate)) <= RtlInRate / 2
    {
      assert s[0] <= s[i] <= s[|s| - 1];
    }
  }

  /**
   * For sorted channels away from the ends of the unsigned range, the centre is 0
   * exactly when they are spread wider than `MDF`; otherwise no channel is within
   * one channel rate of the centre and none is outside the tuner's band.
   */
  lemma CentreClear(s: seq<u32>)
    requires 1 <= |s| && Sorted(s) && Unwrapped(s)
    ensures Centre(s) == 0 <==> s[|s| - 1] as int - s[0] as int > Mdf
    ensures s[|s| - 1] as int - s[0] as int <= Mdf ==> Clear(s, Centre(s))
  {
    assert s[0] <= s[|s| - 1];
    if s[|s| - 1] as int - s[0] as int <= Mdf {
      if |s| == 1 {
      } else if Gap(s, |s| / 2) {
        MidClear(s, |s| / 2);
      } else {
        FirstGapFound(s, 1);
        if FirstGap(s, 1) == Wrap(s[0] as int - RtlRate) {
          BelowClear(s);
        } else {
          var k :| 1 <= k < |s| && Gap(s, k) && FirstGap(s, 1) == Mid(s, k);
          MidClear(s, k);
        }
      }
    }
  }
}
