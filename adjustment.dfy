/**
 * The peloton rule of the adjusted elapsed time, exactly as the portal
 * scans for it: the rider's candidate finish is compared with every stage
 * rider's raw finish in turn and replaced by any finish it trails by 1 to
 * 999 whole milliseconds. The scan repeats while its flag is set, and the
 * flag is overwritten by every comparison, so only the last rider scanned
 * decides whether another pass is made.
 */
module Adjustment {
  import opened CyclingTypes

  /** A candidate finish cand trails the finish f by less than a second (1 to 999 whole ms). */
  predicate InRange(cand: int, f: int): (r: bool)
    ensures r <==> f + MicrosPerMilli <= cand < f + 1000 * MicrosPerMilli
  {
    0 < MillisBetween(f, cand) < 1000
  }

  /** The earliest of the finishes fs. */
  function Earliest(fs: seq<int>): (m: int)
    requires fs != []
    ensures m in fs && forall f :: f in fs ==> m <= f
  {
    if |fs| == 1 then fs[0]
    else
      var rest := Earliest(fs[1..]);
      assert forall f :: f in fs ==> f == fs[0] || f in fs[1..];
      if fs[0] <= rest then fs[0] else rest
  }

  /** The candidate finish and the flag after (part of) one scan. */
  datatype Scan = Scan(time: int, adjusted: bool)

  /**
   * One scan over the finishes fs, starting from candidate cand and flag
   * value flag. The candidate never rises, and it only ever takes the value
   * of a scanned finish; a scan that ends with the flag set has just taken
   * the last finish, strictly below where it started.
   */
  function Pass(cand: int, fs: seq<int>, flag: bool): (r: Scan)
    ensures r.time <= cand
    ensures r.time == cand || r.time in fs
    ensures fs == [] ==> r == Scan(cand, flag)
    ensures fs != [] && r.adjusted ==> r.time == fs[|fs| - 1] && r.time < cand
    decreases |fs|
  {
    if fs == [] then Scan(cand, flag)
    else
      var n := |fs| - 1;
      var p := Pass(cand, fs[..n], flag);
      assert fs == fs[..n] + [fs[n]];
      if InRange(p.time, fs[n]) then Scan(fs[n], true) else Scan(p.time, false)
  }

  /**
   * Scans repeated until one ends with its flag clear. Every repeated scan
   * lowers the candidate strictly, and it stays one of the finishes, so the
   * repetition stops. The result is a stage finish no later than cand.
   */
  function Settle(cand: int, fs: seq<int>): (t: int)
    requires cand in fs
    ensures t in fs && t <= cand
    decreases cand - Earliest(fs)
  {
    var p := Pass(cand, fs, true);
    if p.adjusted then Settle(p.time, fs) else p.time
  }

  /** A scan lowers the candidate exactly when some scanned finish is less than a second ahead of it. */
  lemma {:induction false} PassLowers(cand: int, fs: seq<int>, flag: bool)
    ensures Pass(cand, fs, flag).time < cand <==> exists f :: f in fs && InRange(cand, f)
    decreases |fs|
  {
    if fs != [] {
      var n := |fs| - 1;
      var prefix := fs[..n];
      PassLowers(cand, prefix, flag);
      assert fs == prefix + [fs[n]];
      assert forall f :: f in fs <==> f in prefix || f == fs[n];
    }
  }

  /**
   * The adjusted finish is earlier than the rider's own finish exactly when
   * some rider finished 1 to 999 whole ms ahead of it; otherwise it is the
   * rider's own finish.
   */
  lemma SettleLowers(own: int, fs: seq<int>)
    requires own in fs
    ensures Settle(own, fs) < own <==> exists f :: f in fs && InRange(own, f)
    ensures Settle(own, fs) == own <==> forall f :: f in fs ==> !InRange(own, f)
  {
    PassLowers(own, fs, true);
  }

  /**
   * A gap of exactly one second is not adjusted: a rider at 900 s behind a
   * rider at 899 s keeps 900 s.
   */
  lemma OneSecondGapKept()
    ensures Settle(900 * MicrosPerSecond, [899 * MicrosPerSecond, 900 * MicrosPerSecond]) == 900 * MicrosPerSecond
  {
    var fs := [899 * MicrosPerSecond, 900 * MicrosPerSecond];
    assert forall f :: f in fs ==> !InRange(900 * MicrosPerSecond, f);
    SettleLowers(900 * MicrosPerSecond, fs);
  }

  /**
   * The adjusted finish depends on the order riders are scanned in. With the
   * rider at 10.0 s, A at 9.5 s and B at 8.8 s: scanning A, B, the rider
   * gives 8.8 s; scanning B, A, the rider gives 9.5 s, because B is more
   * than a second ahead of 10.0 s and the pass ends with the flag clear.
   */
  lemma ScanOrderMatters()
    ensures Settle(10_000_000, [9_500_000, 8_800_000, 10_000_000]) == 8_800_000
    ensures Settle(10_000_000, [8_800_000, 9_500_000, 10_000_000]) == 9_500_000
  {
    var ab := [9_500_000, 8_800_000, 10_000_000];
    assert ab[..2] == [9_500_000, 8_800_000] && ab[..2][..1] == [9_500_000] && ab[..2][..1][..0] == [];
    assert Pass(10_000_000, ab[..2][..1], true) == Scan(9_500_000, true);
    assert Pass(10_000_000, ab[..2], true) == Scan(8_800_000, true);
    assert Pass(10_000_000, ab, true) == Scan(8_800_000, false);

    var ba := [8_800_000, 9_500_000, 10_000_000];
    assert ba[..2] == [8_800_000, 9_500_000] && ba[..2][..1] == [8_800_000] && ba[..2][..1][..0] == [];
    assert Pass(10_000_000, ba[..2][..1], true) == Scan(10_000_000, false);
    assert Pass(10_000_000, ba[..2], true) == Scan(9_500_000, true);
    assert Pass(10_000_000, ba, true) == Scan(9_500_000, false);
  }

  /**
   * The portal's loop: scan all finishes, replacing the candidate whenever
   * it trails a finish by less than a second, and scan again while the
   * last comparison of the pass made a replacement.
   */
  method AdjustFinish(own: int, fs: seq<int>) returns (t: int)
    requires own in fs
    ensures t == Settle(own, fs)
  {
    var cand := own;
    var adjusted := true;
    while adjusted
      invariant cand in fs
      invariant adjusted ==> Settle(cand, fs) == Settle(own, fs)
      invariant !adjusted ==> cand == Settle(own, fs)
      decreases adjusted, cand - Earliest(fs)
    {
      ghost var start := cand;
      var i := 0;
      while i < |fs|
        invariant 0 <= i <= |fs|
        invariant Scan(cand, adjusted) == Pass(start, fs[..i], true)
      {
        assert fs[..i + 1][..i] == fs[..i];
        if InRange(cand, fs[i]) {
          cand := fs[i];
          adjusted := true;
        } else {
          adjusted := false;
        }
        i := i + 1;
      }
      assert fs[..|fs|] == fs;
    }
    t := cand;
  }
}
