/** The Harley-Seal loops over arrays of vectors, and the unrolled loops over arrays of words. */
module PopcountHarleySeal {
  import opened Arithmetic
  import opened BitBytes
  import opened PopcountWord
  import opened PopcountVector

  datatype Isa = Avx2 | Avx512

  function Width(isa: Isa): nat { if isa.Avx2? then 32 else 64 }

  // ---------- Arrays of vectors ----------

  function PopAll(s: seq<Vec>): nat {
    if s == [] then 0 else PopAll(s[..|s| - 1]) + Pop(s[|s| - 1])
  }

  lemma {:induction false} PopAllNext(s: seq<Vec>, i: nat)
    requires i < |s|
    ensures PopAll(s[..i + 1]) == PopAll(s[..i]) + Pop(s[i])
  {
    assert s[..i + 1][..i] == s[..i];
  }

  lemma {:induction false} PopAllFour(s: seq<Vec>, i: nat)
    requires i + 4 <= |s|
    ensures PopAll(s[..i + 4]) == PopAll(s[..i]) + Pop(s[i]) + Pop(s[i + 1]) + Pop(s[i + 2]) + Pop(s[i + 3])
  {
    PopAllNext(s, i);
    PopAllNext(s, i + 1);
    PopAllNext(s, i + 2);
    PopAllNext(s, i + 3);
  }

  lemma {:induction false} PopAllFirst(v: Vec, s: seq<Vec>)
    ensures PopAll([v] + s) == Pop(v) + PopAll(s)
  {
    var all := [v] + s;
    if s == [] {
      assert all[..0] == [];
    } else {
      PopAllFirst(v, s[..|s| - 1]);
      assert all[..|s|] == [v] + s[..|s| - 1];
    }
  }

  predicate OfWidth(data: seq<Vec>, n: nat) {
    forall k :: 0 <= k < |data| ==> |data[k]| == n
  }

  function Zero(n: nat): Vec { if n == 0 then [] else [ZERO] + Zero(n - 1) }

  lemma {:induction false} ZeroPop(n: nat)
    ensures Pop(Zero(n)) == 0 && |Zero(n)| == n
  {
    if n > 0 {
      ZeroPop(n - 1);
      PopCons(ZERO, Zero(n - 1));
    }
  }

  function ZeroLanes(n: nat): Lanes { if n == 0 then [] else [0] + ZeroLanes(n - 1) }

  lemma {:induction false} ZeroSum(n: nat)
    ensures SumLanes(ZeroLanes(n)) == 0 && |ZeroLanes(n)| == n
  {
    if n > 0 {
      ZeroSum(n - 1);
      SumCons(0, ZeroLanes(n - 1));
    }
  }

  // ---------- Vector instructions ----------

  method Csa(isa: Isa, a: Vec, b: Vec, c: Vec) returns (h: Vec, l: Vec)
    requires |a| == |b| == |c|
    ensures h == CsaHigh(a, b, c) && l == CsaLow(a, b, c)
    ensures |h| == |l| == |a| && Pop(a) + Pop(b) + Pop(c) == 2 * Pop(h) + Pop(l)
  {
    CsaIdentity(a, b, c);
    if isa.Avx2? {
      h := CsaHigh(a, b, c);
      l := CsaLow(a, b, c);
    } else {
      TernaryIsCsa(a, b, c);
      l := VTernary(c, b, a, ODD);
      h := VTernary(c, b, a, MAJORITY);
    }
  }

  method Popcnt(isa: Isa, v: Vec) returns (lanes: Lanes)
    requires |v| == Width(isa)
    ensures |lanes| == Width(isa) / 8 && SumLanes(lanes) == Pop(v)
  {
    if isa.Avx2? {
      Popcnt256Counts(v);
      lanes := Popcnt256(v);
    } else {
      Popcnt512Counts(v);
      lanes := Popcnt512(v);
    }
  }

  // ---------- One round of sixteen vectors ----------

  /** The vectors that hold ones of weight one, two, four and eight. */
  datatype Partials = Partials(ones: Vec, twos: Vec, fours: Vec, eights: Vec)

  predicate AllOfWidth(p: Partials, n: nat) { |p.ones| == |p.twos| == |p.fours| == |p.eights| == n }

  function Weight(p: Partials): nat { 8 * Pop(p.eights) + 4 * Pop(p.fours) + 2 * Pop(p.twos) + Pop(p.ones) }

  method Absorb4(isa: Isa, data: seq<Vec>, i: nat, p: Partials) returns (p': Partials, fours: Vec)
    requires i + 4 <= |data| && OfWidth(data, |p.ones|) && AllOfWidth(p, |p.ones|)
    ensures AllOfWidth(p', |p.ones|) && |fours| == |p.ones|
    ensures 4 * Pop(fours) + Weight(p') + PopAll(data[..i]) == Weight(p) + PopAll(data[..i + 4])
  {
    var twosA, twosB, ones, twos;
    PopAllFour(data, i);
    twosA, ones := Csa(isa, p.ones, data[i], data[i + 1]);
    twosB, ones := Csa(isa, ones, data[i + 2], data[i + 3]);
    fours, twos := Csa(isa, p.twos, twosA, twosB);
    p' := Partials(ones, twos, p.fours, p.eights);
  }

  method Absorb8(isa: Isa, data: seq<Vec>, i: nat, p: Partials) returns (p': Partials, eights: Vec)
    requires i + 8 <= |data| && OfWidth(data, |p.ones|) && AllOfWidth(p, |p.ones|)
    ensures AllOfWidth(p', |p.ones|) && |eights| == |p.ones|
    ensures 8 * Pop(eights) + Weight(p') + PopAll(data[..i]) == Weight(p) + PopAll(data[..i + 8])
  {
    var foursA, foursB, fours;
    p', foursA := Absorb4(isa, data, i, p);
    p', foursB := Absorb4(isa, data, i + 4, p');
    eights, fours := Csa(isa, p'.fours, foursA, foursB);
    p' := p'.(fours := fours);
  }

  /** Fifteen adders: the ones of sixteen vectors, in vectors of weight one to sixteen. */
  method Absorb16(isa: Isa, data: seq<Vec>, i: nat, p: Partials) returns (p': Partials, sixteens: Vec)
    requires i + 16 <= |data| && OfWidth(data, |p.ones|) && AllOfWidth(p, |p.ones|)
    ensures AllOfWidth(p', |p.ones|) && |sixteens| == |p.ones|
    ensures 16 * Pop(sixteens) + Weight(p') + PopAll(data[..i]) == Weight(p) + PopAll(data[..i + 16])
  {
    var eightsA, eightsB, eights;
    p', eightsA := Absorb8(isa, data, i, p);
    p', eightsB := Absorb8(isa, data, i + 8, p');
    sixteens, eights := Csa(isa, p'.eights, eightsA, eightsB);
    p' := p'.(eights := eights);
  }

  // ---------- Accumulating counts ----------

  /** Adds the lane counts of one vector, scaled by a left shift. */
  method AddCount(isa: Isa, cnt: Lanes, v: Vec, shift: nat, ghost lost: int, ghost total: nat)
    returns (cnt': Lanes, ghost lost': int)
    requires |v| == Width(isa) && |cnt| == Width(isa) / 8
    requires Counts(cnt, lost, total)
    ensures |cnt'| == |cnt| && Counts(cnt', lost', total + Pop(v) * Power2(shift))
  {
    var lanes := Popcnt(isa, v);
    var scaled := ScaleLanes(lanes, Power2(shift));
    ghost var scaling := ScaleLanesCounts(lanes, Power2(shift));
    ghost var adding := AddLanesCounts(cnt, scaled);
    cnt' := AddLanes(cnt, scaled);
    lost' := lost + scaling + adding;
  }

  /** What the loop keeps: sixteen times the counts, and the partial vectors by their weights. */
  ghost predicate Weighted(total: nat, p: Partials, consumed: seq<Vec>) {
    16 * total + Weight(p) == PopAll(consumed)
  }

  /** The partial vectors are folded into sixteen times the running counts. */
  method Finish(isa: Isa, cnt: Lanes, p: Partials, ghost lost: int, ghost total: nat, ghost consumed: seq<Vec>)
    returns (cnt': Lanes, ghost lost': int)
    requires AllOfWidth(p, Width(isa)) && |cnt| == Width(isa) / 8
    requires Counts(cnt, lost, total) && Weighted(total, p, consumed)
    ensures |cnt'| == |cnt| && Counts(cnt', lost', PopAll(consumed))
  {
    cnt' := ScaleLanes(cnt, Power2(4));
    ghost var scaling := ScaleLanesCounts(cnt, 16);
    lost' := 16 * lost + scaling;
    cnt', lost' := AddCount(isa, cnt', p.eights, 3, lost', total * 16);
    cnt', lost' := AddCount(isa, cnt', p.fours, 2, lost', total * 16 + 8 * Pop(p.eights));
    cnt', lost' := AddCount(isa, cnt', p.twos, 1, lost', total * 16 + 8 * Pop(p.eights) + 4 * Pop(p.fours));
    cnt', lost' := AddCount(isa, cnt', p.ones, 0, lost', total * 16 + 8 * Pop(p.eights) + 4 * Pop(p.fours)
        + 2 * Pop(p.twos));
  }

  function NoPartials(n: nat): Partials { Partials(Zero(n), Zero(n), Zero(n), Zero(n)) }

  lemma {:induction false} StartsEmpty(n: nat, data: seq<Vec>)
    ensures AllOfWidth(NoPartials(n), n) && Weighted(0, NoPartials(n), data[..0])
    ensures |ZeroLanes(n / 8)| == n / 8 && Counts(ZeroLanes(n / 8), 0, 0)
  {
    ZeroPop(n);
    ZeroSum(n / 8);
    assert data[..0] == [];
  }

  method AddRound(isa: Isa, data: seq<Vec>, i: nat, cnt: Lanes, p: Partials, ghost lost: int, ghost total: nat)
    returns (cnt': Lanes, p': Partials, ghost lost': int, ghost total': nat)
    requires i + 16 <= |data| && OfWidth(data, Width(isa)) && AllOfWidth(p, Width(isa)) && |cnt| == Width(isa) / 8
    requires Counts(cnt, lost, total) && Weighted(total, p, data[..i])
    ensures AllOfWidth(p', Width(isa)) && |cnt'| == Width(isa) / 8
    ensures Counts(cnt', lost', total') && Weighted(total', p', data[..i + 16])
  {
    var sixteens;
    p', sixteens := Absorb16(isa, data, i, p);
    cnt', lost' := AddCount(isa, cnt, sixteens, 0, lost, total);
    total' := total + Pop(sixteens);
  }

  method Rounds(isa: Isa, data: seq<Vec>) returns (i: nat, cnt: Lanes, ghost lost: int)
    requires OfWidth(data, Width(isa))
    ensures i == |data| - |data| % 16 && |cnt| == Width(isa) / 8
    ensures Counts(cnt, lost, PopAll(data[..i]))
  {
    var n, limit := Width(isa), |data| - |data| % 16;
    var p := NoPartials(n);
    i, cnt, lost := 0, ZeroLanes(n / 8), 0;
    ghost var total: nat, k := 0, 0;
    StartsEmpty(n, data);
    while i < limit
      invariant 0 <= i <= limit && i == 16 * k
      invariant AllOfWidth(p, n) && |cnt| == n / 8
      invariant Counts(cnt, lost, total) && Weighted(total, p, data[..i])
    {
      cnt, p, lost, total := AddRound(isa, data, i, cnt, p, lost, total);
      i, k := i + 16, k + 1;
    }
    cnt, lost := Finish(isa, cnt, p, lost, total, data[..i]);
  }

  /** The number of ones in an array of vectors, as a 64-bit result. */
  method HarleySeal(isa: Isa, data: seq<Vec>) returns (r: nat)
    requires OfWidth(data, Width(isa))
    ensures r == Wrap(PopAll(data))
  {
    ghost var lost;
    var i, cnt;
    i, cnt, lost := Rounds(isa, data);
    while i < |data|
      invariant 0 <= i <= |data| && |cnt| == Width(isa) / 8
      invariant Counts(cnt, lost, PopAll(data[..i]))
    {
      PopAllNext(data, i);
      cnt, lost := AddCount(isa, cnt, data[i], 0, lost, PopAll(data[..i]));
      i := i + 1;
    }
    assert data[..i] == data;
    r := HorizontalSum(cnt);
    SumIsTotal(cnt, lost, PopAll(data));
  }

  lemma {:induction false} SumIsTotal(cnt: Lanes, lost: int, total: nat)
    requires Counts(cnt, lost, total)
    ensures HorizontalSum(cnt) == Wrap(total)
  {
    var q := HorizontalSumCounts(cnt);
    WrapIs(HorizontalSum(cnt), q + lost, total);
  }

  // ---------- Unrolled loops over words ----------

  lemma {:induction false} WrapSum(p: nat, x: nat)
    ensures Wrap(Wrap(p) + x) == Wrap(p + x)
  {
    var q := WrapLoses(p);
    var q' := WrapLoses(Wrap(p) + x);
    WrapIs(Wrap(Wrap(p) + x), q + q', p + x);
  }

  /** One word: by the processor's instruction, which counts bits, or by arithmetic. */
  method CountWord(hard: bool, w: Word) returns (c: nat)
    requires |w| == 8
    ensures c == Pop(w)
  {
    if hard {
      c := Pop(w);
    } else {
      Popcount64IsPop(w);
      c := Popcount64(w);
    }
  }

  method Accumulate(hard: bool, cnt: nat, data: seq<Word>, i: nat) returns (cnt': nat)
    requires OfWidth(data, 8) && i < |data|
    requires cnt == Wrap(PopAll(data[..i]))
    ensures cnt' == Wrap(PopAll(data[..i + 1]))
  {
    var c := CountWord(hard, data[i]);
    PopAllNext(data, i);
    WrapSum(PopAll(data[..i]), c);
    cnt' := Wrap(cnt + c);
  }

  method Accumulate4(hard: bool, cnt: nat, data: seq<Word>, i: nat) returns (cnt': nat)
    requires OfWidth(data, 8) && i + 4 <= |data|
    requires cnt == Wrap(PopAll(data[..i]))
    ensures cnt' == Wrap(PopAll(data[..i + 4]))
  {
    cnt' := Accumulate(hard, cnt, data, i);
    cnt' := Accumulate(hard, cnt', data, i + 1);
    cnt' := Accumulate(hard, cnt', data, i + 2);
    cnt' := Accumulate(hard, cnt', data, i + 3);
  }

  /** The number of ones in an array of words, four at a time and then one at a time. */
  method Unrolled(hard: bool, data: seq<Word>) returns (cnt: nat)
    requires OfWidth(data, 8)
    ensures cnt == Wrap(PopAll(data))
  {
    var size := |data|;
    var i, limit := 0, size - size % 4;
    cnt := 0;
    assert data[..0] == [];
    while i < limit
      invariant 0 <= i <= limit && i % 4 == 0
      invariant cnt == Wrap(PopAll(data[..i]))
    {
      cnt := Accumulate4(hard, cnt, data, i);
      i := i + 4;
    }
    while i < size
      invariant 0 <= i <= size && cnt == Wrap(PopAll(data[..i]))
    {
      cnt := Accumulate(hard, cnt, data, i);
      i := i + 1;
    }
    assert data[..i] == data;
  }
}
