/**
 * The note detector: the guard skeleton of detectar_frequencia_fundamental_avancado
 * (and of the Raspberry Pi nota_fundamental, which has the same body), the
 * padded FFT length, the choice of the strongest spectral peak and the
 * classification of its frequency against the reference table.
 *
 * The floating-point library work is not modelled: the magnitude of the
 * real FFT, scipy's peak finder and the base-2 logarithm are supplied as
 * function values in a Numerics record. A library call that raises is
 * modelled by a None result; the source's exception handler turns it into
 * a rejection like every other guard.
 */
module Detector {
  import opened Wrappers
  import opened Notes

  /** Buffers shorter than this are rejected. */
  const MinSamples: nat := 3
  /** RMS amplitude below this is silence. */
  const SilenceRms: real := 0.005
  /** A peak must exceed this fraction of the largest magnitude. */
  const PeakFraction: real := 0.08

  /** The pair (nota, freq) the detector returns; (None, 0.0) is a rejection. */
  datatype Detection = Detection(nota: Option<string>, freq: real)

  const NoDetection: Detection := Detection(None, 0.0)

  /**
   * The library routines the detector calls:
   *  - rfftMagnitude(x, n): np.abs(np.fft.rfft(x, n=n)), None when it raises;
   *  - findPeaks(m, h): the indices returned by find_peaks(m, height=h), None when it raises;
   *  - log2: np.log2.
   */
  datatype Numerics = Numerics(
    rfftMagnitude: (seq<real>, nat) -> Option<seq<real>>,
    findPeaks: (seq<real>, real) -> Option<seq<nat>>,
    log2: real -> real)

  function Abs(x: real): real {
    if x < 0.0 then -x else x
  }

  // ---------------------------------------------------------------------
  // Silence guard
  // ---------------------------------------------------------------------

  function SumSquares(s: seq<real>): (r: real)
    ensures r >= 0.0
  {
    if s == [] then 0.0 else SumSquares(s[..|s| - 1]) + s[|s| - 1] * s[|s| - 1]
  }

  /** np.mean(sinal ** 2). */
  function MeanSquare(s: seq<real>): (r: real)
    requires |s| > 0
    ensures r >= 0.0
    ensures r * (|s| as real) == SumSquares(s)
  {
    SumSquares(s) / (|s| as real)
  }

  /**
   * rms < 0.005, written without the square root: the mean square is below
   * 0.005 squared (RmsThreshold shows the two tests agree).
   */
  predicate IsSilent(s: seq<real>)
    requires |s| > 0
    ensures IsSilent(s) <==> SumSquares(s) < (|s| as real) * (SilenceRms * SilenceRms)
  {
    ScaledBelow(MeanSquare(s), |s| as real, SilenceRms * SilenceRms);
    MeanSquare(s) < SilenceRms * SilenceRms
  }

  /** For a non-negative root, comparing the root or its square gives the same answer. */
  lemma RmsThreshold(rms: real, meanSquare: real)
    requires rms >= 0.0 && rms * rms == meanSquare
    ensures rms < SilenceRms <==> meanSquare < SilenceRms * SilenceRms
  {
    if rms < SilenceRms {
      assert rms * rms <= rms * SilenceRms;
      assert rms * SilenceRms < SilenceRms * SilenceRms;
    } else {
      assert rms * rms >= rms * SilenceRms;
      assert rms * SilenceRms >= SilenceRms * SilenceRms;
    }
  }

  lemma {:induction false} SumSquaresBelow(s: seq<real>, bound: real)
    requires bound > 0.0
    requires forall i :: 0 <= i < |s| ==> -bound < s[i] < bound
    ensures SumSquares(s) <= (|s| as real) * (bound * bound)
    ensures |s| > 0 ==> SumSquares(s) < (|s| as real) * (bound * bound)
  {
    if s != [] {
      var x := s[|s| - 1];
      var init := s[..|s| - 1];
      assert -bound < x < bound;
      SumSquaresBelow(init, bound);
      assert SumSquares(s) == SumSquares(init) + x * x;
      assert (|s| as real) * (bound * bound) == (|init| as real) * (bound * bound) + bound * bound;
      SquareBelow(x, bound);
    }
  }

  lemma SquareBelow(x: real, bound: real)
    requires -bound < x < bound
    ensures x * x < bound * bound
  {
    if x >= 0.0 {
      SquareLess(x, bound);
    } else {
      SquareLess(-x, bound);
      assert (-x) * (-x) == x * x;
    }
  }

  lemma SquareLess(a: real, b: real)
    requires 0.0 <= a < b
    ensures a * a < b * b
  {
    assert b * b - a * a == (b - a) * (b + a);
    PositiveProduct(b - a, b + a);
  }

  lemma PositiveProduct(x: real, y: real)
    requires x > 0.0 && y > 0.0
    ensures x * y > 0.0
  {
  }

  /** For a positive scale n, m < t exactly when m * n < n * t. */
  lemma ScaledBelow(m: real, n: real, t: real)
    requires n > 0.0
    ensures m < t <==> m * n < n * t
  {
    if m < t {
      assert m * n < t * n;
    } else {
      assert t * n <= m * n;
    }
  }

  lemma MulLess(a: real, b: real, c: real)
    requires 0.0 <= a < b && c >= 0.0
    ensures c * a <= c * b
    ensures c > 0.0 ==> a * c < b * c
  {
  }

  /** A buffer whose every sample stays strictly inside ±0.005 is silence. */
  lemma QuietBufferIsSilent(s: seq<real>)
    requires |s| > 0
    requires forall i :: 0 <= i < |s| ==> -SilenceRms < s[i] < SilenceRms
    ensures IsSilent(s)
  {
    SumSquaresBelow(s, SilenceRms);
    var n := |s| as real;
    assert SumSquares(s) / n < SilenceRms * SilenceRms by {
      assert SumSquares(s) < n * (SilenceRms * SilenceRms);
    }
  }

  // ---------------------------------------------------------------------
  // Spectrum and peak choice
  // ---------------------------------------------------------------------

  /** n_fft = max(8, 4 * len(sinal)). */
  function PaddedLength(len: nat): (n: nat)
    ensures n >= 8 && n >= 4 * len
    ensures n == 8 || n == 4 * len
  {
    if 8 >= 4 * len then 8 else 4 * len
  }

  /** np.fft.rfftfreq(n, d=1.0/sr): bin k lies at k * sr / n Hz, for k in 0 .. n/2. */
  function RfftFreq(n: nat, sr: int): (freq: seq<real>)
    requires n > 0
    ensures |freq| == n / 2 + 1 && freq[0] == 0.0
    ensures forall k :: 0 <= k < |freq| ==> freq[k] * (n as real) == (k as real) * (sr as real)
    ensures sr > 0 ==> forall i, j :: 0 <= i < j < |freq| ==> freq[i] < freq[j]
    ensures sr > 0 ==> forall k :: 0 <= k < |freq| ==> 0.0 <= freq[k] <= (sr as real) / 2.0
  {
    var freq := seq(n / 2 + 1, k requires 0 <= k <= n / 2 => BinFrequency(k, n, sr));
    assert forall k :: 0 <= k < |freq| ==> freq[k] == BinFrequency(k, n, sr);
    forall i, j | 0 <= i < j < |freq| && sr > 0 ensures freq[i] < freq[j] {
      BinFrequencyIncreasing(i, j, n, sr);
    }
    freq
  }

  /** The centre frequency of bin k of an n-point transform at rate sr. */
  function BinFrequency(k: nat, n: nat, sr: int): (f: real)
    requires n > 0
    ensures f * (n as real) == (k as real) * (sr as real)
    ensures k == 0 ==> f == 0.0
    ensures sr > 0 && 2 * k <= n ==> 0.0 <= f <= (sr as real) / 2.0
  {
    BinBelowNyquist(k, n, sr);
    (k as real) * (sr as real) / (n as real)
  }

  lemma BinBelowNyquist(k: nat, n: nat, sr: int)
    requires n > 0
    ensures sr > 0 && 2 * k <= n ==>
      0.0 <= (k as real) * (sr as real) / (n as real) <= (sr as real) / 2.0
  {
    if sr > 0 && 2 * k <= n {
      var x, y := (k as real) * (sr as real), (n as real) * (sr as real) / 2.0;
      MulLess(0.0, x + 1.0, 1.0 / (n as real));
      assert 2.0 * (k as real) <= n as real;
      MulLess(2.0 * (k as real), n as real + 1.0, sr as real);
      assert x <= y;
      assert y / (n as real) == (sr as real) / 2.0;
      if x < y {
        MulLess(x, y, 1.0 / (n as real));
      }
    }
  }

  /** Higher bins lie at higher frequencies when the rate is positive. */
  lemma BinFrequencyIncreasing(i: nat, j: nat, n: nat, sr: int)
    requires n > 0 && sr > 0 && i < j
    ensures BinFrequency(i, n, sr) < BinFrequency(j, n, sr)
  {
    MulLess(i as real, j as real, sr as real);
    MulLess((i as real) * (sr as real), (j as real) * (sr as real), 1.0 / (n as real));
  }

  /** np.argmax (and np.max through it): the first index of a largest element. */
  function ArgMax(xs: seq<real>): (j: nat)
    requires |xs| > 0
    ensures j < |xs|
    ensures forall i :: 0 <= i < |xs| ==> xs[i] <= xs[j]
    ensures forall i :: 0 <= i < j ==> xs[i] < xs[j]
  {
    if |xs| == 1 then 0
    else
      var j := ArgMax(xs[..|xs| - 1]);
      if xs[j] < xs[|xs| - 1] then |xs| - 1 else j
  }

  /** The find_peaks height threshold: 8% of np.max(magnitude). */
  function PeakHeight(mag: seq<real>): (h: real)
    requires |mag| > 0
    ensures exists i :: 0 <= i < |mag| && h == mag[i] * PeakFraction
    ensures forall i :: 0 <= i < |mag| ==> mag[i] * PeakFraction <= h
  {
    mag[ArgMax(mag)] * PeakFraction
  }

  /**
   * picos[np.argmax(magnitude[picos])]: the strongest of the peaks, or None
   * when there is no peak or when indexing the magnitude raises IndexError.
   */
  function StrongestPeak(mag: seq<real>, picos: seq<nat>): (r: Option<nat>)
    ensures r.None? <==> |picos| == 0 || exists j :: 0 <= j < |picos| && picos[j] >= |mag|
    ensures r.Some? ==> r.value in picos && forall j :: 0 <= j < |picos| ==> picos[j] < |mag|
    ensures r.Some? ==> forall j :: 0 <= j < |picos| ==> mag[picos[j]] <= mag[r.value]
    ensures r.Some? ==>
      exists b :: (0 <= b < |picos| && r.value == picos[b]
        && forall j :: 0 <= j < b ==> mag[picos[j]] < mag[picos[b]])
  {
    if |picos| == 0 then None
    else if exists j :: 0 <= j < |picos| && picos[j] >= |mag| then None
    else
      var heights := seq(|picos|, j requires 0 <= j < |picos| => mag[picos[j]]);
      var best := ArgMax(heights);
      assert forall j :: 0 <= j < |picos| ==> heights[j] == mag[picos[j]];
      Some(picos[best])
  }

  /**
   * The frequency bin of the fundamental candidate: pad,
   * transform, reject an empty magnitude, find the peaks above the height
   * threshold and keep the strongest. None on every rejection path.
   */
  function FundamentalBin(samples: seq<real>, num: Numerics): (r: Option<nat>)
    requires |samples| > 0
    ensures r.Some? ==>
      var mag := num.rfftMagnitude(samples, PaddedLength(|samples|));
      && mag.Some? && |mag.value| > 0
      && var picos := num.findPeaks(mag.value, PeakHeight(mag.value));
      && picos.Some? && r.value in picos.value && r.value < |mag.value|
      && (forall j :: 0 <= j < |picos.value| ==> picos.value[j] < |mag.value|)
      && (forall j :: 0 <= j < |picos.value| ==> mag.value[picos.value[j]] <= mag.value[r.value])
      && exists b :: (0 <= b < |picos.value| && r.value == picos.value[b]
        && forall j :: 0 <= j < b ==> mag.value[picos.value[j]] < mag.value[picos.value[b]])
  {
    match num.rfftMagnitude(samples, PaddedLength(|samples|))
    case None => None
    case Some(mag) =>
      if |mag| == 0 then None
      else
        match num.findPeaks(mag, PeakHeight(mag))
        case None => None
        case Some(picos) => StrongestPeak(mag, picos)
  }

  // ---------------------------------------------------------------------
  // Classification
  // ---------------------------------------------------------------------

  /**
   * Python's min(items, key=...) as an index: scanning left to right, a
   * later item replaces the current best only when its key is strictly
   * smaller, so the first minimal item wins.
   */
  function ArgMin(ks: seq<real>): (j: nat)
    requires |ks| > 0
    ensures j < |ks|
    ensures forall i :: 0 <= i < |ks| ==> ks[j] <= ks[i]
    ensures forall i :: 0 <= i < j ==> ks[j] < ks[i]
  {
    if |ks| == 1 then 0
    else
      var j := ArgMin(ks[..|ks| - 1]);
      if ks[|ks| - 1] < ks[j] then |ks| - 1 else j
  }

  /**
   * min(abs(np.log2(freq_fund / f)) for f in notas_ref[n]): the distance of
   * a frequency to the note at table position i, in octaves, to the
   * nearest of its reference frequencies.
   */
  function NoteDistance(table: seq<(string, seq<real>)>, log2: real -> real, freq: real, i: nat): (d: real)
    requires TableWellFormed(table) && i < |table|
    ensures d >= 0.0
    ensures exists j :: 0 <= j < |table[i].1| && d == Abs(log2(freq / table[i].1[j]))
    ensures forall j :: 0 <= j < |table[i].1| ==> d <= Abs(log2(freq / table[i].1[j]))
  {
    var refs := table[i].1;
    var ds := seq(|refs|, j requires 0 <= j < |refs| => Abs(log2(freq / refs[j])));
    assert forall j :: 0 <= j < |refs| ==> ds[j] == Abs(log2(freq / refs[j]));
    ds[ArgMin(ds)]
  }

  /**
   * min(notas_ref, key=...) as a table position: a note at minimal
   * distance, and the earliest one in table order on a tie.
   */
  function Classify(table: seq<(string, seq<real>)>, log2: real -> real, freq: real): (i: nat)
    requires TableWellFormed(table) && |table| > 0
    ensures i < |table|
    ensures forall k :: 0 <= k < |table| ==>
      NoteDistance(table, log2, freq, i) <= NoteDistance(table, log2, freq, k)
    ensures forall k :: 0 <= k < i ==>
      NoteDistance(table, log2, freq, i) < NoteDistance(table, log2, freq, k)
  {
    var ds := seq(|table|, k requires 0 <= k < |table| => NoteDistance(table, log2, freq, k));
    assert forall k :: 0 <= k < |table| ==> ds[k] == NoteDistance(table, log2, freq, k);
    ArgMin(ds)
  }

  /**
   * The position in notas_ref of the note the detector reports for a
   * frequency, with the nearest-note and tie-break properties of Classify.
   */
  function NearestNote(log2: real -> real, freq: real): (i: nat)
    ensures TableWellFormed(NotasRef) && i < |NotasRef|
    ensures forall k :: 0 <= k < |NotasRef| ==>
      NoteDistance(NotasRef, log2, freq, i) <= NoteDistance(NotasRef, log2, freq, k)
    ensures forall k :: 0 <= k < i ==>
      NoteDistance(NotasRef, log2, freq, i) < NoteDistance(NotasRef, log2, freq, k)
  {
    RefTableWellFormed();
    Classify(NotasRef, log2, freq)
  }

  /** Index form of RefKeysAreGuitarNotes, for use inside NotaFundamental; it holds by evaluating the table. */
  lemma TableLabelIsGuitarNote(i: nat)
    requires i < |NotasRef|
    ensures NotasRef[i].0 in NotasGuitarra
  {
  }

  // ---------------------------------------------------------------------
  // The detector
  // ---------------------------------------------------------------------

  /**
   * detectar_frequencia_fundamental_avancado(sinal, sr). A rate of zero
   * makes `1.0 / sr` raise ZeroDivisionError, and an out-of-range peak
   * index raises IndexError; the handler returns (None, 0.0) for both.
   */
  function NotaFundamental(samples: seq<real>, sr: int, num: Numerics): (r: Detection)
    ensures r.nota.None? ==> r == NoDetection
    ensures r.nota.Some? ==> r.nota.value in NotasGuitarra
    ensures r.nota.Some? ==> |samples| >= MinSamples && !IsSilent(samples) && sr != 0
  {
    if |samples| < MinSamples then NoDetection
    else if IsSilent(samples) then NoDetection
    else if sr == 0 then NoDetection
    else
      match FundamentalBin(samples, num)
      case None => NoDetection
      case Some(bin) =>
        var freq := RfftFreq(PaddedLength(|samples|), sr);
        if bin >= |freq| then NoDetection
        else
          var candidato := freq[bin];
          var i := NearestNote(num.log2, candidato);
          TableLabelIsGuitarNote(i);
          Detection(Some(NotasRef[i].0), candidato)
  }

  /** Every guard of the detector rejects with (None, 0.0). */
  lemma RejectionPaths(samples: seq<real>, sr: int, num: Numerics)
    ensures |samples| < MinSamples ==> NotaFundamental(samples, sr, num) == NoDetection
    ensures |samples| >= MinSamples && IsSilent(samples) ==> NotaFundamental(samples, sr, num) == NoDetection
    ensures sr == 0 ==> NotaFundamental(samples, sr, num) == NoDetection
    ensures |samples| > 0 && num.rfftMagnitude(samples, PaddedLength(|samples|)) == None ==>
              NotaFundamental(samples, sr, num) == NoDetection
    ensures |samples| > 0 && num.rfftMagnitude(samples, PaddedLength(|samples|)) == Some([]) ==>
              NotaFundamental(samples, sr, num) == NoDetection
    ensures |samples| > 0 ==>
              var mag := num.rfftMagnitude(samples, PaddedLength(|samples|));
              mag.Some? && |mag.value| > 0 &&
              num.findPeaks(mag.value, PeakHeight(mag.value)) in {None, Some([])} ==>
              NotaFundamental(samples, sr, num) == NoDetection
  {
  }

  /**
   * A detection reports the raw frequency of the strongest peak's bin,
   * k * sr / n_fft, not a reference frequency.
   */
  lemma DetectedFrequencyIsStrongestPeak(samples: seq<real>, sr: int, num: Numerics)
    requires NotaFundamental(samples, sr, num).nota.Some?
    ensures |samples| >= MinSamples
    ensures var n := PaddedLength(|samples|);
      var mag := num.rfftMagnitude(samples, n);
      && mag.Some? && |mag.value| > 0
      && var picos := num.findPeaks(mag.value, PeakHeight(mag.value));
      && picos.Some?
      && exists b :: (0 <= b < |picos.value| && picos.value[b] <= n / 2
        && NotaFundamental(samples, sr, num).freq == BinFrequency(picos.value[b], n, sr)
        && (forall j :: 0 <= j < |picos.value| ==>
              picos.value[j] < |mag.value| && mag.value[picos.value[j]] <= mag.value[picos.value[b]])
        && (forall j :: 0 <= j < b ==> mag.value[picos.value[j]] < mag.value[picos.value[b]]))
  {
    assert |samples| >= MinSamples && !IsSilent(samples) && sr != 0;
    var n := PaddedLength(|samples|);
    var fb := FundamentalBin(samples, num);
    assert fb.Some?;
    var bin := fb.value;
    var freq := RfftFreq(n, sr);
    assert bin < |freq|;
    assert NotaFundamental(samples, sr, num).freq == freq[bin];
    assert freq[bin] == BinFrequency(bin, n, sr);
  }

  /** The reported label is the nearest note to exactly the reported frequency. */
  lemma DetectedNoteIsNearest(samples: seq<real>, sr: int, num: Numerics)
    requires NotaFundamental(samples, sr, num).nota.Some?
    ensures var r := NotaFundamental(samples, sr, num);
      r.nota == Some(NotasRef[NearestNote(num.log2, r.freq)].0)
  {
  }

  /**
   * The laws numpy and scipy keep: rfft of length n gives n / 2 + 1
   * magnitudes and does not raise, and find_peaks returns indices into the
   * array it was given.
   */
  ghost predicate NumpyLaws(num: Numerics) {
    && (forall x, n :: n > 0 ==>
          num.rfftMagnitude(x, n).Some? && |num.rfftMagnitude(x, n).value| == n / 2 + 1)
    && (forall m, h :: num.findPeaks(m, h).Some? ==>
          forall j :: 0 <= j < |num.findPeaks(m, h).value| ==> num.findPeaks(m, h).value[j] < |m|)
  }

  /**
   * Under those laws the empty-magnitude guard and the index errors cannot
   * fire: a note is detected exactly when the buffer is long enough, not
   * silent, the rate is not zero, and find_peaks succeeds with some peak.
   */
  lemma DetectsExactlyWhen(samples: seq<real>, sr: int, num: Numerics)
    requires NumpyLaws(num)
    ensures NotaFundamental(samples, sr, num).nota.Some? <==>
      && |samples| >= MinSamples && !IsSilent(samples) && sr != 0
      && var mag := num.rfftMagnitude(samples, PaddedLength(|samples|)).value;
         var picos := num.findPeaks(mag, PeakHeight(mag));
         picos.Some? && |picos.value| > 0
  {
  }
}
