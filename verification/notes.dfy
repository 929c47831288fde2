/** Small failure-compatible wrapper used by the detector and the game. */
module Wrappers {
  datatype Option<+T> = None | Some(value: T)
}

/**
 * The twelve pitch classes the game and the detector work with, and the
 * reference table the detector classifies against.
 */
module Notes {

  /** NOTAS_GUITARRA: the pitch classes in chromatic order from C. */
  const NotasGuitarra: seq<string> :=
    ["C", "C#", "D", "D#", "E", "F", "F#", "G", "G#", "A", "A#", "B"]

  /**
   * notas_ref: each label with its reference frequencies in Hz. The
   * dictionary is iterated in insertion order, E first and D# last, so it
   * is modelled as an ordered list of pairs.
   */
  const NotasRef: seq<(string, seq<real>)> := [
    ("E",  [82.41, 164.81, 329.63, 659.25]),
    ("F",  [87.31, 174.61, 349.23, 698.46]),
    ("F#", [92.50, 185.00, 369.99, 739.99]),
    ("G",  [98.00, 196.00, 392.00, 784.00]),
    ("G#", [103.83, 207.65, 415.30, 830.61]),
    ("A",  [110.00, 220.00, 440.00, 880.00]),
    ("A#", [116.54, 233.08, 466.16, 932.33]),
    ("B",  [123.47, 246.94, 493.88, 987.77]),
    ("C",  [130.81, 261.63, 523.25, 1046.50]),
    ("C#", [138.59, 277.18, 554.37, 1108.73]),
    ("D",  [146.83, 293.66, 587.33, 1174.66]),
    ("D#", [155.56, 311.13, 622.25, 1244.51])
  ]

  /** No element occurs twice. */
  predicate Distinct<T(==)>(s: seq<T>) {
    forall i, j :: 0 <= i < j < |s| ==> s[i] != s[j]
  }

  /** The keys of the reference table, in table order. */
  function RefKeys(): seq<string> {
    seq(|NotasRef|, i requires 0 <= i < |NotasRef| => NotasRef[i].0)
  }

  /** What random.sample(NOTAS_GUITARRA, len(NOTAS_GUITARRA)) may return. */
  predicate IsPermutationOfNotes(p: seq<string>) {
    multiset(p) == multiset(NotasGuitarra)
  }

  /** Every reference list is non-empty and holds positive frequencies only. */
  predicate TableWellFormed(table: seq<(string, seq<real>)>) {
    forall i :: 0 <= i < |table| ==>
      |table[i].1| > 0 && forall j :: 0 <= j < |table[i].1| ==> table[i].1[j] > 0.0
  }

  lemma GuitarNotesDistinct()
    ensures |NotasGuitarra| == 12 && Distinct(NotasGuitarra)
  {
  }

  /** The table's keys, E first and D# last. */
  lemma RefKeysInTableOrder()
    ensures RefKeys() == ["E", "F", "F#", "G", "G#", "A", "A#", "B", "C", "C#", "D", "D#"]
  {
  }

  /** The table's keys are NotasGuitarra rotated to start at E. */
  lemma RefKeysRotated()
    ensures RefKeys() == NotasGuitarra[4..] + NotasGuitarra[..4]
  {
  }

  lemma RefKeysSameMultiset()
    ensures multiset(RefKeys()) == multiset(NotasGuitarra)
  {
    RefKeysRotated();
    assert NotasGuitarra == NotasGuitarra[..4] + NotasGuitarra[4..];
  }

  /** The table has exactly one entry per pitch class of NotasGuitarra. */
  lemma RefKeysAreGuitarNotes()
    ensures |RefKeys()| == |NotasGuitarra| == 12
    ensures Distinct(RefKeys())
    ensures multiset(RefKeys()) == multiset(NotasGuitarra)
    ensures forall x :: x in RefKeys() <==> x in NotasGuitarra
  {
    RefKeysSameMultiset();
    PermutationFacts(RefKeys());
  }

  /** Every reference frequency is positive, so the classifier's ratio is defined. */
  lemma RefTableWellFormed()
    ensures TableWellFormed(NotasRef) && |NotasRef| == 12
  {
  }

  /** A distinct sequence holds every value at most once. */
  lemma {:induction false} DistinctMultiplicity<T>(s: seq<T>)
    requires Distinct(s)
    ensures forall x :: multiset(s)[x] <= 1
  {
    if s != [] {
      var init := s[..|s| - 1];
      assert s == init + [s[|s| - 1]];
      assert Distinct(init);
      DistinctMultiplicity(init);
      assert s[|s| - 1] !in init;
    }
  }

  /** A sequence that holds every value at most once is distinct. */
  lemma MultiplicityDistinct<T>(s: seq<T>)
    requires forall x :: multiset(s)[x] <= 1
    ensures Distinct(s)
  {
    forall i, j | 0 <= i < j < |s|
      ensures s[i] != s[j]
    {
      assert s == s[..j] + [s[j]] + s[j + 1..];
      assert s[i] in s[..j];
      assert multiset(s)[s[j]] == multiset(s[..j])[s[j]] + 1 + multiset(s[j + 1..])[s[j]];
    }
  }

  /**
   * The game's starting sequence: twelve labels, no repeats, the same
   * labels as NotasGuitarra.
   */
  lemma PermutationFacts(p: seq<string>)
    requires IsPermutationOfNotes(p)
    ensures |p| == 12
    ensures Distinct(p)
    ensures forall x :: x in p <==> x in NotasGuitarra
  {
    assert |multiset(p)| == |p|;
    GuitarNotesDistinct();
    DistinctMultiplicity(NotasGuitarra);
    MultiplicityDistinct(p);
    forall x ensures x in p <==> x in NotasGuitarra {
      assert x in p <==> x in multiset(p);
      assert x in NotasGuitarra <==> x in multiset(NotasGuitarra);
    }
  }
}
