# saiba-sua-nota in Dafny

A Dafny model of the two parts of *saiba-sua-nota* that have logic to state:

- **The note detector.** These are `detectar_frequencia_fundamental_avancado` on the desktop and `nota_fundamental` on the Raspberry Pi. The two bodies are the same up to the `float(...)` conversion of the candidate frequency and the exception handler: the desktop handler catches `Exception` and prints it, while the Raspberry Pi one is a bare `except:`. Both return `(None, 0.0)`.
  - A buffer of samples and a sample rate go through a chain of guards: too short, silent, zero rate, empty spectrum, no peaks, or an exception.
  - Otherwise the strongest spectral peak gives the frequency of the fundamental candidate.
  - That frequency is classified against a fixed table of twelve notes. The result is the note at the smallest absolute log2 distance; ties go to the first note in table order.
- **The note-matching game.** These are `jogar_nota_adaptado` on the desktop and `jogar_nota` on the Raspberry Pi.
  - A shuffled list of the twelve notes is consumed from its end. Each detected note either matches the current target or it does not.
  - The two programs end differently. The desktop game ends when a correct note finds the queue empty, after twelve correct notes. The Raspberry Pi loop `while notas` stops as soon as the queue becomes empty, after eleven correct notes, so the last target is announced but never checked.

Files:

- `notes.dfy`: the twelve pitch classes, the reference frequency table in the dictionary's insertion order, and facts about permutations of the notes.
- `detector.dfy`: the detector, as pure functions. The floating-point library work is supplied as function values in a `Numerics` record:
  - the FFT magnitude,
  - `find_peaks`,
  - `log2`.

  A library call that raises returns `None`, and the detector's exception handler turns it into the `(None, 0.0)` rejection. The rest is modelled concretely:
  - the padded length `max(8, 4·len)`;
  - `rfftfreq`, as `k·sr/n`;
  - `np.max` and `np.argmax`, which return the first maximum;
  - Python's `min(..., key=...)`, which returns the first minimum.
- `game.dfy`: the game in two forms.
  - On values: `Step` is one tick and `Run` is a sequence of ticks.
  - In place: the class `NoteGame` keeps `objetivo`, `notas` and the loop-exit flag as fields. Its `Tick` pops the queue in place and is proved against `Step`. `Play` is the game loop over a finite stream of detector answers.
  - A `Variant` parameter selects the desktop or the Raspberry Pi ending.

## Model

| member | source | states |
|---|---|---|
| Notes.GuitarNotesDistinct | saiba_sua_nota.py:23 | the twelve pitch classes are distinct |
| Notes.RefKeysInTableOrder | saiba_sua_nota.py:113-126 | the reference table's keys in iteration order are E, F, …, D# |
| Notes.RefKeysAreGuitarNotes | saiba_sua_nota_raspberry_pi.py:77-90 | the table has twelve distinct keys, the same multiset of keys as NOTAS_GUITARRA, and a label is a key exactly when it is a guitar note |
| Notes.RefTableWellFormed | saiba_sua_nota.py:113-126 | the table has twelve entries, every note has at least one reference frequency, and all reference frequencies are positive, so `freq_fund / f` is defined |
| Notes.PermutationFacts | saiba_sua_nota.py:185 | a permutation of the twelve notes has length 12, no repeats, and exactly the notes as elements |
| Detector.MeanSquare | saiba_sua_nota.py:95 | `np.mean(sinal ** 2)`: non-negative, and times the length it gives the sum of squares |
| Detector.IsSilent | saiba_sua_nota.py:95-96 | the silence test holds exactly when the sum of squares is below len·0.005² |
| Detector.RmsThreshold | saiba_sua_nota.py:95-97 | for a non-negative root `rms` of the mean square, `rms < 0.005` holds exactly when the mean square is below 0.005² |
| Detector.QuietBufferIsSilent | saiba_sua_nota_raspberry_pi.py:60-62 | a non-empty buffer whose samples all lie strictly within ±0.005 is rejected as silent |
| Detector.PaddedLength | saiba_sua_nota.py:99 | the FFT length is at least 8 and at least 4·len, and equals one of them: it is their maximum |
| Detector.RfftFreq | saiba_sua_nota.py:100 | `np.fft.rfftfreq(n, d=1.0/sr)` has n/2+1 entries starting at 0; entry k satisfies f·n = k·sr; for a positive rate the entries increase strictly and stay within 0 … sr/2 |
| Detector.BinFrequency | saiba_sua_nota_raspberry_pi.py:65 | bin k lies at f with f·n = k·sr; bin 0 is at 0 Hz; for a positive rate a bin k ≤ n/2 lies within 0 … sr/2 |
| Detector.ArgMax | saiba_sua_nota.py:106-110 | the index holds a maximum of the sequence, and every earlier element is strictly smaller: the first maximum, as `np.argmax` returns |
| Detector.PeakHeight | saiba_sua_nota.py:106 | the `find_peaks` height is 0.08 times some magnitude and at least 0.08 times every magnitude: 0.08·`np.max(magnitude)` |
| Detector.StrongestPeak | saiba_sua_nota.py:110 | `picos[argmax(magnitude[picos])]`: fails exactly when there is no peak or an index is out of range (IndexError); otherwise it is a peak with the largest magnitude among the peaks, and every earlier peak is strictly weaker (the first maximum) |
| Detector.FundamentalBin | saiba_sua_nota_raspberry_pi.py:64-75 | a bin is found only when the FFT succeeds with a non-empty magnitude and find_peaks succeeds at height 0.08·max; it is then the first of the peaks with maximal magnitude |
| Detector.ArgMin | saiba_sua_nota.py:128-131 | the index holds a minimum of the keys, and every earlier key is strictly larger: the first minimum, as Python's `min` returns |
| Detector.NoteDistance | saiba_sua_nota.py:130 | the `key` of a note: non-negative, equal to the absolute log2 ratio to one of its reference frequencies and no greater than the ratio to any of them |
| Detector.Classify | saiba_sua_nota_raspberry_pi.py:92-95 | the chosen entry's distance is no greater than any entry's, and every earlier entry's distance is strictly greater, so ties go to the first entry |
| Detector.NearestNote | saiba_sua_nota.py:128-131 | over the reference table, the chosen note is at minimal log2 distance, and ties go to the earliest key in order E … D# |
| Detector.NotaFundamental | saiba_sua_nota.py:91-135 | a rejection is exactly `(None, 0.0)`; a detected label is a guitar note; a detection needs ≥ 3 samples, a non-silent buffer and a non-zero rate |
| Detector.RejectionPaths | saiba_sua_nota_raspberry_pi.py:58-73 | each guard gives `(None, 0.0)`: fewer than 3 samples, silence, a zero rate (ZeroDivisionError), a raising or empty FFT, and a failing or empty `find_peaks` |
| Detector.DetectedFrequencyIsStrongestPeak | saiba_sua_nota.py:106-111 | a detection's frequency is the raw `rfftfreq` value k·sr/n of the first peak bin k ≤ n/2 whose magnitude is maximal among the peaks; it is not snapped to a reference |
| Detector.DetectedNoteIsNearest | saiba_sua_nota.py:128-132 | the reported label is the nearest note to exactly the reported frequency |
| Detector.DetectsExactlyWhen | saiba_sua_nota_raspberry_pi.py:56-98 | when numpy and scipy keep their shape laws, a note is detected if and only if the buffer has ≥ 3 samples, is not silent, the rate is non-zero and find_peaks returns at least one peak |
| Game.DrawOfNotes | saiba_sua_nota.py:185 | `random.sample(NOTAS_GUITARRA, 12)` yields twelve distinct targets |
| Game.Start | saiba_sua_nota.py:185-186 | the first target is the permutation's last element, the queue holds the first eleven, and the loop is running |
| Game.StartCoversAllNotes | saiba_sua_nota_raspberry_pi.py:104-105 | the first target and the queue together hold each of the twelve notes exactly once: the queue has eleven distinct notes and does not contain the target |
| Game.Step | saiba_sua_nota.py:192-205 | one tick. It is a hit exactly when the loop runs and the target was played, and a wrong note, reporting the played note and the target, exactly when another note was played; anything else changes nothing. A hit with a non-empty queue pops the queue's last element as the new target; on the Raspberry Pi the loop ends when that pop empties the queue. A hit with an empty queue ends the game |
| Game.Run | saiba_sua_nota.py:188-206 | the loop body applied to each tick in turn produces exactly one event per tick |
| Game.StepAfter | saiba_sua_nota_raspberry_pi.py:111-137 | from the state after k correct notes, playing target perm[11-k] while the loop runs leads to the state after k+1 correct notes; every other tick leaves the state unchanged and is not a hit |
| Game.RunAfter | saiba_sua_nota.py:188-206 | any ticks from the state after k correct notes reach the state after k+h correct notes, never past the variant's count, where the i-th of the h hits is on perm[11-(k+i)] |
| Game.GameOutcome | saiba_sua_nota_raspberry_pi.py:111-146 | from the start, for any ticks: at most 12 (desktop) or 11 (Raspberry Pi) hits; the game has ended exactly when that many hits happened; the i-th hit is on the i-th element from the end of the permutation; no note is hit twice; on the Raspberry Pi the first element of the permutation is never hit and is never the target of a wrong-note event, so it is never compared against |
| Game.CheckedTargets | saiba_sua_nota_raspberry_pi.py:111-138 | from the start, every tick that compares the played note with the target (a hit or a wrong note) compares it with one of perm[11] … perm[12 − n], where n is 12 (desktop) or 11 (Raspberry Pi) |
| Game.EventPrefix | saiba_sua_nota.py:188-206 | the i-th event of a run is the one the loop body produces from the i-th tick in the state the earlier ticks reached |
| Game.MissesChangeNothing | saiba_sua_nota.py:193-195 | ticks that never bring the current target (silence or wrong notes) leave target, queue and flag unchanged and hit nothing |
| Game.EndedIsFinal | saiba_sua_nota.py:203-205 | once the loop has ended, no further tick changes anything |
| Game.PerfectPrefix | saiba_sua_nota.py:196-202 | ticks that each bring the current target in order (perm[11], perm[10], …), at most the variant's count of them, score one hit per tick and reach the state after that many correct notes |
| Game.PerfectGame | saiba_sua_nota_raspberry_pi.py:132-146 | a player who always plays the target finishes the game with exactly 12 correct notes on the desktop and 11 on the Raspberry Pi |
| Game.NoteGame.constructor | saiba_sua_nota_raspberry_pi.py:104-105 | the fields hold the starting state: the last element popped as the target and the rest as the queue |
| Game.NoteGame.Tick | saiba_sua_nota_raspberry_pi.py:112-143 | one loop iteration, updating target, queue and flag in place exactly as `Step` does, and keeping the fields equal to the state after the number of hits so far |
| Game.Play | saiba_sua_nota.py:183-207 | the loop stops at the tick that ends the game (`break` on the desktop, `while notas` on the Raspberry Pi) or when the answers run out, and the game was running before every answer it used; its events are those of `Run` over the answers used, `finished` is the final loop-exit flag, and it is finished exactly when it scored 12 (desktop) or 11 (Raspberry Pi) distinct hits, the i-th on the i-th element from the end of the permutation |

## Left out

- FFT magnitude, `find_peaks` and `np.log2` are parameters (`Numerics`). Floating-point rounding, NaN and infinities are not modelled; reals stand in for floats.
- Octave invariance of the classifier (a frequency and its double classify alike) is not stated, because `log2` is left abstract.
- The square root of the RMS is not computed. The model compares the mean square with 0.005², and `RmsThreshold` shows that the two tests agree.
- Audio capture (`capturar_audio`), device query, listing and selection, and sample-rate handling beyond the `sr` argument are I/O.
- Keyboard quit polling, the SIGINT handler and `stop_event` are concurrency and I/O. Stopping is modelled by the answer stream running out: `Play` returns how many answers it used.
- `print`, the LCD, the GPIO LEDs, `time.sleep`, the menus and the `main` restart loops are output and hardware only.
- `random.sample` is replaced by the permutation it returns, given as an argument. The game only needs twelve distinct targets (`IsDraw`), and `DrawOfNotes` shows every permutation of the notes is one.
- `HOLD_NOTA_SEGS` is defined but never used.
- The bare `except:` of the Raspberry Pi detector also catches `KeyboardInterrupt`. Interrupts are not modelled; any exception is a `None` library result or an out-of-range index.
- `if nota:` is modelled as "a note was detected". It tests truthiness, but every label is a non-empty string, so the two agree.
