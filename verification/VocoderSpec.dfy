/**
  Concealment of bad voice frames. What a frame decodes to and what synthesis makes of
  it are inputs; which parameters survive a frame, and when the output is muted, is the model.
 */
module VocoderSpec {

  /** One spectral band: voiced or not, amplitude, its logarithm, and two phases. */
  datatype Band = Band(voiced: int, amplitude: real, log2: real, phi: real, psi: real)

  /** Bands 0 to 56; band 0 is a sentinel. */
  type Bands = b: seq<Band> | |b| == 57 witness seq(57, i => Band(0, 0.0, 0.0, 0.0, 0.0))

  datatype Settings = Settings(w0: real, L: int, K: int, gamma: real, repeat: int, bands: Bands)

  datatype State = State(cur: Settings, prev: Settings, enhanced: Settings)

  datatype Codec = Ambe2450 | Imbe4400

  /** Why a frame has no parameters of its own. */
  datatype Verdict = Good | Invalid | Erasure | Tone

  /** The number of bands of a decoded frame fits the table of bands. */
  type BandCount = n: int | 0 <= n <= 56

  /**
    What came in: the verdict of the decoder, its parameters, the number of corrected errors, and what
    synthesis leaves in the bands.
   */
  datatype Frame = Frame(
    verdict: Verdict, w0: real, L: BandCount, K: int, gamma: real, bands: Bands, errs2: int, played: Bands)

  function Initial(halfPi: real): Settings {
    Settings(0.09378, 30, 10, 0.0, 0, seq(57, i => Band(0, 0.0, 0.0, 0.0, halfPi)))
  }

  function Reset(halfPi: real): State {
    State(Initial(halfPi), Initial(halfPi), Initial(halfPi))
  }

  function Same(b: Band, from: Band): Band {
    b.(amplitude := from.amplitude, log2 := from.log2)
  }

  /**
    Decoding a frame with more bands than the previous one gives the previous one
    those bands too, as loud as its last one; one of the codecs also fills the sentinel.
   */
  function Stretched(codec: Codec, prev: Settings, L: int): (r: Settings)
    requires 0 <= prev.L <= 56 && 0 <= L <= 56
    ensures r.(bands := prev.bands) == prev
    ensures forall l :: 1 <= l <= prev.L ==> r.bands[l] == prev.bands[l]
  {
    var wide := seq(57, l requires 0 <= l < 57 =>
      if prev.L < l <= L then Same(prev.bands[l], prev.bands[prev.L]) else prev.bands[l]);
    prev.(bands := if codec == Ambe2450 then wide[0 := Same(wide[0], wide[1])] else wide)
  }

  /** The previous frame has to stand in for this one. */
  predicate Concealed(codec: Codec, f: Frame) {
    match codec
    case Ambe2450 => !Lost(codec, f) && f.errs2 > 3
    case Imbe4400 => f.verdict == Invalid || f.errs2 > 5
  }

  /** Erasures and tones are answered with silence and a fresh start. */
  predicate Lost(codec: Codec, f: Frame) {
    codec == Ambe2450 && f.verdict != Good
  }

  /** The parameters of this frame, once concealment has been decided. */
  function Chosen(codec: Codec, prev: Settings, f: Frame): Settings
    requires 0 <= prev.L <= 56
  {
    var p := if f.verdict == Good then Stretched(codec, prev, f.L) else prev;
    if Concealed(codec, f) then p.(repeat := p.repeat + 1)
    else Settings(f.w0, f.L, f.K, f.gamma, 0, f.bands)
  }

  /** No speech comes out of this frame. */
  predicate Muted(codec: Codec, s: State, f: Frame)
    requires Inv(s)
  {
    Lost(codec, f) || Chosen(codec, s.prev, f).repeat > 3
  }

  function Step(codec: Codec, s: State, f: Frame, halfPi: real): State
    requires Inv(s)
  {
    if Muted(codec, s, f) then Reset(halfPi)
    else
      var chosen := Chosen(codec, s.prev, f);
      State(chosen.(bands := f.played), chosen, chosen.(bands := f.played))
  }

  /** What concealment has to hold on to. */
  ghost predicate Alike(a: Settings, b: Settings) {
    && a.w0 == b.w0 && a.L == b.L && a.K == b.K && a.gamma == b.gamma
    && forall l :: 1 <= l <= b.L <= 56 ==> a.bands[l] == b.bands[l]
  }

  predicate Inv(s: State) {
    0 <= s.prev.repeat <= 3 && 0 <= s.prev.L <= 56
  }

  /** What one frame does to the counter. */
  lemma StepRepeat(codec: Codec, s: State, f: Frame, halfPi: real)
    requires Inv(s)
    ensures Step(codec, s, f, halfPi).prev.repeat
         == if !Concealed(codec, f) || s.prev.repeat == 3 then 0 else s.prev.repeat + 1
    ensures Muted(codec, s, f) <==> Lost(codec, f) || (Concealed(codec, f) && s.prev.repeat == 3)
  {
  }

  /**
    What becomes of the parameters: a frame with few errors brings its own; up to three others in a
    row are played with the parameters of the frame before them, and a fourth starts afresh, as does
    a frame that is no speech.
   */
  lemma AmbeFrame(s: State, f: Frame, halfPi: real)
    requires Inv(s) && f.verdict != Invalid
    ensures var t := Step(Ambe2450, s, f, halfPi);
            && (f.verdict == Good && f.errs2 <= 3 ==> t.prev == Settings(f.w0, f.L, f.K, f.gamma, 0, f.bands))
            && (f.verdict == Good && f.errs2 > 3 && s.prev.repeat < 3 ==>
                  Alike(t.prev, s.prev) && t.prev.repeat == s.prev.repeat + 1)
            && (f.verdict == Good && f.errs2 > 3 && s.prev.repeat == 3 ==> t == Reset(halfPi))
            && (f.verdict != Good ==> t == Reset(halfPi))
            && (t == Reset(halfPi) || (t.cur == t.enhanced == t.prev.(bands := f.played)))
  {
  }

  /** The other decoder bears more errors, and plays on when a frame is no speech. */
  lemma ImbeFrame(s: State, f: Frame, halfPi: real)
    requires Inv(s) && (f.verdict == Good || f.verdict == Invalid)
    ensures var t := Step(Imbe4400, s, f, halfPi);
            && (f.verdict == Good && f.errs2 <= 5 ==> t.prev == Settings(f.w0, f.L, f.K, f.gamma, 0, f.bands))
            && ((f.verdict == Invalid || f.errs2 > 5) && s.prev.repeat < 3 ==>
                  Alike(t.prev, s.prev) && t.prev.repeat == s.prev.repeat + 1)
            && ((f.verdict == Invalid || f.errs2 > 5) && s.prev.repeat == 3 ==> t == Reset(halfPi))
            && (t == Reset(halfPi) || (t.cur == t.enhanced == t.prev.(bands := f.played)))
  {
  }

  /** Frames in the order in which they come, the last one at the end. */
  function Run(codec: Codec, s: State, fs: seq<Frame>, halfPi: real): (r: State)
    requires Inv(s)
    ensures Inv(r)
  {
    if fs == [] then s
    else Step(codec, Run(codec, s, fs[..|fs| - 1], halfPi), fs[|fs| - 1], halfPi)
  }

  /** How many frames at the end of a run were concealed without a break. */
  function Streak(codec: Codec, fs: seq<Frame>): nat {
    if fs == [] || !Concealed(codec, fs[|fs| - 1]) then 0 else 1 + Streak(codec, fs[..|fs| - 1])
  }

  /** The counter is the length of the streak, started over after every fourth frame of it. */
  lemma {:induction false} RepeatIsStreak(codec: Codec, fs: seq<Frame>, halfPi: real)
    ensures Run(codec, Reset(halfPi), fs, halfPi).prev.repeat == Streak(codec, fs) % 4
  {
    if fs != [] {
      hide Step, Concealed, Inv, Reset;
      RepeatIsStreak(codec, fs[..|fs| - 1], halfPi);
      StepRepeat(codec, Run(codec, Reset(halfPi), fs[..|fs| - 1], halfPi), fs[|fs| - 1], halfPi);
      Successor(Streak(codec, fs[..|fs| - 1]));
    }
  }

  lemma Successor(n: nat)
    ensures (n + 1) % 4 == if n % 4 == 3 then 0 else n % 4 + 1
  {
  }

  /** The last frame of any run is muted exactly when it is lost or the fourth, eighth, … of a streak. */
  lemma MutedIff(codec: Codec, fs: seq<Frame>, halfPi: real)
    requires fs != []
    ensures var f, before := fs[|fs| - 1], Run(codec, Reset(halfPi), fs[..|fs| - 1], halfPi);
            Muted(codec, before, f) <==> Lost(codec, f) || (Streak(codec, fs) > 0 && Streak(codec, fs) % 4 == 0)
  {
    hide Step, Concealed, Muted, Lost, Run;
    RepeatIsStreak(codec, fs[..|fs| - 1], halfPi);
    StepRepeat(codec, Run(codec, Reset(halfPi), fs[..|fs| - 1], halfPi), fs[|fs| - 1], halfPi);
    Successor(Streak(codec, fs[..|fs| - 1]));
  }

  /** A streak, frame by frame: the last `n` frames were damaged, and the one before them was not. */
  lemma {:induction false} AmbeStreak(fs: seq<Frame>, n: nat)
    requires n <= |fs|
    requires forall i :: |fs| - n <= i < |fs| ==> fs[i].verdict == Good && fs[i].errs2 > 3
    requires n < |fs| ==> fs[|fs| - n - 1].verdict != Good || fs[|fs| - n - 1].errs2 <= 3
    ensures Streak(Ambe2450, fs) == n
  {
    if n > 0 {
      AmbeStreak(fs[..|fs| - 1], n - 1);
    }
  }

  lemma {:induction false} ImbeStreak(fs: seq<Frame>, n: nat)
    requires n <= |fs|
    requires forall i :: |fs| - n <= i < |fs| ==> fs[i].verdict == Invalid || fs[i].errs2 > 5
    requires n < |fs| ==> fs[|fs| - n - 1].verdict != Invalid && fs[|fs| - n - 1].errs2 <= 5
    ensures Streak(Imbe4400, fs) == n
  {
    if n > 0 {
      ImbeStreak(fs[..|fs| - 1], n - 1);
    }
  }

  /**
    After any run that ends with exactly `n` damaged frames, the last frame is muted exactly when it is
    no speech or `n` is four, eight, ….
   */
  lemma AmbeMutedIff(fs: seq<Frame>, n: nat, halfPi: real)
    requires fs != [] && n <= |fs|
    requires forall i :: |fs| - n <= i < |fs| ==> fs[i].verdict == Good && fs[i].errs2 > 3
    requires n < |fs| ==> fs[|fs| - n - 1].verdict != Good || fs[|fs| - n - 1].errs2 <= 3
    ensures Muted(Ambe2450, Run(Ambe2450, Reset(halfPi), fs[..|fs| - 1], halfPi), fs[|fs| - 1]) <==>
            fs[|fs| - 1].verdict != Good || (n > 0 && n % 4 == 0)
  {
    hide Muted, Run, Streak, Reset;
    AmbeStreak(fs, n);
    MutedIff(Ambe2450, fs, halfPi);
  }

  lemma ImbeMutedIff(fs: seq<Frame>, n: nat, halfPi: real)
    requires fs != [] && n <= |fs|
    requires forall i :: |fs| - n <= i < |fs| ==> fs[i].verdict == Invalid || fs[i].errs2 > 5
    requires n < |fs| ==> fs[|fs| - n - 1].verdict != Invalid && fs[|fs| - n - 1].errs2 <= 5
    ensures Muted(Imbe4400, Run(Imbe4400, Reset(halfPi), fs[..|fs| - 1], halfPi), fs[|fs| - 1]) <==>
            n > 0 && n % 4 == 0
  {
    hide Muted, Run, Streak, Reset;
    ImbeStreak(fs, n);
    MutedIff(Imbe4400, fs, halfPi);
  }

  /** One to three concealed frames leave the last good parameters in place. */
  lemma {:induction false} ConcealKeeps(codec: Codec, s: State, fs: seq<Frame>, halfPi: real)
    requires Inv(s) && s.prev.repeat == 0 && |fs| <= 3 && Streak(codec, fs) == |fs|
    ensures var t := Run(codec, s, fs, halfPi); Alike(t.prev, s.prev) && t.prev.repeat == |fs|
  {
    if fs != [] {
      ConcealKeeps(codec, s, fs[..|fs| - 1], halfPi);
    }
  }

  /**
    A good frame and up to three damaged ones after it, in the middle of any run: the good frame is
    what is remembered.
   */
  lemma LastGoodRemembered(codec: Codec, before: seq<Frame>, good: Frame, fs: seq<Frame>, halfPi: real)
    requires good.verdict == Good && good.errs2 <= (if codec == Ambe2450 then 3 else 5) && |fs| <= 3
    requires codec == Ambe2450 ==> forall i :: 0 <= i < |fs| ==> fs[i].verdict == Good && fs[i].errs2 > 3
    requires codec == Imbe4400 ==> forall i :: 0 <= i < |fs| ==> fs[i].verdict == Invalid || fs[i].errs2 > 5
    ensures var t := Run(codec, Reset(halfPi), before + [good] + fs, halfPi);
            && t.prev.w0 == good.w0 && t.prev.L == good.L && t.prev.K == good.K && t.prev.gamma == good.gamma
            && forall l :: 1 <= l <= good.L ==> t.prev.bands[l] == good.bands[l]
  {
    if codec == Ambe2450 {
      AmbeStreak(fs, |fs|);
    } else {
      ImbeStreak(fs, |fs|);
    }
    var s := Run(codec, Reset(halfPi), before, halfPi);
    var g := Step(codec, s, good, halfPi);
    assert (before + [good])[..|before|] == before;
    RunSplit(codec, Reset(halfPi), before + [good], fs, halfPi);
    ConcealKeeps(codec, g, fs, halfPi);
  }

  lemma {:induction false} RunSplit(codec: Codec, s: State, fs: seq<Frame>, gs: seq<Frame>, halfPi: real)
    requires Inv(s)
    ensures Run(codec, s, fs + gs, halfPi) == Run(codec, Run(codec, s, fs, halfPi), gs, halfPi)
  {
    if gs == [] {
      assert fs + gs == fs;
    } else {
      assert (fs + gs)[..|fs + gs| - 1] == fs + gs[..|gs| - 1];
      RunSplit(codec, s, fs, gs[..|gs| - 1], halfPi);
    }
  }

  /**
    Muting does not end the concealment: the counter runs on from the initial parameters, and the fifth
    frame is heard again.
   */
  lemma HeardAgain(codec: Codec, s: State, fs: seq<Frame>, halfPi: real)
    requires Inv(s) && s.prev.repeat == 0 && |fs| == 5
    requires codec == Ambe2450 ==> forall i :: 0 <= i < 5 ==> fs[i].verdict == Good && fs[i].errs2 > 3
    requires codec == Imbe4400 ==> forall i :: 0 <= i < 5 ==> fs[i].verdict == Invalid || fs[i].errs2 > 5
    ensures Run(codec, s, fs[..4], halfPi) == Reset(halfPi)
    ensures !Muted(codec, Run(codec, s, fs[..4], halfPi), fs[4])
  {
    assert fs[..4][..3] == fs[..3];
    if codec == Ambe2450 {
      AmbeStreak(fs, 5);
    } else {
      ImbeStreak(fs, 5);
    }
    StreakPrefix(codec, fs);
    StreakPrefix(codec, fs[..4]);
    ConcealKeeps(codec, s, fs[..3], halfPi);
  }

  lemma StreakPrefix(codec: Codec, fs: seq<Frame>)
    requires fs != [] && Streak(codec, fs) == |fs|
    ensures Concealed(codec, fs[|fs| - 1]) && Streak(codec, fs[..|fs| - 1]) == |fs| - 1
  {
  }
}
