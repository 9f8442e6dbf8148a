/** The voice decoders: three sets of parameters that are copied, stretched and reset in place. */
module Vocoder {
  import opened VocoderSpec

  class Parms {
    var w0: real
    var L: int
    var K: int
    var gamma: real
    var repeat: int
    const bands: array<Band>

    ghost predicate Valid() {
      bands.Length == 57
    }

    ghost function Value(): Settings
      requires Valid()
      reads this, bands
    {
      Settings(w0, L, K, gamma, repeat, bands[..])
    }

    constructor ()
      ensures Valid() && fresh(bands)
    {
      bands := new Band[57];
    }

    /** Copies everything; the sentinel is cleared first and then copied like the rest. */
    method CopyFrom(other: Parms)
      requires Valid() && other.Valid() && bands != other.bands
      modifies this, bands
      ensures Value() == old(other.Value())
    {
      w0, L, K := other.w0, other.L, other.K;
      bands[0] := bands[0].(amplitude := 0.0);
      gamma, repeat := other.gamma, other.repeat;
      var l := 0;
      while l <= 56
        modifies bands
        invariant 0 <= l <= 57
        invariant bands[..l] == other.bands[..l]
      {
        bands[l] := other.bands[l];
        l := l + 1;
      }
      assert bands[..] == bands[..57] && other.bands[..] == other.bands[..57];
    }

    method Initialize(halfPi: real)
      requires Valid()
      modifies this, bands
      ensures Value() == Initial(halfPi)
      ensures w0 == 0.09378 && L == 30 && K == 10 && gamma == 0.0 && repeat == 0
      ensures forall l :: 0 <= l < 57 ==> bands[l] == Band(0, 0.0, 0.0, 0.0, halfPi)
    {
      w0, L, K, gamma := 0.09378, 30, 10, 0.0;
      var l := 0;
      while l <= 56
        modifies bands
        invariant 0 <= l <= 57
        invariant forall j :: 0 <= j < l ==> bands[j] == Band(0, 0.0, 0.0, 0.0, halfPi)
      {
        bands[l] := Band(0, 0.0, 0.0, 0.0, halfPi);
        l := l + 1;
      }
      repeat := 0;
      assert bands[..] == Initial(halfPi).bands;
    }

    /** Gives the bands above its own, up to `top`, the loudness of its last band. */
    method Stretch(codec: Codec, top: BandCount)
      requires Valid() && 0 <= L <= 56
      modifies bands
      ensures Value() == Stretched(codec, old(Value()), top)
      ensures forall l :: 1 <= l < 57 ==> bands[l] == if !(L < l <= top) then old(bands[l]) else
          old(bands[l]).(amplitude := old(bands[L].amplitude), log2 := old(bands[L].log2))
      ensures bands[0] == if codec == Imbe4400 then old(bands[0]) else
          old(bands[0]).(amplitude := bands[1].amplitude, log2 := bands[1].log2)
    {
      ghost var was := bands[..];
      if top > L {
        var l := L + 1;
        while l <= top
          invariant L < l <= top + 1
          invariant forall j :: 0 <= j < 57 ==> bands[j] == if L < j < l then Same(was[j], was[L]) else was[j]
        {
          bands[l] := bands[l].(amplitude := bands[L].amplitude, log2 := bands[L].log2);
          l := l + 1;
        }
      }
      if codec == Ambe2450 {
        bands[0] := bands[0].(amplitude := bands[1].amplitude, log2 := bands[1].log2);
      }
      assert bands[..] == Stretched(codec, old(Value()), top).bands;
    }

    method Fill(b: Bands)
      requires Valid()
      modifies bands
      ensures bands[..] == b
    {
      forall l | 0 <= l < 57 { bands[l] := b[l]; }
    }
  }

  /** One sign for every corrected error. */
  function Signs(n: int): (s: string)
    ensures |s| == (if n < 0 then 0 else n) && forall i :: 0 <= i < |s| ==> s[i] == '='
    decreases n
  {
    if n <= 0 then "" else Signs(n - 1) + "="
  }

  class Decoder {
    const cur: Parms
    const prev: Parms
    const enhanced: Parms

    ghost predicate Valid()
      reads this, prev, cur.bands, prev.bands, enhanced.bands
    {
      && cur != prev && cur != enhanced && prev != enhanced
      && cur.bands != prev.bands && cur.bands != enhanced.bands && prev.bands != enhanced.bands
      && cur.Valid() && prev.Valid() && enhanced.Valid()
      && Inv(State(prev.Value(), prev.Value(), prev.Value()))
    }

    ghost function Now(): State
      requires Valid()
      reads this, cur, prev, enhanced, cur.bands, prev.bands, enhanced.bands
    {
      State(cur.Value(), prev.Value(), enhanced.Value())
    }

    constructor (halfPi: real)
      ensures Valid() && Now() == Reset(halfPi)
    {
      cur := new Parms();
      prev := new Parms();
      enhanced := new Parms();
      new;
      Restart(halfPi);
    }

    method Restart(halfPi: real)
      requires cur != prev && cur != enhanced && prev != enhanced
      requires cur.bands != prev.bands && cur.bands != enhanced.bands && prev.bands != enhanced.bands
      requires cur.Valid() && prev.Valid() && enhanced.Valid()
      modifies cur, prev, enhanced, cur.bands, prev.bands, enhanced.bands
      ensures Valid() && Now() == Reset(halfPi)
    {
      prev.Initialize(halfPi);
      cur.CopyFrom(prev);
      enhanced.CopyFrom(prev);
    }

    /** A frame that does not decode leaves everything but the counter alone. */
    method Decode(codec: Codec, f: Frame)
      requires Valid()
      modifies cur, cur.bands, prev.bands
      ensures Valid() && enhanced.Value() == old(enhanced.Value())
      ensures prev.Value() == if f.verdict == Good then Stretched(codec, old(prev.Value()), f.L) else old(prev.Value())
      ensures f.verdict == Good ==> cur.Value() == Settings(f.w0, f.L, f.K, f.gamma, prev.repeat, f.bands)
    {
      cur.repeat := prev.repeat;
      if f.verdict == Good {
        cur.w0, cur.L, cur.K, cur.gamma := f.w0, f.L, f.K, f.gamma;
        cur.Fill(f.bands);
        prev.Stretch(codec, f.L);
      }
    }

    /** Remembers the parameters and plays them. */
    method Play(f: Frame)
      requires Valid() && 0 <= cur.L <= 56 && 0 <= cur.repeat <= 3
      modifies cur, prev, enhanced, cur.bands, prev.bands, enhanced.bands
      ensures Valid()
      ensures var chosen := old(cur.Value());
              Now() == State(chosen.(bands := f.played), chosen, chosen.(bands := f.played))
    {
      prev.CopyFrom(cur);
      cur.Fill(f.played);
      enhanced.CopyFrom(cur);
    }

    /** This decoder tells erasures and tones apart and knows no other failure. */
    method ProcessAmbe2450(f: Frame, halfPi: real) returns (marks: string, speech: bool)
      requires Valid() && f.verdict != Invalid
      modifies cur, prev, enhanced, cur.bands, prev.bands, enhanced.bands
      ensures Valid() && Now() == Step(Ambe2450, old(Now()), f, halfPi)
      ensures speech == !Muted(Ambe2450, old(Now()), f)
      ensures speech <==> f.verdict == Good && (f.errs2 <= 3 || old(prev.repeat) < 3)
      ensures marks == Signs(f.errs2)
                       + (if f.verdict == Erasure then "E" else if f.verdict == Tone then "T"
                          else if f.errs2 <= 3 then "" else if old(prev.repeat) < 3 then "R" else "RM")
    {
      marks := Count(f.errs2);
      Decode(Ambe2450, f);
      if f.verdict == Erasure {
        marks := marks + "E";
        cur.repeat := 0;
      } else if f.verdict == Tone {
        marks := marks + "T";
        cur.repeat := 0;
      } else if f.errs2 > 3 {
        cur.CopyFrom(prev);
        cur.repeat := cur.repeat + 1;
        marks := marks + "R";
      } else {
        cur.repeat := 0;
      }
      if f.verdict == Good {
        if cur.repeat <= 3 {
          Play(f);
          speech := true;
        } else {
          marks := marks + "M";
          speech := false;
          Restart(halfPi);
        }
      } else {
        speech := false;
        Restart(halfPi);
      }
    }

    /** This decoder knows one failure. */
    method ProcessImbe4400(f: Frame, halfPi: real) returns (marks: string, speech: bool)
      requires Valid() && (f.verdict == Good || f.verdict == Invalid)
      modifies cur, prev, enhanced, cur.bands, prev.bands, enhanced.bands
      ensures Valid() && Now() == Step(Imbe4400, old(Now()), f, halfPi)
      ensures speech == !Muted(Imbe4400, old(Now()), f)
      ensures speech <==> (f.verdict == Good && f.errs2 <= 5) || old(prev.repeat) < 3
      ensures marks == Signs(f.errs2)
                       + (if f.verdict == Good && f.errs2 <= 5 then "" else if old(prev.repeat) < 3 then "R" else "RM")
    {
      marks := Count(f.errs2);
      Decode(Imbe4400, f);
      if f.verdict == Invalid || f.errs2 > 5 {
        cur.CopyFrom(prev);
        cur.repeat := cur.repeat + 1;
        marks := marks + "R";
      } else {
        cur.repeat := 0;
      }
      if cur.repeat <= 3 {
        Play(f);
        speech := true;
      } else {
        marks := marks + "M";
        speech := false;
        Restart(halfPi);
      }
    }
  }

  method Count(n: int) returns (s: string)
    ensures s == Signs(n)
  {
    s := "";
    var i := 0;
    while i < n
      invariant (0 <= i <= n || i == 0) && s == Signs(i)
    {
      s := s + "=";
      i := i + 1;
    }
  }
}
