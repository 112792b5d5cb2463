/** The signal bits a node puts into its blocks. */
module BitSignaling {
  import opened Wrappers
  import opened FeatureSettings
  import opened FeatureStates

  /** Bit `b` of `n`. */
  predicate Bit(n: nat, b: nat) {
    if b == 0 then n % 2 == 1 else Bit(n / 2, b - 1)
  }

  /** `n | (1 << b)`. */
  function OrBit(n: nat, b: nat): nat {
    if b == 0 then (if n % 2 == 1 then n else n + 1) else 2 * OrBit(n / 2, b - 1) + n % 2
  }

  lemma {:induction false} BitOfOr(n: nat, b: nat, c: nat)
    ensures Bit(OrBit(n, b), c) <==> Bit(n, c) || b == c
    decreases b
  {
    if b > 0 {
      assert OrBit(n, b) / 2 == OrBit(n / 2, b - 1) && OrBit(n, b) % 2 == n % 2;
      if c > 0 {
        BitOfOr(n / 2, b - 1, c - 1);
      }
    } else if c > 0 {
      assert OrBit(n, 0) / 2 == n / 2;
    }
  }

  lemma {:induction false} NoBits(c: nat)
    ensures !Bit(0, c)
  {
    if c > 0 {
      NoBits(c - 1);
    }
  }

  /** The features of `s` use different bits below `n`, so there are at most `n` of them. */
  lemma {:induction false} AtMostOnePerBit(features: Features, s: set<Feature>, n: nat)
    requires forall f :: f in s ==> f in features && features[f].bit < n
    requires forall f, g :: f in s && g in s && f != g ==> features[f].bit != features[g].bit
    ensures |s| <= n
    decreases n
  {
    if n == 0 {
      assert forall f :: f !in s;
      assert s == {};
    } else if f :| f in s && features[f].bit == n - 1 {
      AtMostOnePerBit(features, s - {f}, n - 1);
    } else {
      AtMostOnePerBit(features, s, n - 1);
    }
  }

  /** The features that signal at a height. */
  ghost function SignalingAt(features: Features, E: nat, votes: Votes, height: nat): set<Feature>
    requires E > 0
  {
    set f | f in features && Signaling(StateAt(features[f], E, votes, height))
  }

  /** With settings whose bits are never shared the count assertion never fails. */
  lemma FewSignaling(features: Features, E: nat, maxBits: nat, votes: Votes, height: nat)
    requires ValidSettings(features, E, maxBits) && DoneBeforeNext(features, E)
    ensures |SignalingAt(features, E, votes, height)| <= maxBits
    ensures forall f, g :: f in SignalingAt(features, E, votes, height) && g in SignalingAt(features, E, votes, height) && f != g ==>
                             features[f].bit != features[g].bit
  {
    hide BoundaryState, DoneBeforeNext;
    var s := SignalingAt(features, E, votes, height);
    forall f, g | f in s && g in s && f != g ensures features[f].bit != features[g].bit {
      if features[f].bit == features[g].bit {
        NotBoth(features, E, maxBits, votes, height / E, f, g);
      }
    }
    AtMostOnePerBit(features, s, maxBits);
  }

  /** `signal` has the bits of the enabled members of `s` and no other. */
  ghost predicate SignalFor(features: Features, s: set<Feature>, enabled: set<Feature>, signal: nat)
    requires s <= features.Keys
  {
    forall b :: Bit(signal, b) <==> exists f :: f in s && features[f].bit == b && f in enabled
  }

  /** Whatever is enabled, the bits tell for every member of `s` whether it is. */
  ghost predicate AlwaysReadsBack(features: Features, s: set<Feature>)
    requires s <= features.Keys
  {
    forall enabled: set<Feature>, signal: nat, f ::
      SignalFor(features, s, enabled, signal) && f in s ==> (Bit(signal, features[f].bit) <==> f in enabled)
  }

  /** Two features with one bit cannot be told apart. */
  lemma ReadsBackExactly(features: Features, s: set<Feature>)
    requires s <= features.Keys
    ensures AlwaysReadsBack(features, s) <==> forall f, g :: f in s && g in s && f != g ==> features[f].bit != features[g].bit
  {
    if f, g :| f in s && g in s && f != g && features[f].bit == features[g].bit {
      var enabled, signal := {f}, OrBit(0, features[f].bit);
      forall b ensures Bit(signal, b) <==> exists e :: e in s && features[e].bit == b && e in enabled {
        BitOfOr(0, features[f].bit, b);
        NoBits(b);
      }
      assert SignalFor(features, s, enabled, signal) && g !in enabled;
    }
  }

  /** Signal bits can be read back at every height of every run. */
  ghost predicate ReadsBackInEveryRun(features: Features, E: nat)
    requires E > 0
  {
    forall votes: Votes, height :: AlwaysReadsBack(features, SignalingAt(features, E, votes, height))
  }

  lemma Multiple(x: int, E: int)
    requires E > 0
    ensures x >= 1 ==> x * E >= E
    ensures x <= -1 ==> x * E <= -E
  {
  }

  lemma AtBoundary(k: nat, E: nat)
    requires E > 0
    ensures k * E / E == k
  {
    var q, r := k * E / E, k * E % E;
    assert (k - q) * E == r;
    Multiple(k - q, E);
  }

  lemma SharedIsNotReadBack(features: Features, E: nat, votes: Votes, k: nat, f: Feature, g: Feature)
    requires E > 0 && SharedBit(features, f, g)
    requires Signaling(BoundaryState(features[f], E, votes, k)) && Signaling(BoundaryState(features[g], E, votes, k))
    ensures !ReadsBackInEveryRun(features, E)
  {
    hide BoundaryState, AlwaysReadsBack;
    AtBoundary(k, E);
    var s := SignalingAt(features, E, votes, k * E);
    ReadsBackExactly(features, s);
    assert f in s && g in s;
  }

  /** With settings that pass the check, signal bits can be read back in every run exactly when no bit
  is ever shared, that is when each feature is done before the next one with its bit starts. */
  lemma ReadBackExactly(features: Features, E: nat, maxBits: nat)
    requires ValidSettings(features, E, maxBits)
    ensures ReadsBackInEveryRun(features, E) <==> BitsNeverShared(features, E)
    ensures ReadsBackInEveryRun(features, E) <==> DoneBeforeNext(features, E)
  {
    hide BoundaryState, DoneBeforeNext, AlwaysReadsBack;
    DistinctBitsExactly(features, E, maxBits);
    if DoneBeforeNext(features, E) {
      forall votes: Votes, height ensures AlwaysReadsBack(features, SignalingAt(features, E, votes, height)) {
        FewSignaling(features, E, maxBits, votes, height);
        ReadsBackExactly(features, SignalingAt(features, E, votes, height));
      }
    } else {
      hide ReadsBackInEveryRun;
      var votes: Votes, k: nat, f, g :| SharedBit(features, f, g) && Signaling(BoundaryState(features[f], E, votes, k))
                                       && Signaling(BoundaryState(features[g], E, votes, k));
      SharedIsNotReadBack(features, E, votes, k, f, g);
    }
  }

  class BitSignalingService {
    const features: Features
    const E: nat
    const maxBits: nat
    const byDefault: set<Feature>
    var support: set<Feature>
    var notSupport: set<Feature>

    ghost predicate Valid()
      reads this
    {
      E > 0 && support !! notSupport
    }

    /** Refuses a feature that is both supported and not supported. */
    constructor (features: Features, E: nat, maxBits: nat, byDefault: set<Feature>, support: set<Feature>, notSupport: set<Feature>)
      requires E > 0 && support !! notSupport
      ensures Valid() && this.features == features && this.E == E && this.maxBits == maxBits && this.byDefault == byDefault
      ensures this.support == support && this.notSupport == notSupport
      ensures forall f :: (f in support ==> Enabled(f)) && (f in notSupport ==> !Enabled(f))
      ensures forall f :: f !in support + notSupport ==> (Enabled(f) <==> f in byDefault)
    {
      this.features, this.E, this.maxBits, this.byDefault := features, E, maxBits, byDefault;
      this.support, this.notSupport := support, notSupport;
    }

    predicate Enabled(f: Feature)
      reads this
    {
      (f in byDefault || f in support) && f !in notSupport
    }

    method AddFeatureSupport(f: Feature)
      requires Valid()
      modifies this`support, this`notSupport
      ensures Valid() && Enabled(f) && forall g :: g != f ==> Enabled(g) == old(Enabled(g))
    {
      notSupport := notSupport - {f};
      support := support + {f};
    }

    method RemoveFeatureSupport(f: Feature)
      requires Valid()
      modifies this`support, this`notSupport
      ensures Valid() && !Enabled(f) && forall g :: g != f ==> Enabled(g) == old(Enabled(g))
    {
      support := support - {f};
      notSupport := notSupport + {f};
    }

    method SignalingFeatures(votes: Votes, height: nat, names: seq<Feature>) returns (signaling: seq<Feature>, ok: bool)
      requires Valid() && Distinct(names) && forall f :: f in names <==> f in features
      ensures Distinct(signaling) && forall f :: f in signaling <==> f in SignalingAt(features, E, votes, height)
      ensures ok <==> |signaling| <= maxBits
    {
      signaling := [];
      var k := 0;
      while k < |names|
        invariant 0 <= k <= |names| && Distinct(signaling)
        invariant forall f :: f in signaling <==> f in names[..k] && Signaling(StateAt(features[f], E, votes, height))
      {
        var f := names[k];
        assert f !in names[..k];
        if Signaling(StateAt(features[f], E, votes, height)) {
          signaling := signaling + [f];
        }
        k := k + 1;
      }
      ok := |signaling| <= maxBits;
    }

    /** Bit `b` is set exactly when some signaling feature with that bit is enabled. */
    method GenerateSignalBits(votes: Votes, height: nat, names: seq<Feature>) returns (signal: nat, ok: bool)
      requires Valid() && Distinct(names) && forall f :: f in names <==> f in features
      ensures ok ==> forall b :: Bit(signal, b) <==> exists f :: f in SignalingAt(features, E, votes, height) && features[f].bit == b && Enabled(f)
      ensures ok <==> |SignalingAt(features, E, votes, height)| <= maxBits
    {
      var signaling;
      signaling, ok := SignalingFeatures(votes, height, names);
      Count(signaling, SignalingAt(features, E, votes, height));
      forall k | 0 <= k < |signaling| ensures signaling[k] in features {
        assert signaling[k] in signaling;
      }
      signal := 0;
      forall b ensures !Bit(0, b) { NoBits(b); }
      var k := 0;
      while k < |signaling|
        invariant 0 <= k <= |signaling|
        invariant forall b :: Bit(signal, b) <==> exists j :: 0 <= j < k && features[signaling[j]].bit == b && Enabled(signaling[j])
      {
        var f := signaling[k];
        if Enabled(f) {
          forall b ensures Bit(OrBit(signal, features[f].bit), b) <==> Bit(signal, b) || features[f].bit == b {
            BitOfOr(signal, features[f].bit, b);
          }
          signal := OrBit(signal, features[f].bit);
        }
        k := k + 1;
      }
    }

    /** Every signaling feature can be read back from the bits, and there are never too many. */
    method ReadBack(votes: Votes, height: nat, names: seq<Feature>) returns (signal: nat, ok: bool)
      requires Valid() && Distinct(names) && forall f :: f in names <==> f in features
      requires ValidSettings(features, E, maxBits) && DoneBeforeNext(features, E)
      ensures ok && forall f :: f in SignalingAt(features, E, votes, height) ==> (Bit(signal, features[f].bit) <==> Enabled(f))
    {
      FewSignaling(features, E, maxBits, votes, height);
      signal, ok := GenerateSignalBits(votes, height, names);
    }
  }

  lemma {:induction false} Count(s: seq<Feature>, all: set<Feature>)
    requires Distinct(s) && forall f :: f in s <==> f in all
    ensures |s| == |all|
  {
    if s == [] {
      assert all == {};
    } else {
      var n := |s| - 1;
      Count(s[..n], all - {s[n]});
    }
  }
}
