/**
 * Transport feature negotiation (VIRTIO 1.1, chapter 6): of the transport
 * feature bits, the ring supports only indirect descriptors, event indices and
 * VERSION_1; every other bit of the transport range is cleared.
 *
 * The 64-bit feature word is modelled as the set of positions of its one bits,
 * so virtio_feature_disable(f, i), which clears bit i, removes i from the set.
 */
module TransportFeatures {

  /** Bits 28..37 are the transport range; the header defining the bounds is not part of this model. */
  const TransportFStart: nat := 28
  const TransportFEnd: nat := 38
  const RingFIndirectDesc: nat := 28
  const RingFEventIdx: nat := 29
  const FVersion1: nat := 32
  const FeatureBits: nat := 64

  /** A uint64_t feature word: the positions, all below 64, of its one bits. */
  type Features = f: set<nat> | forall b :: b in f ==> b < FeatureBits

  /** A transport bit the ring supports, which the loop leaves alone. */
  predicate Supported(i: nat)
  {
    i == RingFIndirectDesc || i == RingFEventIdx || i == FVersion1
  }

  /** Whether negotiation leaves bit b alone: outside the transport range, or supported. */
  predicate Kept(b: nat)
  {
    b < TransportFStart || TransportFEnd <= b || Supported(b)
  }

  /** virtio_feature_disable(f, i): bit i is clear afterwards and every other bit is as before. */
  function FeatureDisable(f: Features, i: nat): (r: Features)
    ensures i !in r
    ensures forall b :: b != i ==> (b in r <==> b in f)
  {
    f - {i}
  }

  /** The feature word after the loop has visited the transport bits below i. */
  ghost function Partial(f: Features, i: nat): Features
  {
    set b | b in f && (Kept(b) || i <= b)
  }

  /** The negotiated feature word: the offered bits the ring keeps. */
  ghost function Negotiated(f: Features): Features
  {
    Partial(f, TransportFEnd)
  }

  /** Bit b survives negotiation exactly when it was offered and the ring keeps it. */
  lemma NegotiatedBit(f: Features, b: nat)
    ensures b in Negotiated(f) <==> b in f && Kept(b)
  {
  }

  /** Negotiation only clears bits, and leaves the bits outside the transport range as they were. */
  lemma NegotiatedOnlyClearsTransport(f: Features)
    ensures Negotiated(f) <= f
    ensures forall b :: b < TransportFStart || TransportFEnd <= b ==> (b in Negotiated(f) <==> b in f)
  {
  }

  /** Negotiating twice changes nothing more. */
  lemma NegotiatedIdempotent(f: Features)
    ensures Negotiated(Negotiated(f)) == Negotiated(f)
  {
  }

  /** vring_transport_features: one virtio_feature_disable per unsupported transport bit. */
  method Negotiate(features: Features) returns (r: Features)
    ensures r == Negotiated(features)
  {
    r := features;
    var i := TransportFStart;
    while i < TransportFEnd
      invariant TransportFStart <= i <= TransportFEnd
      invariant r == Partial(features, i)
    {
      if !Supported(i) {
        r := FeatureDisable(r, i);
      }
      i := i + 1;
    }
  }
}
