/** `ImageTransformFlags` and `BitFlags<ImageTransformFlags>`: a set of
    independent transform toggles stored as a `u8` bit set, ROT180 in bit 0,
    HUEROT90 in bit 1 and INVERT in bit 2. Identical in
    mandelatar-core/src/image_params.rs and backend_rust/src/lib/imageparams.rs. */
module TransformFlags {
  import opened Pixels

  datatype Flag = Rot180 | HueRot90 | Invert

  /** The bit each flag occupies in the `u8` representation. */
  function Bit(f: Flag): byte {
    match f
    case Rot180 => 1
    case HueRot90 => 2
    case Invert => 4
  }

  /** The `u8` a flag set is stored as. */
  function ToBits(flags: set<Flag>): byte {
    (if Rot180 in flags then 1 else 0)
    + (if HueRot90 in flags then 2 else 0)
    + (if Invert in flags then 4 else 0)
  }

  /** `BitFlags::contains`: a flag is in the set exactly when its bit is set,
      and only the three flag bits are ever used. */
  lemma ContainsIsBitTest(flags: set<Flag>, f: Flag)
    ensures ToBits(flags) < 8
    ensures f in flags <==> (ToBits(flags) / Bit(f)) % 2 == 1
  {
  }

  /** Different flag sets are stored as different bytes: the bit set loses
      nothing. */
  lemma ToBitsInjective(a: set<Flag>, b: set<Flag>)
    requires ToBits(a) == ToBits(b)
    ensures a == b
  {
    forall f: Flag
      ensures f in a <==> f in b
    {
      ContainsIsBitTest(a, f);
      ContainsIsBitTest(b, f);
    }
  }

  /** `enabled_rand_transforms` (`enabled_transforms` in the backend): the
      flags the sampler may switch on. INVERT is commented out. */
  function EnabledRandTransforms(): seq<Flag> {
    [Rot180, HueRot90]
  }

  /** The sampler's fold: starting from `BitFlags::EMPTY`, each enabled flag
      is OR-ed in when its coin (`rng.gen_bool(0.5)`) comes up true. */
  method FoldRandTransforms(coins: seq<bool>) returns (flags: set<Flag>)
    requires |coins| == |EnabledRandTransforms()|
    ensures flags == set i | 0 <= i < |coins| && coins[i] :: EnabledRandTransforms()[i]
    ensures flags <= {Rot180, HueRot90} && Invert !in flags
    ensures Rot180 in flags <==> coins[0]
    ensures HueRot90 in flags <==> coins[1]
  {
    var enabled := EnabledRandTransforms();
    flags := {};
    for i := 0 to |enabled|
      invariant flags == set j | 0 <= j < i && coins[j] :: enabled[j]
    {
      if coins[i] {
        flags := flags + {enabled[i]};
      }
    }
  }
}
