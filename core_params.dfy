/** mandelatar-core/src/image_params.rs: the 300x300 descriptor sampler and
    the query-string parser for post-processing options. */
module CoreImageParams {
  import opened Wrappers
  import opened Pixels
  import opened Plane
  import opened TransformFlags
  import opened Zoom
  import opened Sampler
  import opened Descriptor

  const OutputWidth: nat := 300
  const OutputHeight: nat := 300

  /** The start rectangles the sampler picks from; there is one. */
  const InterestingSelections: seq<(Complex, Complex)> := [(Complex(-1.2, 0.35), Complex(-1.0, 0.2))]

  /** `get_bounds`: the raster size is pinned, whatever `bounds` holds. */
  function GetBounds(p: ImageParams): (nat, nat) {
    (OutputWidth, OutputHeight)
  }

  /** The stored `bounds` field has no say in the raster size. */
  lemma GetBoundsIgnoresField(p: ImageParams, bounds: (nat, nat))
    ensures GetBounds(p.(bounds := bounds)) == GetBounds(p) == (300, 300)
  {
  }

  /** `rand_interesting_selection`: the table entry at the drawn index
      (`rng.gen_range(0..len)` always draws an index in range). */
  function RandInterestingSelection(index: nat): (r: (Complex, Complex))
    requires index < |InterestingSelections|
    ensures r in InterestingSelections
    ensures r == (Complex(-1.2, 0.35), Complex(-1.0, 0.2))
  {
    InterestingSelections[index]
  }

  /** `new_from_rand`, with its random draws as parameters: the table index,
      the exponent from `1..=10`, the mantissa from `1.0..=9.0`, the jitters
      from `-20.0..=50.0` and `-30.0..=50.0`, three colour bytes from
      `0..=255` and one coin per enabled transform. */
  method NewFromRand(bounds: (nat, nat), selectionIndex: nat, exp: nat, mantissa: real,
                     jitterX: real, jitterY: real, rgbConsts: (byte, byte, byte), coins: seq<bool>)
    returns (p: ImageParams)
    requires selectionIndex < |InterestingSelections|
    requires 1 <= exp <= 10 && 1.0 <= mantissa <= 9.0
    requires -20.0 <= jitterX <= 50.0 && -30.0 <= jitterY <= 50.0
    requires |coins| == |EnabledRandTransforms()|
    ensures p.bounds == bounds
    ensures p.zoomFactor == ZoomFactor(exp, mantissa)
    ensures 1.0 / Pow10(10) <= p.zoomFactor <= 0.9
    ensures ZoomedAxis(300.0, 150.0 + jitterX, 300.0 * p.zoomFactor, -1.2, -1.0, p.upperLeft.re, p.lowerRight.re)
    ensures ZoomedAxis(300.0, 150.0 + jitterY, 300.0 * p.zoomFactor, 0.35, 0.2, p.upperLeft.im, p.lowerRight.im)
    ensures p.upperLeft.re < p.lowerRight.re && p.lowerRight.im < p.upperLeft.im
    ensures p.rgbConsts == rgbConsts
    ensures p.transformFlags <= {Rot180, HueRot90} && Invert !in p.transformFlags
    ensures Rot180 in p.transformFlags <==> coins[0]
    ensures HueRot90 in p.transformFlags <==> coins[1]
  {
    var selection := RandInterestingSelection(selectionIndex);
    var zoomFactor := ZoomFactor(exp, mantissa);
    ZoomFactorRange(exp, 10, mantissa);
    var upperLeft, lowerRight := SampleViewport(OutputWidth as real, selection, zoomFactor, jitterX, jitterY);
    var flags := FoldRandTransforms(coins);
    p := ImageParams(bounds, upperLeft, lowerRight, zoomFactor, rgbConsts, flags);
  }

  datatype OverlayImageType = Profile(width: nat, height: nat)

  datatype ImagePostProcessConfig = ImagePostProcessConfig(overlayImageType: Option<OverlayImageType>)

  datatype InvalidPostProcessConfig = Default(message: string)

  /** Some pair asks for an overlay other than "profile". */
  predicate NamesUnknownOverlay(pairs: seq<(string, string)>) {
    exists i :: 0 <= i < |pairs| && pairs[i].0 == "overlay" && pairs[i].1 != "profile"
  }

  /** Some pair asks for the profile overlay. */
  predicate NamesProfileOverlay(pairs: seq<(string, string)>) {
    exists i :: 0 <= i < |pairs| && pairs[i] == ("overlay", "profile")
  }

  /** What the query string means, independent of how it is scanned: an
      unknown overlay anywhere is an error, otherwise the profile overlay is
      requested when some pair names it. Other keys do not matter. */
  function QueryConfig(pairs: seq<(string, string)>): Result<ImagePostProcessConfig, InvalidPostProcessConfig> {
    if NamesUnknownOverlay(pairs) then
      Err(Default("Invalid overlay type given."))
    else if NamesProfileOverlay(pairs) then
      Ok(ImagePostProcessConfig(Some(Profile(OutputWidth, OutputHeight))))
    else
      Ok(ImagePostProcessConfig(None))
  }

  /** `from_query_params`: scans the pairs in order, records the profile
      overlay and stops at the first unknown overlay value. */
  method FromQueryParams(pairs: seq<(string, string)>) returns (r: Result<ImagePostProcessConfig, InvalidPostProcessConfig>)
    ensures r == QueryConfig(pairs)
    ensures r.Err? <==> NamesUnknownOverlay(pairs)
    ensures r.Ok? ==> (r.value.overlayImageType.Some? <==> NamesProfileOverlay(pairs))
  {
    var result := ImagePostProcessConfig(None);
    if |pairs| < 1 {
      return Ok(result);
    }
    for i := 0 to |pairs|
      invariant !NamesUnknownOverlay(pairs[..i])
      invariant result.overlayImageType == if NamesProfileOverlay(pairs[..i]) then Some(Profile(OutputWidth, OutputHeight)) else None
    {
      var (k, v) := pairs[i];
      if k == "overlay" {
        if v == "profile" {
          result := result.(overlayImageType := Some(Profile(OutputWidth, OutputHeight)));
        } else {
          assert pairs[i].0 == "overlay" && pairs[i].1 != "profile";
          return Err(Default("Invalid overlay type given."));
        }
      }
      assert pairs[..i + 1] == pairs[..i] + [pairs[i]];
    }
    assert pairs[..|pairs|] == pairs;
    return Ok(result);
  }

  /** Order and repetition of the pairs do not matter: two query strings
      holding the same pairs give the same configuration. */
  lemma QueryConfigOrderFree(a: seq<(string, string)>, b: seq<(string, string)>)
    requires forall x :: x in a <==> x in b
    ensures QueryConfig(a) == QueryConfig(b)
  {
    assert NamesUnknownOverlay(a) <==> NamesUnknownOverlay(b) by {
      if NamesUnknownOverlay(a) {
        var i :| 0 <= i < |a| && a[i].0 == "overlay" && a[i].1 != "profile";
        assert a[i] in b;
      }
      if NamesUnknownOverlay(b) {
        var i :| 0 <= i < |b| && b[i].0 == "overlay" && b[i].1 != "profile";
        assert b[i] in a;
      }
    }
    assert NamesProfileOverlay(a) <==> NamesProfileOverlay(b) by {
      if NamesProfileOverlay(a) {
        var i :| 0 <= i < |a| && a[i] == ("overlay", "profile");
        assert a[i] in b;
      }
      if NamesProfileOverlay(b) {
        var i :| 0 <= i < |b| && b[i] == ("overlay", "profile");
        assert b[i] in a;
      }
    }
  }

  /** With no "overlay" key (in particular with no pairs at all) the result
      is the empty configuration. */
  lemma QueryConfigWithoutOverlay(pairs: seq<(string, string)>)
    requires forall i :: 0 <= i < |pairs| ==> pairs[i].0 != "overlay"
    ensures QueryConfig(pairs) == Ok(ImagePostProcessConfig(None))
  {
  }

  /** `should_post_process`. */
  function ShouldPostProcess(config: ImagePostProcessConfig): bool {
    config.overlayImageType.Some?
  }

  /** A parsed configuration asks for post-processing exactly when some pair
      requested the profile overlay, and the overlay then has the output size. */
  lemma ShouldPostProcessIffProfile(pairs: seq<(string, string)>)
    requires QueryConfig(pairs).Ok?
    ensures ShouldPostProcess(QueryConfig(pairs).value) <==> NamesProfileOverlay(pairs)
    ensures ShouldPostProcess(QueryConfig(pairs).value) ==>
      QueryConfig(pairs).value.overlayImageType == Some(Profile(300, 300))
  {
  }
}
