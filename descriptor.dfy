/** `ImageParams`: the viewport descriptor carried in the image URL
    (identical in mandelatar-core/src/image_params.rs and
    backend_rust/src/lib/imageparams.rs). */
module Descriptor {
  import opened Pixels
  import opened Plane
  import opened TransformFlags

  datatype ImageParams = ImageParams(
    bounds: (nat, nat),
    upperLeft: Complex,
    lowerRight: Complex,
    zoomFactor: real,
    rgbConsts: (byte, byte, byte),
    transformFlags: set<Flag>)
}
