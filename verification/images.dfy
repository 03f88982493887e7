/**
 * Images as the canvas core sees them: an identity (standing for the NkImage
 * pointer) and the pixel size given at creation.
 */
module Images {
  type ImageId = nat

  datatype Image = Image(id: ImageId, width: nat, height: nat)
}
