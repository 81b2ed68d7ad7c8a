/** The records of texture_synthesis.h. */
module SynthesisTypes {
  import opened Images

  /** A to-be-synthesized pixel: its position, how many of its neighbours
      are set, and a tag used to break ties when sorting. */
  datatype TBSPixel = TBSPixel(idx: PixelIndex, neighborCount: nat, r: nat)

  /** An exemplar position considered as the source of a colour, with the
      Gaussian-weighted difference between its window and the target's. */
  datatype EXPPixel = EXPPixel(idx: PixelIndex, gaussScore: real)
}
