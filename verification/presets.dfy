/**
 Choice of the cosmetic death animation from the "animation-type" setting.
 The animations themselves (sprites and tweens) are not modelled.
 */
module Presets {

  /** The presets the selection dispatches to. */
  datatype Preset = Explosion | Ascension

  /** Only the exact string "ascension" selects Ascension; every other value, the empty string included, falls back to Explosion. */
  function SelectPreset(animationType: string): (p: Preset)
    ensures p == Ascension <==> animationType == "ascension"
    ensures p == Explosion <==> animationType != "ascension"
  {
    if animationType == "ascension" then Ascension else Explosion
  }
}
