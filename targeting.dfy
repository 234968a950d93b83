/** The device descriptor, the two kinds of targeting, and the per-dimension matchers the
    engine consumes. Their internals are not modelled: a matcher is just its predicates. */
module Targeting {

  /** Description of the device to serve (API level, ABIs, density, languages). */
  type DeviceSpec

  /** Coarse targeting of a whole variant. */
  type VariantTargeting

  /** Fine targeting of one APK. */
  type ApkTargeting

  /** A compatibility dimension (SDK version, ABI, screen density) that distinguishes both
      variants and APKs: its variant-level and APK-level predicates for one device. */
  datatype DimensionMatcher = DimensionMatcher(
    variantTargetingPredicate: VariantTargeting -> bool,
    apkTargetingPredicate: ApkTargeting -> bool)

  /** The language dimension, which only distinguishes APKs. */
  datatype LanguageMatcher = LanguageMatcher(apkTargetingPredicate: ApkTargeting -> bool)

  /** How each dimension's matcher is built from a device descriptor; these stand for the
      constructors of SdkVersionMatcher, AbiMatcher, ScreenDensityMatcher and LanguageMatcher. */
  datatype MatcherFactory = MatcherFactory(
    sdkVersion: DeviceSpec -> DimensionMatcher,
    abi: DeviceSpec -> DimensionMatcher,
    screenDensity: DeviceSpec -> DimensionMatcher,
    language: DeviceSpec -> LanguageMatcher)
}
