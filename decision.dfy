/** The decision handed back to the caller of `decide` (src/decision.rs). */
module Decisions {

  /** Flag key, whether the feature is enabled, and the key of the chosen variation. */
  datatype Decision = Decision(flagKey: string, enabled: bool, variationKey: string)

  /** The variation key every "off" decision carries. */
  const OffKey: string := "off"

  /** `Decision::off`: the canonical disabled decision for a flag. */
  function Off(flagKey: string): (d: Decision)
    ensures d.flagKey == flagKey && !d.enabled && d.variationKey == OffKey
  {
    Decision(flagKey, false, OffKey)
  }

  /** `Decision::new`: stores its three arguments unchanged. */
  function New(flagKey: string, enabled: bool, variationKey: string): (d: Decision)
    ensures d.flagKey == flagKey && d.enabled == enabled && d.variationKey == variationKey
  {
    Decision(flagKey, enabled, variationKey)
  }
}
