/** Rounding and bounds as `Math.round`, `Math.min`, `Math.max` and `Math.abs` compute them on exact numbers. */
module Numbers {
  import opened Wrappers

  function Min(a: int, b: int): int {
    if a < b then a else b
  }

  function Max(a: int, b: int): int {
    if a < b then b else a
  }

  function Abs(x: real): real {
    if x < 0.0 then -x else x
  }

  /** Half up. */
  function Round(x: real): int {
    (x + 0.5).Floor
  }

  /** A capacity option: whole and at least one, or the default if it is absent or not finite. */
  function Capacity(requested: Option<real>, default: nat): nat {
    if requested.None? then default else Max(1, requested.value.Floor)
  }
}

/** The tools and risk levels that capability requests name. */
module Capabilities {
  datatype Tool = Search | FetchHtml | FetchJson
  datatype Risk = Low | Medium | High
}

/** The correlation risk that the privacy engines share. */
module Correlations {
  datatype Risk = Low | Medium | High | Critical
}
