/** The server versions the registries dispatch on.  `ServerVersion` itself is
    defined elsewhere in packetevents: it is an enumeration ordered from the
    oldest release to the newest, and its comparisons follow that order.  A
    constant is modelled by its ordinal, its position in release order. */
module Versions {

  /** `name()` of each enumeration constant, in declaration order: the key of
      a bucket in a mapping document. */
  const NAMES: seq<string> := [
    "V_1_7_10", "V_1_8", "V_1_8_3", "V_1_8_8",
    "V_1_9", "V_1_9_1", "V_1_9_2", "V_1_9_4", "V_1_10",
    "V_1_11", "V_1_11_2", "V_1_12", "V_1_12_1", "V_1_12_2",
    "V_1_13", "V_1_13_1", "V_1_13_2",
    "V_1_14", "V_1_14_1", "V_1_14_2", "V_1_14_3", "V_1_14_4",
    "V_1_15", "V_1_15_1", "V_1_15_2",
    "V_1_16", "V_1_16_1", "V_1_16_2", "V_1_16_3", "V_1_16_4", "V_1_16_5",
    "V_1_17", "V_1_17_1", "V_1_18"]

  /** An enumeration constant, as its ordinal. */
  newtype ServerVersion = v: int | 0 <= v < 34
  {
    predicate IsOlderThan(other: ServerVersion) {
      this < other
    }

    predicate IsNewerThanOrEquals(other: ServerVersion) {
      this >= other
    }

    /** `name()` of the enumeration constant. */
    function Name(): string {
      NAMES[this as int]
    }
  }

  const V_1_7_10: ServerVersion := 0
  const V_1_8: ServerVersion := 1
  const V_1_8_3: ServerVersion := 2
  const V_1_8_8: ServerVersion := 3
  const V_1_9: ServerVersion := 4
  const V_1_9_1: ServerVersion := 5
  const V_1_9_2: ServerVersion := 6
  const V_1_9_4: ServerVersion := 7
  const V_1_10: ServerVersion := 8
  const V_1_11: ServerVersion := 9
  const V_1_11_2: ServerVersion := 10
  const V_1_12: ServerVersion := 11
  const V_1_12_1: ServerVersion := 12
  const V_1_12_2: ServerVersion := 13
  const V_1_13: ServerVersion := 14
  const V_1_13_1: ServerVersion := 15
  const V_1_13_2: ServerVersion := 16
  const V_1_14: ServerVersion := 17
  const V_1_14_1: ServerVersion := 18
  const V_1_14_2: ServerVersion := 19
  const V_1_14_3: ServerVersion := 20
  const V_1_14_4: ServerVersion := 21
  const V_1_15: ServerVersion := 22
  const V_1_15_1: ServerVersion := 23
  const V_1_15_2: ServerVersion := 24
  const V_1_16: ServerVersion := 25
  const V_1_16_1: ServerVersion := 26
  const V_1_16_2: ServerVersion := 27
  const V_1_16_3: ServerVersion := 28
  const V_1_16_4: ServerVersion := 29
  const V_1_16_5: ServerVersion := 30
  const V_1_17: ServerVersion := 31
  const V_1_17_1: ServerVersion := 32
  const V_1_18: ServerVersion := 33
}
