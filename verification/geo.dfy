/** The geodesy the modelled code calls into. The WGS84 conversions and
    `math.degrees` are floating-point trigonometry, so they are taken as given
    functions rather than defined here; every property proved elsewhere holds
    whatever these functions are. */
module Geo {
  import opened Matrix

  datatype Geodesy = Geodesy(
    /** `ecef_to_lla_degrees`: (latitude °, longitude °, altitude m). */
    ecefToLlaDegrees: Vec3 -> Vec3,
    /** `ecef_to_lla_radians`: (latitude rad, longitude rad, altitude m). */
    ecefToLlaRadians: Vec3 -> Vec3,
    /** `lla_degrees_to_ecef`. */
    llaDegreesToEcef: Vec3 -> Vec3,
    /** `math.degrees`. */
    degrees: real -> real,
    /** `math.sin` and `math.cos`. */
    sin: real -> real,
    cos: real -> real)
}
