/** The license state shown to the application (include/keylight/lifecycle.hpp:21-37). */
module States {
  datatype State = Licensed | Trial | Expired | Invalid | FreeTier | Limited
}
