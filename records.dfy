/** The two kinds of table row the system passes around. A pandas table is
    modelled as a sequence of these records. */
module Records {

  /** One hospital row: `hospital`, `specialties` (a comma-separated list of
      specialty names), the bed and ICU pools, the current `load` and the
      distance from the reference point. Python floats are exact reals here. */
  datatype Hospital = Hospital(
    name: string,
    specialties: string,
    bedsTotal: int,
    bedsFree: int,
    icuTotal: int,
    icuFree: int,
    load: real,
    distanceKm: real)

  /** One synthetic transfer case with its two labels. */
  datatype Transfer = Transfer(
    caseId: string,
    reportText: string,
    trueSpecialty: string,
    trueSeverity: string)

  /** Python's `max(1, n)`: the floor both the generator and the ranker put
      under every denominator. */
  function Max1(n: int): (r: int)
    ensures r >= 1 && r >= n
    ensures r == 1 || r == n
  {
    if n < 1 then 1 else n
  }

  /** The number of iterations of `for i in range(n)`. */
  function RangeLen(n: int): (len: nat)
    ensures n >= 0 ==> len == n
    ensures n < 0 ==> len == 0
  {
    if n < 0 then 0 else n
  }
}
