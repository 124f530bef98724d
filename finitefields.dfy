// FiniteFields.GetPrimeField: the shared GF(2) and GF(3) instances and the
// range check on the characteristic.
module FiniteFields {
  import opened Wrappers
  import opened Arith

  /** A prime field; only its characteristic is modelled. */
  class PrimeField {
    const characteristic: int

    constructor (characteristic: int)
      ensures this.characteristic == characteristic
    {
      this.characteristic := characteristic;
    }

    /** A prime field has extension degree one. */
    function Dimension(): int
    {
      1
    }

    /** Fields are equal when their characteristics are. */
    predicate Equals(other: PrimeField?)
    {
      other != null && characteristic == other.characteristic
    }
  }

  /** The static state of FiniteFields: the two shared small fields. */
  class Registry {
    const GF2: PrimeField
    const GF3: PrimeField

    /** The shared instances have the characteristics they stand for. */
    predicate Valid()
    {
      GF2.characteristic == 2 && GF3.characteristic == 3
    }

    constructor ()
      ensures Valid()
    {
      GF2 := new PrimeField(2);
      GF3 := new PrimeField(3);
    }

    /**
     * The field of the given characteristic: ArgumentException below 2, the
     * shared instance for 2 and 3, and a new field otherwise.
     */
    method GetPrimeField(characteristic: int) returns (r: Result<PrimeField>)
      requires Valid()
      ensures r.Err? <==> characteristic < 2
      ensures r.Ok? ==> r.value.characteristic == characteristic
      ensures r.Err? ==> r.error == ArgumentException
      ensures characteristic == 2 ==> r == Ok(GF2)
      ensures characteristic == 3 ==> r == Ok(GF3)
      ensures characteristic >= 4 ==> r.Ok? && fresh(r.value) && r.value.characteristic == characteristic
    {
      var bitLength := if characteristic > 0 then BitLength(characteristic) else 0;
      if characteristic <= 0 || bitLength < 2 {
        if characteristic > 0 {
          BitLengthAbove(characteristic, 1);
        }
        return Err(ArgumentException);
      }
      BitLengthAbove(characteristic, 1);
      if bitLength < 3 {
        BitLengthAbove(characteristic, 2);
        if characteristic == 2 {
          return Ok(GF2);
        } else if characteristic == 3 {
          return Ok(GF3);
        }
      }
      BitLengthAbove(characteristic, 2);
      var field := new PrimeField(characteristic);
      return Ok(field);
    }
  }
}
