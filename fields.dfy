/**
 * Bytes and field elements of the BN254 scalar field (the `fr` of
 * `barretenberg/ecc/curves/bn254/fr.hpp`). Field arithmetic beyond the
 * addition the sub-relation accumulator performs is not modelled.
 */
module Fields {

  /** One byte of a binary trace file (`uint8_t`). */
  newtype byte = x: int | 0 <= x < 0x100

  /** Width in bytes of one encoded field element (`uint8_t buffer[32]`). */
  const FieldWidth: nat := 32

  /** A buffer holding exactly one encoded field element. */
  type FieldBytes = s: seq<byte> | |s| == FieldWidth witness seq(32, _ => 0)

  /** The order of the BN254 scalar field. */
  const Modulus: nat := 21888242871839275222246405745257275088548364400416034343698204186575808495617

  /** A field element, represented by its canonical residue. */
  type Fr = x: int | 0 <= x < Modulus

  /** Field addition, as used by `Relation::accumulate` when it adds a contribution. */
  function Add(a: Fr, b: Fr): (r: Fr)
    ensures a == 0 ==> r == b
    ensures b == 0 ==> r == a
    ensures (a + b - r) % Modulus == 0
  {
    (a + b) % Modulus
  }
}
