/** Machine types, constants and small value types shared by the whole model. */
module Types {
  const UINT_MAX: int := 0xFFFF_FFFF
  const VRR_VSET_SIZE: nat := 4
  const VRR_PSET_SIZE: nat := 20
  const VRR_FAIL_TIMEOUT: nat := 4
  const VRR_ACTIVE_TIMEOUT: nat := 8

  type u8 = x: int | 0 <= x < 0x100
  type u16 = x: int | 0 <= x < 0x1_0000
  type u32 = x: int | 0 <= x <= UINT_MAX

  /** A six-byte hardware address; only compared and copied. */
  type Mac = x: int | 0 <= x < 0x1_0000_0000_0000

  datatype Option<+T> = None | Some(value: T)

  /** PSET_LINKED, PSET_PENDING, PSET_FAILED, PSET_UNKNOWN. */
  datatype Status = Linked | Pending | Failed | Unknown

  /** TRANS_LINKED, TRANS_PENDING, TRANS_MISSING: what a hello says about its receiver. */
  datatype Trans = SaysLinked | SaysPending | SaysMissing
}
