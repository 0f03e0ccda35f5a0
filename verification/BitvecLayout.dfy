/** The constants of bitvec.c for a structure of 512 bytes. */
module BitvecLayout {

  const NELEM: nat := 500
  const NBIT: nat := 4000
  const NINT: nat := 125
  const MXHASH: nat := 62
  const NPTR: nat := 125
}
