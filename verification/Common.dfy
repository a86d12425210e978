/** Types shared by the whole model. */
module Common {

  datatype Option<+T> = None | Some(value: T)

  /** One octet on the wire. */
  type byte = b: int | 0 <= b < 256

  /** Object paths are numbered from 1 by their generator, so 0 stands for the null path "/". */
  type Path = nat

  const NULL_PATH: Path := 0
}
