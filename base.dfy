/** Small value types shared by every module of the model. */
module Base {

  /** Python's `None` / a present value. */
  datatype Option<T> = None | Some(value: T)

  /** One byte of decoded audio: the model treats audio as opaque bytes. */
  newtype Byte = x: int | 0 <= x < 256

  type Bytes = seq<Byte>

  datatype Role = System | User | Assistant

  /** One chat message, `{"role": …, "content": …}`. */
  datatype Message = Message(role: Role, content: string)
}
