/**
 * The values the container deals in: identifiers, the recipes ("concretes")
 * a definition is built from, the instances that come out, and the two
 * error kinds that surface at the container's boundary.
 */
module Types {

  /** An identifier: a definition's alias, a tag, or a service a provider claims. */
  type Id = string

  datatype Option<+T> = None | Some(value: T)

  datatype Result<+R, +E> = Ok(value: R) | Err(error: E)

  /**
   * How a definition produces its value. `Named` is a class name or alias
   * string (the default recipe when none is given); `Opaque` stands for any
   * other recipe the caller passes (a callable, an object, a literal),
   * identified only by an abstract code.
   */
  datatype Concrete = Named(name: Id) | Opaque(code: int)

  /**
   * A produced value: the recipe it was built from and the serial number of
   * the build. Two builds never share a serial, so a fresh build is a
   * distinct instance.
   */
  datatype Value = Instance(concrete: Concrete, serial: nat)

  /** What a lookup yields: one value, or the ordered values of a tag group. */
  datatype Resolved = One(value: Value) | Many(values: seq<Value>)

  /**
   * NotFound: no definition, tag, provider or delegate supplies the id.
   * ContainerError: a provider claimed the id but its registration did not
   * define it.
   */
  datatype Error = NotFound(id: Id) | ContainerError(id: Id)

  /** The recipe used when the caller passes none: the id itself. */
  function ConcreteOrAlias(concrete: Option<Concrete>, id: Id): (c: Concrete)
    ensures concrete.Some? ==> c == concrete.value
    ensures concrete.None? ==> c == Named(id)
  {
    match concrete
    case Some(given) => given
    case None => Named(id)
  }
}
