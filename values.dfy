/** Values as they arrive in a parsed JSON request body and as they are
    stored in a nullable SQL column. */
module Values {

  datatype Option<T> = None | Some(value: T)

  /** A property of a JSON request body: missing (`undefined`), `null`, or a
      value. */
  datatype Field<T> = Absent | Null | Present(value: T) {
    /** The SQL parameter node-postgres sends for it: `undefined` and `null`
        both become NULL. */
    function Column(): (c: Option<T>)
      ensures c.Some? <==> Present?
      ensures c.Some? ==> c.value == value
    {
      if Present? then Some(value) else None
    }
  }

  /** JavaScript truthiness of a string-valued property: `undefined`, `null`
      and `""` are falsy. */
  predicate Truthy(f: Field<string>) {
    f.Present? && f.value != ""
  }

  /** `f || null`: a falsy value is stored as NULL, a truthy one as itself. */
  function OrNull(f: Field<string>): (c: Option<string>)
    ensures c.Some? <==> Truthy(f)
    ensures c.Some? ==> c.value == f.value && c.value != ""
  {
    if Truthy(f) then Some(f.value) else None
  }

  /** A request-body property built from a value that may be `null`: it is
      sent as `null` or as the value, never left out. */
  function Json<T>(o: Option<T>): (f: Field<T>)
    ensures f.Column() == o && !f.Absent?
  {
    if o.Some? then Present(o.value) else Null
  }
}
