/** Python objects, as far as the codec tells them apart. */
module PyObjects {
  import opened Schema

  datatype PyObj = PyScalar(v: Value) | PyList(xs: seq<PyObj>) | PyDict(d: map<string, PyObj>)

  /** The values under a key: a list's elements, or the object itself. */
  function Count(x: PyObj): nat {
    if x.PyList? then |x.xs| else 1
  }

  function Element(x: PyObj, j: nat): PyObj
    requires j < Count(x)
  {
    if x.PyList? then x.xs[j] else x
  }
}
