/** `Field`: sparse named values attached to grid coordinates. */
module FieldStore {
  import opened Values

  /** A grid coordinate `(x, y)`. */
  type Coord = (int, int)

  /** The values set at each coordinate; a coordinate is present once any
      value has been set there. */
  datatype Field = Field(values: map<Coord, Context>)

  const EmptyField: Field := Field(map[])

  /** `get_context`: the values set at `(x, y)`, or none. */
  function GetContext(f: Field, x: int, y: int): (ctx: Context)
    ensures (x, y) in f.values ==> ctx == f.values[(x, y)]
    ensures (x, y) !in f.values ==> ctx == map[]
  {
    if (x, y) in f.values then f.values[(x, y)] else map[]
  }

  /** `set_value`: creates the coordinate's entry when absent, then sets
      `name` in it. */
  function SetValue(f: Field, x: int, y: int, name: string, v: Value): (r: Field)
    ensures r.values.Keys == f.values.Keys + {(x, y)}
    ensures GetContext(r, x, y) == GetContext(f, x, y)[name := v]
    ensures forall c :: c in f.values && c != (x, y) ==> r.values[c] == f.values[c]
  {
    Field(f.values[(x, y) := GetContext(f, x, y)[name := v]])
  }

  /** Reading after writing: the written coordinate shows the new value
      under `name` and its other values unchanged, and every other
      coordinate reads as before. */
  lemma ReadOverWrite(f: Field, x: int, y: int, name: string, v: Value, x': int, y': int, name': string)
    ensures var ctx := GetContext(SetValue(f, x, y, name, v), x', y');
            if (x', y') == (x, y) && name' == name then name' in ctx && ctx[name'] == v
            else if (x', y') == (x, y) then
              (name' in ctx <==> name' in GetContext(f, x, y))
              && (name' in ctx ==> ctx[name'] == GetContext(f, x, y)[name'])
            else ctx == GetContext(f, x', y')
  {
  }
}
