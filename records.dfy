/**
 * A record as it reaches the stream: the labelled values a parser
 * produced for one line, in the order the labels were assigned.
 */
module Records {
  import opened Wrappers

  datatype Field = Field(name: string, value: string)

  datatype Record = Record(fields: seq<Field>)

  /**
   * Property access `record[name]`: the value of the field with that
   * name, or None (JavaScript's `undefined`) when no field has it. When
   * a name was assigned more than once, the last assignment is the one
   * that is read.
   */
  function Lookup(fields: seq<Field>, name: string): (v: Option<string>)
    ensures v.None? <==> forall i :: 0 <= i < |fields| ==> fields[i].name != name
    ensures v.Some? ==> exists i :: 0 <= i < |fields| && fields[i] == Field(name, v.value) &&
                                    forall k :: i < k < |fields| ==> fields[k].name != name
  {
    if fields == [] then None
    else if fields[|fields| - 1].name == name then Some(fields[|fields| - 1].value)
    else Lookup(fields[..|fields| - 1], name)
  }
}
