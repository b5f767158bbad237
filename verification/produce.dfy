/**
 * The produce rows of the farm forms. Both forms edit them with the same two
 * handlers: one field of one row, and the "Add Produce" button.
 */
module ProduceList {
  import opened Wrappers

  datatype Produce = Produce(produceType: string, variety: string)

  /** The two fields the inputs edit, `produce_type` and `variety`. */
  datatype Field = ProduceType | Variety

  /** The row a new form starts with and the button appends. */
  const Blank := Produce("", "")

  function Get(p: Produce, f: Field): string {
    match f
    case ProduceType => p.produceType
    case Variety => p.variety
  }

  function Other(f: Field): Field {
    match f
    case ProduceType => Variety
    case Variety => ProduceType
  }

  function Set(p: Produce, f: Field, value: string): (q: Produce)
    ensures Get(q, f) == value && Get(q, Other(f)) == Get(p, Other(f))
  {
    match f
    case ProduceType => p.(produceType := value)
    case Variety => p.(variety := value)
  }

  /**
   * `handleProduceChange(index, field, value)`: writes `value` into one field
   * of one row. An index with no row makes `newProduce[index]` undefined and
   * the assignment throws.
   */
  function ChangeProduce(rows: seq<Produce>, index: int, field: Field, value: string): (r: Result<seq<Produce>>)
    ensures r.Ok? <==> 0 <= index < |rows|
    ensures r.Ok? ==> |r.value| == |rows|
    ensures r.Ok? ==> Get(r.value[index], field) == value
    ensures r.Ok? ==> Get(r.value[index], Other(field)) == Get(rows[index], Other(field))
    ensures r.Ok? ==> forall j :: 0 <= j < |rows| && j != index ==> r.value[j] == rows[j]
  {
    if 0 <= index < |rows| then Ok(rows[index := Set(rows[index], field, value)]) else Err(TypeError)
  }

  /** The "Add Produce" button: `[...produce, { produce_type: '', variety: '' }]`. */
  function AddProduce(rows: seq<Produce>): seq<Produce> {
    rows + [Blank]
  }

  /** Writing a field's current value back leaves the rows as they were. */
  lemma ChangeToSameValue(rows: seq<Produce>, index: int, field: Field)
    requires 0 <= index < |rows|
    ensures ChangeProduce(rows, index, field, Get(rows[index], field)) == Ok(rows)
  {
    var r := ChangeProduce(rows, index, field, Get(rows[index], field)).value;
    assert r[index] == rows[index] by {
      match field
      case ProduceType =>
      case Variety =>
    }
    assert r == rows;
  }

  /** A second edit of the same field undoes the first: restoring the old value restores the rows. */
  lemma ChangeThenRestore(rows: seq<Produce>, index: int, field: Field, value: string)
    requires 0 <= index < |rows|
    ensures ChangeProduce(ChangeProduce(rows, index, field, value).value, index, field, Get(rows[index], field)) == Ok(rows)
  {
    var once := ChangeProduce(rows, index, field, value).value;
    var twice := ChangeProduce(once, index, field, Get(rows[index], field)).value;
    assert twice[index] == rows[index] by {
      match field
      case ProduceType =>
      case Variety =>
    }
    assert twice == rows;
  }

  /** Adding a row keeps every existing row and the new row can be filled in without touching them. */
  lemma AddThenEdit(rows: seq<Produce>, field: Field, value: string)
    ensures |AddProduce(rows)| == |rows| + 1
    ensures AddProduce(rows)[..|rows|] == rows
    ensures ChangeProduce(AddProduce(rows), |rows|, field, value) == Ok(rows + [Set(Blank, field, value)])
  {
    var added := AddProduce(rows);
    assert added[..|rows|] == rows;
    assert added[|rows| := Set(Blank, field, value)] == rows + [Set(Blank, field, value)];
  }
}
